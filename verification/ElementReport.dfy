/**
 * What a READ ELEMENT STATUS command asks for, byte by byte, and what an initiator may expect of the
 * elements reported to it: those asked for, each once and in order, and as they are in the changer.
 */
module ElementReport {
  import opened Common
  import opened Elements
  import opened Media
  import opened ElementStatus

  // ---------------------------------------------------------------- the command

  /** A command block and its length. */
  datatype Command = Command(cdb: seq<u8>, cmdLen: nat)

  predicate IsCommand(c: Command) { |c.cdb| >= 16 }

  /** `vtl_res_alloc_len` */
  function AllocLen(c: Command): nat
    requires IsCommand(c)
  {
    if c.cmdLen >= 12 then (c.cdb[7] as int) * 0x1_0000 + (c.cdb[8] as int) * 0x100 + c.cdb[9]
    else if c.cmdLen >= 10 then (c.cdb[7] as int) * 0x100 + c.cdb[8]
    else if c.cmdLen >= 6 then c.cdb[5]
    else 0
  }

  /** `vtl_res_element_range`, the type filter, and the barcodes asked for or assumed. */
  function QueryOf(c: Command): Query
    requires IsCommand(c)
  {
    Query(c.cdb[1] / 0x10 % 2 == 1 || AllocLen(c) >= 32, c.cdb[1] % 0x10, (c.cdb[2] as int) * 0x100 + c.cdb[3],
          if c.cmdLen >= 10 then (c.cdb[4] as int) * 0x100 + c.cdb[5] else if c.cmdLen >= 6 then c.cdb[4] else 0)
  }

  /** The VOLTAG bit over the element type. */
  function Flags(voltag: bool, kind: nat): u8
    requires kind < 0x10
  {
    (if voltag then 0x10 else 0) + kind
  }

  function Cdb6(voltag: bool, kind: nat, first: nat, count: nat, len: nat): Command
    requires kind < 0x10 && first < 0x1_0000 && count < 0x100 && len < 0x100
  {
    Command([0xb8, Flags(voltag, kind), first / 0x100, first % 0x100, count, len] + Fill(10, 0), 6)
  }

  function Cdb10(voltag: bool, kind: nat, first: nat, count: nat, len: nat): Command
    requires kind < 0x10 && first < 0x1_0000 && count < 0x1_0000 && len < 0x1_0000
  {
    Command([0xb8, Flags(voltag, kind), first / 0x100, first % 0x100, count / 0x100, count % 0x100, 0,
             len / 0x100, len % 0x100, 0] + Fill(6, 0), 10)
  }

  function Cdb12(voltag: bool, kind: nat, first: nat, count: nat, len: nat): Command
    requires kind < 0x10 && first < 0x1_0000 && count < 0x1_0000 && len < 0x100_0000
  {
    Command([0xb8, Flags(voltag, kind), first / 0x100, first % 0x100, count / 0x100, count % 0x100, 0,
             len / 0x1_0000, len / 0x100 % 0x100, len % 0x100, 0, 0] + Fill(4, 0), 12)
  }

  /** A block of each length is read back as it was built, but for the barcodes a long answer brings unasked. */
  lemma CommandReadsBack(voltag: bool, kind: nat, first: nat, count: nat, len: nat)
    requires kind < 0x10 && first < 0x1_0000 && count < 0x1_0000 && len < 0x100_0000
    ensures var c := Cdb12(voltag, kind, first, count, len);
            QueryOf(c) == Query(voltag || len >= 32, kind, first, count) && AllocLen(c) == len
    ensures len < 0x1_0000 ==>
              var c := Cdb10(voltag, kind, first, count, len);
              QueryOf(c) == Query(voltag || len >= 32, kind, first, count) && AllocLen(c) == len
    ensures len < 0x100 && count < 0x100 ==>
              var c := Cdb6(voltag, kind, first, count, len);
              QueryOf(c) == Query(voltag || len >= 32, kind, first, count) && AllocLen(c) == len
  {
  }

  // ---------------------------------------------------------------- what may be expected

  /** An element of this kind has this address. */
  predicate Stands(g: Geometry, kind: int, a: int) {
    || (kind == 2 && 0 <= a < g.slots)
    || (kind == 4 && 1000 <= a < 1000 + g.drives)
    || (kind == 3 && 2000 <= a < 2000 + g.mailslots)
  }

  /** The bytes of the command ask for this kind of element and for this address. */
  predicate AskedFor(c: Command, kind: int, a: int)
    requires IsCommand(c)
  {
    var wanted: int, first := c.cdb[1] % 16, 256 * (c.cdb[2] as int) + c.cdb[3];
    var count: int := if c.cmdLen >= 10 then 256 * (c.cdb[4] as int) + c.cdb[5]
                      else if c.cmdLen >= 6 then c.cdb[4] else 0;
    (wanted == 0 || wanted > 4 || wanted == kind) && (count == 0 || first <= a < first + count)
  }

  /** The VOLTAG bit is set, or the command leaves 32 bytes or more. */
  predicate WithTags(c: Command)
    requires IsCommand(c)
  {
    16 <= c.cdb[1] % 32 || AllocLen(c) >= 32
  }

  /** 20 bytes: the barcode and spaces behind it, or zeros where there is none. */
  predicate IsTag(tag: seq<u8>, barcode: Barcode) {
    && |tag| == 20
    && (if barcode == [] then forall i :: 0 <= i < 20 ==> tag[i] == 0
        else barcode <= tag && forall i :: |barcode| <= i < 20 ==> tag[i] == 0x20)
  }

  /** The element is as reported, its tag included where tags are. */
  ghost predicate Truthful(s: Seen, labels: map<int, Barcode>, tags: bool) {
    && (s.full <==> s.addr in labels)
    && (s.tag.Some? <==> tags)
    && (tags ==> IsTag(s.tag.value, if s.addr in labels then labels[s.addr] else []))
  }

  ghost predicate Listed(seen: seq<Seen>, kind: int, a: int) {
    exists i :: 0 <= i < |seen| && seen[i].kind == kind && seen[i].addr == a
  }

  ghost predicate Ascends(seen: seq<Seen>) {
    forall i, j :: 0 <= i < j < |seen| ==> seen[i].addr < seen[j].addr
  }

  /** Only what was asked for, each element once in order of address and as it is. */
  ghost predicate Reports(c: Command, g: Geometry, labels: map<int, Barcode>, seen: seq<Seen>)
    requires IsCommand(c)
  {
    && Ascends(seen)
    && forall i :: 0 <= i < |seen| ==>
         && Stands(g, seen[i].kind, seen[i].addr) && AskedFor(c, seen[i].kind, seen[i].addr)
         && Truthful(seen[i], labels, WithTags(c))
  }

  /** Nothing asked for is missing in front of an element reported. */
  ghost predicate Gapless(c: Command, g: Geometry, seen: seq<Seen>)
    requires IsCommand(c)
  {
    forall kind, a {:trigger Listed(seen, kind, a)} | Stands(g, kind, a) && AskedFor(c, kind, a) ::
      Listed(seen, kind, a) || forall i :: 0 <= i < |seen| ==> seen[i].addr < a
  }

  /** All that was asked for is there. */
  ghost predicate Complete(c: Command, g: Geometry, seen: seq<Seen>)
    requires IsCommand(c)
  {
    forall kind, a {:trigger Listed(seen, kind, a)} | Stands(g, kind, a) && AskedFor(c, kind, a) ::
      Listed(seen, kind, a)
  }

  // ---------------------------------------------------------------- the selection meets it

  ghost predicate HasAddr(es: seq<Elem>, a: int) { exists i :: 0 <= i < |es| && es[i].addr == a }

  /** The elements of one range that the query names: in order, none missing, each as in `labels`. */
  ghost predicate Picks(es: seq<Elem>, labels: map<int, Barcode>, base: nat, n: nat, q: Query) {
    && (forall i, j :: 0 <= i < j < |es| ==> es[i].addr < es[j].addr)
    && (forall i :: 0 <= i < |es| ==>
          var a := es[i].addr;
          && base <= a < base + n && InRange(a, q.start, q.num)
          && es[i].full == (a in labels) && es[i].barcode == if a in labels then labels[a] else [])
    && (forall a {:trigger HasAddr(es, a)} :: base <= a < base + n && InRange(a, q.start, q.num) ==> HasAddr(es, a))
  }

  lemma PicksOneMore(es: seq<Elem>, e: Elem, labels: map<int, Barcode>, base: nat, n: nat, q: Query)
    requires Picks(es, labels, base, n, q)
    requires e.addr == base + n && e.full == (e.addr in labels)
    requires e.barcode == if e.addr in labels then labels[e.addr] else []
    ensures Picks(if InRange(e.addr, q.start, q.num) then es + [e] else es, labels, base, n + 1, q)
  {
    if InRange(e.addr, q.start, q.num) {
      var more := es + [e];
      forall a | base <= a < base + n + 1 && InRange(a, q.start, q.num) ensures HasAddr(more, a) {
        if a == base + n {
          assert more[|es|].addr == a;
        } else {
          assert HasAddr(es, a);
          var i :| 0 <= i < |es| && es[i].addr == a;
          assert more[i].addr == a;
        }
      }
    }
  }

  lemma {:induction false} SelectPicks(labels: map<int, Barcode>, base: nat, n: nat, q: Query)
    requires base + n <= 0xffff
    ensures Picks(Select(Elems(labels, base, n), q.start, q.num), labels, base, n, q)
  {
    hide Picks;
    var es := Elems(labels, base, n);
    if n == 0 {
      PicksNothing(labels, base, q);
    } else {
      SelectPicks(labels, base, n - 1, q);
      assert es[..n - 1] == Elems(labels, base, n - 1);
      PicksOneMore(Select(es[..n - 1], q.start, q.num), es[n - 1], labels, base, n - 1, q);
    }
  }

  lemma PicksNothing(labels: map<int, Barcode>, base: nat, q: Query)
    ensures Picks([], labels, base, 0, q)
  {
  }

  /** First address and number of the elements of one kind. */
  function BaseOf(kind: Kind): nat { if kind == STORAGE then 0 else if kind == DATA_TRANSFER then 1000 else 2000 }

  function NumberOf(g: Geometry, kind: Kind): int {
    if kind == STORAGE then g.slots else if kind == DATA_TRANSFER then g.drives else g.mailslots
  }

  predicate IsKind(kind: int) { kind == STORAGE || kind == DATA_TRANSFER || kind == IMPORT_EXPORT }

  lemma TagIs(e: Elem)
    ensures IsTag(Tag(e), if e.full then e.barcode else [])
  {
  }

  /** What is wanted of one kind meets what may be expected of it, and leaves nothing of it out. */
  ghost predicate KindReported(c: Command, g: Geometry, labels: map<int, Barcode>, kind: int, seen: seq<Seen>)
    requires IsCommand(c)
  {
    && Reports(c, g, labels, seen)
    && (forall i :: 0 <= i < |seen| ==> seen[i].kind == kind)
    && (forall a {:trigger Listed(seen, kind, a)} | Stands(g, kind, a) && AskedFor(c, kind, a) :: Listed(seen, kind, a))
  }

  lemma AskedInRange(c: Command, kind: int, a: int)
    requires IsCommand(c)
    ensures var q := QueryOf(c);
            && (AskedFor(c, kind, a) <==> TypeWanted(q.filter, kind) && InRange(a, q.start, q.num))
            && (q.voltag <==> WithTags(c))
  {
  }

  lemma PickedIsReported(c: Command, g: Geometry, labels: map<int, Barcode>, kind: Kind, es: seq<Elem>)
    requires IsCommand(c) && IsGeometry(g) && IsKind(kind) && TypeWanted(QueryOf(c).filter, kind)
    requires Picks(es, labels, BaseOf(kind), NumberOf(g, kind), QueryOf(c))
    ensures KindReported(c, g, labels, kind, SeenOf(kind, es, QueryOf(c).voltag))
  {
    hide AskedFor, WithTags, IsTag, Tag, QueryOf, TypeWanted, InRange;
    var q := QueryOf(c);
    var seen := SeenOf(kind, es, q.voltag);
    forall i | 0 <= i < |seen|
      ensures && Stands(g, kind, seen[i].addr) && AskedFor(c, kind, seen[i].addr)
              && Truthful(seen[i], labels, WithTags(c))
    {
      AskedInRange(c, kind, seen[i].addr);
      TagIs(es[i]);
    }
    forall a | Stands(g, kind, a) && AskedFor(c, kind, a) ensures Listed(seen, kind, a) {
      AskedInRange(c, kind, a);
      assert HasAddr(es, a);
      var i :| 0 <= i < |es| && es[i].addr == a;
      assert seen[i].addr == a;
    }
  }

  lemma UnwantedIsReported(c: Command, g: Geometry, labels: map<int, Barcode>, kind: Kind)
    requires IsCommand(c) && !TypeWanted(QueryOf(c).filter, kind)
    ensures KindReported(c, g, labels, kind, [])
  {
    hide AskedFor, WithTags, QueryOf, TypeWanted;
    forall a | Stands(g, kind, a) && AskedFor(c, kind, a) ensures false {
      AskedInRange(c, kind, a);
    }
  }

  lemma WantedIsReported(c: Command, g: Geometry, labels: map<int, Barcode>, kind: Kind)
    requires IsCommand(c) && IsGeometry(g) && IsKind(kind)
    ensures KindReported(c, g, labels, kind, SeenOf(kind, Wanted(g, labels, kind, QueryOf(c)), QueryOf(c).voltag))
  {
    hide KindReported, QueryOf, TypeWanted, Elems, Select, Picks;
    var q := QueryOf(c);
    if TypeWanted(q.filter, kind) {
      SelectPicks(labels, BaseOf(kind), NumberOf(g, kind), q);
      PickedIsReported(c, g, labels, kind, Wanted(g, labels, kind, q));
    } else {
      UnwantedIsReported(c, g, labels, kind);
      assert SeenOf(kind, [], q.voltag) == [];
    }
  }

  lemma ListedInParts(s1: seq<Seen>, s2: seq<Seen>, kind: int, a: int)
    requires Listed(s1, kind, a) || Listed(s2, kind, a)
    ensures Listed(s1 + s2, kind, a)
  {
    if Listed(s1, kind, a) {
      var i :| 0 <= i < |s1| && s1[i].kind == kind && s1[i].addr == a;
      assert (s1 + s2)[i].addr == a;
    } else {
      var i :| 0 <= i < |s2| && s2[i].kind == kind && s2[i].addr == a;
      assert (s1 + s2)[|s1| + i].addr == a;
    }
  }

  lemma ThreeKinds(c: Command, g: Geometry, labels: map<int, Barcode>, s1: seq<Seen>, s2: seq<Seen>, s3: seq<Seen>)
    requires IsCommand(c) && IsGeometry(g)
    requires KindReported(c, g, labels, STORAGE, s1) && KindReported(c, g, labels, DATA_TRANSFER, s2)
    requires KindReported(c, g, labels, IMPORT_EXPORT, s3)
    ensures Reports(c, g, labels, s1 + s2 + s3) && Complete(c, g, s1 + s2 + s3)
  {
    hide AskedFor, WithTags, Truthful, Listed;
    forall kind, a | Stands(g, kind, a) && AskedFor(c, kind, a) ensures Listed(s1 + s2 + s3, kind, a) {
      assert Listed(s1, kind, a) || Listed(s2, kind, a) || Listed(s3, kind, a);
      if Listed(s1, kind, a) || Listed(s2, kind, a) { ListedInParts(s1, s2, kind, a); }
      ListedInParts(s1 + s2, s3, kind, a);
    }
  }

  lemma AllWantedIsReported(c: Command, g: Geometry, labels: map<int, Barcode>)
    requires IsCommand(c) && IsGeometry(g)
    ensures var wanted := AllWanted(g, labels, QueryOf(c));
            Reports(c, g, labels, wanted) && Complete(c, g, wanted)
  {
    hide KindReported, QueryOf, Wanted, SeenOf, Reports, Complete;
    WantedIsReported(c, g, labels, STORAGE);
    WantedIsReported(c, g, labels, DATA_TRANSFER);
    WantedIsReported(c, g, labels, IMPORT_EXPORT);
    var q := QueryOf(c);
    ThreeKinds(c, g, labels, SeenOf(STORAGE, Wanted(g, labels, STORAGE, q), q.voltag),
               SeenOf(DATA_TRANSFER, Wanted(g, labels, DATA_TRANSFER, q), q.voltag),
               SeenOf(IMPORT_EXPORT, Wanted(g, labels, IMPORT_EXPORT, q), q.voltag));
  }

  /** A list cut short is as truthful, has no gap, and is complete only if nothing was cut. */
  lemma CutReports(c: Command, g: Geometry, labels: map<int, Barcode>, seen: seq<Seen>, wanted: seq<Seen>)
    requires IsCommand(c) && seen <= wanted && Reports(c, g, labels, wanted) && Complete(c, g, wanted)
    ensures Reports(c, g, labels, seen) && Gapless(c, g, seen)
    ensures Complete(c, g, seen) <==> seen == wanted
  {
    hide AskedFor, WithTags, Truthful, Stands;
    forall kind, a | Stands(g, kind, a) && AskedFor(c, kind, a)
      ensures Listed(seen, kind, a) || forall i :: 0 <= i < |seen| ==> seen[i].addr < a
    {
      assert Listed(wanted, kind, a);
      var j :| 0 <= j < |wanted| && wanted[j].kind == kind && wanted[j].addr == a;
      if j < |seen| {
        assert seen[j] == wanted[j];
      }
    }
    if |seen| < |wanted| {
      var next := wanted[|seen|];
      assert !Listed(seen, next.kind, next.addr);
    }
  }

  /**
   * The selection, cut off anywhere: only elements asked for, each once, in order and as they are,
   * none left out between them, and all of them exactly when nothing is cut off.
   */
  lemma WantedPrefixReports(c: Command, g: Geometry, labels: map<int, Barcode>, seen: seq<Seen>)
    requires IsCommand(c) && IsGeometry(g) && seen <= AllWanted(g, labels, QueryOf(c))
    ensures Reports(c, g, labels, seen) && Gapless(c, g, seen)
    ensures Complete(c, g, seen) <==> seen == AllWanted(g, labels, QueryOf(c))
  {
    hide AllWanted, QueryOf, Reports, Complete, Gapless;
    AllWantedIsReported(c, g, labels);
    CutReports(c, g, labels, seen, AllWanted(g, labels, QueryOf(c)));
  }

  /** A labelled medium in an element asked for shows its barcode there, padded with spaces. */
  lemma TagIsReported(c: Command, g: Geometry, labels: map<int, Barcode>, seen: seq<Seen>, kind: int, a: int)
    requires IsCommand(c) && WithTags(c) && Reports(c, g, labels, seen) && Complete(c, g, seen)
    requires Stands(g, kind, a) && AskedFor(c, kind, a) && a in labels && labels[a] != []
    ensures exists i :: 0 <= i < |seen| &&
              seen[i] == Seen(kind, a, true, Some(labels[a] + Fill(20 - |labels[a]|, 0x20)))
  {
    hide AskedFor, Stands;
    assert Listed(seen, kind, a);
    var i :| 0 <= i < |seen| && seen[i].kind == kind && seen[i].addr == a;
    assert seen[i].tag.value == labels[a] + Fill(20 - |labels[a]|, 0x20);
  }

  lemma {:induction false} LastIsFar(seen: seq<Seen>)
    requires Ascends(seen) && seen != []
    ensures seen[|seen| - 1].addr >= seen[0].addr + |seen| - 1
  {
    if |seen| > 1 {
      LastIsFar(seen[..|seen| - 1]);
    }
  }

  /** Two elements from address 1000 of a library of 24 data slots and two drives: the two drives. */
  lemma DriveRangeExample(labels: map<int, Barcode>, seen: seq<Seen>)
    requires var c := Command([0xb8, 0x10, 0x03, 0xe8, 0, 2, 0, 0, 16, 0, 0, 0, 0, 0, 0, 0], 12);
             Reports(c, Geometry(2, 24, 4), labels, seen) && Complete(c, Geometry(2, 24, 4), seen)
    ensures |seen| == 2 && seen[0].addr == 1000 && seen[1].addr == 1001
  {
    hide Truthful;
    assert Listed(seen, 4, 1000) && Listed(seen, 4, 1001);
    var i :| 0 <= i < |seen| && seen[i].addr == 1000;
    var j :| 0 <= j < |seen| && seen[j].addr == 1001;
    assert i < j;
    LastIsFar(seen);
  }
}
