/** The kernel's READ ELEMENT STATUS encoder and walker, in place on one byte buffer. */
module ElementStatusBuffer {
  import opened Common
  import opened Elements
  import opened Media
  import opened ElementStatus

  /** How far the 32 tag bytes written at offset 12 run past a 32-byte descriptor. */
  const TAG_SPILL := 12

  type Spill = n: nat | n <= TAG_SPILL

  /** How many bytes behind it the descriptor of `e` dirties: its 32 tag bytes start at offset 12. */
  function SpillOf(e: Elem, voltag: bool): Spill { if voltag && e.full && e.barcode != [] then TAG_SPILL else 0 }

  /** What is dirty behind a page body, when `before` bytes were so behind the place where it starts. */
  function BodySpill(es: seq<Elem>, voltag: bool, before: Spill): Spill {
    if es == [] then before else SpillOf(es[|es| - 1], voltag)
  }

  /** What of a spill reaches past the next page's header. */
  function PastHeader(spill: Spill): Spill { if spill <= PAGE_HEADER then 0 else spill - PAGE_HEADER }

  /** What is dirty behind the pages. */
  function ReplySpill(ps: seq<Page>, voltag: bool): Spill {
    if ps == [] then 0
    else BodySpill(ps[|ps| - 1].es, voltag, PastHeader(ReplySpill(ps[..|ps| - 1], voltag)))
  }

  datatype Placed = Placed(e: Elem, end: nat)

  /** The last descriptor of the pages and where it ends. */
  function LastDesc(ps: seq<Page>, voltag: bool): Option<Placed> {
    if ps == [] then None
    else
      var es := ps[|ps| - 1].es;
      if es != [] then Some(Placed(es[|es| - 1], BytesOf(ps, voltag))) else LastDesc(ps[..|ps| - 1], voltag)
  }

  lemma {:induction false} ExtentOf(ps: seq<Page>, voltag: bool)
    ensures match LastDesc(ps, voltag)
            case None => ReplySpill(ps, voltag) == 0
            case Some(last) =>
              var past := last.end + SpillOf(last.e, voltag) - BytesOf(ps, voltag);
              last.end <= BytesOf(ps, voltag) && ReplySpill(ps, voltag) == if past > 0 then past else 0
  {
    if ps != [] && ps[|ps| - 1].es == [] { ExtentOf(ps[..|ps| - 1], voltag); }
  }

  /**
   * Pages that fit into `room` bytes are also written within them, unless the last descriptor is full,
   * has a barcode and ends less than `TAG_SPILL` bytes before the room does.
   */
  lemma StaysWithinIff(ps: seq<Page>, voltag: bool, room: nat)
    requires BytesOf(ps, voltag) <= room
    ensures BytesOf(ps, voltag) + ReplySpill(ps, voltag) <= room <==>
            match LastDesc(ps, voltag)
            case None => true
            case Some(last) => !(voltag && last.e.full && last.e.barcode != [] && room - TAG_SPILL < last.end)
  {
    ExtentOf(ps, voltag);
  }

  /** From `at` on the buffer holds `spill` spaces, and behind them what it held originally. */
  ghost predicate Trailing(buf: seq<u8>, at: nat, spill: nat, orig: seq<u8>) {
    && |buf| == |orig| && at + spill <= |buf|
    && (forall i :: at <= i < at + spill ==> buf[i] == 0x20)
    && (forall i :: at + spill <= i < |buf| ==> buf[i] == orig[i])
  }

  method Memset(buf: array<u8>, from: nat, n: nat, v: u8)
    requires from + n <= buf.Length
    modifies buf
    ensures forall i :: 0 <= i < from || from + n <= i < buf.Length ==> buf[i] == old(buf[i])
    ensures forall i :: from <= i < from + n ==> buf[i] == v
  {
    for k := 0 to n
      invariant forall i :: 0 <= i < from || from + n <= i < buf.Length ==> buf[i] == old(buf[i])
      invariant forall i :: from <= i < from + k ==> buf[i] == v
    {
      buf[from + k] := v;
    }
  }

  method Memcpy(buf: array<u8>, from: nat, src: seq<u8>)
    requires from + |src| <= buf.Length
    modifies buf
    ensures forall i :: 0 <= i < from || from + |src| <= i < buf.Length ==> buf[i] == old(buf[i])
    ensures forall i :: 0 <= i < |src| ==> buf[from + i] == src[i]
  {
    for k := 0 to |src|
      invariant forall i :: 0 <= i < from || from + |src| <= i < buf.Length ==> buf[i] == old(buf[i])
      invariant forall i :: 0 <= i < k ==> buf[from + i] == src[i]
    {
      buf[from + k] := src[k];
    }
  }

  /** The tag bytes: the barcode, then spaces up to 32. */
  method WriteTag(buf: array<u8>, at: nat, barcode: Barcode)
    requires at + 32 <= buf.Length
    modifies buf
    ensures buf[..at] == old(buf[..at]) && buf[at + 32..] == old(buf[at + 32..])
    ensures buf[at..at + 32] == barcode + Fill(32 - |barcode|, 0x20)
  {
    Memcpy(buf, at, barcode);
    label copied:
    Memset(buf, at + |barcode|, 32 - |barcode|, 0x20);
    assert forall i :: at <= i < at + |barcode| ==> buf[i] == old@copied(buf[i]);
    assert buf[at..at + |barcode|] == barcode;
  }

  /** The descriptor without its tag: cleared, then address, full bit and type. */
  method WriteHead(buf: array<u8>, p: nat, dlen: nat, kind: Kind, addr: Addr, full: bool, ghost barcode: Barcode)
    requires 12 <= dlen && p + dlen <= buf.Length
    modifies buf
    ensures buf[..p] == old(buf[..p]) && buf[p + dlen..] == old(buf[p + dlen..])
    ensures buf[p..p + dlen] == Head(kind, Elem(addr, full, barcode)) + Fill(dlen - 12, 0)
  {
    Memset(buf, p, dlen, 0);
    buf[p] := addr / 0x100 % 0x100;
    buf[p + 1] := addr % 0x100;
    buf[p + 2] := if full then 1 else 0;
    buf[p + 3] := kind * 32;
  }

  /**
   * `vtl_elem_status_desc`. The spaces of a tag run on for `TAG_SPILL` bytes behind the descriptor;
   * nothing in front of it changes and nothing further behind.
   */
  method WriteDescriptor(buf: array<u8>, p: nat, left: nat, kind: Kind, addr: Addr, full: bool, barcode: Barcode,
                         voltag: bool)
    returns (n: nat)
    requires p + left + TAG_SPILL <= buf.Length
    modifies buf
    ensures n == if left < DescLen(voltag) then 0 else DescLen(voltag)
    ensures buf[..p] == old(buf[..p])
    ensures n == 0 ==> buf[..] == old(buf[..])
    ensures n != 0 ==> buf[p..p + n] == Desc(kind, Elem(addr, full, barcode), voltag)
    ensures n != 0 ==> Trailing(buf[..], p + n, SpillOf(Elem(addr, full, barcode), voltag), old(buf[..]))
  {
    hide Head;
    var dlen := if voltag then 32 else 12;
    if left < dlen { return 0; }
    WriteHead(buf, p, dlen, kind, addr, full, barcode);
    ghost var e := Elem(addr, full, barcode);
    assert buf[p..p + 12] == buf[p..p + dlen][..12] == Head(kind, e);
    assert buf[p + 12..p + dlen] == buf[p..p + dlen][12..] == Fill(dlen - 12, 0);
    if voltag && full && barcode != [] {
      ghost var before := buf[..p + 12];
      WriteTag(buf, p + 12, barcode);
      assert buf[..p] == before[..p] && buf[p..p + 12] == before[p..];
      assert forall i :: p + 32 <= i < p + 44 ==> buf[i] == buf[p + 12..p + 44][i - (p + 12)];
      assert buf[p + 12..p + 32] == buf[p + 12..p + 44][..20] == Tag(e);
    }
    assert buf[p..p + dlen] == buf[p..p + 12] + buf[p + 12..p + dlen];
    return dlen;
  }

  /** The barcodes in the changer, by occupied address. */
  ghost function Labels(ch: Changer): map<int, Barcode>
    requires ch.Valid()
    reads ch, ch.slots, ch.mailslots, ch.drives, ch.Contents().Values
  {
    map a | a in ch.Contents() :: ch.Contents()[a].barcode
  }

  /** Writing to the reply buffer changes nothing in the changer. */
  twostate lemma LabelsKept(ch: Changer)
    requires old(ch.Valid())
    requires unchanged(ch) && unchanged(ch.slots) && unchanged(ch.drives) && unchanged(ch.mailslots)
    requires forall t: Tape :: t in old(ch.Contents().Values) ==> unchanged(t)
    ensures ch.Valid() && Labels(ch) == old(Labels(ch))
  {
    assert ch.Contents() == old(ch.Contents());
  }

  /** Where the page body stands after the elements `done`: exactly their selected descriptors. */
  ghost predicate BodyIs(buf: array<u8>, p: nat, left: nat, kind: Kind, done: seq<Elem>, q: Query, descBytes: nat)
    reads buf
  {
    && descBytes == DescsLen(|Select(done, q.start, q.num)|, q.voltag)
    && PAGE_HEADER + descBytes <= left && p + left <= buf.Length
    && buf[p + PAGE_HEADER..p + PAGE_HEADER + descBytes] == Descs(kind, Select(done, q.start, q.num), q.voltag)
  }

  /** What trails the page body after the elements `done`. */
  ghost predicate BodyTrails(buf: array<u8>, p: nat, done: seq<Elem>, q: Query, before: Spill, orig: seq<u8>)
    reads buf
  {
    var sel := Select(done, q.start, q.num);
    Trailing(buf[..], p + PAGE_HEADER + DescsLen(|sel|, q.voltag), BodySpill(sel, q.voltag, before), orig)
  }

  /** A descriptor at least as long as the old trail replaces it by its own. */
  lemma TrailMoves(was: seq<u8>, buf: seq<u8>, at: nat, spill: nat, n: nat, next: nat, orig: seq<u8>)
    requires Trailing(was, at, spill, orig) && Trailing(buf, at + n, next, was) && spill <= n
    ensures Trailing(buf, at + n, next, orig)
  {
  }

  lemma SelectStep(done: seq<Elem>, e: Elem, q: Query)
    ensures Select(done + [e], q.start, q.num)
         == if InRange(e.addr, q.start, q.num) then Select(done, q.start, q.num) + [e] else Select(done, q.start, q.num)
  {
    assert (done + [e])[..|done|] == done;
  }

  lemma DescsStep(kind: Kind, es: seq<Elem>, e: Elem, voltag: bool)
    ensures Descs(kind, es + [e], voltag) == Descs(kind, es, voltag) + Desc(kind, e, voltag)
  {
    assert (es + [e])[..|es|] == es;
  }

  /** Bytes appended at `at` extend what stands from `from`. */
  lemma GrownBody(buf: array<u8>, before: seq<u8>, p: nat, from: nat, at: nat, n: nat)
    requires p <= from <= at == |before| && at + n <= buf.Length && buf[..at] == before
    ensures buf[from..at + n] == before[from..] + buf[at..at + n] && buf[..p] == before[..p]
  {
    assert buf[from..at] == buf[..at][from..];
  }

  /** One turn of the three descriptor loops; `stop` is their `break`. */
  method AppendElement(buf: array<u8>, p: nat, left: nat, kind: Kind, addr: Addr, full: bool, barcode: Barcode,
                       q: Query, descBytes: nat, ghost done: seq<Elem>, ghost before: Spill, ghost orig: seq<u8>)
    returns (descBytes': nat, stop: bool)
    requires p + left + TAG_SPILL <= buf.Length
    requires BodyIs(buf, p, left, kind, done, q, descBytes)
    requires BodyTrails(buf, p, done, q, before, orig)
    modifies buf
    ensures BodyTrails(buf, p, if stop then done else done + [Elem(addr, full, barcode)], q, before, orig)
    ensures buf[..p] == old(buf[..p])
    ensures !stop ==> BodyIs(buf, p, left, kind, done + [Elem(addr, full, barcode)], q, descBytes')
    ensures stop ==> descBytes' == descBytes && BodyIs(buf, p, left, kind, done, q, descBytes)
                     && InRange(addr, q.start, q.num) && left < PAGE_HEADER + descBytes + DescLen(q.voltag)
  {
    hide Select, Descs, Desc, Trailing;
    ghost var e := Elem(addr, full, barcode);
    SelectStep(done, e, q);
    if !InRange(addr, q.start, q.num) { return descBytes, false; }
    if left < PAGE_HEADER + descBytes + DescLen(q.voltag) { return descBytes, true; }
    ghost var at := p + PAGE_HEADER + descBytes;
    ghost var front, was := buf[..at], buf[..];
    var n := WriteDescriptor(buf, p + PAGE_HEADER + descBytes, left - PAGE_HEADER - descBytes, kind, addr, full,
                             barcode, q.voltag);
    ghost var sel := Select(done, q.start, q.num);
    DescsStep(kind, sel, e, q.voltag);
    GrownBody(buf, front, p, p + PAGE_HEADER, at, n);
    TrailMoves(was, buf[..], at, BodySpill(sel, q.voltag, before), n, SpillOf(e, q.voltag), orig);
    return descBytes + n, false;
  }

  /** Stopping for want of space, or at the end, leaves exactly the elements that fit. */
  lemma StoppedIsFitting(es: seq<Elem>, i: nat, q: Query, left: nat)
    requires i <= |es| && PAGE_HEADER + DescsLen(|Select(es[..i], q.start, q.num)|, q.voltag) <= left
    requires i == |es| || (InRange(es[i].addr, q.start, q.num)
             && left < PAGE_HEADER + DescsLen(|Select(es[..i], q.start, q.num)|, q.voltag) + DescLen(q.voltag))
    ensures Select(es[..i], q.start, q.num) == Fitting(Select(es, q.start, q.num), left, q.voltag)
  {
    hide Select;
    var n := |Select(es[..i], q.start, q.num)|;
    if i == |es| {
      assert es[..i] == es;
      CapacityBetween(left, n, q.voltag);
    } else {
      SelectPrefix(es, i, q);
      SelectPrefix(es, i + 1, q);
      assert es[..i + 1] == es[..i] + [es[i]];
      SelectStep(es[..i], es[i], q);
      CapacityBetween(left, n, q.voltag);
    }
  }

  lemma CapacityBetween(left: nat, n: nat, voltag: bool)
    requires PAGE_HEADER + DescsLen(n, voltag) <= left
    ensures n <= Capacity(left, voltag)
    ensures left < PAGE_HEADER + DescsLen(n, voltag) + DescLen(voltag) ==> n == Capacity(left, voltag)
  {
  }

  lemma {:induction false} SelectPrefix(es: seq<Elem>, i: nat, q: Query)
    requires i <= |es|
    ensures Select(es[..i], q.start, q.num) <= Select(es, q.start, q.num)
  {
    if i == |es| {
      assert es[..i] == es;
    } else {
      SelectPrefix(es[..|es| - 1], i, q);
      assert es[..|es| - 1][..i] == es[..i];
    }
  }

  lemma BodyStart(buf: array<u8>, p: nat, left: nat, kind: Kind, q: Query, before: Spill, orig: seq<u8>)
    requires p + left <= buf.Length && left >= PAGE_HEADER && Trailing(buf[..], p + PAGE_HEADER, before, orig)
    ensures BodyIs(buf, p, left, kind, [], q, 0) && BodyTrails(buf, p, [], q, before, orig)
  {
  }

  lemma StorageElems(ch: Changer)
    requires ch.Valid()
    ensures var es := ElemsOf(ch.Geom(), Labels(ch), STORAGE);
            |es| == ch.numSlots && forall k :: 0 <= k < |es| ==>
              var tape := ch.slots[k].tape;
              es[k] == Elem(k, tape != null, if tape != null then tape.barcode else [])
  {
    ghost var es := ElemsOf(ch.Geom(), Labels(ch), STORAGE);
    forall k | 0 <= k < |es|
      ensures var tape := ch.slots[k].tape;
              es[k] == Elem(k, tape != null, if tape != null then tape.barcode else [])
    {
      assert ch.TapeAt(k) == ch.slots[k].tape;
    }
  }

  method StorageDescriptors(ch: Changer, buf: array<u8>, p: nat, left: nat, q: Query, ghost before: Spill,
                            ghost orig: seq<u8>)
    returns (descBytes: nat, ghost i: nat)
    requires ch.Valid() && p + left + TAG_SPILL <= buf.Length && left >= PAGE_HEADER
    requires Trailing(buf[..], p + PAGE_HEADER, before, orig)
    modifies buf
    ensures buf[..p] == old(buf[..p])
    ensures var es := ElemsOf(ch.Geom(), old(Labels(ch)), STORAGE);
            i <= |es| && BodyIs(buf, p, left, STORAGE, es[..i], q, descBytes)
            && BodyTrails(buf, p, es[..i], q, before, orig)
            && (i == |es| || (InRange(es[i].addr, q.start, q.num)
               && left < PAGE_HEADER + descBytes + DescLen(q.voltag)))
  {
    hide BodyIs, BodyTrails, Trailing, Labels, ElemsOf, Elems, Select;
    StorageElems(ch);
    ghost var es := ElemsOf(ch.Geom(), Labels(ch), STORAGE);
    descBytes := 0;
    BodyStart(buf, p, left, STORAGE, q, before, orig);
    var k := 0;
    assert es[..k] == [];
    while k < ch.numSlots
      invariant 0 <= k <= ch.numSlots && buf[..p] == old(buf[..p])
      invariant BodyIs(buf, p, left, STORAGE, es[..k], q, descBytes) && BodyTrails(buf, p, es[..k], q, before, orig)
    {
      var tape := ch.slots[k].tape;
      var stop;
      assert es[..k + 1] == es[..k] + [es[k]];
      descBytes, stop := AppendElement(buf, p, left, STORAGE, k, ch.slots[k].occupied && tape != null,
                                       if tape != null then tape.barcode else [], q, descBytes, es[..k], before, orig);
      if stop { return descBytes, k; }
      k := k + 1;
    }
    i := k;
  }

  lemma DriveElems(ch: Changer)
    requires ch.Valid()
    ensures var es := ElemsOf(ch.Geom(), Labels(ch), DATA_TRANSFER);
            |es| == ch.numDrives && forall k :: 0 <= k < |es| ==>
              var tape := ch.drives[k];
              es[k] == Elem(DRIVE_BASE + k, tape != null, if tape != null then tape.barcode else [])
  {
    ghost var es := ElemsOf(ch.Geom(), Labels(ch), DATA_TRANSFER);
    forall k | 0 <= k < |es|
      ensures var tape := ch.drives[k];
              es[k] == Elem(DRIVE_BASE + k, tape != null, if tape != null then tape.barcode else [])
    {
      assert ch.TapeAt(DRIVE_BASE + k) == ch.drives[k];
    }
  }

  method DriveDescriptors(ch: Changer, buf: array<u8>, p: nat, left: nat, q: Query, ghost before: Spill,
                          ghost orig: seq<u8>)
    returns (descBytes: nat, ghost i: nat)
    requires ch.Valid() && p + left + TAG_SPILL <= buf.Length && left >= PAGE_HEADER
    requires Trailing(buf[..], p + PAGE_HEADER, before, orig)
    modifies buf
    ensures buf[..p] == old(buf[..p])
    ensures var es := ElemsOf(ch.Geom(), old(Labels(ch)), DATA_TRANSFER);
            i <= |es| && BodyIs(buf, p, left, DATA_TRANSFER, es[..i], q, descBytes)
            && BodyTrails(buf, p, es[..i], q, before, orig)
            && (i == |es| || (InRange(es[i].addr, q.start, q.num)
               && left < PAGE_HEADER + descBytes + DescLen(q.voltag)))
  {
    hide BodyIs, BodyTrails, Trailing, Labels, ElemsOf, Elems, Select;
    DriveElems(ch);
    ghost var es := ElemsOf(ch.Geom(), Labels(ch), DATA_TRANSFER);
    descBytes := 0;
    BodyStart(buf, p, left, DATA_TRANSFER, q, before, orig);
    var k := 0;
    assert es[..k] == [];
    while k < ch.numDrives
      invariant 0 <= k <= ch.numDrives && buf[..p] == old(buf[..p])
      invariant BodyIs(buf, p, left, DATA_TRANSFER, es[..k], q, descBytes)
                && BodyTrails(buf, p, es[..k], q, before, orig)
    {
      var tape := ch.drives[k];
      var stop;
      assert es[..k + 1] == es[..k] + [es[k]];
      descBytes, stop := AppendElement(buf, p, left, DATA_TRANSFER, DRIVE_BASE + k, tape != null,
                                       if tape != null then tape.barcode else [], q, descBytes, es[..k], before, orig);
      if stop { return descBytes, k; }
      k := k + 1;
    }
    i := k;
  }

  lemma MailElems(ch: Changer)
    requires ch.Valid()
    ensures var es := ElemsOf(ch.Geom(), Labels(ch), IMPORT_EXPORT);
            |es| == ch.numMailslots && forall k :: 0 <= k < |es| ==>
              var tape := ch.mailslots[k].tape;
              es[k] == Elem(IE_BASE + k, tape != null, if tape != null then tape.barcode else [])
  {
    ghost var es := ElemsOf(ch.Geom(), Labels(ch), IMPORT_EXPORT);
    forall k | 0 <= k < |es|
      ensures var tape := ch.mailslots[k].tape;
              es[k] == Elem(IE_BASE + k, tape != null, if tape != null then tape.barcode else [])
    {
      assert ch.TapeAt(IE_BASE + k) == ch.mailslots[k].tape;
    }
  }

  method MailDescriptors(ch: Changer, buf: array<u8>, p: nat, left: nat, q: Query, ghost before: Spill,
                         ghost orig: seq<u8>)
    returns (descBytes: nat, ghost i: nat)
    requires ch.Valid() && p + left + TAG_SPILL <= buf.Length && left >= PAGE_HEADER
    requires Trailing(buf[..], p + PAGE_HEADER, before, orig)
    modifies buf
    ensures buf[..p] == old(buf[..p])
    ensures var es := ElemsOf(ch.Geom(), old(Labels(ch)), IMPORT_EXPORT);
            i <= |es| && BodyIs(buf, p, left, IMPORT_EXPORT, es[..i], q, descBytes)
            && BodyTrails(buf, p, es[..i], q, before, orig)
            && (i == |es| || (InRange(es[i].addr, q.start, q.num)
               && left < PAGE_HEADER + descBytes + DescLen(q.voltag)))
  {
    hide BodyIs, BodyTrails, Trailing, Labels, ElemsOf, Elems, Select;
    MailElems(ch);
    ghost var es := ElemsOf(ch.Geom(), Labels(ch), IMPORT_EXPORT);
    descBytes := 0;
    BodyStart(buf, p, left, IMPORT_EXPORT, q, before, orig);
    var k := 0;
    assert es[..k] == [];
    while k < ch.numMailslots
      invariant 0 <= k <= ch.numMailslots && buf[..p] == old(buf[..p])
      invariant BodyIs(buf, p, left, IMPORT_EXPORT, es[..k], q, descBytes)
                && BodyTrails(buf, p, es[..k], q, before, orig)
    {
      var tape := ch.mailslots[k].tape;
      var stop;
      assert es[..k + 1] == es[..k] + [es[k]];
      descBytes, stop := AppendElement(buf, p, left, IMPORT_EXPORT, IE_BASE + k,
                                       ch.mailslots[k].occupied && tape != null,
                                       if tape != null then tape.barcode else [], q, descBytes, es[..k], before, orig);
      if stop { return descBytes, k; }
      k := k + 1;
    }
    i := k;
  }

  /** The descriptor loop of one page, by element kind. */
  method WriteDescriptors(ch: Changer, buf: array<u8>, p: nat, left: nat, kind: Kind, q: Query,
                          ghost before: Spill, ghost orig: seq<u8>)
    returns (descBytes: nat, ghost fit: seq<Elem>)
    requires ch.Valid() && p + left + TAG_SPILL <= buf.Length && left >= PAGE_HEADER
    requires Trailing(buf[..], p + PAGE_HEADER, before, orig)
    requires kind in {STORAGE, DATA_TRANSFER, IMPORT_EXPORT}
    modifies buf
    ensures buf[..p] == old(buf[..p])
    ensures fit == Fitting(Select(ElemsOf(ch.Geom(), old(Labels(ch)), kind), q.start, q.num), left, q.voltag)
    ensures descBytes == DescsLen(|fit|, q.voltag) && PAGE_HEADER + descBytes <= left
    ensures buf[p + PAGE_HEADER..p + PAGE_HEADER + descBytes] == Descs(kind, fit, q.voltag)
    ensures Trailing(buf[..], p + PAGE_HEADER + descBytes, BodySpill(fit, q.voltag, before), orig)
  {
    hide Labels, ElemsOf, Select, Descs, Fitting, Trailing;
    ghost var i;
    if kind == STORAGE {
      descBytes, i := StorageDescriptors(ch, buf, p, left, q, before, orig);
    } else if kind == DATA_TRANSFER {
      descBytes, i := DriveDescriptors(ch, buf, p, left, q, before, orig);
    } else {
      descBytes, i := MailDescriptors(ch, buf, p, left, q, before, orig);
    }
    ghost var es := ElemsOf(ch.Geom(), old(Labels(ch)), kind);
    fit := Select(es[..i], q.start, q.num);
    StoppedIsFitting(es, i, q, left);
  }

  /** `vtl_append_elem_status_page`: the descriptors first, then the header in front of them. */
  method AppendPage(ch: Changer, buf: array<u8>, p: nat, left: nat, kind: Kind, q: Query, ghost spill: Spill,
                    ghost orig: seq<u8>)
    returns (written: nat)
    requires ch.Valid() && p + left + TAG_SPILL <= buf.Length && kind in {STORAGE, DATA_TRANSFER, IMPORT_EXPORT}
    requires Trailing(buf[..], p, spill, orig)
    modifies buf
    ensures written <= left && buf[..p] == old(buf[..p])
    ensures var ps := PageFor(ch.Geom(), old(Labels(ch)), kind, q, left);
            written == BytesOf(ps, q.voltag) && buf[p..p + written] == PagesBytes(ps, q.voltag)
            && Trailing(buf[..], p + written,
                        if ps == [] then spill else BodySpill(ps[0].es, q.voltag, PastHeader(spill)), orig)
  {
    hide Labels, ElemsOf, Select, Descs, PageBytes, PagesBytes, BytesOf, Fitting, Trailing;
    NoPage(q.voltag);
    if !TypeWanted(q.filter, kind) { return 0; }
    if left < PAGE_HEADER { return 0; }
    var descBytes;
    ghost var fit;
    TrailPastHeader(buf[..], p, spill, orig);
    descBytes, fit := WriteDescriptors(ch, buf, p, left, kind, q, PastHeader(spill), orig);
    ghost var was := buf[..];
    WriteHeader(buf, p, kind, q.voltag, descBytes, fit);
    TrailKept(was, buf[..], p + PAGE_HEADER, p + PAGE_HEADER + descBytes,
              BodySpill(fit, q.voltag, PastHeader(spill)), orig);
    OnePage(Page(kind, fit), q.voltag);
    return PAGE_HEADER + descBytes;
  }

  lemma TrailPastHeader(buf: seq<u8>, p: nat, spill: Spill, orig: seq<u8>)
    requires Trailing(buf, p, spill, orig) && p + PAGE_HEADER <= |buf|
    ensures Trailing(buf, p + PAGE_HEADER, PastHeader(spill), orig)
  {
  }

  /** Writing in front of a trail leaves it. */
  lemma TrailKept(was: seq<u8>, buf: seq<u8>, from: nat, at: nat, spill: nat, orig: seq<u8>)
    requires Trailing(was, at, spill, orig) && from <= at && |buf| == |was| && from <= |buf|
             && buf[from..] == was[from..]
    ensures Trailing(buf, at, spill, orig)
  {
    assert forall i :: from <= i < |buf| ==> buf[i] == buf[from..][i - from] == was[from..][i - from] == was[i];
  }

  lemma NoPage(voltag: bool)
    ensures PagesBytes([], voltag) == [] && BytesOf([], voltag) == 0
  {
  }

  lemma OnePage(page: Page, voltag: bool)
    ensures PagesBytes([page], voltag) == PageBytes(page, voltag)
    ensures BytesOf([page], voltag) == PAGE_HEADER + DescsLen(|page.es|, voltag)
  {
    assert [page][..0] == [];
  }

  /** The eight header bytes in front of a written body complete the page. */
  method WriteHeader(buf: array<u8>, p: nat, kind: Kind, voltag: bool, descBytes: nat, ghost es: seq<Elem>)
    requires p + PAGE_HEADER + descBytes <= buf.Length && descBytes == DescsLen(|es|, voltag)
    requires buf[p + PAGE_HEADER..p + PAGE_HEADER + descBytes] == Descs(kind, es, voltag)
    modifies buf
    ensures buf[..p] == old(buf[..p]) && buf[p + PAGE_HEADER..] == old(buf[p + PAGE_HEADER..])
    ensures buf[p..p + PAGE_HEADER + descBytes] == PageBytes(Page(kind, es), voltag)
  {
    ghost var body := buf[p + PAGE_HEADER..p + PAGE_HEADER + descBytes];
    Memset(buf, p, PAGE_HEADER, 0);
    buf[p] := kind;
    if voltag { buf[p + 1] := 0x80; }
    Memcpy(buf, p + 2, Be16(DescLen(voltag)));
    Memcpy(buf, p + 4, Be32(descBytes));
    ghost var header := [kind, if voltag then 0x80 else 0] + Be16(DescLen(voltag)) + Be32(descBytes);
    assert forall i :: 0 <= i < PAGE_HEADER ==> buf[p + i] == header[i];
    assert buf[p..p + PAGE_HEADER] == header;
    assert buf[p + PAGE_HEADER..p + PAGE_HEADER + descBytes] == body;
    assert buf[p..p + PAGE_HEADER + descBytes]
        == buf[p..p + PAGE_HEADER] + buf[p + PAGE_HEADER..p + PAGE_HEADER + descBytes];
  }

  // ---------------------------------------------------------------- the walker

  function U16(x: int): int { x % 0x1_0000 }
  function U32(x: int): int { x % 0x1_0000_0000 }

  /** The address of the first element seen, or the walker's mark for none. */
  function FirstAddr(seen: seq<Seen>): int { if seen == [] then 0xffff else seen[0].addr }

  lemma SeenInSnoc(ps: seq<Page>, voltag: bool)
    requires ps != []
    ensures var p := ps[|ps| - 1];
            SeenIn(ps, voltag) == SeenIn(ps[..|ps| - 1], voltag) + SeenOf(p.kind, p.es, voltag)
  {
    var p := ps[|ps| - 1];
    assert ps == ps[..|ps| - 1] + [p];
    SeenInAppend(ps[..|ps| - 1], [p], voltag);
    SeenInOne(p, voltag);
  }

  /** Where page `j` lies in the bytes. */
  lemma SliceOfPrefix<T>(b: seq<T>, c: seq<T>, from: nat, to: nat)
    requires b <= c && from <= to <= |b|
    ensures c[from..to] == b[from..to]
  {
    assert c[..|b|][from..to] == c[from..to];
  }

  lemma {:induction false} PageLies(ps: seq<Page>, j: nat, voltag: bool)
    requires j < |ps|
    ensures var b, off, page := PagesBytes(ps, voltag), BytesOf(ps[..j], voltag), PageBytes(ps[j], voltag);
            off + |page| == BytesOf(ps[..j + 1], voltag) <= |b| && b[off..off + |page|] == page
  {
    hide PageBytes;
    var init := ps[..|ps| - 1];
    PagesBytesLength(ps, voltag);
    PagesBytesLength(init, voltag);
    if j == |ps| - 1 {
      assert ps[..j + 1] == ps;
    } else {
      PageLies(init, j, voltag);
      assert init[..j] == ps[..j] && init[..j + 1] == ps[..j + 1];
      SliceOfPrefix(PagesBytes(init, voltag), PagesBytes(ps, voltag), BytesOf(ps[..j], voltag),
                    BytesOf(ps[..j + 1], voltag));
    }
  }

  lemma DescAddress(kind: Kind, e: Elem, voltag: bool)
    ensures (Desc(kind, e, voltag)[0] as int) * 0x100 + Desc(kind, e, voltag)[1] == e.addr
  {
  }

  /** Where descriptor `k` lies in a page body. */
  lemma {:induction false} DescLies(kind: Kind, es: seq<Elem>, k: nat, voltag: bool)
    requires k < |es|
    ensures var b, at := Descs(kind, es, voltag), DescsLen(k, voltag);
            at + DescLen(voltag) <= |b| && b[at..at + DescLen(voltag)] == Desc(kind, es[k], voltag)
  {
    if k < |es| - 1 {
      var init := es[..|es| - 1];
      DescLies(kind, init, k, voltag);
      assert init[k] == es[k];
    }
  }

  /** The two address bytes of descriptor `k` of page `j`, found at their offset in the reply. */
  lemma AddressBytes(ps: seq<Page>, j: nat, k: nat, voltag: bool)
    requires j < |ps| && k < |ps[j].es|
    ensures var b, at := PagesBytes(ps, voltag), BytesOf(ps[..j], voltag) + PAGE_HEADER + DescsLen(k, voltag);
            at + DescLen(voltag) <= |b| && (b[at] as int) * 0x100 + b[at + 1] == ps[j].es[k].addr
  {
    hide PagesBytes, BytesOf, PageBytes, Descs, Desc;
    var page := ps[j];
    var b, off := PagesBytes(ps, voltag), BytesOf(ps[..j], voltag);
    PageLies(ps, j, voltag);
    PageHeaderBody(page, voltag);
    DescLies(page.kind, page.es, k, voltag);
    var pb := PageBytes(page, voltag);
    var at := PAGE_HEADER + DescsLen(k, voltag);
    DescAddress(page.kind, page.es[k], voltag);
    assert pb[PAGE_HEADER..][DescsLen(k, voltag)..][0] == pb[at];
    assert b[off + at] == pb[at] && b[off + at + 1] == pb[at + 1];
  }

  lemma PageHeaderBody(page: Page, voltag: bool)
    ensures PageBytes(page, voltag)[PAGE_HEADER..] == Descs(page.kind, page.es, voltag)
  {
  }

  lemma {:induction false} ReplyBounds(ps: seq<Page>, j: nat, voltag: bool)
    requires j <= |ps| && forall p :: p in ps ==> IsWirePage(p)
    ensures BytesOf(ps[..j], voltag) <= j * 0x2008 && |SeenIn(ps[..j], voltag)| <= j * MAX_SLOTS
  {
    if j > 0 {
      ReplyBounds(ps, j - 1, voltag);
      assert ps[..j][..j - 1] == ps[..j - 1];
      SeenInSnoc(ps[..j], voltag);
      assert ps[j - 1] in ps;
    } else {
      assert ps[..0] == [];
    }
  }

  lemma SliceOfSlice<T>(b: seq<T>, off: nat, n: nat, from: nat, to: nat)
    requires off + n <= |b| && from <= to <= n
    ensures b[off..off + n][from..to] == b[off + from..off + to]
  {
    var l, r := b[off..off + n][from..to], b[off + from..off + to];
    forall i | 0 <= i < to - from ensures l[i] == r[i] {
    }
  }

  /** What the walker reads in the header of page `j`. */
  lemma HeaderBytes(ps: seq<Page>, j: nat, voltag: bool)
    requires j < |ps| && IsWirePage(ps[j])
    ensures var b, off := PagesBytes(ps, voltag), BytesOf(ps[..j], voltag);
            && off + PAGE_HEADER + DescsLen(|ps[j].es|, voltag) == BytesOf(ps[..j + 1], voltag) <= |b|
            && FromBe32(b[off + 4..off + 8]) == DescsLen(|ps[j].es|, voltag)
            && FromBe16(b[off + 2..off + 4]) == DescLen(voltag)
  {
    hide PagesBytes, BytesOf, PageBytes, FromBe16, FromBe32;
    var b, off, page := PagesBytes(ps, voltag), BytesOf(ps[..j], voltag), PageBytes(ps[j], voltag);
    PageLies(ps, j, voltag);
    PageHeaderFields(ps[j], voltag);
    SliceOfSlice(b, off, |page|, 4, 8);
    SliceOfSlice(b, off, |page|, 2, 4);
  }

  /** The descriptors counted after `k` elements of page `j`. */
  ghost function SeenUpTo(ps: seq<Page>, j: nat, k: nat, voltag: bool): seq<Seen>
    requires j < |ps| && k <= |ps[j].es|
  {
    SeenIn(ps[..j], voltag) + SeenOf(ps[j].kind, ps[j].es[..k], voltag)
  }

  lemma SeenUpToNext(ps: seq<Page>, j: nat, k: nat, voltag: bool)
    requires j < |ps| && k < |ps[j].es|
    ensures SeenUpTo(ps, j, k + 1, voltag) == SeenUpTo(ps, j, k, voltag) + [AsSeen(ps[j].kind, ps[j].es[k], voltag)]
  {
  }

  lemma SeenUpToEnds(ps: seq<Page>, j: nat, voltag: bool)
    requires j < |ps|
    ensures SeenUpTo(ps, j, 0, voltag) == SeenIn(ps[..j], voltag)
    ensures SeenUpTo(ps, j, |ps[j].es|, voltag) == SeenIn(ps[..j + 1], voltag)
  {
    assert ps[..j + 1][..j] == ps[..j] && ps[j].es[..|ps[j].es|] == ps[j].es;
    SeenInSnoc(ps[..j + 1], voltag);
  }

  /** The inner loop of the walker: one page's descriptors, from offset `from` up to `dend`. */
  method WalkPage(pages: seq<u8>, from: int, dend: int, dlen: int, count0: int, first0: int,
                  ghost ps: seq<Page>, ghost j: nat, ghost voltag: bool)
    returns (off: int, count: int, first: int)
    requires pages == PagesBytes(ps, voltag) && j < |ps| <= 3 && forall p :: p in ps ==> IsWirePage(p)
    requires dlen == DescLen(voltag) && from == BytesOf(ps[..j], voltag) + PAGE_HEADER
    requires dend == from + DescsLen(|ps[j].es|, voltag) <= |pages| < 0x1_0000
    requires count0 == |SeenUpTo(ps, j, 0, voltag)| && first0 == FirstAddr(SeenUpTo(ps, j, 0, voltag))
    requires first0 == 0xffff <==> count0 == 0
    ensures off == dend
    ensures count == |SeenUpTo(ps, j, |ps[j].es|, voltag)| && first == FirstAddr(SeenUpTo(ps, j, |ps[j].es|, voltag))
    ensures first == 0xffff <==> count == 0
  {
    hide PagesBytes, BytesOf, SeenIn, PageBytes, SeenUpTo, IsWirePage;
    off, count, first := from, count0, first0;
    ghost var k := 0;
    while U32(off + dlen) <= dend && U32(off + dlen) <= |pages|
      invariant 0 <= k <= |ps[j].es| && off == from + DescsLen(k, voltag)
      invariant count == |SeenUpTo(ps, j, k, voltag)|
      invariant first == FirstAddr(SeenUpTo(ps, j, k, voltag)) && (first == 0xffff <==> count == 0)
      decreases dend - off
    {
      assert k < |ps[j].es|;
      AddressBytes(ps, j, k, voltag);
      SeenUpToNext(ps, j, k, voltag);
      SeenUpToWithin(ps, j, k + 1, voltag);
      var addr := U16((pages[off] as int) * 0x100 + pages[off + 1]);
      if first == 0xffff { first := addr; }
      count := U16(count + 1);
      off := U32(off + dlen);
      k := k + 1;
    }
    assert k == |ps[j].es|;
  }

  lemma ReplyShort(ps: seq<Page>, voltag: bool)
    requires |ps| <= 3 && forall p :: p in ps ==> IsWirePage(p)
    ensures |PagesBytes(ps, voltag)| == BytesOf(ps, voltag) < 0x1_0000 && |SeenIn(ps, voltag)| <= 3 * MAX_SLOTS
  {
    assert ps[..|ps|] == ps;
    ReplyBounds(ps, |ps|, voltag);
    PagesBytesLength(ps, voltag);
  }

  /** `vtl_res_count_descriptors` on a reply of at most three pages. */
  method CountDescriptors(pages: seq<u8>, ghost ps: seq<Page>, ghost voltag: bool) returns (count: int, firstAddr: int)
    requires pages == PagesBytes(ps, voltag) && |ps| <= 3 && forall p :: p in ps ==> IsWirePage(p)
    ensures count == |SeenIn(ps, voltag)|
    ensures firstAddr == if SeenIn(ps, voltag) == [] then 0 else SeenIn(ps, voltag)[0].addr
  {
    hide PagesBytes, BytesOf, SeenIn, PageBytes, SeenUpTo, SeenOf, FromBe16, FromBe32, DescsLen;
    var off, first := 0, 0xffff;
    count := 0;
    ghost var j := 0;
    ReplyShort(ps, voltag);
    NoneSeen(ps, voltag);
    assert ps[..|ps|] == ps;
    while off + 8 <= |pages|
      invariant 0 <= j <= |ps| && off == BytesOf(ps[..j], voltag)
      invariant count == |SeenIn(ps[..j], voltag)|
      invariant first == FirstAddr(SeenIn(ps[..j], voltag)) && (first == 0xffff <==> count == 0)
      decreases |pages| - off
    {
      assert j < |ps|;
      HeaderBytes(ps, j, voltag);
      SeenUpToEnds(ps, j, voltag);
      var dbytes := U32(FromBe32(pages[off + 4..off + 8]));
      var dlen := U16(FromBe16(pages[off + 2..off + 4]));
      off := U32(off + 8);
      if dlen == 0 {
        if dbytes != 0 { off := U32(off + dbytes); }
        continue;
      }
      off, count, first := WalkPage(pages, off, U32(off + dbytes), dlen, count, first, ps, j, voltag);
      j := j + 1;
    }
    assert j == |ps| by {
      if j < |ps| { HeaderBytes(ps, j, voltag); }
    }
    firstAddr := if first == 0xffff then 0 else first;
  }

  lemma NoneSeen(ps: seq<Page>, voltag: bool)
    ensures BytesOf(ps[..0], voltag) == 0 && SeenIn(ps[..0], voltag) == [] && FirstAddr([]) == 0xffff
  {
  }

  lemma SeenUpToWithin(ps: seq<Page>, j: nat, k: nat, voltag: bool)
    requires j < |ps| <= 3 && k <= |ps[j].es| && forall p :: p in ps ==> IsWirePage(p)
    ensures |SeenUpTo(ps, j, k, voltag)| <= 3 * MAX_SLOTS
  {
    ReplyBounds(ps, j, voltag);
    assert ps[j] in ps;
  }

  /** `vtl_res_write_data_header` */
  method WriteDataHeader(buf: array<u8>, pagesLen: nat, firstAddr: int, numDesc: int)
    requires buf.Length >= 8 && pagesLen < 0x1_0000 && 0 <= firstAddr < 0x1_0000 && 0 <= numDesc < 0x1_0000
    modifies buf
    ensures buf[8..] == old(buf[8..])
    ensures FromBe16(buf[..2]) == firstAddr && FromBe16(buf[2..4]) == numDesc
    ensures FromBe32(buf[4..8]) == pagesLen
  {
    hide FromBe32;
    Be24RoundTrip(pagesLen);
    buf[0] := firstAddr / 0x100 % 0x100;
    buf[1] := firstAddr % 0x100;
    buf[2] := numDesc / 0x100 % 0x100;
    buf[3] := numDesc % 0x100;
    buf[4] := 0;
    buf[5] := pagesLen / 0x1_0000 % 0x100;
    buf[6] := pagesLen / 0x100 % 0x100;
    buf[7] := pagesLen % 0x100;
    assert buf[4..8] == Be24(pagesLen);
  }

  function Be24(v: nat): (b: seq<u8>)
    ensures |b| == 4
  {
    [0, v / 0x1_0000 % 0x100, v / 0x100 % 0x100, v % 0x100]
  }

  lemma Be24RoundTrip(v: nat)
    requires v < 0x1_0000
    ensures FromBe32(Be24(v)) == v
  {
  }

  lemma PagesBytesAppend(ps: seq<Page>, qs: seq<Page>, voltag: bool)
    requires |qs| <= 1
    ensures PagesBytes(ps + qs, voltag) == PagesBytes(ps, voltag) + PagesBytes(qs, voltag)
  {
    if qs == [] {
      assert ps + qs == ps;
    } else {
      assert (ps + qs)[..|ps|] == ps && qs[..0] == [];
    }
  }

  lemma SpillOfAppend(ps: seq<Page>, qs: seq<Page>, voltag: bool)
    requires |qs| <= 1
    ensures ReplySpill(ps + qs, voltag)
         == if qs == [] then ReplySpill(ps, voltag) else BodySpill(qs[0].es, voltag, PastHeader(ReplySpill(ps, voltag)))
  {
    if qs == [] {
      assert ps + qs == ps;
    } else {
      assert (ps + qs)[..|ps|] == ps;
    }
  }

  /** One page behind the pages `ps` already written. */
  method NextPage(ch: Changer, buf: array<u8>, len: nat, pagesLen: nat, kind: Kind, q: Query, ghost ps: seq<Page>,
                  ghost orig: seq<u8>)
    returns (pagesLen': nat)
    requires ch.Valid() && 8 + pagesLen <= len && len + TAG_SPILL <= buf.Length
    requires kind in {STORAGE, DATA_TRANSFER, IMPORT_EXPORT}
    requires pagesLen == BytesOf(ps, q.voltag) && buf[8..8 + pagesLen] == PagesBytes(ps, q.voltag)
    requires Trailing(buf[..], 8 + pagesLen, ReplySpill(ps, q.voltag), orig)
    modifies buf
    ensures var ps' := ps + PageFor(ch.Geom(), old(Labels(ch)), kind, q, len - 8 - pagesLen);
            && 8 + pagesLen' <= len && Labels(ch) == old(Labels(ch))
            && pagesLen' == BytesOf(ps', q.voltag) && buf[8..8 + pagesLen'] == PagesBytes(ps', q.voltag)
            && Trailing(buf[..], 8 + pagesLen', ReplySpill(ps', q.voltag), orig)
  {
    hide PagesBytes, BytesOf, PageFor, Labels, Trailing, ReplySpill;
    ghost var page := PageFor(ch.Geom(), Labels(ch), kind, q, len - 8 - pagesLen);
    PageForShort(ch.Geom(), Labels(ch), kind, q, len - 8 - pagesLen);
    ghost var before := buf[..8 + pagesLen];
    var n := AppendPage(ch, buf, 8 + pagesLen, len - 8 - pagesLen, kind, q, ReplySpill(ps, q.voltag), orig);
    SpillOfAppend(ps, page, q.voltag);
    LabelsKept(ch);
    assert buf[8..8 + pagesLen] == before[8..];
    assert buf[8..8 + pagesLen + n] == buf[8..8 + pagesLen] + buf[8 + pagesLen..8 + pagesLen + n];
    BytesOfAppend(ps, page, q.voltag);
    PagesBytesAppend(ps, page, q.voltag);
    pagesLen' := pagesLen + n;
  }

  /** The three pages of a reply, one behind the other. */
  method WritePages(ch: Changer, buf: array<u8>, len: nat, q: Query) returns (pagesLen: nat)
    requires ch.Valid() && 8 <= len && len + TAG_SPILL <= buf.Length
    modifies buf
    ensures 8 + pagesLen <= len
    ensures var ps := Reply(ch.Geom(), old(Labels(ch)), q, len);
            |ps| <= 3 && pagesLen == BytesOf(ps, q.voltag) && buf[8..8 + pagesLen] == PagesBytes(ps, q.voltag)
            && Trailing(buf[..], 8 + pagesLen, ReplySpill(ps, q.voltag), old(buf[..]))
  {
    hide PagesBytes, BytesOf, PageFor, Labels, Trailing, ReplySpill;
    ghost var g, labels, orig := ch.Geom(), Labels(ch), buf[..];
    NoPage(q.voltag);
    NothingTrails(orig, q.voltag);
    pagesLen := NextPage(ch, buf, len, 0, STORAGE, q, [], orig);
    ghost var p1 := PageFor(g, labels, STORAGE, q, len - 8);
    assert [] + p1 == p1;
    ghost var p2 := PageFor(g, labels, DATA_TRANSFER, q, len - 8 - pagesLen);
    pagesLen := NextPage(ch, buf, len, pagesLen, DATA_TRANSFER, q, p1, orig);
    ghost var p3 := PageFor(g, labels, IMPORT_EXPORT, q, len - 8 - pagesLen);
    pagesLen := NextPage(ch, buf, len, pagesLen, IMPORT_EXPORT, q, p1 + p2, orig);
    assert p1 + p2 + p3 == Reply(g, labels, q, len);
    ReplyAtMostThree(g, labels, q, len);
  }

  lemma NothingTrails(orig: seq<u8>, voltag: bool)
    requires 8 <= |orig|
    ensures ReplySpill([], voltag) == 0 && Trailing(orig, 8, 0, orig)
  {
  }

  lemma ReplyAtMostThree(g: Geometry, labels: map<int, Barcode>, q: Query, len: int)
    requires IsGeometry(g)
    ensures |Reply(g, labels, q, len)| <= 3
  {
    hide BytesOf, Wanted, Fitting;
  }

  /**
   * `vtl_changer_read_element_status`: whatever the geometry, occupancy, filters and length, an
   * initiator decodes a prefix of the wanted elements, and the header describes what it decodes.
   */
  method ReadElementStatus(ch: Changer, buf: array<u8>, len: nat, q: Query) returns (ret: int)
    requires ch.Valid() && len + TAG_SPILL <= buf.Length
    modifies buf
    ensures len < 8 ==> ret == EINVAL && buf[..] == old(buf[..])
    ensures len >= 8 ==> 8 <= ret <= len
    ensures len >= 8 ==>
              var seen, wanted := ParsePages(buf[8..ret]), AllWanted(ch.Geom(), old(Labels(ch)), q);
              && seen == SeenIn(Reply(ch.Geom(), old(Labels(ch)), q, len), q.voltag)
              && seen <= wanted
              && (len >= 8 + 3 * PAGE_HEADER + DescsLen(|wanted|, q.voltag) ==> seen == wanted)
              && FromBe16(buf[..2]) == (if seen == [] then 0 else seen[0].addr)
              && FromBe16(buf[2..4]) == |seen|
              && FromBe32(buf[4..8]) == ret - 8
    ensures len >= 8 ==>
              var ps := Reply(ch.Geom(), old(Labels(ch)), q, len);
              ret == 8 + BytesOf(ps, q.voltag) && Trailing(buf[..], ret, ReplySpill(ps, q.voltag), old(buf[..]))
  {
    hide PagesBytes, BytesOf, SeenIn, ParsePages, Labels, AllWanted, Reply, FirstAddr, FromBe16, FromBe32,
         Trailing, ReplySpill;
    if len < 8 { return EINVAL; }
    var pagesLen := WritePages(ch, buf, len, q);
    ghost var ps := Reply(ch.Geom(), old(Labels(ch)), q, len);
    ReplyIsWire(ch.Geom(), old(Labels(ch)), q, len);
    ReplyShort(ps, q.voltag);
    ReplyAddresses(ps, q.voltag);
    var pages := buf[8..8 + pagesLen];
    SliceOfSlice(buf[..], 8, buf.Length - 8, 0, pagesLen);
    var numDesc, firstAddr := CountDescriptors(pages, ps, q.voltag);
    ghost var was := buf[..];
    Memset(buf, 0, 8, 0);
    WriteDataHeader(buf, pagesLen, firstAddr, numDesc);
    TrailKept(was, buf[..], 8, 8 + pagesLen, ReplySpill(ps, q.voltag), old(buf[..]));
    SliceOfSlice(buf[..], 8, buf.Length - 8, 0, pagesLen);
    assert buf[8..8 + pagesLen] == buf[8..][..pagesLen] == pages;
    ParseInvertsPages(ps, q.voltag);
    ReplyIsPrefix(ch.Geom(), old(Labels(ch)), q, len);
    return if 8 + pagesLen < len then 8 + pagesLen else len;
  }

  lemma {:induction false} ReplyAddresses(ps: seq<Page>, voltag: bool)
    ensures forall i :: 0 <= i < |SeenIn(ps, voltag)| ==> 0 <= SeenIn(ps, voltag)[i].addr < 0xffff
  {
    if ps != [] {
      ReplyAddresses(ps[1..], voltag);
    }
  }
}
