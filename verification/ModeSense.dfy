/**
 * What the changer tells an initiator about its address space: MODE SENSE pages, and how the
 * READ ELEMENT STATUS command sizes its reply.
 */
module ModeSense {
  import opened Common
  import opened Elements
  import opened Media
  import opened ElementStatus
  import opened ElementStatusBuffer
  import opened ElementReport

  // ---------------------------------------------------------------- mode pages

  /** Element Address Assignment, with its eight 16-bit fields. */
  function AssignmentPage(g: Geometry): (b: seq<u8>)
    ensures |b| == 18
  {
    [0x1d, 16] + Fields(AssignmentFields(g))
  }

  /** First address and count of each range: medium transport, storage, import/export, data transfer. */
  function AssignmentFields(g: Geometry): (vs: seq<int>)
    ensures |vs| == 8
  {
    [0, 0, 0, g.slots, IE_BASE, g.mailslots, DRIVE_BASE, g.drives]
  }

  function Fields(vs: seq<int>): (b: seq<u8>)
    ensures |b| == 2 * |vs|
  {
    if vs == [] then [] else Fields(vs[..|vs| - 1]) + Be16(vs[|vs| - 1])
  }

  lemma {:induction false} FieldsAt(vs: seq<int>, k: nat)
    requires k < |vs|
    ensures Fields(vs)[2 * k..2 * k + 2] == Be16(vs[k])
  {
    hide Be16;
    if k < |vs| - 1 {
      FieldsAt(vs[..|vs| - 1], k);
      assert Fields(vs)[2 * k..2 * k + 2] == Fields(vs[..|vs| - 1])[2 * k..2 * k + 2];
    }
  }

  const SUPPORTED_PAGES: seq<u8> := [0x00, 4, 0x00, 0x01, 0x1d, 0x1e]

  const TRANSPORT_PAGE: seq<u8> := [0x1e, 6, 1, 0, 0, 0, 0, 0]

  function PagesFor(g: Geometry, page: u8): seq<u8> {
    if page == 0x00 then SUPPORTED_PAGES
    else if page == 0x1d then AssignmentPage(g)
    else if page == 0x1e then TRANSPORT_PAGE
    else if page == 0x3f then AssignmentPage(g) + TRANSPORT_PAGE
    else []
  }

  /**
   * Each page begins with its own code and counts the bytes behind its length byte; page 0x3F is the
   * two pages with parameters, and no other code has a page.
   */
  lemma PagesDescribeThemselves(g: Geometry, page: u8)
    ensures page in {0x00, 0x1d, 0x1e} ==>
              var b := PagesFor(g, page); |b| >= 2 && b[0] == page && b[1] == |b| - 2
    ensures |PagesFor(g, 0x1d)| == 18 && |PagesFor(g, 0x1e)| == 8
    ensures page == 0x3f ==> PagesFor(g, page) == PagesFor(g, 0x1d) + PagesFor(g, 0x1e)
    ensures page !in {0x00, 0x1d, 0x1e, 0x3f} ==> PagesFor(g, page) == []
  {
  }

  /** Each page that page 0x00 lists has an answer but 0x01, and of the others 0x3F alone. */
  lemma ListedIsAnsweredIff(g: Geometry, page: u8)
    ensures page in PagesFor(g, 0x00)[2..] <==> page in {0x00, 0x01, 0x1d, 0x1e}
    ensures page in PagesFor(g, 0x00)[2..] ==> (PagesFor(g, page) != [] <==> page != 0x01)
    ensures page !in PagesFor(g, 0x00)[2..] ==> (PagesFor(g, page) != [] <==> page == 0x3f)
  {
    assert SUPPORTED_PAGES[2..] == [0x00, 0x01, 0x1d, 0x1e];
  }

  /** The mode data length field, as an initiator reads it, plus the bytes the field does not count. */
  function AnnouncedLength(b: seq<u8>, sense10: bool): int
    requires |b| >= 4
  {
    FromBe16(if sense10 then b[..2] else [0, b[0]]) + (if sense10 then 2 else 1)
  }

  /** `bytes` written behind the `done` ones that start at `base`; nothing else changes. */
  method PutPage(buffer: array<u8>, base: nat, ghost done: seq<u8>, off: nat, bytes: seq<u8>)
    requires off == base + |done| && off + |bytes| <= buffer.Length && buffer[base..off] == done
    modifies buffer
    ensures buffer[base..off + |bytes|] == done + bytes
    ensures forall i :: 0 <= i < buffer.Length && !(off <= i < off + |bytes|) ==> buffer[i] == old(buffer[i])
  {
    for k := 0 to |bytes|
      invariant forall i :: 0 <= i < k ==> buffer[off + i] == bytes[i]
      invariant forall i :: 0 <= i < buffer.Length && !(off <= i < off + k) ==> buffer[i] == old(buffer[i])
    {
      buffer[off + k] := bytes[k];
    }
    assert buffer[base..off] == done && buffer[off..off + |bytes|] == bytes;
    assert buffer[base..off + |bytes|] == buffer[base..off] + buffer[off..off + |bytes|];
  }

  /** The nine two-byte pieces of the page, each put behind the last. */
  method PutAssignment(buffer: array<u8>, off: nat, g: Geometry)
    requires off + 18 <= buffer.Length && IsGeometry(g)
    modifies buffer
    ensures buffer[off..off + 18] == AssignmentPage(g)
    ensures forall i :: 0 <= i < buffer.Length && !(off <= i < off + 18) ==> buffer[i] == old(buffer[i])
  {
    hide Be16, AssignmentFields;
    var fields := AssignmentFields(g);
    ghost var done: seq<u8> := [0x1d, 16];
    PutPage(buffer, off, [], off, [0x1d, 16]);
    for k := 0 to |fields|
      invariant |done| == 2 + 2 * k && buffer[off..off + |done|] == done && done == [0x1d, 16] + Fields(fields[..k])
      invariant forall i :: 0 <= i < buffer.Length && !(off <= i < off + |done|) ==> buffer[i] == old(buffer[i])
    {
      PutPage(buffer, off, done, off + 2 + 2 * k, Be16(fields[k]));
      assert fields[..k + 1][..k] == fields[..k];
      done := done + Be16(fields[k]);
    }
    assert fields[..|fields|] == fields;
  }

  /** The pages written behind the header; answers where they end. */
  method PutPages(ch: Changer, buffer: array<u8>, hdr: nat, page: u8) returns (out: nat)
    requires ch.Valid() && hdr + 26 <= buffer.Length
    modifies buffer
    ensures out == hdr + |PagesFor(ch.Geom(), page)| <= hdr + 26
    ensures buffer[hdr..out] == PagesFor(ch.Geom(), page)
    ensures forall i :: 0 <= i < hdr ==> buffer[i] == old(buffer[i])
  {
    hide AssignmentPage;
    out := hdr;
    if page == 0x00 {
      PutPage(buffer, hdr, [], hdr, SUPPORTED_PAGES);
      out := hdr + 6;
    } else if page == 0x1d {
      PutAssignment(buffer, hdr, ch.Geom());
      out := hdr + 18;
    } else if page == 0x1e {
      PutPage(buffer, hdr, [], hdr, TRANSPORT_PAGE);
      out := hdr + 8;
    } else if page == 0x3f {
      PutAssignment(buffer, hdr, ch.Geom());
      PutPage(buffer, hdr, AssignmentPage(ch.Geom()), hdr + 18, TRANSPORT_PAGE);
      out := hdr + 26;
    }
  }

  /**
   * `vtl_changer_mode_sense_fill`. A buffer with room for every page gets header and pages, and the
   * length it announces is the length returned; there is no block descriptor.
   */
  method ModeSenseFill(ch: Changer, buffer: array<u8>, page: u8, sense10: bool) returns (out: nat)
    requires ch.Valid() && buffer.Length >= 34
    modifies buffer
    ensures var hdr := if sense10 then 8 else 4;
            && out == hdr + |PagesFor(ch.Geom(), page)| <= 34
            && buffer[hdr..out] == PagesFor(ch.Geom(), page)
            && AnnouncedLength(buffer[..], sense10) == out
            && forall i :: (if sense10 then 2 else 1) <= i < hdr ==> buffer[i] == 0
  {
    hide PagesFor;
    var hdr := if sense10 then 8 else 4;
    Zero(buffer);
    out := PutPages(ch, buffer, hdr, page);
    ghost var pages := buffer[hdr..out];
    if sense10 {
      var n := out - 2;
      buffer[0], buffer[1], buffer[2], buffer[3] := n / 0x100, n % 0x100, 0, 0;
    } else {
      buffer[0], buffer[1], buffer[2], buffer[3] := (out - 1) % 0x100, 0, 0, 0;
    }
    assert buffer[hdr..out] == pages;
  }

  method Zero(buffer: array<u8>)
    modifies buffer
    ensures forall i :: 0 <= i < buffer.Length ==> buffer[i] == 0
  {
    for i := 0 to buffer.Length
      invariant forall k :: 0 <= k < i ==> buffer[k] == 0
    {
      buffer[i] := 0;
    }
  }

  // ---------------------------------------------------------------- one address space

  /** Address `a` lies in the range whose first address and count are at `at` of the page. */
  predicate InField(page: seq<u8>, at: nat, a: int)
    requires at + 4 <= |page|
  {
    var first, n := FromBe16(page[at..at + 2]), FromBe16(page[at + 2..at + 4]);
    first <= a < first + n
  }

  /** In the storage, import/export or data transfer range of an Element Address Assignment page. */
  predicate Advertised(page: seq<u8>, a: int)
    requires |page| == 18
  {
    InField(page, 6, a) || InField(page, 10, a) || InField(page, 14, a)
  }

  lemma FieldOf(g: Geometry, at: nat, first: int, n: int, a: int)
    requires IsGeometry(g)
    requires || (at, first, n) == (6, 0, g.slots) || (at, first, n) == (10, IE_BASE, g.mailslots)
             || (at, first, n) == (14, DRIVE_BASE, g.drives)
    ensures InField(AssignmentPage(g), at, a) <==> first <= a < first + n
  {
    var p, vs, k := AssignmentPage(g), AssignmentFields(g), (at - 2) / 2;
    FieldsAt(vs, k);
    FieldsAt(vs, k + 1);
    assert p[at..at + 2] == Fields(vs)[2 * k..2 * k + 2]
        && p[at + 2..at + 4] == Fields(vs)[2 * (k + 1)..2 * (k + 1) + 2];
  }

  /** The advertised ranges are disjoint. */
  lemma RangesAreDisjoint(g: Geometry, a: int)
    requires IsGeometry(g)
    ensures var p := AssignmentPage(g);
            && !(InField(p, 6, a) && InField(p, 10, a)) && !(InField(p, 6, a) && InField(p, 14, a))
            && !(InField(p, 10, a) && InField(p, 14, a))
  {
    FieldOf(g, 6, 0, g.slots, a);
    FieldOf(g, 10, IE_BASE, g.mailslots, a);
    FieldOf(g, 14, DRIVE_BASE, g.drives, a);
  }

  /** A query whose type filter and range leave nothing out. */
  predicate AsksForAll(q: Query) {
    (q.filter == 0 || q.filter > 4) && (q.num <= 0 || (q.start == 0 && q.num >= IE_BASE + MAX_MAILSLOTS))
  }

  lemma {:induction false} SelectAll(es: seq<Elem>, q: Query)
    requires AsksForAll(q) && forall i :: 0 <= i < |es| ==> es[i].addr < IE_BASE + MAX_MAILSLOTS
    ensures Select(es, q.start, q.num) == es
  {
    if es != [] { SelectAll(es[..|es| - 1], q); }
  }

  lemma AllOfKind(g: Geometry, labels: map<int, Barcode>, q: Query)
    requires IsGeometry(g) && AsksForAll(q)
    ensures Wanted(g, labels, STORAGE, q) == Elems(labels, 0, g.slots)
    ensures Wanted(g, labels, DATA_TRANSFER, q) == Elems(labels, DRIVE_BASE, g.drives)
    ensures Wanted(g, labels, IMPORT_EXPORT, q) == Elems(labels, IE_BASE, g.mailslots)
  {
    SelectAll(Elems(labels, 0, g.slots), q);
    SelectAll(Elems(labels, DRIVE_BASE, g.drives), q);
    SelectAll(Elems(labels, IE_BASE, g.mailslots), q);
  }

  ghost predicate Emitted(seen: seq<Seen>, a: int) { exists i :: 0 <= i < |seen| && seen[i].addr == a }

  lemma EmittedFrom(labels: map<int, Barcode>, kind: Kind, base: nat, n: nat, voltag: bool, a: int)
    requires base + n <= 0xffff
    ensures Emitted(SeenOf(kind, Elems(labels, base, n), voltag), a) <==> base <= a < base + n
  {
    var seen := SeenOf(kind, Elems(labels, base, n), voltag);
    forall i | 0 <= i < n ensures seen[i].addr == base + i {
    }
    if base <= a < base + n {
      assert seen[a - base].addr == a;
    }
  }

  lemma EmittedInConcat(s1: seq<Seen>, s2: seq<Seen>, a: int)
    ensures Emitted(s1 + s2, a) <==> Emitted(s1, a) || Emitted(s2, a)
  {
    if Emitted(s1, a) {
      var i :| 0 <= i < |s1| && s1[i].addr == a;
      assert (s1 + s2)[i].addr == a;
    }
    if Emitted(s2, a) {
      var i :| 0 <= i < |s2| && s2[i].addr == a;
      assert (s1 + s2)[|s1| + i].addr == a;
    }
  }

  /**
   * One address space: what page 0x1D advertises is what MOVE accepts as a source or destination
   * address and what a complete element status lists.
   */
  lemma AddressSpacesAgree(s: State, labels: map<int, Barcode>, q: Query, a: int)
    requires InGeometry(s) && AsksForAll(q)
    ensures Advertised(AssignmentPage(s.geom), a) <==> MoveCode(s, a, a) != EINVAL
    ensures Advertised(AssignmentPage(s.geom), a) <==> Emitted(AllWanted(s.geom, labels, q), a)
  {
    hide SeenOf, Elems, Wanted, Emitted;
    var g := s.geom;
    FieldOf(g, 6, 0, g.slots, a);
    FieldOf(g, 10, IE_BASE, g.mailslots, a);
    FieldOf(g, 14, DRIVE_BASE, g.drives, a);
    AllOfKind(g, labels, q);
    EmittedFrom(labels, STORAGE, 0, g.slots, q.voltag, a);
    EmittedFrom(labels, DATA_TRANSFER, DRIVE_BASE, g.drives, q.voltag, a);
    EmittedFrom(labels, IMPORT_EXPORT, IE_BASE, g.mailslots, q.voltag, a);
    var s1 := SeenOf(STORAGE, Wanted(g, labels, STORAGE, q), q.voltag);
    var s2 := SeenOf(DATA_TRANSFER, Wanted(g, labels, DATA_TRANSFER, q), q.voltag);
    EmittedInConcat(s1, s2, a);
    EmittedInConcat(s1 + s2, SeenOf(IMPORT_EXPORT, Wanted(g, labels, IMPORT_EXPORT, q), q.voltag), a);
  }

  // ---------------------------------------------------------------- when a reply is complete

  function ElementCount(g: Geometry): int { g.slots + g.drives + g.mailslots }

  /** What the page of a kind takes when it holds everything wanted. */
  function PageSize(g: Geometry, labels: map<int, Barcode>, kind: Kind, q: Query): nat
    requires IsGeometry(g)
  {
    if TypeWanted(q.filter, kind) then PAGE_HEADER + DescsLen(|Wanted(g, labels, kind, q)|, q.voltag) else 0
  }

  /** The pages up to the last kind of which anything is wanted, behind the data header. */
  function BytesNeeded(g: Geometry, labels: map<int, Barcode>, q: Query): nat
    requires IsGeometry(g)
  {
    var some3 := Wanted(g, labels, IMPORT_EXPORT, q) != [];
    var some2 := some3 || Wanted(g, labels, DATA_TRANSFER, q) != [];
    var some1 := some2 || Wanted(g, labels, STORAGE, q) != [];
    8 + (if some1 then PageSize(g, labels, STORAGE, q) else 0)
      + (if some2 then PageSize(g, labels, DATA_TRANSFER, q) else 0)
      + (if some3 then PageSize(g, labels, IMPORT_EXPORT, q) else 0)
  }

  /** What one kind takes out of `left` bytes, and when it is not cut short. */
  lemma KindUse(g: Geometry, labels: map<int, Barcode>, kind: Kind, q: Query, left: int)
    requires IsGeometry(g)
    ensures var w := Wanted(g, labels, kind, q);
            var used, whole := BytesOf(PageFor(g, labels, kind, q, left), q.voltag),
                |Fitting(w, left, q.voltag)| == |w|;
            && (whole <==> w == [] || left >= PageSize(g, labels, kind, q))
            && (whole && left >= PAGE_HEADER ==> used == PageSize(g, labels, kind, q))
            && (!TypeWanted(q.filter, kind) ==> w == [])
            && (left < PAGE_HEADER ==> used == 0)
  {
    hide Select, ElemsOf;
    var ps := PageFor(g, labels, kind, q, left);
    if ps != [] {
      assert ps[..0] == [];
    }
  }

  /** What is left for the second and third kind. */
  ghost function LeftBehind(g: Geometry, labels: map<int, Barcode>, kind: Kind, q: Query, left: int): int
    requires IsGeometry(g)
  {
    left - BytesOf(PageFor(g, labels, kind, q, left), q.voltag)
  }

  ghost predicate Whole(g: Geometry, labels: map<int, Barcode>, kind: Kind, q: Query, left: int)
    requires IsGeometry(g)
  {
    |Fitting(Wanted(g, labels, kind, q), left, q.voltag)| == |Wanted(g, labels, kind, q)|
  }

  /** The reply holds all that was asked for exactly when no kind is cut short. */
  lemma CompleteIsWhole(g: Geometry, labels: map<int, Barcode>, q: Query, len: int)
    requires IsGeometry(g) && len >= 8
    ensures var l2 := LeftBehind(g, labels, STORAGE, q, len - 8);
            var l3 := LeftBehind(g, labels, DATA_TRANSFER, q, l2);
            SeenIn(Reply(g, labels, q, len), q.voltag) == AllWanted(g, labels, q) <==>
            Whole(g, labels, STORAGE, q, len - 8) && Whole(g, labels, DATA_TRANSFER, q, l2)
                && Whole(g, labels, IMPORT_EXPORT, q, l3)
  {
    hide Elems, SeenOf, SeenIn, Reply, Wanted, PageFor, BytesOf, Fitting;
    ReplyIsPrefix(g, labels, q, len);
    ReplySeen(g, labels, q, len);
    PrefixWhole(SeenIn(Reply(g, labels, q, len), q.voltag), AllWanted(g, labels, q));
  }

  /** Whatever filter and range: the reply holds all that was asked for exactly when `len` is at least `BytesNeeded`. */
  lemma CompleteIff(g: Geometry, labels: map<int, Barcode>, q: Query, len: int)
    requires IsGeometry(g) && len >= 8
    ensures SeenIn(Reply(g, labels, q, len), q.voltag) == AllWanted(g, labels, q) <==> len >= BytesNeeded(g, labels, q)
  {
    hide SeenIn, Reply, AllWanted, Wanted, PageFor, BytesOf, Fitting, DescsLen;
    var l2 := LeftBehind(g, labels, STORAGE, q, len - 8);
    CompleteIsWhole(g, labels, q, len);
    KindUse(g, labels, STORAGE, q, len - 8);
    KindUse(g, labels, DATA_TRANSFER, q, l2);
    KindUse(g, labels, IMPORT_EXPORT, q, LeftBehind(g, labels, DATA_TRANSFER, q, l2));
  }

  lemma PrefixWhole<T>(f: seq<T>, w: seq<T>)
    requires f <= w
    ensures |f| <= |w| && (|f| == |w| ==> f == w)
  {
  }

  /** A query for everything needs a page header for each kind there is and all descriptors. */
  lemma NeededForAll(g: Geometry, labels: map<int, Barcode>, q: Query)
    requires IsGeometry(g) && AsksForAll(q)
    ensures BytesNeeded(g, labels, q)
         == 8 + (if g.mailslots > 0 then 3 else 2) * PAGE_HEADER + DescsLen(ElementCount(g), q.voltag)
  {
    hide Elems, Wanted;
    AllOfKind(g, labels, q);
  }

  // ---------------------------------------------------------------- READ ELEMENT STATUS command

  const ELEMENT_STATUS_BUFLEN := 8192

  /** How many bytes the reply may take; a short allocation length is raised. */
  function WorkLen(c: Command): (n: nat)
    requires IsCommand(c)
    ensures 8 <= n <= 8192
    ensures AllocLen(c) == 0 || AllocLen(c) >= 8192 ==> n == 8192
    ensures 4096 <= AllocLen(c) <= 8192 ==> n == AllocLen(c)
    ensures 0 < AllocLen(c) < 4096 ==>
              n == if WithTags(c) || c.cmdLen >= 10 then 4096 else if AllocLen(c) >= 8 then AllocLen(c) else 8
  {
    var req := AllocLen(c);
    var n := if req == 0 || req > ELEMENT_STATUS_BUFLEN then ELEMENT_STATUS_BUFLEN else req;
    if (QueryOf(c).voltag || c.cmdLen >= 10) && n < 4096 then 4096 else if n < 8 then 8 else n
  }

  /** With barcodes, no command for everything can be answered in full by a library of more than 255 elements. */
  lemma LargeLibraryIsCutShortIff(g: Geometry, labels: map<int, Barcode>, c: Command)
    requires IsGeometry(g) && IsCommand(c) && AsksForAll(QueryOf(c)) && QueryOf(c).voltag
    requires AllocLen(c) == 0 || AllocLen(c) >= ELEMENT_STATUS_BUFLEN
    ensures SeenIn(Reply(g, labels, QueryOf(c), WorkLen(c)), true) == AllWanted(g, labels, QueryOf(c)) <==>
            ElementCount(g) <= 255
  {
    hide SeenIn, Reply, AllWanted, AsksForAll, BytesNeeded;
    CompleteIff(g, labels, QueryOf(c), WorkLen(c));
    NeededForAll(g, labels, QueryOf(c));
  }

  /**
   * 250 data slots, two drives and four mailslots, asked for with barcodes and the largest length: the
   * reply is not complete.
   */
  lemma CutShortExample(labels: map<int, Barcode>)
    ensures var g, c := Geometry(2, 250, 4),
                        Command([0xb8, 0x10, 0, 0, 0xff, 0xff, 0, 0xff, 0xff, 0xff, 0, 0, 0, 0, 0, 0], 12);
            SeenIn(Reply(g, labels, QueryOf(c), WorkLen(c)), true) != AllWanted(g, labels, QueryOf(c))
  {
    hide SeenIn, Reply, AllWanted;
    LargeLibraryIsCutShortIff(Geometry(2, 250, 4), labels,
      Command([0xb8, 0x10, 0, 0, 0xff, 0xff, 0, 0xff, 0xff, 0xff, 0, 0, 0, 0, 0, 0], 12));
  }

  /**
   * With 250 slots and the fifth drive loaded with a labelled tape, the reply to a query for everything
   * fills the buffer to the last byte, and the tag of that drive ends 4 bytes behind it.
   */
  lemma TagPastBufferExample(g: Geometry, labels: map<int, Barcode>, q: Query)
    requires IsGeometry(g) && g.slots == 250 && g.drives >= 5 && AsksForAll(q) && q.voltag
    requires DRIVE_BASE + 4 in labels && labels[DRIVE_BASE + 4] != []
    ensures var ps := Reply(g, labels, q, ELEMENT_STATUS_BUFLEN);
            8 + BytesOf(ps, true) == 8192 && 8 + BytesOf(ps, true) + ReplySpill(ps, true) == 8196
  {
    hide Wanted, Elems, Reply, PageFor, BytesOf, ReplySpill;
    AllOfKind(g, labels, q);
    var w1, w2, w3 := Wanted(g, labels, STORAGE, q), Wanted(g, labels, DATA_TRANSFER, q),
        Wanted(g, labels, IMPORT_EXPORT, q);
    var p1, p2, p3 := Page(STORAGE, w1), Page(DATA_TRANSFER, w2[..5]), Page(IMPORT_EXPORT, w3[..0]);
    FirstBytes(p1, p2, p3, true);
    assert Fitting(w2, 176, true) == w2[..5] && Fitting(w3, 8, true) == [] == w3[..0];
    WantedPage(g, labels, STORAGE, q, 8184);
    WantedPage(g, labels, DATA_TRANSFER, q, 176);
    WantedPage(g, labels, IMPORT_EXPORT, q, 8);
    assert Reply(g, labels, q, ELEMENT_STATUS_BUFLEN) == [p1, p2, p3] by {
      ReplyOf(g, labels, q, p1, p2, p3);
    }
    assert w2[..5][4] == Elem(DRIVE_BASE + 4, true, labels[DRIVE_BASE + 4]) by { DriveElem(g, labels); }
    assert ReplySpill([p1, p2, p3], true) == 4 by { LastSpill(p1, p2, p3); }
  }

  lemma DriveElem(g: Geometry, labels: map<int, Barcode>)
    requires IsGeometry(g) && g.drives >= 5 && DRIVE_BASE + 4 in labels
    ensures Elems(labels, DRIVE_BASE, g.drives)[4] == Elem(DRIVE_BASE + 4, true, labels[DRIVE_BASE + 4])
  {
  }

  lemma WantedPage(g: Geometry, labels: map<int, Barcode>, kind: Kind, q: Query, left: nat)
    requires IsGeometry(g) && AsksForAll(q) && q.voltag && left >= PAGE_HEADER
    ensures PageFor(g, labels, kind, q, left) == [Page(kind, Fitting(Wanted(g, labels, kind, q), left, true))]
  {
    hide Wanted, Fitting;
  }

  lemma ReplyOf(g: Geometry, labels: map<int, Barcode>, q: Query, p1: Page, p2: Page, p3: Page)
    requires IsGeometry(g) && q.voltag && |p1.es| == 250 && |p2.es| == 5 && p3.es == []
    requires PageFor(g, labels, STORAGE, q, 8184) == [p1] && PageFor(g, labels, DATA_TRANSFER, q, 176) == [p2]
    requires PageFor(g, labels, IMPORT_EXPORT, q, 8) == [p3]
    ensures Reply(g, labels, q, ELEMENT_STATUS_BUFLEN) == [p1, p2, p3]
  {
    hide PageFor, BytesOf;
    FirstBytes(p1, p2, p3, true);
    assert [p1] + [p2] == [p1, p2];
  }

  lemma FirstBytes(p1: Page, p2: Page, p3: Page, voltag: bool)
    ensures BytesOf([p1], voltag) == PAGE_HEADER + DescsLen(|p1.es|, voltag)
    ensures BytesOf([p1, p2], voltag) == BytesOf([p1], voltag) + PAGE_HEADER + DescsLen(|p2.es|, voltag)
    ensures BytesOf([p1, p2, p3], voltag) == BytesOf([p1, p2], voltag) + PAGE_HEADER + DescsLen(|p3.es|, voltag)
  {
    assert [p1][..0] == [] && [p1, p2][..1] == [p1] && [p1, p2, p3][..2] == [p1, p2];
  }

  lemma LastSpill(p1: Page, p2: Page, p3: Page)
    requires p2.es != [] && SpillOf(p2.es[|p2.es| - 1], true) == TAG_SPILL && p3.es == []
    ensures ReplySpill([p1, p2, p3], true) == 4
  {
    assert [p1][..0] == [] && [p1, p2][..1] == [p1] && [p1, p2, p3][..2] == [p1, p2];
    assert ReplySpill([p1, p2], true) == TAG_SPILL;
  }

  lemma SlicesOfPrefix(b: seq<u8>, n: nat)
    requires 8 <= n <= |b|
    ensures b[..n][8..] == b[8..n] && b[..n][2..4] == b[2..4] && b[..n][4..8] == b[4..8]
  {
  }

  /** How long the reply within `len` bytes is. */
  ghost function ReplyLen(g: Geometry, labels: map<int, Barcode>, q: Query, len: int): nat
    requires IsGeometry(g)
  {
    8 + BytesOf(Reply(g, labels, q, len), q.voltag)
  }

  /** The data header and the whole page of every kind asked for, empty ones included. */
  function FullLen(g: Geometry, labels: map<int, Barcode>, q: Query): nat
    requires IsGeometry(g)
  {
    8 + PageSize(g, labels, STORAGE, q) + PageSize(g, labels, DATA_TRANSFER, q) + PageSize(g, labels, IMPORT_EXPORT, q)
  }

  lemma ReplyLenIs(g: Geometry, labels: map<int, Barcode>, q: Query, len: int)
    requires IsGeometry(g)
    ensures var l2 := LeftBehind(g, labels, STORAGE, q, len - 8);
            var l3 := LeftBehind(g, labels, DATA_TRANSFER, q, l2);
            ReplyLen(g, labels, q, len) == len - LeftBehind(g, labels, IMPORT_EXPORT, q, l3)
  {
    hide PageFor, BytesOf;
    var p1 := PageFor(g, labels, STORAGE, q, len - 8);
    var l2 := len - 8 - BytesOf(p1, q.voltag);
    var p2 := PageFor(g, labels, DATA_TRANSFER, q, l2);
    PageForShort(g, labels, DATA_TRANSFER, q, l2);
    BytesOfAppend(p1, p2, q.voltag);
    var p3 := PageFor(g, labels, IMPORT_EXPORT, q, len - 8 - BytesOf(p1 + p2, q.voltag));
    PageForShort(g, labels, IMPORT_EXPORT, q, len - 8 - BytesOf(p1 + p2, q.voltag));
    BytesOfAppend(p1 + p2, p3, q.voltag);
  }

  /** What one kind leaves: all but its whole page, or less than a descriptor. */
  lemma LeftByKind(g: Geometry, labels: map<int, Barcode>, kind: Kind, q: Query, left: int)
    requires IsGeometry(g) && left >= 0
    ensures var behind := LeftBehind(g, labels, kind, q, left);
            && 0 <= behind <= left
            && (if left >= PageSize(g, labels, kind, q) then behind == left - PageSize(g, labels, kind, q)
                else behind < DescLen(q.voltag))
  {
    hide Wanted;
    PageForBytes(g, labels, kind, q, left);
    KindUse(g, labels, kind, q, left);
  }

  /** A reply is its full length when that fits, and otherwise fills the room to less than a descriptor. */
  lemma ReplyFills(g: Geometry, labels: map<int, Barcode>, q: Query, len: int)
    requires IsGeometry(g) && len >= 8
    ensures if len >= FullLen(g, labels, q) then ReplyLen(g, labels, q, len) == FullLen(g, labels, q)
            else len - DescLen(q.voltag) < ReplyLen(g, labels, q, len) <= len
  {
    hide LeftBehind, PageSize, ReplyLen;
    ReplyLenIs(g, labels, q, len);
    var l2 := LeftBehind(g, labels, STORAGE, q, len - 8);
    LeftByKind(g, labels, STORAGE, q, len - 8);
    LeftByKind(g, labels, DATA_TRANSFER, q, l2);
    LeftByKind(g, labels, IMPORT_EXPORT, q, LeftBehind(g, labels, DATA_TRANSFER, q, l2));
  }

  /**
   * An initiator with room for just the length it asked for. It never gets too much when the command
   * took that length; when the command raised it, the reply is too long exactly when it is longer than
   * what was asked for, as it is whenever the full reply is and the raised room exceeds the length by
   * a descriptor.
   */
  lemma ReplyAgainstAllocation(g: Geometry, labels: map<int, Barcode>, c: Command)
    requires IsGeometry(g) && IsCommand(c) && AllocLen(c) > 0
    ensures var sent := ReplyLen(g, labels, QueryOf(c), WorkLen(c));
            && (WorkLen(c) <= AllocLen(c) ==> sent <= AllocLen(c))
            && (FullLen(g, labels, QueryOf(c)) <= WorkLen(c) ==>
                  (sent > AllocLen(c) <==> FullLen(g, labels, QueryOf(c)) > AllocLen(c)))
            && (FullLen(g, labels, QueryOf(c)) > WorkLen(c) >= AllocLen(c) + DescLen(QueryOf(c).voltag) ==>
               sent > AllocLen(c))
  {
    hide ReplyLen, FullLen, QueryOf;
    ReplyFills(g, labels, QueryOf(c), WorkLen(c));
  }

  /** Everything, with barcodes, into 100 bytes: the smallest library answers with 224. */
  lemma ReplyExceedsAllocationExample(labels: map<int, Barcode>)
    ensures var g, c := Geometry(1, 1, 4), Command([0xb8, 0x10, 0, 0, 0xff, 0xff, 0, 0, 0, 100, 0, 0, 0, 0, 0, 0], 12);
            AllocLen(c) == 100 && WorkLen(c) == 4096 && ReplyLen(g, labels, QueryOf(c), WorkLen(c)) == 224
  {
    hide ReplyLen;
    var g, c := Geometry(1, 1, 4), Command([0xb8, 0x10, 0, 0, 0xff, 0xff, 0, 0, 0, 100, 0, 0, 0, 0, 0, 0], 12);
    ReplyFills(g, labels, QueryOf(c), WorkLen(c));
    AllOfKind(g, labels, QueryOf(c));
  }

  /**
   * `vtl_handle_read_element_status`, the initiator's buffer taking `room` bytes: the command fails
   * exactly when the reply is longer, and otherwise copies it out with the residual count.
   */
  method HandleReadElementStatus(ch: Changer, c: Command, room: nat) returns (reply: Option<seq<u8>>, resid: nat)
    requires ch.Valid() && IsCommand(c)
    ensures reply.None? <==> room < ReplyLen(ch.Geom(), old(Labels(ch)), QueryOf(c), WorkLen(c))
    ensures reply.Some? ==>
              8 <= |reply.value| == ReplyLen(ch.Geom(), old(Labels(ch)), QueryOf(c), WorkLen(c)) <= WorkLen(c)
    ensures reply.Some? ==>
              var seen, q := ParsePages(reply.value[8..]), QueryOf(c);
              var wanted := AllWanted(ch.Geom(), old(Labels(ch)), q);
              && seen <= wanted && FromBe16(reply.value[2..4]) == |seen|
                 && FromBe32(reply.value[4..8]) == |reply.value| - 8
              && (seen == wanted <==> WorkLen(c) >= BytesNeeded(ch.Geom(), old(Labels(ch)), q))
              && Reports(c, ch.Geom(), old(Labels(ch)), seen) && Gapless(c, ch.Geom(), seen)
              && (Complete(c, ch.Geom(), seen) <==> WorkLen(c) >= BytesNeeded(ch.Geom(), old(Labels(ch)), q))
              && resid == if AllocLen(c) > |reply.value| then AllocLen(c) - |reply.value| else 0
  {
    hide AllWanted, ParsePages, DescsLen, SeenIn, Reply, BytesNeeded, BytesOf, Reports, Gapless, Complete;
    ghost var labels := Labels(ch);
    var buffer := new u8[ELEMENT_STATUS_BUFLEN + TAG_SPILL](_ => 0);
    assert Labels(ch) == labels;
    var ret := ReadElementStatus(ch, buffer, WorkLen(c), QueryOf(c));
    var copied := if room < ret then room else ret;
    if copied < ret { return None, 0; }
    CompleteIff(ch.Geom(), labels, QueryOf(c), WorkLen(c));
    SlicesOfPrefix(buffer[..], ret);
    WantedPrefixReports(c, ch.Geom(), labels, ParsePages(buffer[8..ret]));
    return Some(buffer[..ret]), if AllocLen(c) > copied then AllocLen(c) - copied else 0;
  }

  /**
   * After a LOAD that was granted with a barcode, as it leaves the changer: a complete element status
   * with tags that asks for the drive shows that barcode there, cut to 15 bytes and padded with spaces.
   */
  lemma LoadedDriveShowsTag(ch: Changer, drive: int, barcode: CString, c: Command, seen: seq<Seen>)
    requires ch.Valid() && 0 <= drive < ch.numDrives && barcode != [] && DRIVE_BASE + drive in ch.Contents()
    requires ch.Contents()[DRIVE_BASE + drive].barcode == if |barcode| <= 15 then barcode else barcode[..15]
    requires IsCommand(c) && WithTags(c) && AskedFor(c, 4, 1000 + drive)
    requires Reports(c, ch.Geom(), Labels(ch), seen) && Complete(c, ch.Geom(), seen)
    ensures var shown := if |barcode| <= 15 then barcode else barcode[..15];
            exists i :: 0 <= i < |seen| &&
              seen[i] == Seen(4, 1000 + drive, true, Some(shown + Fill(20 - |shown|, 0x20)))
  {
    hide Reports, Complete, AskedFor, WithTags;
    assert Stands(ch.Geom(), 4, 1000 + drive);
    TagIsReported(c, ch.Geom(), Labels(ch), seen, 4, 1000 + drive);
  }
}
