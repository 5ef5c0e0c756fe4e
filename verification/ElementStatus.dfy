/**
 * READ ELEMENT STATUS. The wire format as a function, an initiator's parser for it, and the
 * kernel's encoder and walker, which work in place on one buffer.
 */
module ElementStatus {
  import opened Common
  import opened Elements
  import opened Media

  const STORAGE := 2
  const IMPORT_EXPORT := 3
  const DATA_TRANSFER := 4

  const PAGE_HEADER := 8

  /** Element type codes and addresses, as they fit the wire; 0xffff is no address. */
  type Kind = k: int | 0 <= k < 8
  type Addr = a: int | 0 <= a < 0xffff

  /** One element as the encoder sees it. */
  datatype Elem = Elem(addr: Addr, full: bool, barcode: Barcode)

  // ---------------------------------------------------------------- the wire format

  function Be16(v: int): (b: seq<u8>)
    ensures |b| == 2
  {
    [v / 0x100 % 0x100, v % 0x100]
  }

  function Be32(v: int): (b: seq<u8>)
    ensures |b| == 4
  {
    [v / 0x100_0000 % 0x100, v / 0x1_0000 % 0x100, v / 0x100 % 0x100, v % 0x100]
  }

  function Fill(n: nat, v: u8): (b: seq<u8>)
    ensures |b| == n && forall i :: 0 <= i < n ==> b[i] == v
  {
    seq(n, _ => v)
  }

  function DescLen(voltag: bool): int { if voltag then 32 else 12 }

  function DescsLen(n: nat, voltag: bool): nat { if voltag then 32 * n else 12 * n }

  /** Bytes 12 to 31 of a descriptor: the space-padded barcode of a full element. */
  function Tag(e: Elem): (b: seq<u8>)
    ensures |b| == 20
  {
    if e.full && e.barcode != [] then e.barcode + Fill(20 - |e.barcode|, 0x20) else Fill(20, 0)
  }

  /** Bytes 0 to 11: address, full bit, type, and eight zeros. */
  function Head(kind: Kind, e: Elem): (b: seq<u8>)
    ensures |b| == 12
  {
    Be16(e.addr) + [if e.full then 1 else 0, kind * 32] + Fill(8, 0)
  }

  function Desc(kind: Kind, e: Elem, voltag: bool): (b: seq<u8>)
    ensures |b| == DescLen(voltag)
  {
    Head(kind, e) + (if voltag then Tag(e) else [])
  }

  function Descs(kind: Kind, es: seq<Elem>, voltag: bool): (b: seq<u8>)
    ensures |b| == DescsLen(|es|, voltag)
  {
    if es == [] then [] else Descs(kind, es[..|es| - 1], voltag) + Desc(kind, es[|es| - 1], voltag)
  }

  datatype Page = Page(kind: Kind, es: seq<Elem>)

  /** What keeps a page's length field within its four bytes. */
  predicate IsWirePage(p: Page) { |p.es| <= MAX_SLOTS }

  function PageBytes(p: Page, voltag: bool): (b: seq<u8>)
    ensures |b| == PAGE_HEADER + DescsLen(|p.es|, voltag)
  {
    [p.kind, if voltag then 0x80 else 0] + Be16(DescLen(voltag)) + Be32(DescsLen(|p.es|, voltag))
    + Descs(p.kind, p.es, voltag)
  }

  function PagesBytes(ps: seq<Page>, voltag: bool): seq<u8>
  {
    if ps == [] then [] else PagesBytes(ps[..|ps| - 1], voltag) + PageBytes(ps[|ps| - 1], voltag)
  }

  // ---------------------------------------------------------------- an initiator's parser

  /** What an initiator reads in one descriptor. */
  datatype Seen = Seen(kind: int, addr: int, full: bool, tag: Option<seq<u8>>)

  function AsSeen(kind: Kind, e: Elem, voltag: bool): Seen {
    Seen(kind, e.addr, e.full, if voltag then Some(Tag(e)) else None)
  }

  function FromBe16(b: seq<u8>): int
    requires |b| == 2
  {
    (b[0] as int) * 0x100 + b[1]
  }

  function FromBe32(b: seq<u8>): int
    requires |b| == 4
  {
    (b[0] as int) * 0x100_0000 + (b[1] as int) * 0x1_0000 + (b[2] as int) * 0x100 + b[3]
  }

  function ParseDesc(d: seq<u8>, pvoltag: bool): Seen
    requires |d| >= 12
  {
    Seen(d[3] / 32, FromBe16(d[..2]), d[2] % 2 == 1, if pvoltag && |d| >= 32 then Some(d[12..32]) else None)
  }

  function ParseDescs(b: seq<u8>, dlen: int, pvoltag: bool): seq<Seen>
    requires dlen >= 12
  {
    if |b| < dlen then [] else [ParseDesc(b[..dlen], pvoltag)] + ParseDescs(b[dlen..], dlen, pvoltag)
  }

  function ParsePages(b: seq<u8>): seq<Seen>
    decreases |b|
  {
    if |b| < PAGE_HEADER then []
    else
      var dlen, n := FromBe16(b[2..4]), FromBe32(b[4..8]);
      if dlen < 12 || PAGE_HEADER + n > |b| then []
      else ParseDescs(b[PAGE_HEADER..PAGE_HEADER + n], dlen, b[1] >= 0x80) + ParsePages(b[PAGE_HEADER + n..])
  }

  // ---------------------------------------------------------------- parsing inverts encoding

  function SeenOf(kind: Kind, es: seq<Elem>, voltag: bool): (s: seq<Seen>)
    ensures |s| == |es|
  {
    seq(|es|, i requires 0 <= i < |es| => AsSeen(kind, es[i], voltag))
  }

  function SeenIn(ps: seq<Page>, voltag: bool): seq<Seen> {
    if ps == [] then [] else SeenOf(ps[0].kind, ps[0].es, voltag) + SeenIn(ps[1..], voltag)
  }

  lemma ParseInvertsDesc(kind: Kind, e: Elem, voltag: bool)
    ensures ParseDesc(Desc(kind, e, voltag), voltag) == AsSeen(kind, e, voltag)
  {
    var d := Desc(kind, e, voltag);
    assert d[..2] == Be16(e.addr);
    if voltag {
      assert d[12..32] == Tag(e);
    }
  }

  /** Descriptors read from the front as well as they are written at the back. */
  lemma {:induction false} DescsFromFront(kind: Kind, es: seq<Elem>, voltag: bool)
    requires es != []
    ensures Descs(kind, es, voltag) == Desc(kind, es[0], voltag) + Descs(kind, es[1..], voltag)
  {
    hide Desc;
    var n := |es| - 1;
    if n == 0 {
      assert es[..0] == [] && es[1..] == [];
    } else {
      DescsFromFront(kind, es[..n], voltag);
      assert es[..n][1..] == es[1..][..n - 1];
      assert es[1..][n - 1] == es[n];
    }
  }

  lemma {:induction false} ParseInvertsDescs(kind: Kind, es: seq<Elem>, voltag: bool)
    ensures ParseDescs(Descs(kind, es, voltag), DescLen(voltag), voltag) == SeenOf(kind, es, voltag)
  {
    hide Desc;
    if es != [] {
      var b, d := Descs(kind, es, voltag), Desc(kind, es[0], voltag);
      DescsFromFront(kind, es, voltag);
      assert b[..DescLen(voltag)] == d && b[DescLen(voltag)..] == Descs(kind, es[1..], voltag);
      ParseInvertsDesc(kind, es[0], voltag);
      ParseInvertsDescs(kind, es[1..], voltag);
    }
  }

  lemma {:induction false} PagesFromFront(ps: seq<Page>, voltag: bool)
    requires ps != []
    ensures PagesBytes(ps, voltag) == PageBytes(ps[0], voltag) + PagesBytes(ps[1..], voltag)
  {
    hide PageBytes;
    var n := |ps| - 1;
    if n == 0 {
      assert ps[..0] == [] && ps[1..] == [];
    } else {
      PagesFromFront(ps[..n], voltag);
      assert ps[..n][1..] == ps[1..][..n - 1];
      assert ps[1..][n - 1] == ps[n];
    }
  }

  lemma PageHeaderFields(p: Page, voltag: bool)
    requires IsWirePage(p)
    ensures var b := PageBytes(p, voltag);
            FromBe16(b[2..4]) == DescLen(voltag) && FromBe32(b[4..8]) == DescsLen(|p.es|, voltag)
            && b[PAGE_HEADER..] == Descs(p.kind, p.es, voltag) && (b[1] >= 0x80 <==> voltag)
  {
    var b := PageBytes(p, voltag);
    assert b[2..4] == Be16(DescLen(voltag));
    assert b[4..8] == Be32(DescsLen(|p.es|, voltag));
  }

  /** The round trip: an initiator reads back every element of every page, in order. */
  lemma {:induction false} ParseInvertsPages(ps: seq<Page>, voltag: bool)
    requires forall p :: p in ps ==> IsWirePage(p)
    ensures ParsePages(PagesBytes(ps, voltag)) == SeenIn(ps, voltag)
  {
    hide PageBytes;
    if ps != [] {
      var p, b := PageBytes(ps[0], voltag), PagesBytes(ps, voltag);
      PagesFromFront(ps, voltag);
      PageHeaderFields(ps[0], voltag);
      assert b[1] == p[1] && b[2..4] == p[2..4] && b[4..8] == p[4..8];
      assert b[PAGE_HEADER..|p|] == p[PAGE_HEADER..] && b[|p|..] == PagesBytes(ps[1..], voltag);
      ParseInvertsDescs(ps[0].kind, ps[0].es, voltag);
      ParseInvertsPages(ps[1..], voltag);
    }
  }

  // ---------------------------------------------------------------- what is asked for and what fits

  predicate IsGeometry(g: Geometry) {
    1 <= g.drives <= MAX_DRIVES && 1 <= g.slots <= MAX_SLOTS && 0 <= g.mailslots <= MAX_MAILSLOTS
  }

  predicate TypeWanted(filter: int, kind: int) { filter == 0 || filter > 4 || filter == kind }

  predicate InRange(addr: int, start: int, num: int) { num <= 0 || start <= addr < start + num }

  /** The `n` elements from address `base`; `labels` maps each occupied address to its barcode. */
  function Elems(labels: map<int, Barcode>, base: nat, n: nat): (es: seq<Elem>)
    requires base + n <= 0xffff
    ensures |es| == n
  {
    seq(n, i requires 0 <= i < n =>
      if base + i in labels then Elem(base + i, true, labels[base + i]) else Elem(base + i, false, []))
  }

  function Select(es: seq<Elem>, start: int, num: int): (r: seq<Elem>)
    ensures |r| <= |es|
  {
    if es == [] then []
    else
      var e, init := es[|es| - 1], Select(es[..|es| - 1], start, num);
      if InRange(e.addr, start, num) then init + [e] else init
  }

  function ElemsOf(g: Geometry, labels: map<int, Barcode>, kind: Kind): seq<Elem>
    requires IsGeometry(g)
  {
    if kind == STORAGE then Elems(labels, 0, g.slots)
    else if kind == DATA_TRANSFER then Elems(labels, DRIVE_BASE, g.drives)
    else Elems(labels, IE_BASE, g.mailslots)
  }

  datatype Query = Query(voltag: bool, filter: int, start: int, num: int)

  /** The wanted elements of one kind; none when the type filter excludes it. */
  function Wanted(g: Geometry, labels: map<int, Barcode>, kind: Kind, q: Query): seq<Elem>
    requires IsGeometry(g)
  {
    if TypeWanted(q.filter, kind) then Select(ElemsOf(g, labels, kind), q.start, q.num) else []
  }

  function Capacity(left: int, voltag: bool): int {
    if left < PAGE_HEADER then 0 else if voltag then (left - PAGE_HEADER) / 32 else (left - PAGE_HEADER) / 12
  }

  function Fitting(es: seq<Elem>, left: int, voltag: bool): (r: seq<Elem>)
    ensures r <= es && |r| == if |es| <= Capacity(left, voltag) then |es| else Capacity(left, voltag)
  {
    if |es| <= Capacity(left, voltag) then es else es[..Capacity(left, voltag)]
  }

  /** The page written for one kind into `left` bytes: none, or one with as many elements as fit. */
  function PageFor(g: Geometry, labels: map<int, Barcode>, kind: Kind, q: Query, left: int): seq<Page>
    requires IsGeometry(g)
  {
    if !TypeWanted(q.filter, kind) || left < PAGE_HEADER then []
    else [Page(kind, Fitting(Wanted(g, labels, kind, q), left, q.voltag))]
  }

  function BytesOf(ps: seq<Page>, voltag: bool): (n: nat) {
    if ps == [] then 0 else BytesOf(ps[..|ps| - 1], voltag) + PAGE_HEADER + DescsLen(|ps[|ps| - 1].es|, voltag)
  }

  lemma PagesBytesLength(ps: seq<Page>, voltag: bool)
    ensures |PagesBytes(ps, voltag)| == BytesOf(ps, voltag)
  {
  }

  /** The pages of a reply of at most `len` bytes: data slots, then drives, then mailslots. */
  function Reply(g: Geometry, labels: map<int, Barcode>, q: Query, len: int): seq<Page>
    requires IsGeometry(g)
  {
    var p1 := PageFor(g, labels, STORAGE, q, len - 8);
    var p2 := PageFor(g, labels, DATA_TRANSFER, q, len - 8 - BytesOf(p1, q.voltag));
    p1 + p2 + PageFor(g, labels, IMPORT_EXPORT, q, len - 8 - BytesOf(p1 + p2, q.voltag))
  }

  /** Everything the query asks for, as an initiator would see it. */
  function AllWanted(g: Geometry, labels: map<int, Barcode>, q: Query): seq<Seen>
    requires IsGeometry(g)
  {
    SeenOf(STORAGE, Wanted(g, labels, STORAGE, q), q.voltag)
    + SeenOf(DATA_TRANSFER, Wanted(g, labels, DATA_TRANSFER, q), q.voltag)
    + SeenOf(IMPORT_EXPORT, Wanted(g, labels, IMPORT_EXPORT, q), q.voltag)
  }

  lemma PageForIsWire(g: Geometry, labels: map<int, Barcode>, kind: Kind, q: Query, left: int)
    requires IsGeometry(g)
    ensures forall p :: p in PageFor(g, labels, kind, q, left) ==> IsWirePage(p)
  {
    hide Select, Elems, Fitting;
  }

  lemma ReplyIsWire(g: Geometry, labels: map<int, Barcode>, q: Query, len: int)
    requires IsGeometry(g)
    ensures forall p :: p in Reply(g, labels, q, len) ==> IsWirePage(p)
  {
    hide PageFor, BytesOf, IsWirePage;
    var p1 := PageFor(g, labels, STORAGE, q, len - 8);
    var p2 := PageFor(g, labels, DATA_TRANSFER, q, len - 8 - BytesOf(p1, q.voltag));
    PageForIsWire(g, labels, STORAGE, q, len - 8);
    PageForIsWire(g, labels, DATA_TRANSFER, q, len - 8 - BytesOf(p1, q.voltag));
    PageForIsWire(g, labels, IMPORT_EXPORT, q, len - 8 - BytesOf(p1 + p2, q.voltag));
  }

  lemma {:induction false} SeenInAppend(ps: seq<Page>, qs: seq<Page>, voltag: bool)
    ensures SeenIn(ps + qs, voltag) == SeenIn(ps, voltag) + SeenIn(qs, voltag)
  {
    if ps == [] {
      assert ps + qs == qs;
    } else {
      SeenInAppend(ps[1..], qs, voltag);
      assert (ps + qs)[1..] == ps[1..] + qs;
    }
  }

  lemma SeenInOne(p: Page, voltag: bool)
    ensures SeenIn([p], voltag) == SeenOf(p.kind, p.es, voltag)
  {
    assert SeenIn([p][1..], voltag) == [];
  }

  /** What one kind contributes, and when that is all of it. */
  lemma PageForSeen(g: Geometry, labels: map<int, Barcode>, kind: Kind, q: Query, left: int)
    requires IsGeometry(g)
    ensures SeenIn(PageFor(g, labels, kind, q, left), q.voltag)
         == SeenOf(kind, Fitting(Wanted(g, labels, kind, q), left, q.voltag), q.voltag)
  {
    if PageFor(g, labels, kind, q, left) != [] {
      SeenInOne(PageFor(g, labels, kind, q, left)[0], q.voltag);
    } else {
      assert Fitting(Wanted(g, labels, kind, q), left, q.voltag) == [];
    }
  }

  /** The bytes one kind takes: a truncated page leaves less than a descriptor. */
  lemma PageForBytes(g: Geometry, labels: map<int, Barcode>, kind: Kind, q: Query, left: int)
    requires IsGeometry(g)
    ensures var w, used := Wanted(g, labels, kind, q), BytesOf(PageFor(g, labels, kind, q, left), q.voltag);
            var fit := Fitting(w, left, q.voltag);
            && 0 <= used <= (if left < 0 then 0 else left) && used <= PAGE_HEADER + DescsLen(|fit|, q.voltag)
            && (|fit| < |w| ==> left - used < DescLen(q.voltag))
  {
    var ps := PageFor(g, labels, kind, q, left);
    if ps != [] {
      assert ps[..0] == [];
    }
  }

  lemma BytesOfAppend(ps: seq<Page>, qs: seq<Page>, voltag: bool)
    requires |qs| <= 1
    ensures BytesOf(ps + qs, voltag) == BytesOf(ps, voltag) + BytesOf(qs, voltag)
  {
    if qs == [] {
      assert ps + qs == ps;
    } else {
      assert (ps + qs)[..|ps|] == ps && qs[..0] == [];
    }
  }

  /** What the reply decodes to, kind by kind. */
  lemma ReplySeen(g: Geometry, labels: map<int, Barcode>, q: Query, len: int)
    requires IsGeometry(g)
    ensures var l2 := len - 8 - BytesOf(PageFor(g, labels, STORAGE, q, len - 8), q.voltag);
            var l3 := l2 - BytesOf(PageFor(g, labels, DATA_TRANSFER, q, l2), q.voltag);
            SeenIn(Reply(g, labels, q, len), q.voltag) ==
              SeenOf(STORAGE, Fitting(Wanted(g, labels, STORAGE, q), len - 8, q.voltag), q.voltag)
              + SeenOf(DATA_TRANSFER, Fitting(Wanted(g, labels, DATA_TRANSFER, q), l2, q.voltag), q.voltag)
              + SeenOf(IMPORT_EXPORT, Fitting(Wanted(g, labels, IMPORT_EXPORT, q), l3, q.voltag), q.voltag)
  {
    hide PageFor, BytesOf, Wanted, SeenOf, SeenIn, Fitting;
    var p1 := PageFor(g, labels, STORAGE, q, len - 8);
    var l2 := len - 8 - BytesOf(p1, q.voltag);
    var p2 := PageFor(g, labels, DATA_TRANSFER, q, l2);
    var l3 := len - 8 - BytesOf(p1 + p2, q.voltag);
    PageForShort(g, labels, DATA_TRANSFER, q, l2);
    BytesOfAppend(p1, p2, q.voltag);
    PageForSeen(g, labels, STORAGE, q, len - 8);
    PageForSeen(g, labels, DATA_TRANSFER, q, l2);
    PageForSeen(g, labels, IMPORT_EXPORT, q, l3);
    SeenInAppend(p1, p2, q.voltag);
    SeenInAppend(p1 + p2, PageFor(g, labels, IMPORT_EXPORT, q, l3), q.voltag);
  }

  /** Once one kind is cut short, the kinds behind it get nothing. */
  lemma CutShortLeavesNothing(g: Geometry, labels: map<int, Barcode>, q: Query, len: int)
    requires IsGeometry(g) && len >= 8
    ensures var l1 := len - 8;
            var l2 := l1 - BytesOf(PageFor(g, labels, STORAGE, q, l1), q.voltag);
            var l3 := l2 - BytesOf(PageFor(g, labels, DATA_TRANSFER, q, l2), q.voltag);
            var w1, w2, w3 := Wanted(g, labels, STORAGE, q), Wanted(g, labels, DATA_TRANSFER, q),
                Wanted(g, labels, IMPORT_EXPORT, q);
            var f1, f2, f3 := Fitting(w1, l1, q.voltag), Fitting(w2, l2, q.voltag), Fitting(w3, l3, q.voltag);
            && (|f1| < |w1| ==> f2 == [] && f3 == []) && (|f2| < |w2| ==> f3 == [])
            && (len >= 8 + 3 * PAGE_HEADER + DescsLen(|w1| + |w2| + |w3|, q.voltag) ==>
               f1 == w1 && f2 == w2 && f3 == w3)
  {
    hide PageFor, BytesOf, Wanted;
    var l1 := len - 8;
    var l2 := l1 - BytesOf(PageFor(g, labels, STORAGE, q, l1), q.voltag);
    PageForBytes(g, labels, STORAGE, q, l1);
    PageForBytes(g, labels, DATA_TRANSFER, q, l2);
  }

  lemma PrefixOfConcat<T>(f1: seq<T>, w1: seq<T>, f2: seq<T>, w2: seq<T>, f3: seq<T>, w3: seq<T>)
    requires f1 <= w1 && f2 <= w2 && f3 <= w3
    requires |f1| < |w1| ==> f2 == [] && f3 == []
    requires |f2| < |w2| ==> f3 == []
    ensures f1 + f2 + f3 <= w1 + w2 + w3
  {
  }

  /**
   * The reply decodes to a prefix of what was asked for; it is all of it whenever three page
   * headers and the wanted descriptors fit behind the data header.
   */
  lemma ReplyIsPrefix(g: Geometry, labels: map<int, Barcode>, q: Query, len: int)
    requires IsGeometry(g) && len >= 8
    ensures SeenIn(Reply(g, labels, q, len), q.voltag) <= AllWanted(g, labels, q)
    ensures len >= 8 + 3 * PAGE_HEADER + DescsLen(|AllWanted(g, labels, q)|, q.voltag)
            ==> SeenIn(Reply(g, labels, q, len), q.voltag) == AllWanted(g, labels, q)
  {
    hide PageFor, BytesOf, Wanted, SeenOf, SeenIn, Fitting, Reply, DescsLen, Capacity;
    var w1, w2, w3 := Wanted(g, labels, STORAGE, q), Wanted(g, labels, DATA_TRANSFER, q),
                      Wanted(g, labels, IMPORT_EXPORT, q);
    var l1 := len - 8;
    var l2 := l1 - BytesOf(PageFor(g, labels, STORAGE, q, l1), q.voltag);
    var l3 := l2 - BytesOf(PageFor(g, labels, DATA_TRANSFER, q, l2), q.voltag);
    var f1, f2, f3 := Fitting(w1, l1, q.voltag), Fitting(w2, l2, q.voltag), Fitting(w3, l3, q.voltag);
    ReplySeen(g, labels, q, len);
    CutShortLeavesNothing(g, labels, q, len);
    SeenOfPrefix(STORAGE, f1, w1, q.voltag);
    SeenOfPrefix(DATA_TRANSFER, f2, w2, q.voltag);
    SeenOfPrefix(IMPORT_EXPORT, f3, w3, q.voltag);
    PrefixOfConcat(SeenOf(STORAGE, f1, q.voltag), SeenOf(STORAGE, w1, q.voltag),
                   SeenOf(DATA_TRANSFER, f2, q.voltag), SeenOf(DATA_TRANSFER, w2, q.voltag),
                   SeenOf(IMPORT_EXPORT, f3, q.voltag), SeenOf(IMPORT_EXPORT, w3, q.voltag));
  }

  lemma PageForShort(g: Geometry, labels: map<int, Barcode>, kind: Kind, q: Query, left: int)
    requires IsGeometry(g)
    ensures |PageFor(g, labels, kind, q, left)| <= 1
  {
  }

  lemma SeenOfPrefix(kind: Kind, a: seq<Elem>, b: seq<Elem>, voltag: bool)
    requires a <= b
    ensures SeenOf(kind, a, voltag) <= SeenOf(kind, b, voltag)
    ensures a == [] ==> SeenOf(kind, a, voltag) == []
    ensures |a| == |b| ==> SeenOf(kind, a, voltag) == SeenOf(kind, b, voltag)
  {
    assert forall i :: 0 <= i < |a| ==> a[i] == b[i];
  }
}
