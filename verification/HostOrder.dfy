/**
 * Which kernel host serves which library: the `vtl_instances` text built from the catalog, the
 * padding of hosts without a library, and the index looked up for a library.
 */
module HostOrder {
  import opened Common
  import opened Elements
  import opened Decimal
  import opened InstanceSpec
  import opened Catalog
  import opened LibraryRows

  /** An online library and its counts of drive rows and data-slot rows. */
  datatype Library = Library(id: int, drives: nat, slots: nat)

  datatype SpecError = NoLibrary | NoGeometry

  predicate HasGeometry(l: Library) { l.drives != 0 || l.slots != 0 }

  /** The counts, cut to 32 bits and clamped. */
  function SizeOf(l: Library): (z: HostSize)
    ensures InRange(z)
  {
    Clamped(HostSize(Int32(l.drives), Int32(l.slots)))
  }

  /** Ids of online libraries in the order of the query, ascending. */
  ghost predicate Ascending(ids: seq<int>) { forall i, j :: 0 <= i < j < |ids| ==> ids[i] < ids[j] }

  /** The libraries with what is counted for them in the catalog. */
  function LibrariesOf(db: Db, ids: seq<int>): (libs: seq<Library>)
    ensures |libs| == |ids|
    ensures forall i :: 0 <= i < |ids| ==>
              libs[i] == Library(ids[i], DriveCount(db.drives, ids[i]), DataSlotCount(db.slots, ids[i]))
  {
    seq(|ids|, i requires 0 <= i < |ids| =>
      Library(ids[i], DriveCount(db.drives, ids[i]), DataSlotCount(db.slots, ids[i])))
  }

  /** The library has a drive row or a data-slot row. */
  ghost predicate HasRows(db: Db, lib: int) {
    || (exists d :: (lib, d) in db.drives)
    || (exists n :: (lib, n) in db.slots && !db.slots[(lib, n)].importExport)
  }

  ghost function RowsBefore(db: Db, ids: seq<int>, p: nat): (r: set<int>)
    requires p <= |ids|
    ensures forall q :: q in r <==> 0 <= q < p && HasRows(db, ids[q])
  {
    set q | 0 <= q < p && HasRows(db, ids[q])
  }

  /** How many of the first `p` libraries have rows. */
  ghost function Rank(db: Db, ids: seq<int>, p: nat): nat
    requires p <= |ids|
  {
    |RowsBefore(db, ids, p)|
  }

  /** A host of the library's own size: its rows counted, at least one and at most the cap of each. */
  ghost predicate OwnSize(db: Db, lib: int, z: HostSize) {
    var d, n := DriveCount(db.drives, lib), DataSlotCount(db.slots, lib);
    && (d < 0x8000_0000 ==> z.drives == if d == 0 then 1 else if d > 8 then 8 else d)
    && (n < 0x8000_0000 ==> z.slots == if n == 0 then 1 else if n > 256 then 256 else n)
  }

  lemma SizeIsOwn(db: Db, lib: int)
    ensures OwnSize(db, lib, SizeOf(Library(lib, DriveCount(db.drives, lib), DataSlotCount(db.slots, lib))))
  {
    hide DriveCount, DataSlotCount;
  }

  lemma HasGeometryIff(db: Db, lib: int)
    ensures HasGeometry(Library(lib, DriveCount(db.drives, lib), DataSlotCount(db.slots, lib))) <==> HasRows(db, lib)
  {
    var ds := set k | k in db.drives && k.0 == lib :: k.1;
    var ns := set k | k in db.slots && k.0 == lib && !db.slots[k].importExport :: k.1;
    forall d ensures d in ds <==> (lib, d) in db.drives {
      assert (lib, d).1 == d;
    }
    forall n ensures n in ns <==> (lib, n) in db.slots && !db.slots[(lib, n)].importExport {
      assert (lib, n).1 == n;
    }
    assert DriveCount(db.drives, lib) == |ds| && DataSlotCount(db.slots, lib) == |ns|;
    if !HasRows(db, lib) {
      forall d ensures d !in ds {
        assert (lib, d) !in db.drives;
      }
      forall n ensures n !in ns {
        assert !((lib, n) in db.slots && !db.slots[(lib, n)].importExport);
      }
      assert ds == {} && ns == {};
    }
  }

  lemma {:induction false} RankIs(db: Db, ids: seq<int>, p: nat)
    requires p <= |ids|
    ensures |WithGeometry(LibrariesOf(db, ids)[..p])| == Rank(db, ids, p)
  {
    hide HasRows, HasGeometry, DriveCount, DataSlotCount;
    var libs := LibrariesOf(db, ids);
    if p == 0 {
      assert RowsBefore(db, ids, 0) == {};
    } else {
      RankIs(db, ids, p - 1);
      HasGeometryIff(db, ids[p - 1]);
      assert libs[..p][..p - 1] == libs[..p - 1];
      RankGrows(db, ids, p - 1);
    }
  }

  /** The libraries with a geometry, in order. */
  function WithGeometry(libs: seq<Library>): (r: seq<Library>)
    ensures |r| <= |libs|
    ensures forall l :: l in r <==> l in libs && HasGeometry(l)
  {
    if libs == [] then []
    else
      var init, last := WithGeometry(libs[..|libs| - 1]), libs[|libs| - 1];
      if HasGeometry(last) then init + [last] else init
  }

  function FirstEight(libs: seq<Library>): seq<Library> { if |libs| > MAX_HOSTS then libs[..MAX_HOSTS] else libs }

  function SizesOf(libs: seq<Library>): (g: seq<HostSize>)
    ensures |g| == |libs| && forall i :: 0 <= i < |g| ==> g[i] == SizeOf(libs[i])
  {
    seq(|libs|, i requires 0 <= i < |libs| => SizeOf(libs[i]))
  }

  /** The hosts the catalog asks for. */
  function Compact(libs: seq<Library>): (g: seq<HostSize>)
    ensures |g| <= MAX_HOSTS && forall i :: 0 <= i < |g| ==> InRange(g[i])
  {
    SizesOf(WithGeometry(FirstEight(libs)))
  }

  lemma OneMoreLibrary(libs: seq<Library>, i: nat)
    requires i < |libs|
    ensures var parts := PrintParts(SizesOf(WithGeometry(libs[..i])));
            PrintParts(SizesOf(WithGeometry(libs[..i + 1])))
              == if HasGeometry(libs[i]) then parts + [PrintSize(SizeOf(libs[i]))] else parts
  {
    hide SizeOf, PrintSize, HasGeometry;
    assert libs[..i + 1][..i] == libs[..i];
  }

  lemma NoLibraries()
    ensures PrintParts(SizesOf(WithGeometry([]))) == []
  {
  }

  lemma PartsAreNone(g: seq<HostSize>)
    ensures |PrintParts(g)| == |g|
  {
  }

  /** How many libraries become hosts at most. */
  function Taken(ids: seq<int>): (n: nat)
    ensures n <= |ids|
  {
    if |ids| > 8 then 8 else |ids|
  }

  /**
   * The first eight libraries and their hosts: one for each that has rows, in order and of its own
   * size, which both the kernel's parser and the fields of the text say.
   */
  ghost predicate NamesOwnSizes(db: Db, ids: seq<int>, text: string) {
    && Parse(text).Some?
    && var g, f := Parse(text).value, Fields(text);
    && |g| == |f| == Rank(db, ids, Taken(ids))
    && (forall i :: 0 <= i < |g| ==> f[i] == PrintInt(g[i].drives) + "x" + PrintInt(g[i].slots))
    && forall p :: 0 <= p < Taken(ids) && HasRows(db, ids[p]) ==>
         Rank(db, ids, p) < |g| && OwnSize(db, ids[p], g[Rank(db, ids, p)])
  }

  lemma CompactIsOwn(db: Db, ids: seq<int>)
    ensures var g := Compact(LibrariesOf(db, ids));
            && |g| == Rank(db, ids, Taken(ids))
            && forall p :: 0 <= p < Taken(ids) && HasRows(db, ids[p]) ==>
                 Rank(db, ids, p) < |g| && OwnSize(db, ids[p], g[Rank(db, ids, p)])
  {
    hide HasRows, HasGeometry, DriveCount, DataSlotCount, SizeOf, OwnSize, Rank;
    var libs := LibrariesOf(db, ids);
    assert FirstEight(libs) == libs[..Taken(ids)];
    RankIs(db, ids, Taken(ids));
    forall p | 0 <= p < Taken(ids) && HasRows(db, ids[p])
      ensures Rank(db, ids, p) < |Compact(libs)| && OwnSize(db, ids[p], Compact(libs)[Rank(db, ids, p)])
    {
      HasGeometryIff(db, ids[p]);
      SizeIsOwn(db, ids[p]);
      RankIs(db, ids, p);
      ListedAt(FirstEight(libs), p);
      assert FirstEight(libs)[..p] == libs[..p];
    }
  }

  lemma CompactTextIsOwn(db: Db, ids: seq<int>)
    requires Compact(LibrariesOf(db, ids)) != []
    ensures NamesOwnSizes(db, ids, PrintSpec(Compact(LibrariesOf(db, ids))))
  {
    hide HasRows, OwnSize, Rank, Compact, Parse, PrintSpec, Fields;
    var g := Compact(LibrariesOf(db, ids));
    CompactIsOwn(db, ids);
    ParseInvertsPrintIff(g);
    PrintedFields(g);
  }

  /** The text is refused exactly without a library, or without one that has rows among the first eight. */
  lemma EmptyCompactIff(db: Db, ids: seq<int>)
    ensures Compact(LibrariesOf(db, ids)) == [] <==> forall p :: 0 <= p < Taken(ids) ==> !HasRows(db, ids[p])
  {
    hide HasRows, Compact;
    CompactIsOwn(db, ids);
    var with := RowsBefore(db, ids, Taken(ids));
    if p :| 0 <= p < Taken(ids) && HasRows(db, ids[p]) {
      assert p in with;
    } else {
      assert with == {};
    }
  }

  /** `build_vtl_instances_kernel_spec` */
  method BuildKernelSpec(db: Db, ids: seq<int>) returns (r: Result<string, SpecError>)
    ensures r.Err? <==> forall p :: 0 <= p < Taken(ids) ==> !HasRows(db, ids[p])
    ensures r.Err? ==> r.error == if ids == [] then NoLibrary else NoGeometry
    ensures r.Ok? ==> NamesOwnSizes(db, ids, r.value) && r.value == PrintSpec(Compact(LibrariesOf(db, ids)))
  {
    hide SizeOf, PrintSize, HasGeometry, WithGeometry, SizesOf, PrintParts, HasRows, Rank, DriveCount, DataSlotCount,
         NamesOwnSizes;
    EmptyCompactIff(db, ids);
    var n := Taken(ids);
    ghost var libs := FirstEight(LibrariesOf(db, ids));
    if ids == [] { return Err(NoLibrary); }
    var parts: seq<string> := [];
    assert libs[..0] == [];
    NoLibraries();
    for i := 0 to n
      invariant parts == PrintParts(SizesOf(WithGeometry(libs[..i])))
    {
      var l := Library(ids[i], DriveCount(db.drives, ids[i]), DataSlotCount(db.slots, ids[i]));
      OneMoreLibrary(libs, i);
      if !HasGeometry(l) { continue; }
      parts := parts + [PrintSize(SizeOf(l))];
    }
    assert libs[..n] == libs;
    PartsAreNone(SizesOf(WithGeometry(libs)));
    if parts == [] { return Err(NoGeometry); }
    CompactTextIsOwn(db, ids);
    return Ok(Join(parts));
  }

  // ---------------------------------------------------------------- the index of a library

  /** `online_library_ids_for_kernel_sync` */
  method OnlineIds(db: Db, ids: seq<int>) returns (r: seq<int>)
    ensures |r| == Rank(db, ids, |ids|)
    ensures forall p :: 0 <= p < |ids| && HasRows(db, ids[p]) ==>
              Rank(db, ids, p) < |r| && r[Rank(db, ids, p)] == ids[p]
    ensures forall id :: id in r ==> id in ids && HasRows(db, id)
    ensures Ascending(ids) ==> Ascending(r)
  {
    hide HasRows, DriveCount, DataSlotCount, HasGeometry, Rank;
    r := [];
    assert Rank(db, ids, 0) == 0 by { RankIs(db, ids, 0); }
    for i := 0 to |ids|
      invariant |r| == Rank(db, ids, i) && forall id :: id in r ==> id in ids && HasRows(db, id)
      invariant Ascending(ids) ==> Ascending(r) && forall id :: id in r && i < |ids| ==> id < ids[i]
      invariant forall p :: 0 <= p < i && HasRows(db, ids[p]) ==>
                  Rank(db, ids, p) < |r| && r[Rank(db, ids, p)] == ids[p]
    {
      RankGrows(db, ids, i);
      HasGeometryIff(db, ids[i]);
      if HasGeometry(Library(ids[i], DriveCount(db.drives, ids[i]), DataSlotCount(db.slots, ids[i]))) {
        assert forall j :: 0 <= j < |r| ==> r[j] in r;
        r := r + [ids[i]];
      }
    }
  }

  lemma RankGrows(db: Db, ids: seq<int>, p: nat)
    requires p < |ids|
    ensures Rank(db, ids, p + 1) == Rank(db, ids, p) + if HasRows(db, ids[p]) then 1 else 0
  {
    hide HasRows;
    var before := RowsBefore(db, ids, p);
    assert RowsBefore(db, ids, p + 1) == if HasRows(db, ids[p]) then before + {p} else before;
  }

  lemma {:induction false} RankIsMonotone(db: Db, ids: seq<int>, p: nat, q: nat)
    requires p <= q <= |ids|
    ensures Rank(db, ids, p) <= Rank(db, ids, q)
  {
    hide Rank;
    if p < q {
      RankIsMonotone(db, ids, p, q - 1);
      RankGrows(db, ids, q - 1);
    }
  }

  lemma {:induction false} GeometryOfPrefix(libs: seq<Library>, n: nat)
    requires n <= |libs|
    ensures WithGeometry(libs[..n]) <= WithGeometry(libs)
    decreases |libs|
  {
    if n < |libs| {
      GeometryOfPrefix(libs[..|libs| - 1], n);
      assert libs[..|libs| - 1][..n] == libs[..n];
    } else {
      assert libs[..n] == libs;
    }
  }

  /** The library at `p` of the query is listed behind those before it. */
  lemma ListedAt(libs: seq<Library>, p: nat)
    requires p < |libs| && HasGeometry(libs[p])
    ensures var k := |WithGeometry(libs[..p])|; k < |WithGeometry(libs)| && WithGeometry(libs)[k] == libs[p]
  {
    assert libs[..p + 1][..p] == libs[..p];
    GeometryOfPrefix(libs, p + 1);
  }

  /** `library_kernel_instance_index`: how many libraries with rows come before this one. */
  method InstanceIndex(db: Db, ids: seq<int>, id: int) returns (r: Option<nat>)
    requires Ascending(ids)
    ensures r.None? <==> id !in ids || !HasRows(db, id)
    ensures forall p :: 0 <= p < |ids| && ids[p] == id && HasRows(db, id) ==> r == Some(Rank(db, ids, p))
  {
    hide HasRows, Rank;
    var listed := OnlineIds(db, ids);
    for k := 0 to |listed|
      invariant forall j :: 0 <= j < k ==> listed[j] != id
    {
      if listed[k] == id {
        assert id in listed;
        return Some(k);
      }
    }
    return None;
  }

  /** `online_library_export_index`: the library's position among the online ones, empty shells counted. */
  method ExportIndex(ids: seq<int>, id: int) returns (r: Option<nat>)
    requires Ascending(ids)
    ensures r.None? <==> id !in ids
    ensures forall p :: 0 <= p < |ids| && ids[p] == id ==> r == Some(p)
  {
    for p := 0 to |ids|
      invariant forall j :: 0 <= j < p ==> ids[j] != id
    {
      if ids[p] == id { return Some(p); }
    }
    return None;
  }

  /** That position is the kernel's index exactly when no empty shell stands before the library; it is never lower. */
  lemma {:induction false} ExportIndexIsKernelIndexIff(db: Db, ids: seq<int>, p: nat)
    requires p <= |ids|
    ensures Rank(db, ids, p) <= p
    ensures Rank(db, ids, p) == p <==> forall q :: 0 <= q < p ==> HasRows(db, ids[q])
  {
    hide HasRows;
    if p > 0 {
      ExportIndexIsKernelIndexIff(db, ids, p - 1);
      RankGrows(db, ids, p - 1);
    } else {
      assert RowsBefore(db, ids, 0) == {};
    }
  }

  /**
   * The index names a host of the library's own size exactly when the library is among the first eight
   * online ones, empty shells counted; behind them it names no host of the catalog's.
   */
  lemma IndexNamesOwnSegmentIff(db: Db, ids: seq<int>, p: nat, text: string)
    requires p < |ids| && HasRows(db, ids[p]) && NamesOwnSizes(db, ids, text)
    ensures var k, g := Rank(db, ids, p), Parse(text).value;
            && (k < |g| <==> p < 8)
            && (p < 8 ==> OwnSize(db, ids[p], g[k]))
            && (p < 8 ==> Fields(text)[k] == PrintInt(g[k].drives) + "x" + PrintInt(g[k].slots))
  {
    hide HasRows, Rank, OwnSize, Parse, Fields;
    if p >= 8 { RankIsMonotone(db, ids, 8, p); }
  }

  /** A library created within the caps, `drives` by `slots`, gets a host of exactly that size. */
  lemma CreatedIsItsOwnHost(db: Db, ids: seq<int>, p: nat, text: string, drives: nat, slots: nat)
    requires p < |ids| && p < 8 && 1 <= drives <= 8 && 1 <= slots <= 256
    requires FreshLibrary(db, ids[p], drives, slots) && NamesOwnSizes(db, ids, text)
    ensures var k := Rank(db, ids, p);
            k < |Parse(text).value| && Parse(text).value[k] == HostSize(drives, slots)
            && Fields(text)[k] == Print(drives) + "x" + Print(slots)
  {
    hide Rank, Parse, Fields, DriveCount, DataSlotCount;
    assert (ids[p], 0) in db.drives;
    FreshDrives(db, ids[p], drives, slots);
    FreshCount(db, ids[p], drives, slots);
    IndexNamesOwnSegmentIff(db, ids, p, text);
  }

  // ---------------------------------------------------------------- padding

  const IDLE := HostSize(MAX_DRIVES, MAX_SLOTS)

  /** The catalog's hosts, then the kernel's own sizes, then full-size idle hosts. */
  function Padded(db: seq<HostSize>, live: seq<HostSize>, n: nat): (g: seq<HostSize>)
    ensures |g| == n
  {
    seq(n, i requires 0 <= i < n => if i < |db| then db[i] else if i < |live| then live[i] else IDLE)
  }

  /** `read_live_kernel_vtl_instances_segments`, an unreadable parameter giving none. */
  function LiveSegments(param: Option<string>): seq<HostSize> {
    if param.Some? then Segments(Trim(param.value)) else []
  }

  lemma {:induction false} SegmentsInRange(found: seq<Option<HostSize>>)
    requires forall i :: 0 <= i < |found| && found[i].Some? ==> InRange(found[i].value)
    ensures forall z :: z in KeepSome(found) ==> InRange(z)
  {
    if found != [] {
      SegmentsInRange(found[1..]);
    }
  }

  lemma LiveInRange(param: Option<string>)
    ensures forall z :: z in LiveSegments(param) ==> InRange(z)
  {
    if param.Some? {
      var f := Fields(Trim(param.value));
      SegmentsInRange(seq(|f|, i requires 0 <= i < |f| => Segment(f[i])));
    }
  }

  lemma PrintedIsTrim(z: HostSize)
    ensures Trim(PrintSize(z)) == PrintSize(z) != []
  {
    hide PrintInt, IsWhite, Trim;
    PrintIntIsPlain(z.drives);
    PrintIntIsPlain(z.slots);
    var s := PrintSize(z);
    assert s[0] == PrintInt(z.drives)[0] && s[|s| - 1] == PrintInt(z.slots)[|PrintInt(z.slots)| - 1];
    TrimPlain(s);
  }

  lemma JoinedIs(parts: seq<string>, g: seq<HostSize>)
    requires parts == PrintParts(g)
    ensures Join(parts) == PrintSpec(g)
  {
  }

  /** `build_vtl_instances_kernel_spec_padded` */
  method BuildPaddedSpec(db: Db, ids: seq<int>, param: Option<string>, nHosts: nat)
    returns (r: Result<string, SpecError>)
    ensures r.Err? <==> forall p :: 0 <= p < Taken(ids) ==> !HasRows(db, ids[p])
    ensures r.Ok? ==> r.value == PrintSpec(Padded(Compact(LibrariesOf(db, ids)), LiveSegments(param), nHosts))
    ensures r.Ok? && 1 <= nHosts <= 8 ==> HostsKept(db, ids, param, nHosts, r.value)
  {
    hide PrintSize, Trim, Segments, Fields, HasRows, Compact, NamesOwnSizes, HostsKept, PrintSpec;
    ghost var own := Compact(LibrariesOf(db, ids));
    EmptyCompactIff(db, ids);
    var compact := BuildKernelSpec(db, ids);
    if compact.Err? { return Err(compact.error); }
    PrintedFields(own);
    var dbParts := NonEmptyTrimmed(Fields(compact.value), own);
    var live := FillIdle(LiveSegments(param), nHosts);
    var parts := JoinHosts(dbParts, live, nHosts, own, LiveSegments(param));
    JoinedIs(parts, Padded(own, LiveSegments(param), nHosts));
    if 1 <= nHosts <= 8 { PaddedHosts(db, ids, param, nHosts); }
    return Ok(Join(parts));
  }

  /** `live.resize(n_hosts, fill)`, never shortening. */
  method FillIdle(found: seq<HostSize>, n: nat) returns (live: seq<HostSize>)
    ensures |live| == if |found| < n then n else |found|
    ensures forall i :: 0 <= i < |live| ==> live[i] == if i < |found| then found[i] else IDLE
  {
    live := found;
    while |live| < n
      invariant |found| <= |live| && (|live| > |found| ==> |live| <= n)
      invariant forall i :: 0 <= i < |live| ==> live[i] == if i < |found| then found[i] else IDLE
    {
      live := live + [IDLE];
    }
  }

  /** The loop over the hosts. */
  method JoinHosts(dbParts: seq<string>, live: seq<HostSize>, n: nat, ghost db: seq<HostSize>,
                   ghost found: seq<HostSize>)
    returns (parts: seq<string>)
    requires dbParts == PrintParts(db) && |live| >= n
    requires forall i :: 0 <= i < |live| ==> live[i] == if i < |found| then found[i] else IDLE
    ensures parts == PrintParts(Padded(db, found, n))
  {
    hide PrintSize;
    ghost var g := Padded(db, found, n);
    parts := [];
    for i := 0 to n
      invariant parts == PrintParts(g[..i])
    {
      parts := parts + [if i < |dbParts| then dbParts[i] else PrintSize(live[i])];
    }
    assert g[..n] == g;
  }

  /** The fields trimmed, empty ones left out; of a printed geometry that is every field. */
  method NonEmptyTrimmed(fields: seq<string>, ghost g: seq<HostSize>) returns (parts: seq<string>)
    requires fields == PrintParts(g)
    ensures parts == PrintParts(g)
  {
    hide PrintSize, Trim;
    parts := [];
    for i := 0 to |fields|
      invariant parts == PrintParts(g[..i])
    {
      PrintedIsTrim(g[i]);
      var t := Trim(fields[i]);
      if t != [] { parts := parts + [t]; }
    }
    assert g[..|g|] == g;
  }

  /**
   * `n` hosts for both parsers: the catalog's come first, each of its library's own size, and the idle
   * ones behind keep what the kernel has or are as large as a host can be.
   */
  ghost predicate HostsKept(db: Db, ids: seq<int>, param: Option<string>, n: nat, text: string) {
    && Parse(text).Some?
    && var g, live, own := Parse(text).value, LiveSegments(param), Rank(db, ids, Taken(ids));
    && |g| == n == CountSegments(text) && Segments(text) == g
    && (forall p :: 0 <= p < Taken(ids) && HasRows(db, ids[p]) && Rank(db, ids, p) < n ==>
          OwnSize(db, ids[p], g[Rank(db, ids, p)]))
    && (forall i :: own <= i < n ==> g[i] == if i < |live| then live[i] else HostSize(8, 256))
  }

  lemma PaddedIsLayout(own: seq<HostSize>, param: Option<string>, n: nat)
    requires 1 <= n <= MAX_HOSTS && forall i :: 0 <= i < |own| ==> InRange(own[i])
    ensures IsLayout(Padded(own, LiveSegments(param), n))
  {
    hide LiveSegments;
    LiveInRange(param);
  }

  lemma PaddedHosts(db: Db, ids: seq<int>, param: Option<string>, n: nat)
    requires 1 <= n <= MAX_HOSTS
    ensures HostsKept(db, ids, param, n, PrintSpec(Padded(Compact(LibrariesOf(db, ids)), LiveSegments(param), n)))
  {
    hide Compact, LiveSegments, Parse, Segments, PrintSpec, CountSegments, HasRows, OwnSize, Rank;
    var own := Compact(LibrariesOf(db, ids));
    PaddedIsLayout(own, param, n);
    ParsersAgreeOnPrinted(Padded(own, LiveSegments(param), n));
    CompactIsOwn(db, ids);
  }

  /** Once the kernel has taken the padded text over, padding again changes nothing. */
  lemma PaddedIsFixedPoint(own: seq<HostSize>, param: Option<string>, n: nat)
    requires 1 <= n <= MAX_HOSTS && forall i :: 0 <= i < |own| ==> InRange(own[i])
    ensures var g := Padded(own, LiveSegments(param), n);
            Padded(own, LiveSegments(Some(PrintSpec(g))), n) == g
  {
    hide Segments, PrintSpec, Parse, CountSegments;
    var g := Padded(own, LiveSegments(param), n);
    PaddedIsLayout(own, param, n);
    ParsersAgreeOnPrinted(g);
    PrintedSpecIsTrim(g);
  }

  lemma PrintedSpecIsTrim(g: seq<HostSize>)
    requires g != []
    ensures Trim(PrintSpec(g)) == PrintSpec(g)
  {
    hide PrintInt, IsWhite, Trim;
    JoinEnds(PrintParts(g));
    forall z ensures var s := PrintSize(z); s != [] && !IsWhite(s[0]) && !IsWhite(s[|s| - 1]) {
      PlainEnds(z);
    }
    TrimPlain(PrintSpec(g));
  }

  lemma PlainEnds(z: HostSize)
    ensures var s := PrintSize(z); s != [] && !IsWhite(s[0]) && !IsWhite(s[|s| - 1])
  {
    hide PrintInt, IsWhite;
    PrintIntIsPlain(z.drives);
    PrintIntIsPlain(z.slots);
    var s := PrintSize(z);
    assert s[0] == PrintInt(z.drives)[0] && s[|s| - 1] == PrintInt(z.slots)[|PrintInt(z.slots)| - 1];
  }

  lemma {:induction false} JoinEnds(parts: seq<string>)
    requires parts != [] && forall i :: 0 <= i < |parts| ==> parts[i] != []
    ensures var s, last := Join(parts), parts[|parts| - 1];
            s != [] && s[0] == parts[0][0] && s[|s| - 1] == last[|last| - 1]
  {
    if |parts| > 1 {
      JoinEnds(parts[1..]);
      EndsOfConcat(parts[0], Join(parts[1..]));
    }
  }

  lemma EndsOfConcat(a: string, b: string)
    requires a != [] && b != []
    ensures var s := a + "," + b; s != [] && s[0] == a[0] && s[|s| - 1] == b[|b| - 1]
  {
  }

  // ---------------------------------------------------------------- the ninth library

  /** A ninth library behind an empty shell gets the index of an idle host, not one of its own. */
  lemma NinthLibraryExample(db: Db, ids: seq<int>, param: Option<string>)
    requires |ids| == 9 && !HasRows(db, ids[0]) && forall i :: 1 <= i < 9 ==> HasRows(db, ids[i])
    ensures var k, own := Rank(db, ids, 8), Compact(LibrariesOf(db, ids));
            && k == 7 == |own|
            && Padded(own, LiveSegments(param), 8)[k]
               == if k < |LiveSegments(param)| then LiveSegments(param)[k] else IDLE
  {
    hide LiveSegments, HasRows, Compact, Rank;
    CompactIsOwn(db, ids);
    RankBehindShell(db, ids, 8);
  }

  lemma {:induction false} RankBehindShell(db: Db, ids: seq<int>, n: nat)
    requires 1 <= n <= |ids| && !HasRows(db, ids[0]) && forall i :: 1 <= i < |ids| ==> HasRows(db, ids[i])
    ensures Rank(db, ids, n) == n - 1
  {
    hide HasRows, Rank;
    RankGrows(db, ids, n - 1);
    if n > 1 { RankBehindShell(db, ids, n - 1); }
    else { ExportIndexIsKernelIndexIff(db, ids, 0); }
  }
}
