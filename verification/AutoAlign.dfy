/** The reconciliation commands: inventory, drifts, pull and auto-align, on catalog and changer objects. */
module AutoAlign {
  import opened Common
  import opened Elements
  import opened Media
  import Inv = Inventory
  import opened Catalog
  import opened CatalogStore
  import opened Reconcile
  import opened PullPlacement

  // ---------------------------------------------------------------- db_inventory

  /** `out` is the inventory of the locations `done`. */
  ghost predicate Scanned(db: Db, lib: int, done: set<MediumLocation>, out: Inventory) {
    && (forall loc, name :: loc in done && HoldsName(db, lib, loc, name) ==> name in out && out[name] == loc)
    && (forall name :: name in out ==> out[name] in done && HoldsName(db, lib, out[name], name))
  }

  /** One query of `db_inventory`, its rows in any order; a name met twice is an error. */
  method ScanRows(store: Database, lib: int, locs: set<MediumLocation>, out: Inventory, ghost done: set<MediumLocation>)
    returns (r: Result<Inventory, Error>)
    requires Scanned(store.State(), lib, done, out) && locs !! done
    ensures r.Ok? ==> Scanned(store.State(), lib, done + locs, r.value)
    ensures r.Err? ==> r.error == DuplicateInventory && Ambiguous(store.State(), lib)
  {
    ghost var db := store.State();
    var m, todo := out, locs;
    while exists loc :: loc in todo
      invariant todo <= locs && Scanned(db, lib, done + (locs - todo), m)
      decreases todo
    {
      var loc :| loc in todo;
      todo := todo - {loc};
      ghost var before := done + (locs - todo) - {loc};
      var id := Occupant(Db(store.tapes, store.slots, store.drives, store.shelves), lib, loc);
      if id.Some? && id.value in store.tapes {
        var name := store.tapes[id.value].name;
        assert HoldsName(db, lib, loc, name);
        if name in m {
          assert m[name] != loc && HoldsName(db, lib, m[name], name);
          return Err(DuplicateInventory);
        }
        m := m[name := loc];
      }
      assert done + (locs - todo) == before + {loc};
    }
    assert done + (locs - todo) == done + locs;
    return Ok(m);
  }

  /** `db_inventory`: the data slots, then the drives, then the mailslots. */
  method DbInventory(store: Database, lib: int) returns (r: Result<Inventory, Error>)
    ensures r.Ok? ==> IsInventory(store.State(), lib, r.value)
    ensures r.Err? <==> Ambiguous(store.State(), lib)
    ensures r.Err? ==> r.error == DuplicateInventory
  {
    ghost var db := store.State();
    var data := set k | k in store.slots && k.0 == lib && !store.slots[k].importExport :: DataSlot(k.1);
    var drives := set k | k in store.drives && k.0 == lib :: Drive(k.1);
    var mail := set k | k in store.slots && k.0 == lib && store.slots[k].importExport :: MailSlot(k.1);
    r := ScanRows(store, lib, data, map[], {});
    if r.Err? { return; }
    r := ScanRows(store, lib, drives, r.value, {} + data);
    if r.Err? { return; }
    r := ScanRows(store, lib, mail, r.value, {} + data + drives);
    if r.Err? { return; }
    forall loc | RowExists(db, lib, loc) ensures loc in {} + data + drives + mail {
      match loc
      case DataSlot(s) => assert (lib, s) in store.slots && DataSlot((lib, s).1) in data;
      case MailSlot(s) => assert (lib, s) in store.slots && MailSlot((lib, s).1) in mail;
      case Drive(d) => assert (lib, d) in store.drives && Drive((lib, d).1) in drives;
    }
  }

  // ---------------------------------------------------------------- find_drifts

  /** Rust's order on strings. */
  predicate LexLess(a: string, b: string) {
    b != [] && (a == [] || a[0] < b[0] || (a[0] == b[0] && LexLess(a[1..], b[1..])))
  }

  lemma {:induction false} LexTotal(a: string, b: string)
    ensures a != b ==> LexLess(a, b) || LexLess(b, a)
  {
    if a != [] && b != [] && a[0] == b[0] {
      LexTotal(a[1..], b[1..]);
      assert a == [a[0]] + a[1..] && b == [b[0]] + b[1..];
    }
  }

  lemma {:induction false} LexTransitive(a: string, b: string, c: string)
    requires LexLess(a, b) && LexLess(b, c)
    ensures LexLess(a, c)
  {
    if a != [] && a[0] == b[0] == c[0] {
      LexTransitive(a[1..], b[1..], c[1..]);
    }
  }

  ghost predicate Ascending(s: seq<DriftItem>) {
    forall i, j :: 0 <= i < j < |s| ==> LexLess(s[i].tape, s[j].tape)
  }

  /** One item put where `sort_by` on the tape name leaves it. */
  method InsertSorted(s: seq<DriftItem>, item: DriftItem) returns (r: seq<DriftItem>)
    requires Ascending(s) && forall d :: d in s ==> d.tape != item.tape
    ensures Ascending(r) && |r| == |s| + 1 && forall d :: d in r <==> d == item || d in s
  {
    var i := 0;
    while i < |s| && LexLess(s[i].tape, item.tape)
      invariant 0 <= i <= |s|
      invariant forall j :: 0 <= j < i ==> LexLess(s[j].tape, item.tape)
    {
      i := i + 1;
    }
    r := s[..i] + [item] + s[i..];
    forall j | i <= j < |s| ensures LexLess(item.tape, s[j].tape) {
      LexTotal(item.tape, s[i].tape);
      if i < j { LexTransitive(item.tape, s[i].tape, s[j].tape); }
    }
    assert forall d :: d in s <==> d in s[..i] || d in s[i..];
  }

  /** `find_drifts`: whatever order the name set is walked in, the same ascending list. */
  method FindDrifts(db: Inventory, kernel: Inventory) returns (out: seq<DriftItem>)
    ensures Ascending(out) && forall d :: d in out <==> IsDrift(db, kernel, d)
    ensures out == [] <==> db == kernel
  {
    out := [];
    var todo := db.Keys + kernel.Keys;
    while exists n :: n in todo
      invariant todo <= db.Keys + kernel.Keys && Ascending(out)
      invariant forall d :: d in out <==> IsDrift(db, kernel, d) && d.tape !in todo
      decreases todo
    {
      var tape :| tape in todo;
      todo := todo - {tape};
      var item := DriftItem(tape, Get(db, tape), Get(kernel, tape));
      if item.db != item.kernel {
        out := InsertSorted(out, item);
      }
    }
    EmptyIffEqual(db, kernel, out);
  }

  lemma EmptyIffEqual(db: Inventory, kernel: Inventory, out: seq<DriftItem>)
    requires forall d :: d in out <==> IsDrift(db, kernel, d)
    ensures out == [] <==> db == kernel
  {
    if out != [] {
      assert IsDrift(db, kernel, out[0]);
    } else {
      forall n ensures Get(db, n) == Get(kernel, n) {
        assert !IsDrift(db, kernel, DriftItem(n, Get(db, n), Get(kernel, n)));
      }
      forall n | n in db ensures n in kernel && db[n] == kernel[n] {
        assert Get(db, n) == Get(kernel, n);
      }
      forall n | n in kernel ensures n in db {
        assert Get(db, n) == Get(kernel, n);
      }
    }
  }

  /** In the catalog the tape `name` is at `loc`, or at no location of the library. */
  ghost predicate StandsAt(db: Db, lib: int, name: string, loc: Option<MediumLocation>) {
    match loc
    case Some(at) => HoldsName(db, lib, at, name)
    case None => forall at :: !HoldsName(db, lib, at, name)
  }

  /** In the kernel's map it is. */
  predicate MappedAt(kernel: Inventory, name: string, loc: Option<MediumLocation>) {
    match loc
    case Some(at) => name in kernel && kernel[name] == at
    case None => name !in kernel
  }

  /**
   * The full answer of a comparison: in ascending order one item for each tape that catalog and kernel
   * have at different locations, with these two locations, and no other item.
   */
  ghost predicate ListsDifferences(db: Db, lib: int, kernel: Inventory, drifts: seq<DriftItem>) {
    && Ascending(drifts)
    && forall d :: d in drifts <==>
         StandsAt(db, lib, d.tape, d.db) && MappedAt(kernel, d.tape, d.kernel) && d.db != d.kernel
  }

  lemma DriftsAreDifferences(db: Db, lib: int, inv: Inventory, kernel: Inventory, drifts: seq<DriftItem>)
    requires IsInventory(db, lib, inv) && Ascending(drifts) && forall d :: d in drifts <==> IsDrift(inv, kernel, d)
    ensures ListsDifferences(db, lib, kernel, drifts)
  {
    forall d ensures IsDrift(inv, kernel, d) <==>
                     StandsAt(db, lib, d.tape, d.db) && MappedAt(kernel, d.tape, d.kernel) && d.db != d.kernel
    {
      assert d.tape in inv ==> HoldsName(db, lib, inv[d.tape], d.tape);
    }
  }

  ghost predicate SameLocation(db: Db, lib: int, kernel: Inventory, name: string) {
    forall at :: HoldsName(db, lib, at, name) <==> name in kernel && kernel[name] == at
  }

  function CatalogNames(db: Db): set<string> { set id | id in db.tapes :: db.tapes[id].name }

  /** The names that catalog and kernel do not have at the same location. */
  ghost function DifferingNames(db: Db, lib: int, kernel: Inventory): set<string> {
    set name | name in kernel.Keys + CatalogNames(db) && !SameLocation(db, lib, kernel, name)
  }

  /** A full answer has one item for each of them. */
  lemma CountOfDifferences(db: Db, lib: int, inv: Inventory, kernel: Inventory, drifts: seq<DriftItem>)
    requires IsInventory(db, lib, inv) && ListsDifferences(db, lib, kernel, drifts)
    ensures |drifts| == |DifferingNames(db, lib, kernel)|
  {
    hide HoldsName;
    var names := set i | 0 <= i < |drifts| :: drifts[i].tape;
    forall name ensures name in names <==> name in DifferingNames(db, lib, kernel) {
      if name in names {
        var i :| 0 <= i < |drifts| && drifts[i].tape == name;
        DifferenceIsOne(db, lib, inv, kernel, drifts[i]);
      }
      if name in DifferingNames(db, lib, kernel) {
        var d := DriftItem(name, Get(inv, name), Get(kernel, name));
        assert StandsAt(db, lib, name, d.db) && MappedAt(kernel, name, d.kernel);
        assert d in drifts;
      }
    }
    assert names == DifferingNames(db, lib, kernel);
    AscendingNamesDiffer(drifts);
  }

  lemma DifferenceIsOne(db: Db, lib: int, inv: Inventory, kernel: Inventory, d: DriftItem)
    requires IsInventory(db, lib, inv)
    requires StandsAt(db, lib, d.tape, d.db) && MappedAt(kernel, d.tape, d.kernel) && d.db != d.kernel
    ensures d.tape in DifferingNames(db, lib, kernel)
  {
    if d.db.Some? {
      assert HoldsName(db, lib, d.db.value, d.tape);
      var id := Occupant(db, lib, d.db.value).value;
      assert db.tapes[id].name in CatalogNames(db);
    } else {
      assert !HoldsName(db, lib, d.kernel.value, d.tape);
    }
  }

  lemma {:induction false} AscendingNamesDiffer(drifts: seq<DriftItem>)
    requires Ascending(drifts)
    ensures |set i | 0 <= i < |drifts| :: drifts[i].tape| == |drifts|
  {
    if drifts != [] {
      var init, last := drifts[..|drifts| - 1], drifts[|drifts| - 1];
      AscendingNamesDiffer(init);
      var all, before := set i | 0 <= i < |drifts| :: drifts[i].tape, set i | 0 <= i < |init| :: init[i].tape;
      forall n | n in before ensures n != last.tape {
        var i :| 0 <= i < |init| && init[i].tape == n;
        LexIrreflexive(n);
      }
      forall n ensures n in all <==> n in before + {last.tape} {
        if n in all {
          var i :| 0 <= i < |drifts| && drifts[i].tape == n;
          assert i < |init| ==> init[i].tape == n;
        }
        if n in before {
          var i :| 0 <= i < |init| && init[i].tape == n;
          assert drifts[i].tape == n;
        }
      }
      assert all == before + {last.tape};
    }
  }

  lemma {:induction false} LexIrreflexive(a: string)
    ensures !LexLess(a, a)
  {
    if a != [] { LexIrreflexive(a[1..]); }
  }

  // ---------------------------------------------------------------- apply_kernel_to_db

  /** The two opening UPDATEs. */
  method ClearElements(store: Database, lib: int)
    requires store.Valid()
    modifies store`slots, store`drives
    ensures store.Valid() && store.State() == ClearLibrary(old(store.State()), lib)
  {
    store.slots := map k | k in store.slots ::
      if k.0 == lib then store.slots[k].(tape := None) else store.slots[k];
    store.drives := map k | k in store.drives :: if k.0 == lib then None else store.drives[k];
  }

  /** `apply_kernel_to_db`: the loop walks the map in an order of its own, returned as `order`. */
  method ApplyKernelToDb(store: Database, lib: int, kernel: Inventory) returns (n: nat, ghost order: seq<string>)
    requires store.Valid()
    modifies store
    ensures store.Valid() && IsOrder(order, kernel)
    ensures store.State() == Pull(old(store.State()), lib, kernel, order)
    ensures n == |KnownNames(old(store.State()), lib, kernel)|
  {
    hide PullOne, ClearLibrary, DropHints, PullAll, TapeId;
    ghost var before, cleared := store.State(), ClearLibrary(store.State(), lib);
    ClearElements(store, lib);
    n, order := 0, [];
    NothingPulled(cleared, lib, kernel);
    ghost var found: set<string> := {};
    var todo := kernel.Keys;
    while exists name :: name in todo
      invariant store.Valid() && todo <= kernel.Keys && n == |found|
      invariant forall name :: name in found <==> name in order && TapeId(before, lib, name).Some?
      invariant forall name :: name in order <==> name in kernel && name !in todo
      invariant forall i, j :: 0 <= i < j < |order| ==> order[i] != order[j]
      invariant store.State() == PullAll(cleared, lib, kernel, order)
      decreases todo
    {
      var name :| name in todo;
      todo := todo - {name};
      PullKeepsIds(before, lib, kernel, order, name);
      var known := PullTape(store, lib, name, kernel[name]);
      if known {
        n := n + 1;
        found := found + {name};
      }
      OneMorePulled(cleared, lib, kernel, order, name);
      order := order + [name];
    }
    assert found == KnownNames(before, lib, kernel);
    DropStaleHints(store, lib);
  }

  /** The names of the map that the catalog knows. */
  ghost function KnownNames(db: Db, lib: int, kernel: Inventory): set<string> {
    set name | name in kernel && TapeId(db, lib, name).Some?
  }

  lemma NothingPulled(d: Db, lib: int, kernel: Inventory)
    ensures PullAll(d, lib, kernel, []) == d
  {
  }

  lemma OneMorePulled(d: Db, lib: int, kernel: Inventory, order: seq<string>, name: string)
    requires name in kernel && forall n :: n in order ==> n in kernel
    ensures PullAll(d, lib, kernel, order + [name]) == PullOne(PullAll(d, lib, kernel, order), lib, name, kernel[name])
  {
    assert (order + [name])[..|order|] == order;
  }

  /** Names mean the same tapes throughout the loop. */
  lemma PullKeepsIds(db: Db, lib: int, kernel: Inventory, order: seq<string>, name: string)
    requires UniqueNames(db.tapes) && forall n :: n in order ==> n in kernel
    ensures TapeId(PullAll(ClearLibrary(db, lib), lib, kernel, order), lib, name) == TapeId(db, lib, name)
  {
    PullArises(db, lib, kernel, order);
    SameIds(db, PullAll(ClearLibrary(db, lib), lib, kernel, order), lib, name);
  }

  /** One turn of the loop: the element row, then the tape row. */
  method PullTape(store: Database, lib: int, name: string, loc: MediumLocation) returns (known: bool)
    requires store.Valid()
    modifies store
    ensures store.Valid() && store.State() == PullOne(old(store.State()), lib, name, loc)
    ensures known <==> TapeId(old(store.State()), lib, name).Some?
  {
    var found := store.FindTape(lib, name);
    if found.None? { return false; }
    var id := found.value;
    match loc {
      case DataSlot(slot) =>
        store.UpdateSlot((lib, slot), Some(id));
        store.UpdateShelfAndSlot(id, None, Some(slot));
      case Drive(drive) =>
        store.UpdateDrive((lib, drive), Some(id));
        store.UpdateShelfAndSlot(id, None, None);
      case MailSlot(slot) =>
        store.UpdateSlot((lib, slot), Some(id));
        store.UpdateShelfAndSlot(id, None, Some(slot));
    }
    return true;
  }

  /** The closing UPDATE with its two subqueries. */
  method DropStaleHints(store: Database, lib: int)
    requires store.Valid()
    modifies store`tapes
    ensures store.Valid() && store.State() == DropHints(old(store.State()), lib)
  {
    var inSlots := set k | k in store.slots && k.0 == lib && store.slots[k].tape.Some? :: store.slots[k].tape.value;
    var inDrives := set k | k in store.drives && k.0 == lib && store.drives[k].Some? :: store.drives[k].value;
    ghost var db := store.State();
    forall id ensures id in inSlots <==> InSlotOf(db, lib, id) {
      if id in inSlots {
        var k :| k in store.slots && k.0 == lib && store.slots[k].tape == Some(id);
        assert SlotHolds(db, k, id);
      }
    }
    forall id ensures id in inDrives <==> InDriveOf(db, lib, id) {
      if id in inDrives {
        var k :| k in store.drives && k.0 == lib && store.drives[k] == Some(id);
        assert DriveHolds(db, k, id);
      }
    }
    store.tapes := map id | id in store.tapes ::
      if store.tapes[id].library == lib && store.tapes[id].shelf == None && id !in inSlots && id !in inDrives
      then store.tapes[id].(slot := None) else store.tapes[id];
  }

  // ---------------------------------------------------------------- evacuation

  /** `after` is `before` without some occupied elements. */
  ghost predicate Evacuated(before: map<int, Tape>, after: map<int, Tape>) {
    forall a :: a in after ==> a in before && after[a] == before[a]
  }

  /** And only media named in `names` are gone. */
  ghost predicate LostAmong(before: map<int, Tape>, after: map<int, Tape>, names: set<string>) {
    && Evacuated(before, after)
    && forall a :: a in before && a !in after ==> before[a].name != "" && before[a].name in names
  }

  /** The contents without every medium so named; an unnamed medium is in no snapshot and stays. */
  ghost function Without(contents: map<int, Tape>, names: set<string>): map<int, Tape> {
    map a | a in contents && (contents[a].name == "" || contents[a].name !in names) :: contents[a]
  }

  /** The contents without the media so named that one snapshot lists. */
  ghost function WithoutSeen(contents: map<int, Tape>, names: set<string>): map<int, Tape> {
    map a | a in contents && !(a in Inv.Seen(contents) && contents[a].name != "" && contents[a].name in names)
      :: contents[a]
  }

  lemma EvacuatedSize(before: map<int, Tape>, after: map<int, Tape>)
    requires Evacuated(before, after)
    ensures |after| <= |before| && after.Values <= before.Values
  {
    assert forall a :: a in after.Keys ==> a in before.Keys && after[a] == before[a];
    Inv.SubsetSize(after.Keys, before.Keys);
    assert |after.Keys| == |after| && |before.Keys| == |before|;
  }

  lemma NothingLost(contents: map<int, Tape>)
    ensures LostAmong(contents, contents, {}) && Without(contents, {}) == contents
  {
  }

  lemma LostTwice(a: map<int, Tape>, b: map<int, Tape>, c: map<int, Tape>, m: set<string>, n: set<string>)
    requires LostAmong(a, b, m) && LostAmong(b, c, n)
    ensures LostAmong(a, c, m + n) && Evacuated(a, c)
  {
  }

  lemma WithoutTwice(contents: map<int, Tape>, m: set<string>, n: set<string>)
    ensures Without(Without(contents, m), n) == Without(contents, m + n)
  {
  }

  /** One snapshot lists the whole changer. */
  ghost predicate Listable(contents: map<int, Tape>) {
    |contents| <= Inv.MAX_ITEMS && Inv.DistinctNames(contents)
  }

  /** Evacuating keeps the changer listable. */
  lemma StaysListable(before: map<int, Tape>, after: map<int, Tape>, names: set<string>)
    requires LostAmong(before, after, names) && Listable(before)
    ensures Listable(after)
  {
    EvacuatedSize(before, after);
  }

  /** The kernel's inventory, with its errors as the commands report them. */
  method Snapshot(ch: Changer) returns (r: Result<Inv.Snapshot, Error>)
    requires ch.Valid()
    ensures r.Ok? ==> r.value.truncated == (|ch.Contents()| > Inv.MAX_ITEMS)
    ensures r.Ok? <==> Inv.DistinctNames(Inv.Seen(ch.Contents()))
    ensures r.Ok? ==> Inv.IsDecoded(Inv.Seen(ch.Contents()), r.value.locations)
    ensures r.Ok? ==> Inv.DecodesSome(ch.Contents(), r.value.locations)
    ensures r.Err? ==> r.error == DuplicateInventory
    ensures |ch.Contents()| <= Inv.MAX_ITEMS ==>
              Inv.Seen(ch.Contents()) == ch.Contents() && (r.Ok? <==> Listable(ch.Contents()))
  {
    var snap := Inv.KernelSnapshot(ch);
    return if snap.Ok? then Ok(snap.value) else Err(DuplicateInventory);
  }

  /** `evacuate_element`: the removal of an occupied element succeeds. */
  method EvacuateElement(ch: Changer, elem: int, ghost known: set<Tape>)
    requires ch.Valid() && ch.Contents().Values <= known && elem in ch.Contents()
    modifies ch.slots, ch.mailslots, ch.drives, known`loaded
    ensures ch.Valid() && ch.Contents().Values <= known && ch.Geom() == old(ch.Geom())
    ensures ch.Contents() == old(ch.Contents()) - {elem}
    ensures ch.Abs(known) == RemoveFrom(old(ch.Abs(known)), elem)
  {
    ghost var before := ch.Abs(known);
    ContentsInGeometry(ch, elem);
    var ret := ch.RemoveMedium(elem, known);
    assert ret == OK;
    assert ch.Contents() == ch.Abs(known).contents == before.contents - {elem};
  }

  /** The one seen medium of that name; there is none other when seen names are distinct. */
  ghost predicate SeenAt(contents: map<int, Tape>, a: int, name: string) {
    a in Inv.Seen(contents) && contents[a].name == name && name != ""
  }

  /** What evacuating one tape makes of the changer: nothing unless a snapshot can be had and lists the tape. */
  ghost function Evacuate(s: State, name: string): State {
    if Inv.DistinctNames(Inv.Seen(s.contents)) && exists a :: SeenAt(s.contents, a, name)
    then var a :| SeenAt(s.contents, a, name); RemoveFrom(s, a)
    else s
  }

  /** In a snapshot a named tape is listed at its one seen element, or is not seen. */
  lemma SnapshotNames(contents: map<int, Tape>, locations: map<string, MediumLocation>, name: string)
    requires Inv.IsDecoded(Inv.Seen(contents), locations) && Inv.DistinctNames(Inv.Seen(contents))
    ensures name !in locations ==> (forall a :: !SeenAt(contents, a, name)) && WithoutSeen(contents, {name}) == contents
    ensures name in locations ==>
              var elem := ToElement(locations[name]);
              && elem in contents && contents[elem].name == name != ""
              && (forall a :: SeenAt(contents, a, name) <==> a == elem)
                 && WithoutSeen(contents, {name}) == contents - {elem}
  {
    if name in locations {
      var a :| a in Inv.Seen(contents) && contents[a].name == name && name != "";
      EncodeInvertsDecode(a);
      assert SeenAt(contents, a, name);
    }
  }

  lemma EvacuateRemoves(s: State, locations: map<string, MediumLocation>, name: string)
    requires Inv.IsDecoded(Inv.Seen(s.contents), locations) && Inv.DistinctNames(Inv.Seen(s.contents))
    ensures Evacuate(s, name) == if name in locations then RemoveFrom(s, ToElement(locations[name])) else s
  {
    hide RemoveFrom, SeenAt, WithoutSeen, Inv.DistinctNames, Inv.IsDecoded;
    SnapshotNames(s.contents, locations, name);
    if name in locations { assert SeenAt(s.contents, ToElement(locations[name]), name); }
  }

  /**
   * `evacuate_tape_from_changer`: one snapshot, and the element it names for the tape removed; that
   * element is occupied, so the removal cannot fail. A tape the snapshot does not list stays where it
   * is, and the call succeeds all the same.
   */
  method EvacuateTape(ch: Changer, name: string, ghost known: set<Tape>) returns (ok: bool)
    requires ch.Valid() && ch.Contents().Values <= known
    modifies ch.slots, ch.mailslots, ch.drives, known`loaded
    ensures ch.Valid() && ch.Contents().Values <= known && ch.Geom() == old(ch.Geom())
    ensures ok <==> Inv.DistinctNames(Inv.Seen(old(ch.Contents())))
    ensures ch.Contents() == if ok then WithoutSeen(old(ch.Contents()), {name}) else old(ch.Contents())
    ensures ch.Abs(known) == Evacuate(old(ch.Abs(known)), name)
    ensures LostAmong(old(ch.Contents()), ch.Contents(), {name})
    ensures Listable(old(ch.Contents())) ==> ok && ch.Contents() == Without(old(ch.Contents()), {name})
  {
    hide Inv.IsDecoded, Inv.DistinctNames, Inv.DecodesSome, Inv.Seen, Without, WithoutSeen, LostAmong, SeenAt,
         RemoveFrom, Changer.Valid, Changer.Contents;
    ghost var before := ch.Contents();
    NothingLost(before);
    LostMore(before, before, {}, {name});
    WithoutAllSeen(before, {name});
    var snap := Snapshot(ch);
    if snap.Err? { return false; }
    SnapshotNames(before, snap.value.locations, name);
    EvacuateRemoves(ch.Abs(known), snap.value.locations, name);
    if name in snap.value.locations {
      var elem := ToElement(snap.value.locations[name]);
      EvacuateElement(ch, elem, known);
      OneLost(before, elem, name);
    }
    return true;
  }

  lemma WithoutAllSeen(contents: map<int, Tape>, names: set<string>)
    ensures Listable(contents) ==>
              WithoutSeen(contents, names) == Without(contents, names) && Inv.DistinctNames(Inv.Seen(contents))
  {
    if Listable(contents) { Inv.AllSeen(contents); }
  }

  lemma OneLost(before: map<int, Tape>, elem: int, name: string)
    requires elem in before && before[elem].name == name != ""
    ensures LostAmong(before, before - {elem}, {name})
  {
  }

  lemma ContentsInGeometry(ch: Changer, a: int)
    requires ch.Valid() && a in ch.Contents()
    ensures IsAddress(ch.Geom(), a)
  {
  }

  function ShelvedNames(tapes: map<int, TapeRow>, lib: int): set<string> {
    set id | id in tapes && tapes[id].library == lib && tapes[id].shelf.Some? :: tapes[id].name
  }

  /** The names are those of exactly the tapes of the library whose place is a shelf. */
  lemma ShelvedStand(db: Db, lib: int, name: string)
    ensures name in ShelvedNames(db.tapes, lib) <==>
            exists id, h :: id in db.tapes && db.tapes[id].name == name && Where(db)[id] == (lib, AtShelf(h))
  {
    if id :| id in db.tapes && db.tapes[id].library == lib && db.tapes[id].shelf.Some? && db.tapes[id].name == name {
      assert Where(db)[id] == (lib, AtShelf(db.tapes[id].shelf.value));
    }
  }

  /** Part of a changer has at most as many media in front of an address, and no name twice that the whole has once. */
  lemma SeenInPart(start: map<int, Tape>, part: map<int, Tape>)
    requires Evacuated(start, part)
    ensures forall a :: a in part && a in Inv.Seen(start) ==> a in Inv.Seen(part)
    ensures Inv.DistinctNames(start) ==> Inv.DistinctNames(part) && Inv.DistinctNames(Inv.Seen(part))
  {
    forall a | a in part && a in Inv.Seen(start) ensures a in Inv.Seen(part) {
      Inv.SubsetSize(Inv.Below(part, a), Inv.Below(start, a));
    }
  }

  /** Taking a name seen at the start from what is left takes exactly the one medium so named. */
  lemma OneTaken(start: map<int, Tape>, done: set<string>, name: string, a: int)
    requires Inv.DistinctNames(start) && name !in done && SeenAt(start, a, name)
    ensures var part := WithoutSeen(start, done);
            && a in part && WithoutSeen(part, {name}) == part - {a} == WithoutSeen(start, done + {name})
  {
    hide Inv.Seen;
    var part := WithoutSeen(start, done);
    SeenIsPart(start);
    SeenIsPart(part);
    SeenInPart(start, part);
    assert forall b :: b in start && start[b].name == name ==> b == a;
  }

  lemma SeenIsPart(contents: map<int, Tape>)
    ensures Evacuated(contents, Inv.Seen(contents))
  {
  }

  lemma NoneTaken(start: map<int, Tape>, done: set<string>, name: string)
    requires forall a :: !SeenAt(start, a, name)
    ensures WithoutSeen(start, done + {name}) == WithoutSeen(start, done)
  {
    hide Inv.Seen;
    forall a | a in start ensures a in WithoutSeen(start, done + {name}) <==> a in WithoutSeen(start, done) {
      assert !SeenAt(start, a, name);
    }
  }

  lemma OneLess(contents: map<int, Tape>, a: int)
    requires a in contents
    ensures |contents - {a}| == |contents| - 1
  {
    assert (contents - {a}).Keys == contents.Keys - {a};
    assert |contents - {a}| == |contents.Keys - {a}| && |contents| == |contents.Keys|;
  }

  /**
   * `evacuate_shelved_tapes_from_kernel`: the shelved tapes of one first snapshot, in any order, each
   * by a snapshot of its own. Only they leave; with distinct names exactly those among the media seen
   * at the start, and the answer is their number.
   */
  method EvacuateShelved(store: Database, lib: int, ch: Changer, ghost known: set<Tape>) returns (r: Result<nat, Error>)
    requires ch.Valid() && ch.Contents().Values <= known
    modifies ch.slots, ch.mailslots, ch.drives, known`loaded
    ensures ch.Valid() && ch.Contents().Values <= known && ch.Geom() == old(ch.Geom())
    ensures LostAmong(old(ch.Contents()), ch.Contents(), ShelvedNames(store.tapes, lib))
    ensures r.Ok? <==> Inv.DistinctNames(Inv.Seen(old(ch.Contents())))
    ensures r.Ok? && r.value == 0 ==> ch.Contents() == old(ch.Contents())
    ensures r.Err? ==> r.error == DuplicateInventory && ch.Contents() == old(ch.Contents())
    ensures Inv.DistinctNames(old(ch.Contents())) ==>
              && r.Ok? && r.value == |old(ch.Contents())| - |ch.Contents()|
              && ch.Contents() == WithoutSeen(old(ch.Contents()), ShelvedNames(store.tapes, lib))
    ensures Listable(old(ch.Contents())) ==>
              r.Ok? && ch.Contents() == Without(old(ch.Contents()), ShelvedNames(store.tapes, lib))
  {
    hide Inv.IsDecoded, Inv.DistinctNames, Inv.DecodesSome, Inv.Seen, Changer.Valid, Changer.Contents,
         LostAmong, Evacuated, Without, WithoutSeen, ShelvedNames, SeenAt, Evacuate;
    ghost var start := ch.Contents();
    NothingLost(start);
    NothingUnseen(start);
    var names := ShelvedNames(store.tapes, lib);
    LostMore(start, start, {}, names);
    WithoutAllSeen(start, names);
    var snap := Snapshot(ch);
    if snap.Err? { return Err(snap.error); }
    var n := 0;
    var todo := names;
    assert names - todo == {};
    while exists name :: name in todo
      invariant ch.Valid() && ch.Contents().Values <= known && ch.Geom() == old(ch.Geom())
      invariant todo <= names && LostAmong(start, ch.Contents(), names - todo)
      invariant n == 0 ==> ch.Contents() == start
      invariant Inv.DistinctNames(start) ==>
                  ch.Contents() == WithoutSeen(start, names - todo) && n == |start| - |ch.Contents()|
      decreases todo
    {
      var name :| name in todo;
      ghost var before, done := ch.Contents(), names - todo;
      SnapshotNames(start, snap.value.locations, name);
      WithoutIsPart(start, done);
      SeenInPart(start, WithoutSeen(start, done));
      if name in snap.value.locations {
        ghost var elem := ToElement(snap.value.locations[name]);
        assert SeenAt(start, elem, name);
        if Inv.DistinctNames(start) {
          OneTaken(start, done, name, elem);
          OneLess(before, elem);
        }
        var ok := EvacuateTape(ch, name, known);
        LostTwice(start, before, ch.Contents(), done, {name});
        if ok { n := n + 1; }
      } else {
        NoneTaken(start, done, name);
      }
      LostMore(start, ch.Contents(), if name in snap.value.locations then done + {name} else done, done + {name});
      todo := todo - {name};
      assert names - todo == done + {name};
    }
    assert names - todo == names;
    return Ok(n);
  }

  lemma WithoutIsPart(contents: map<int, Tape>, names: set<string>)
    ensures Evacuated(contents, WithoutSeen(contents, names))
  {
  }

  lemma NothingUnseen(contents: map<int, Tape>)
    ensures WithoutSeen(contents, {}) == contents
    ensures Inv.DistinctNames(contents) ==> Inv.DistinctNames(Inv.Seen(contents))
    ensures Listable(contents) ==> Inv.DistinctNames(contents)
  {
  }

  lemma LostMore(before: map<int, Tape>, after: map<int, Tape>, m: set<string>, n: set<string>)
    requires LostAmong(before, after, m) && m <= n
    ensures LostAmong(before, after, n)
  {
  }

  lemma ListableIs(contents: map<int, Tape>)
    ensures Listable(contents) <==> |contents| <= Inv.MAX_ITEMS && Inv.DistinctNames(contents)
  {
  }

  predicate IsStranger(d: DriftItem) { d.db.None? && d.kernel.Some? }

  function StrangerNames(drifts: seq<DriftItem>): set<string> {
    set i | 0 <= i < |drifts| && IsStranger(drifts[i]) :: drifts[i].tape
  }

  lemma OneMoreStranger(drifts: seq<DriftItem>, i: nat)
    requires i < |drifts|
    ensures StrangerNames(drifts[..i + 1])
         == StrangerNames(drifts[..i]) + (if IsStranger(drifts[i]) then {drifts[i].tape} else {})
  {
    var more, less := drifts[..i + 1], drifts[..i];
    forall n | n in StrangerNames(more)
      ensures n in StrangerNames(less) || (IsStranger(drifts[i]) && n == drifts[i].tape)
    {
      var k :| 0 <= k < |more| && IsStranger(more[k]) && more[k].tape == n;
      assert k < i ==> less[k] == more[k];
    }
    forall n | n in StrangerNames(less) ensures n in StrangerNames(more) {
      var k :| 0 <= k < |less| && IsStranger(less[k]) && less[k].tape == n;
      assert more[k] == less[k];
    }
    assert more[i] == drifts[i];
  }

  /** The drifts come from a listing of `contents`: ascending, and each stranger is a medium there. */
  ghost predicate StrangersPresent(drifts: seq<DriftItem>, contents: map<int, Tape>) {
    && Ascending(drifts)
    && forall d :: d in drifts && IsStranger(d) ==>
         exists a :: a in contents && contents[a].name == d.tape && d.tape != ""
  }

  /** Each of them then takes one medium out. */
  lemma StrangerLeaves(start: map<int, Tape>, drifts: seq<DriftItem>, i: nat)
    requires Listable(start) && StrangersPresent(drifts, start) && i < |drifts| && IsStranger(drifts[i])
    ensures var left := Without(start, StrangerNames(drifts[..i])); |Without(left, {drifts[i].tape})| == |left| - 1
  {
    var name, left := drifts[i].tape, Without(start, StrangerNames(drifts[..i]));
    assert drifts[i] in drifts;
    var a :| a in start && start[a].name == name && name != "";
    assert name !in StrangerNames(drifts[..i]) by {
      LexIrreflexive(name);
    }
    assert forall b :: b in start && start[b].name == name ==> b == a;
    assert Without(left, {name}) == left - {a};
    OneLess(left, a);
  }

  /** The media the catalog knows nothing of, removed from the changer, and no others. */
  method EvacuateStrangers(drifts: seq<DriftItem>, ch: Changer, ghost known: set<Tape>) returns (n: nat)
    requires ch.Valid() && ch.Contents().Values <= known
    modifies ch.slots, ch.mailslots, ch.drives, known`loaded
    ensures ch.Valid() && ch.Contents().Values <= known && ch.Geom() == old(ch.Geom())
    ensures LostAmong(old(ch.Contents()), ch.Contents(), StrangerNames(drifts))
    ensures n == 0 ==> ch.Contents() == old(ch.Contents())
    ensures Listable(old(ch.Contents())) && StrangersPresent(drifts, old(ch.Contents())) ==>
              n == |old(ch.Contents())| - |ch.Contents()|
    ensures Listable(old(ch.Contents())) ==> ch.Contents() == Without(old(ch.Contents()), StrangerNames(drifts))
  {
    hide Inv.IsDecoded, Inv.DistinctNames, Changer.Valid, Changer.Contents, Listable, LostAmong, Without, StrangerNames,
        StrangersPresent;
    ghost var start := ch.Contents();
    NothingLost(start);
    n := 0;
    NoStrangerNames();
    assert drifts[..0] == [];
    for i := 0 to |drifts|
      invariant ch.Valid() && ch.Contents().Values <= known && ch.Geom() == old(ch.Geom())
      invariant LostAmong(start, ch.Contents(), StrangerNames(drifts[..i]))
      invariant n == 0 ==> ch.Contents() == start
      invariant Listable(start) ==> ch.Contents() == Without(start, StrangerNames(drifts[..i]))
      invariant Listable(start) && StrangersPresent(drifts, start) ==> n == |start| - |ch.Contents()|
    {
      ghost var before, done := ch.Contents(), StrangerNames(drifts[..i]);
      OneMoreStranger(drifts, i);
      if IsStranger(drifts[i]) {
        var name := drifts[i].tape;
        if Listable(start) { StaysListable(start, before, done); }
        WithoutTwice(start, done, {name});
        if Listable(start) && StrangersPresent(drifts, start) { StrangerLeaves(start, drifts, i); }
        var ok := EvacuateTape(ch, name, known);
        LostTwice(start, before, ch.Contents(), done, {name});
        if ok { n := n + 1; }
      } else {
        assert done + {} == done;
      }
    }
    assert drifts[..|drifts|] == drifts;
  }

  lemma NoStrangerNames()
    ensures StrangerNames([]) == {}
  {
  }

  // ---------------------------------------------------------------- auto-align

  datatype AlignReport = AlignReport(evacuated: nat, pullUpdates: nat, driftsRemaining: nat)

  /** The catalog has a tape of that name in some slot or drive of the library. */
  ghost predicate InRobot(db: Db, lib: int, name: string) { exists loc :: HoldsName(db, lib, loc, name) }

  /** Media so named stay in the changer. */
  ghost predicate Stays(db: Db, lib: int, name: string) {
    name == "" || (name !in ShelvedNames(db.tapes, lib) && InRobot(db, lib, name))
  }

  /**
   * What auto-align leaves of the changer's contents: the seen media named like shelved tapes go
   * first, and from the rest, which one snapshot then has to list, those the catalog does not have in
   * the robot.
   */
  ghost function Kept(db: Db, lib: int, contents: map<int, Tape>): map<int, Tape> {
    var left := WithoutSeen(contents, ShelvedNames(db.tapes, lib));
    map a | a in left && (left[a].name == "" || InRobot(db, lib, left[a].name)) :: left[a]
  }

  /** From a listable changer that is every medium that stays by its name. */
  lemma KeptOfListable(db: Db, lib: int, contents: map<int, Tape>)
    requires Listable(contents)
    ensures Kept(db, lib, contents) == map a | a in contents && Stays(db, lib, contents[a].name) :: contents[a]
    ensures |WithoutSeen(contents, ShelvedNames(db.tapes, lib))| <= Inv.MAX_ITEMS
  {
    hide InRobot, ShelvedNames;
    WithoutAllSeen(contents, ShelvedNames(db.tapes, lib));
    WithoutIsPart(contents, ShelvedNames(db.tapes, lib));
    EvacuatedSize(contents, WithoutSeen(contents, ShelvedNames(db.tapes, lib)));
  }

  /** Only media leave that the catalog shelves or does not have in the robot. */
  ghost predicate LostRightly(db: Db, lib: int, before: map<int, Tape>, after: map<int, Tape>) {
    && Evacuated(before, after)
    && forall a :: a in before && a !in after ==> !Stays(db, lib, before[a].name)
  }

  datatype Findings = Findings(inv: Inventory, drifts: seq<DriftItem>, evacuated: nat)

  lemma InventoryIsRobot(db: Db, lib: int, inv: Inventory)
    requires IsInventory(db, lib, inv)
    ensures forall name :: name in inv <==> InRobot(db, lib, name)
  {
    forall name ensures name in inv <==> InRobot(db, lib, name) {
      if name in inv { assert HoldsName(db, lib, inv[name], name); }
    }
  }

  /** The strangers among the drifts are the listed names that the catalog does not have in the robot. */
  lemma StrangersAreUnknown(db: Db, lib: int, inv: Inventory, listed: Inventory, drifts: seq<DriftItem>)
    requires IsInventory(db, lib, inv) && forall d :: d in drifts <==> IsDrift(inv, listed, d)
    ensures forall name :: name in StrangerNames(drifts) <==> name in listed && !InRobot(db, lib, name)
  {
    InventoryIsRobot(db, lib, inv);
    forall name ensures name in StrangerNames(drifts) <==> name in listed && name !in inv {
      if name in listed && name !in inv {
        var d := DriftItem(name, None, Some(listed[name]));
        assert IsDrift(inv, listed, d) && d in drifts;
        var i :| 0 <= i < |drifts| && drifts[i] == d;
      }
      if name in StrangerNames(drifts) {
        var i :| 0 <= i < |drifts| && IsStranger(drifts[i]) && drifts[i].tape == name;
        assert IsDrift(inv, listed, drifts[i]);
      }
    }
  }

  /** Shelved names first, strangers next: what is lost is lost rightly, and what is kept is `Kept`. */
  lemma EvacuationIsRight(db: Db, lib: int, start: map<int, Tape>, mid: map<int, Tape>, after: map<int, Tape>,
                          listed: Inventory, strangers: set<string>)
    requires LostAmong(start, mid, ShelvedNames(db.tapes, lib)) && LostAmong(mid, after, strangers)
    requires Inv.IsDecoded(mid, listed) && after == Without(mid, strangers)
    requires forall name :: name in strangers <==> name in listed && !InRobot(db, lib, name)
    ensures LostRightly(db, lib, start, after)
    ensures forall a :: a in after && after[a].name != "" ==> InRobot(db, lib, after[a].name)
    ensures mid == WithoutSeen(start, ShelvedNames(db.tapes, lib)) ==> after == Kept(db, lib, start)
  {
    hide ShelvedNames, InRobot, WithoutSeen;
  }

  lemma ShelvedIsRight(db: Db, lib: int, start: map<int, Tape>, mid: map<int, Tape>)
    requires LostAmong(start, mid, ShelvedNames(db.tapes, lib))
    ensures LostRightly(db, lib, start, mid) && Evacuated(start, mid)
  {
    hide ShelvedNames, InRobot;
  }

  lemma PresentNames(contents: map<int, Tape>, kernel: Inventory)
    requires Inv.IsDecoded(contents, kernel)
    ensures forall name :: name in kernel ==> exists a :: a in contents && contents[a].name == name && name != ""
  {
  }

  /** The listing after the strangers are gone: a fresh snapshot if anything was evacuated. */
  method ListAgain(inv: Inventory, found: seq<DriftItem>, evacuated: nat, ch: Changer, ghost listed: Inventory)
    returns (drifts: seq<DriftItem>, ghost kernel: Inventory)
    requires ch.Valid() && Listable(ch.Contents()) && Ascending(found)
    requires forall d :: d in found <==> IsDrift(inv, listed, d)
    requires (found == [] <==> inv == listed) && (evacuated == 0 ==> Inv.IsDecoded(ch.Contents(), listed))
    ensures Inv.IsDecoded(ch.Contents(), kernel)
    ensures Ascending(drifts) && forall d :: d in drifts <==> IsDrift(inv, kernel, d)
    ensures drifts == [] <==> inv == kernel
  {
    hide Inv.IsDecoded, Inv.DecodesSome, IsDrift;
    if evacuated == 0 { return found, listed; }
    var after := Snapshot(ch);
    assert after.Ok?;  // the changer is listable
    drifts := FindDrifts(inv, after.value.locations);
    kernel := after.value.locations;
  }

  lemma ListedStrangersPresent(contents: map<int, Tape>, inv: Inventory, listed: Inventory, drifts: seq<DriftItem>)
    requires Inv.IsDecoded(contents, listed) && Ascending(drifts)
    requires forall d :: d in drifts <==> IsDrift(inv, listed, d)
    ensures StrangersPresent(drifts, contents)
  {
    forall d | d in drifts && IsStranger(d)
      ensures exists a :: a in contents && contents[a].name == d.tape && d.tape != ""
    {
      assert IsDrift(inv, listed, d);
    }
  }

  /** One snapshot against the catalog, and the strangers in it removed; `listed` is the snapshot. */
  method RemoveStrangers(store: Database, lib: int, ch: Changer, ghost known: set<Tape>)
    returns (r: Result<Findings, Error>, listed: Inventory)
    requires ch.Valid() && ch.Contents().Values <= known
    modifies ch.slots, ch.mailslots, ch.drives, known`loaded
    ensures ch.Valid() && ch.Contents().Values <= known
    ensures r.Err? <==> Ambiguous(store.State(), lib) || !Listable(old(ch.Contents()))
    ensures r.Err? ==> ch.Contents() == old(ch.Contents())
    ensures r.Ok? ==> IsInventory(store.State(), lib, r.value.inv) && Inv.IsDecoded(old(ch.Contents()), listed)
    ensures r.Ok? ==> Ascending(r.value.drifts) && forall d :: d in r.value.drifts <==> IsDrift(r.value.inv, listed, d)
    ensures r.Ok? ==> r.value.evacuated == |old(ch.Contents())| - |ch.Contents()|
    ensures r.Ok? ==> (r.value.drifts == [] <==> r.value.inv == listed)
    ensures r.Ok? ==> && LostAmong(old(ch.Contents()), ch.Contents(), StrangerNames(r.value.drifts))
                      && ch.Contents() == Without(old(ch.Contents()), StrangerNames(r.value.drifts))
    ensures r.Ok? && r.value.evacuated == 0 ==> ch.Contents() == old(ch.Contents())
  {
    hide LostAmong, Without, StrangerNames, IsInventory, Inv.IsDecoded, Inv.DecodesSome, Inv.Seen, IsDrift, Ambiguous,
         Changer.Valid, Changer.Contents;
    listed := map[];
    NothingUnseen(ch.Contents());
    var snap := Snapshot(ch);
    if snap.Err? { return Err(snap.error), map[]; }
    if snap.value.truncated { return Err(TruncatedInventory), map[]; }
    var inv := DbInventory(store, lib);
    if inv.Err? { return Err(inv.error), map[]; }
    var drifts := FindDrifts(inv.value, snap.value.locations);
    ListedStrangersPresent(ch.Contents(), inv.value, snap.value.locations, drifts);
    var strangers := EvacuateStrangers(drifts, ch, known);
    return Ok(Findings(inv.value, drifts, strangers)), snap.value.locations;
  }

  /**
   * The first half of auto-align: evacuate, and list the drifts that remain between the catalog
   * and the changer as it then is.
   */
  method Survey(store: Database, lib: int, ch: Changer, ghost known: set<Tape>)
    returns (r: Result<Findings, Error>, ghost kernel: Inventory)
    requires ch.Valid() && ch.Contents().Values <= known
    modifies ch.slots, ch.mailslots, ch.drives, known`loaded
    ensures ch.Valid() && ch.Contents().Values <= known
    ensures LostRightly(store.State(), lib, old(ch.Contents()), ch.Contents())
    ensures r.Ok? ==> IsInventory(store.State(), lib, r.value.inv) && Inv.IsDecoded(ch.Contents(), kernel)
    ensures r.Ok? ==> forall d :: d in r.value.drifts <==> IsDrift(r.value.inv, kernel, d)
    ensures r.Ok? ==> ListsDifferences(store.State(), lib, kernel, r.value.drifts)
    ensures r.Ok? ==> (r.value.drifts == [] <==> r.value.inv == kernel)
    ensures r.Ok? && Inv.DistinctNames(old(ch.Contents())) ==>
            r.value.evacuated == |old(ch.Contents())| - |ch.Contents()|
    ensures r.Ok? ==> Listable(ch.Contents()) && kernel.Keys <= r.value.inv.Keys
    ensures r.Ok? && r.value.evacuated == 0 ==> ch.Contents() == old(ch.Contents())
    ensures Listable(old(ch.Contents())) ==> (r.Err? <==> Ambiguous(store.State(), lib))
    ensures Inv.DistinctNames(old(ch.Contents())) ==>
              (r.Err? <==> Ambiguous(store.State(), lib)
                           || |WithoutSeen(old(ch.Contents()), ShelvedNames(store.tapes, lib))| > Inv.MAX_ITEMS)
    ensures r.Ok? && Inv.DistinctNames(old(ch.Contents())) ==>
            ch.Contents() == Kept(store.State(), lib, old(ch.Contents()))
  {
    hide Listable, ShelvedNames, LostAmong, LostRightly, Without, WithoutSeen, Kept, InRobot, StrangerNames, Stays;
    hide IsInventory, Inv.IsDecoded, Inv.DecodesSome, Inv.DistinctNames, Inv.Seen, IsDrift, Evacuated, Ambiguous,
         ListsDifferences, Ascending, Changer.Valid, Changer.Contents;
    ghost var db, start := store.State(), ch.Contents();
    kernel := map[];
    NothingUnseen(start);
    if Listable(start) { KeptOfListable(db, lib, start); }
    var shelved := EvacuateShelved(store, lib, ch, known);
    ghost var mid := ch.Contents();
    ShelvedIsRight(db, lib, start, mid);
    SeenInPart(start, mid);
    ListableIs(mid);
    if shelved.Err? { return Err(shelved.error), map[]; }
    var found, listed := RemoveStrangers(store, lib, ch, known);
    if found.Err? { return found, map[]; }
    var inv, drifts := found.value.inv, found.value.drifts;
    StrangersAreUnknown(db, lib, inv, listed, drifts);
    StaysListable(mid, ch.Contents(), StrangerNames(drifts));
    EvacuationIsRight(db, lib, start, mid, ch.Contents(), listed, StrangerNames(drifts));
    var evacuated := shelved.value + found.value.evacuated;
    var again;
    again, kernel := ListAgain(inv, drifts, evacuated, ch, listed);
    InventoryIsRobot(db, lib, inv);
    PresentNames(ch.Contents(), kernel);
    DriftsAreDifferences(db, lib, inv, kernel, again);
    return Ok(Findings(inv, again, evacuated)), kernel;
  }

  /** Catalog and kernel name the same tapes in the robot. */
  ghost predicate SameNames(db: Db, lib: int, kernel: Inventory) {
    forall name :: name in kernel <==> InRobot(db, lib, name)
  }

  lemma SafeIffSameNames(db: Db, lib: int, inv: Inventory, kernel: Inventory, drifts: seq<DriftItem>)
    requires IsInventory(db, lib, inv) && forall d :: d in drifts <==> IsDrift(inv, kernel, d)
    ensures SafeForPull(drifts) <==> SameNames(db, lib, kernel)
  {
    InventoryIsRobot(db, lib, inv);
    if SafeForPull(drifts) {
      SafeDriftsNameTheSame(inv, kernel, drifts);
    }
  }

  /**
   * What a pull leaves, from any catalog with unique names: it equals the kernel exactly when the map
   * is pullable, and the library is well placed exactly when each of its tapes in the map has an
   * element row to itself and the others only stand on shelves.
   */
  ghost predicate PulledHonestly(db: Db, lib: int, kernel: Inventory, r: Db) {
    && (IsInventory(r, lib, kernel) <==> Pullable(db, lib, kernel))
    && (WellPlacedIn(r, lib) <==> Placeable(db, lib, kernel) && UnlistedStand(db, lib, kernel))
  }

  lemma EveryPullIsHonest(db: Db, lib: int, kernel: Inventory, order: seq<string>)
    requires UniqueNames(db.tapes) && IsOrder(order, kernel)
    ensures PulledHonestly(db, lib, kernel, Pull(db, lib, kernel, order))
  {
    hide Pull, IsInventory, Pullable, Placeable, UniqueNames, WellPlacedIn, UnlistedStand;
    PullIsExactIff(db, lib, kernel, order);
    PullPlacesLibraryIff(db, lib, kernel, order);
  }

  /**
   * `auto_align_library_inner`. In a changer with distinct names it fails exactly when the catalog lists
   * a name twice, or one snapshot does not list what is left once the shelved tapes it saw are gone; it
   * pulls exactly when allowed to and catalog and kernel differ only in where the same tapes are. Its
   * report of no remaining drifts is honest when it did not pull; when it did, it is honest exactly when
   * the kernel's map is pullable. Without a pull the catalog is untouched. Only media the catalog shelves
   * or does not have in the robot leave the changer. `kernel` is the changer's final decoding.
   */
  method AutoAlignLibrary(store: Database, lib: int, ch: Changer, allowPull: bool, pullEnabled: bool,
                          ghost known: set<Tape>)
    returns (r: Result<AlignReport, Error>, ghost pulled: bool, ghost kernel: Inventory)
    requires store.Valid() && ch.Valid() && ch.Contents().Values <= known
    modifies store, ch.slots, ch.mailslots, ch.drives, known`loaded
    ensures store.Valid() && ch.Valid()
    ensures LostRightly(old(store.State()), lib, old(ch.Contents()), ch.Contents())
    ensures Listable(old(ch.Contents())) ==> (r.Err? <==> Ambiguous(old(store.State()), lib))
    ensures Inv.DistinctNames(old(ch.Contents())) ==>
              (r.Err? <==> Ambiguous(old(store.State()), lib)
                           || |WithoutSeen(old(ch.Contents()), ShelvedNames(old(store.tapes), lib))| > Inv.MAX_ITEMS)
    ensures r.Ok? && Inv.DistinctNames(old(ch.Contents())) ==>
            ch.Contents() == Kept(old(store.State()), lib, old(ch.Contents()))
    ensures r.Ok? && r.value.evacuated == 0 ==> ch.Contents() == old(ch.Contents())
    ensures r.Ok? && Inv.DistinctNames(old(ch.Contents())) ==>
            r.value.evacuated == |old(ch.Contents())| - |ch.Contents()|
    ensures r.Ok? ==> Inv.IsDecoded(ch.Contents(), kernel)
    ensures r.Ok? ==> forall name :: name in kernel ==> InRobot(old(store.State()), lib, name)
    ensures !pulled ==> store.State() == old(store.State())
    ensures r.Ok? ==> (pulled <==> && allowPull && pullEnabled && SameNames(old(store.State()), lib, kernel)
                                   && !IsInventory(old(store.State()), lib, kernel))
    ensures r.Ok? && !pulled ==> r.value.driftsRemaining == |DifferingNames(store.State(), lib, kernel)|
    ensures r.Ok? && !pulled ==> (r.value.driftsRemaining == 0 <==> IsInventory(store.State(), lib, kernel))
    ensures pulled ==> r.Ok? && r.value.driftsRemaining == 0
    ensures pulled ==> r.value.pullUpdates == |KnownNames(old(store.State()), lib, kernel)|
    ensures pulled ==> PulledHonestly(old(store.State()), lib, kernel, store.State())
    ensures pulled && old(WellPlaced(store.State())) ==>
              && (IsInventory(store.State(), lib, kernel) <==> RowsFit(old(store.State()), lib, kernel))
              && (WellPlaced(store.State()) <==> Placeable(old(store.State()), lib, kernel))
              && (RowsFit(old(store.State()), lib, kernel) ==> WellPlaced(store.State()))
  {
    hide WellPlaced, IsInventory, RowsFit, Inv.IsDecoded, Inv.DecodesSome, Inv.DistinctNames, Inv.Seen, IsDrift, Pull,
         Listable, InRobot, LostRightly, Kept, KnownNames, PulledHonestly, SameNames, Ambiguous, Pullable, Placeable,
         ListsDifferences, DifferingNames, WithoutSeen, ShelvedNames, SafeForPull, Changer.Valid, Changer.Contents;
    pulled := false;
    ghost var db := store.State();
    var survey;
    survey, kernel := Survey(store, lib, ch, known);
    if survey.Err? { return Err(survey.error), false, kernel; }
    var inv, drifts := survey.value.inv, survey.value.drifts;
    InventoryIsUnique(db, lib, inv, kernel);
    InventoryIsRobot(db, lib, inv);
    SafeIffSameNames(db, lib, inv, kernel, drifts);
    CountOfDifferences(db, lib, inv, kernel, drifts);
    ListableIs(ch.Contents());
    if drifts == [] {
      return Ok(AlignReport(survey.value.evacuated, 0, 0)), false, kernel;
    }
    if allowPull && pullEnabled && SafeForPull(drifts) {
      var again := Snapshot(ch);
      assert again.Ok? && !again.value.truncated;  // the changer is still listable
      Inv.DecodedUnique(ch.Contents(), kernel, again.value.locations);
      ghost var contents := ch.Contents();
      var n;
      ghost var order;
      n, order := ApplyKernelToDb(store, lib, again.value.locations);
      assert ch.Contents() == contents;
      EveryPullIsHonest(db, lib, kernel, order);
      if WellPlaced(db) { SafePullIff(db, lib, inv, kernel, drifts, order); }
      return Ok(AlignReport(survey.value.evacuated, n, 0)), true, kernel;
    }
    return Ok(AlignReport(survey.value.evacuated, 0, |drifts|)), false, kernel;
  }

  lemma InventoryIsUnique(db: Db, lib: int, inv: Inventory, kernel: Inventory)
    requires IsInventory(db, lib, inv)
    ensures inv == kernel <==> IsInventory(db, lib, kernel)
  {
    if IsInventory(db, lib, kernel) {
      forall n | n in inv ensures n in kernel && inv[n] == kernel[n] {
        assert HoldsName(db, lib, inv[n], n);
      }
      forall n | n in kernel ensures n in inv {
        assert HoldsName(db, lib, kernel[n], n);
      }
    }
  }

  // ---------------------------------------------------------------- reconcile

  datatype ReconcileReport = ReconcileReport(drifts: seq<DriftItem>, pullUpdates: nat, truncated: bool)

  /**
   * `reconcile_library`: lists the drifts and, asked to, pulls without any guard. The catalog then
   * equals the kernel exactly when the map is pullable; from a well-placed catalog each tape still has
   * one place exactly when the map is placeable and left none of the robot's tapes out. `kernel` is
   * the snapshot, of the seen part of the changer; a pull is refused when that is not all of it.
   */
  method ReconcileLibrary(store: Database, lib: int, ch: Changer, push: bool, pull: bool)
    returns (r: Result<ReconcileReport, Error>, ghost pulled: bool, ghost kernel: Inventory)
    requires store.Valid() && ch.Valid()
    modifies store
    ensures store.Valid()
    ensures push ==> r == Err(PushRemoved)
    ensures r.Err? <==> push || Ambiguous(old(store.State()), lib) || !Inv.DistinctNames(Inv.Seen(ch.Contents()))
                        || (pull && |ch.Contents()| > Inv.MAX_ITEMS)
    ensures !pulled ==> store.State() == old(store.State())
    ensures r.Ok? ==> r.value.truncated == (|ch.Contents()| > Inv.MAX_ITEMS)
    ensures r.Ok? ==> Inv.IsDecoded(Inv.Seen(ch.Contents()), kernel)
    ensures r.Ok? && !r.value.truncated ==> Inv.Seen(ch.Contents()) == ch.Contents()
    ensures r.Ok? ==> ListsDifferences(old(store.State()), lib, kernel, r.value.drifts)
    ensures r.Ok? ==> (r.value.drifts == [] <==> IsInventory(old(store.State()), lib, kernel))
    ensures r.Ok? ==> (pulled <==> pull && r.value.drifts != []) && (pulled ==> !r.value.truncated)
    ensures pulled ==> r.Ok? && r.value.pullUpdates == |KnownNames(old(store.State()), lib, kernel)|
    ensures pulled ==> PulledHonestly(old(store.State()), lib, kernel, store.State())
    ensures pulled && old(WellPlaced(store.State())) ==>
              (WellPlaced(store.State()) <==>
                 Placeable(old(store.State()), lib, kernel) && NoneLeftOut(old(store.State()), lib, kernel))
  {
    hide WellPlaced, IsInventory, Inv.IsDecoded, Inv.DecodesSome, Inv.Seen, IsDrift, Pull, Pullable, Placeable,
         NoneLeftOut, Ambiguous, IsOrder, Changer.Valid, Changer.Contents, PulledHonestly, KnownNames, Listable;
    pulled, kernel := false, map[];
    if push { return Err(PushRemoved), false, kernel; }
    var inv := DbInventory(store, lib);
    if inv.Err? { return Err(inv.error), false, kernel; }
    var snap := Snapshot(ch);
    if snap.Err? { return Err(snap.error), false, kernel; }
    kernel := snap.value.locations;
    var drifts := FindDrifts(inv.value, snap.value.locations);
    InventoryIsUnique(store.State(), lib, inv.value, kernel);
    DriftsAreDifferences(store.State(), lib, inv.value, kernel, drifts);
    if snap.value.truncated && pull { return Err(TruncatedInventory), false, kernel; }
    var report := ReconcileReport(drifts, 0, snap.value.truncated);
    if drifts == [] || !pull { return Ok(report), false, kernel; }
    ghost var db, contents := store.State(), ch.Contents();
    var n;
    ghost var order;
    n, order := ApplyKernelToDb(store, lib, snap.value.locations);
    assert ch.Contents() == contents;
    EveryPullIsHonest(db, lib, kernel, order);
    if WellPlaced(db) { PullKeepsWellPlacedIff(db, lib, kernel, order); }
    return Ok(report.(pullUpdates := n)), true, kernel;
  }

  // ---------------------------------------------------------------- loaded drives

  /** No catalog slot reaches into the drive addresses; data slots end at 255 and mailslots at 103. */
  ghost predicate SlotsBelowDrives(db: Db) {
    forall k :: k in db.slots ==> k.1 < DRIVE_BASE
  }

  /**
   * With a medium in a drive the decoded map is never pullable: its location decodes to a data slot
   * that has no row. So a pull taken then leaves catalog and kernel different; from a well-placed
   * catalog the loaded tape ends nowhere.
   */
  lemma LoadedDriveDefeatsPull(db: Db, lib: int, contents: map<int, Tape>, kernel: Inventory,
                               order: seq<string>, a: int)
    requires UniqueNames(db.tapes) && SlotsBelowDrives(db) && IsOrder(order, kernel) && Inv.IsDecoded(contents, kernel)
    requires a in contents && IsDriveAddress(a) && contents[a].name != ""
    ensures !Pullable(db, lib, kernel) && !RowsFit(db, lib, kernel)
    ensures !IsInventory(Pull(db, lib, kernel, order), lib, kernel)
    ensures WellPlaced(db) ==>
              forall id :: IsTape(db.tapes, id, lib, contents[a].name) ==>
                id in Where(Pull(db, lib, kernel, order)) && Where(Pull(db, lib, kernel, order))[id] == (lib, Nowhere)
  {
    hide Pull, WellPlaced;
    var name := contents[a].name;
    assert name in kernel && kernel[name] == DataSlot(a);
    assert (lib, a) !in db.slots by {
      assert (lib, a).1 == a;
    }
    assert !RowExists(db, lib, kernel[name]);
    PullIsExactIff(db, lib, kernel, order);
    forall id | WellPlaced(db) && IsTape(db.tapes, id, lib, name)
      ensures id in Where(Pull(db, lib, kernel, order)) && Where(Pull(db, lib, kernel, order))[id] == (lib, Nowhere)
    {
      UnplaceableIsLost(db, lib, kernel, order, id);
    }
  }

  /** A catalog of one tape, in drive 0 of library 1. */
  function OneLoaded(): Db {
    Db(map[7 := TapeRow(1, "T", None, None)], map[(1, 0) := SlotRow(None, false)], map[(1, 0) := Some(7)], map[])
  }

  lemma OneLoadedIsWellPlaced()
    ensures WellPlaced(OneLoaded()) && IsInventory(OneLoaded(), 1, map["T" := Drive(0)])
  {
    var db := OneLoaded();
    assert DriveHolds(db, (1, 0), 7);
    assert Anchored(db, 7);
    assert HoldsName(db, 1, Drive(0), "T");
  }

  /** One tape, in drive 0 in both views: decoded as written it drifts, and the pull loses it. */
  lemma LoadedTapeIsLostExample()
    ensures var kernel := map["T" := FromElement(DRIVE_BASE).value];
            && WellPlaced(OneLoaded()) && IsInventory(OneLoaded(), 1, map["T" := Drive(0)])
            && SafeForPull([DriftItem("T", Some(Drive(0)), Some(kernel["T"]))])
            && 7 in Where(Pull(OneLoaded(), 1, kernel, ["T"]))
            && Where(Pull(OneLoaded(), 1, kernel, ["T"]))[7] == (1, Nowhere)
  {
    hide WellPlaced, IsInventory, Pull, Where;
    OneLoadedIsWellPlaced();
    var kernel := map["T" := DataSlot(DRIVE_BASE)];
    assert IsTape(OneLoaded().tapes, 7, 1, "T");
    WellPlacedIsUnique(OneLoaded());
    UnplaceableIsLost(OneLoaded(), 1, kernel, ["T"], 7);
  }
}
