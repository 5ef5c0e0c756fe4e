/**
 * The slot and drive rows a library is given when created and when its configuration grows. Data
 * slots and mailslots share one key space, and an occupied key is silently kept.
 */
module LibraryRows {
  import opened Common
  import opened Elements
  import opened Catalog
  import opened CatalogOps
  import opened CatalogStore

  /** `after` is `before` with empty rows of one kind at the missing keys of `from..to-1`. */
  ghost predicate SlotsInserted(before: map<Key, SlotRow>, after: map<Key, SlotRow>, lib: int, from: int, to: int,
                                importExport: bool)
  {
    && (forall k: Key :: k in after <==> k in before || (k.0 == lib && from <= k.1 < to))
    && (forall k: Key :: k in after ==> after[k] == if k in before then before[k] else SlotRow(None, importExport))
  }

  ghost predicate DrivesInserted(before: map<Key, Option<int>>, after: map<Key, Option<int>>, lib: int, from: int,
                                 to: int) {
    && (forall k: Key :: k in after <==> k in before || (k.0 == lib && from <= k.1 < to))
    && (forall k: Key :: k in after ==> after[k] == if k in before then before[k] else None)
  }

  /** INSERT OR IGNORE INTO slots, row after row. */
  method InsertSlots(store: Database, lib: int, from: int, to: int, importExport: bool)
    modifies store`slots
    ensures SlotsInserted(old(store.slots), store.slots, lib, from, to, importExport)
  {
    var i := from;
    while i < to
      invariant from <= i && (i == from || i <= to)
                && SlotsInserted(old(store.slots), store.slots, lib, from, i, importExport)
    {
      if (lib, i) !in store.slots {
        store.slots := store.slots[(lib, i) := SlotRow(None, importExport)];
      }
      i := i + 1;
    }
  }

  /** INSERT OR IGNORE INTO drives, row after row. */
  method InsertDrives(store: Database, lib: int, from: int, to: int)
    modifies store`drives
    ensures DrivesInserted(old(store.drives), store.drives, lib, from, to)
  {
    var i := from;
    while i < to
      invariant from <= i && (i == from || i <= to) && DrivesInserted(old(store.drives), store.drives, lib, from, i)
    {
      if (lib, i) !in store.drives {
        store.drives := store.drives[(lib, i) := None];
      }
      i := i + 1;
    }
  }

  ghost predicate NoRows(db: Db, lib: int) {
    (forall k: Key :: k in db.slots ==> k.0 != lib) && (forall k: Key :: k in db.drives ==> k.0 != lib)
  }

  /** The rows a new library ends with: mailslots only where the data slots leave their ids free. */
  ghost predicate FreshLibrary(db: Db, lib: int, drives: int, slots: int) {
    && (forall d :: (lib, d) in db.drives <==> 0 <= d < drives)
    && (forall d :: (lib, d) in db.drives ==> db.drives[(lib, d)] == None)
    && (forall s :: (lib, s) in db.slots <==> 0 <= s < slots || MAILSLOT_OFFSET <= s < MAILSLOT_OFFSET + MAX_MAILSLOTS)
    && (forall s :: (lib, s) in db.slots ==> db.slots[(lib, s)] == SlotRow(None, s >= slots))
  }

  /** The rows of `create_named_library`. */
  method CreateRows(store: Database, lib: int, drives: int, slots: int)
    requires NoRows(store.State(), lib) && 1 <= drives && 1 <= slots
    modifies store`slots, store`drives
    ensures FreshLibrary(store.State(), lib, drives, slots)
    ensures forall k: Key :: k.0 != lib ==>
              (k in store.slots <==> k in old(store.slots)) && (k in store.drives <==> k in old(store.drives))
    ensures forall k: Key :: k in store.slots && k.0 != lib ==> store.slots[k] == old(store.slots)[k]
    ensures forall k: Key :: k in store.drives && k.0 != lib ==> store.drives[k] == old(store.drives)[k]
  {
    InsertDrives(store, lib, 0, drives);
    InsertSlots(store, lib, 0, slots, false);
    InsertSlots(store, lib, MAILSLOT_OFFSET, MAILSLOT_OFFSET + MAX_MAILSLOTS, true);
  }

  /** Created without rows of its own before, the library moves no tape of any other. */
  lemma CreateRowsMovesNothing(db: Db, r: Db, lib: int, drives: int, slots: int)
    requires WellPlaced(db) && NoRows(db, lib) && FreshLibrary(r, lib, drives, slots)
    requires r.tapes == db.tapes && r.shelves == db.shelves
    requires forall k: Key :: k.0 != lib ==> (k in r.slots <==> k in db.slots) && (k in r.drives <==> k in db.drives)
    requires forall k: Key :: k in r.slots && k.0 != lib ==> r.slots[k] == db.slots[k]
    requires forall k: Key :: k in r.drives && k.0 != lib ==> r.drives[k] == db.drives[k]
    ensures WellPlaced(r) && Where(r) == Where(db)
  {
    forall k: Key | k in r.slots && k !in db.slots ensures r.slots[k].tape == None {
      assert k.0 == lib && (lib, k.1) == k;
      FreshRowsAreEmpty(r, lib, drives, slots, k.1);
    }
    forall k: Key | k in r.drives && k !in db.drives ensures r.drives[k] == None {
      assert k.0 == lib && (lib, k.1) == k;
      FreshRowsAreEmpty(r, lib, drives, slots, k.1);
    }
    RowsAdded(db, r);
  }

  lemma FreshRowsAreEmpty(r: Db, lib: int, drives: int, slots: int, i: int)
    requires FreshLibrary(r, lib, drives, slots)
    ensures (lib, i) in r.slots ==> r.slots[(lib, i)].tape == None
    ensures (lib, i) in r.drives ==> r.drives[(lib, i)] == None
  {
  }

  /** Mailslot `i` is a mailslot row exactly when the data slots end before its id. */
  lemma MailslotRowIff(db: Db, lib: int, drives: int, slots: int, i: int)
    requires FreshLibrary(db, lib, drives, slots) && 0 <= i < MAX_MAILSLOTS
    ensures IsEmptySlot(db, lib, true, MAILSLOT_OFFSET + i) <==> MAILSLOT_OFFSET + i >= slots
  {
  }

  ghost predicate NoMailslotRow(db: Db, lib: int) {
    forall s :: (lib, s) in db.slots ==> !db.slots[(lib, s)].importExport
  }

  /** A library is created without a mailslot row exactly when it has 104 data slots or more. */
  lemma NoMailslotRowIff(db: Db, lib: int, drives: int, slots: int)
    requires FreshLibrary(db, lib, drives, slots)
    ensures NoMailslotRow(db, lib) <==> slots >= MAILSLOT_OFFSET + MAX_MAILSLOTS
  {
    var last := MAILSLOT_OFFSET + MAX_MAILSLOTS - 1;
    assert (lib, last) in db.slots;
  }

  /** Only inserting one gives a library a mailslot row. */
  lemma NoMailslotRowStays(db: Db, op: Op, lib: int)
    requires NoMailslotRow(db, lib)
    requires !(op.OpAddSlot? && op.lib == lib && op.importExport)
    ensures NoMailslotRow(Apply(db, op), lib)
  {
  }

  /** Without a mailslot row no eject of the library succeeds after any run that inserts none. */
  lemma {:induction false} NeverEjects(db: Db, ops: seq<Op>, lib: int, slot: int)
    requires NoMailslotRow(db, lib)
    requires forall op :: op in ops ==> !(op.OpAddSlot? && op.lib == lib && op.importExport)
    ensures NoMailslotRow(Run(db, ops), lib) && Eject(Run(db, ops), lib, slot).Err?
  {
    hide NoMailslotRow, Apply, Eject;
    if ops == [] {
      EjectNeedsMailslot(db, lib, slot);
    } else {
      NeverEjects(db, ops[..|ops| - 1], lib, slot);
      NoMailslotRowStays(Run(db, ops[..|ops| - 1]), ops[|ops| - 1], lib);
      EjectNeedsMailslot(Run(db, ops), lib, slot);
    }
  }

  lemma EjectNeedsMailslot(db: Db, lib: int, slot: int)
    requires NoMailslotRow(db, lib)
    ensures Eject(db, lib, slot).Err?
  {
    assert forall s :: !IsEmptySlot(db, lib, true, s);
  }

  /** Creating a tape and assigning it to slot 0. */
  function CreateAndAssign(lib: int, id: int, name: string, shelf: int): seq<Op> {
    [OpCreate(id, lib, name, shelf), OpAssign(lib, name, 0)]
  }

  lemma CreatedAndAssigned(db: Db, lib: int, drives: int, slots: int, id: int, name: string, shelf: int)
    requires FreshLibrary(db, lib, drives, slots) && 1 <= slots && ShelfIn(db, lib, shelf)
    requires Create(db, id, lib, name, shelf).Ok?
    ensures var r := Run(db, CreateAndAssign(lib, id, name, shelf));
            SlotTape(r, (lib, 0)) == Some(id)
                && forall s :: s != 0 ==> (IsEmptySlot(r, lib, true, s) <==> IsEmptySlot(db, lib, true, s))
  {
    var ops := CreateAndAssign(lib, id, name, shelf);
    var d := Create(db, id, lib, name, shelf).value;
    assert ops[..1] == [ops[0]] && ops[..1][..0] == [];
    assert Run(db, ops[..1]) == d;
    assert IsTape(d.tapes, id, lib, name) && forall j :: IsTape(d.tapes, j, lib, name) ==> j == id;
    assert TapeId(d, lib, name) == Some(id);
    assert (lib, 0) in db.slots && !InSomeDrive(db, id);
    assert forall k :: DriveHolds(d, k, id) ==> DriveHolds(db, k, id);
  }

  /** A new tape, assigned to slot 0 of a new library, can be ejected exactly when it has fewer than 104 data slots. */
  lemma EjectSucceedsIff(db: Db, lib: int, drives: int, slots: int, id: int, name: string, shelf: int)
    requires FreshLibrary(db, lib, drives, slots) && 1 <= slots && ShelfIn(db, lib, shelf)
    requires Create(db, id, lib, name, shelf).Ok?
    ensures Eject(Run(db, CreateAndAssign(lib, id, name, shelf)), lib, 0).Ok? <==>
            slots < MAILSLOT_OFFSET + MAX_MAILSLOTS
  {
    hide Create, Run;
    var ops := CreateAndAssign(lib, id, name, shelf);
    NoMailslotRowIff(db, lib, drives, slots);
    if NoMailslotRow(db, lib) {
      NeverEjects(db, ops, lib, 0);
    } else {
      CreatedAndAssigned(db, lib, drives, slots, id, name, shelf);
      MailslotRowIff(db, lib, drives, slots, MAX_MAILSLOTS - 1);
      assert IsEmptySlot(Run(db, ops), lib, true, MAILSLOT_OFFSET + (MAX_MAILSLOTS - 1));
    }
  }

  // ---------------------------------------------------------------- growing

  /** SELECT COUNT(*) FROM slots WHERE library_id = ? AND is_import_export = 0 */
  function DataSlotCount(slots: map<Key, SlotRow>, lib: int): nat {
    |set k | k in slots && k.0 == lib && !slots[k].importExport :: k.1|
  }

  /** SELECT COUNT(*) FROM drives */
  function DriveCount(drives: map<Key, Option<int>>, lib: int): nat {
    |set k | k in drives && k.0 == lib :: k.1|
  }

  /** The slot rows of `config_set`: rows from the present count to the new one. */
  method GrowSlots(store: Database, lib: int, slots: int)
    modifies store`slots
    ensures var current := DataSlotCount(old(store.slots), lib);
            if slots > current then SlotsInserted(old(store.slots), store.slots, lib, current, slots, false)
            else store.slots == old(store.slots)
  {
    var current := DataSlotCount(store.slots, lib);
    if slots > current {
      InsertSlots(store, lib, current, slots, false);
    }
  }

  /** `0..n-1` without `lo..hi-1`. */
  ghost function RangeWithout(n: nat, lo: nat, hi: nat): (r: set<int>)
    ensures forall i :: i in r <==> 0 <= i < n && !(lo <= i < hi)
  {
    if n == 0 then {} else RangeWithout(n - 1, lo, hi) + (if lo <= n - 1 < hi then {} else {n - 1})
  }

  lemma {:induction false} RangeWithoutSize(n: nat, lo: nat, hi: nat)
    requires lo <= hi
    ensures |RangeWithout(n, lo, hi)| == if n <= lo then n else if n <= hi then lo else n - (hi - lo)
  {
    if n > 0 {
      RangeWithoutSize(n - 1, lo, hi);
    }
  }

  lemma DataIds(slots: map<Key, SlotRow>, lib: int, ids: set<int>)
    requires forall i :: i in ids <==> (lib, i) in slots && !slots[(lib, i)].importExport
    ensures DataSlotCount(slots, lib) == |ids|
  {
    var found := set k | k in slots && k.0 == lib && !slots[k].importExport :: k.1;
    forall i ensures i in found <==> i in ids {
      if i in ids { assert (lib, i) in slots && (lib, i).1 == i; }
      if i in found {
        var k :| k in slots && k.0 == lib && !slots[k].importExport && k.1 == i;
        assert k == (lib, i);
      }
    }
    assert found == ids;
  }

  lemma DriveIds(drives: map<Key, Option<int>>, lib: int, ids: set<int>)
    requires forall i :: i in ids <==> (lib, i) in drives
    ensures DriveCount(drives, lib) == |ids|
  {
    var found := set k | k in drives && k.0 == lib :: k.1;
    forall i ensures i in found <==> i in ids {
      if i in ids { assert (lib, i) in drives && (lib, i).1 == i; }
      if i in found {
        var k :| k in drives && k.0 == lib && k.1 == i;
        assert k == (lib, i);
      }
    }
    assert found == ids;
  }

  /** A created library counts the drives and data slots it was created with. */
  lemma FreshDrives(db: Db, lib: int, drives: nat, slots: int)
    requires FreshLibrary(db, lib, drives, slots)
    ensures DriveCount(db.drives, lib) == drives
  {
    DriveIds(db.drives, lib, RangeWithout(drives, drives, drives));
    RangeWithoutSize(drives, drives, drives);
  }

  lemma FreshCount(db: Db, lib: int, drives: int, slots: nat)
    requires FreshLibrary(db, lib, drives, slots)
    ensures DataSlotCount(db.slots, lib) == slots
  {
    DataIds(db.slots, lib, RangeWithout(slots, slots, slots));
    RangeWithoutSize(slots, slots, slots);
  }

  /**
   * A library grown once from `slots` to `more` data slots has that many exactly when the new ids stay
   * below the mailslots' or no mailslot row was in the way; otherwise it is up to four short for good.
   */
  lemma GrowthReachesIff(db: Db, grown: map<Key, SlotRow>, lib: int, drives: int, slots: nat, more: nat)
    requires FreshLibrary(db, lib, drives, slots) && slots < more
    requires SlotsInserted(db.slots, grown, lib, DataSlotCount(db.slots, lib), more, false)
    ensures DataSlotCount(grown, lib) == more <==> more <= MAILSLOT_OFFSET || slots >= MAILSLOT_OFFSET + MAX_MAILSLOTS
    ensures more - MAX_MAILSLOTS <= DataSlotCount(grown, lib) <= more
  {
    FreshCount(db, lib, drives, slots);
    var end := MAILSLOT_OFFSET + MAX_MAILSLOTS;
    var lo := if slots < MAILSLOT_OFFSET then MAILSLOT_OFFSET else if slots < end then slots else end;
    forall i ensures i in RangeWithout(more, lo, end) <==> (lib, i) in grown && !grown[(lib, i)].importExport {
      assert (lib, i) in grown <==> (lib, i) in db.slots || (slots <= i < more);
    }
    DataIds(grown, lib, RangeWithout(more, lo, end));
    RangeWithoutSize(more, lo, end);
  }

  /** Asking for the same size again finds every id taken and changes nothing. */
  lemma GrowingAgainChangesNothing(db: Db, grown: map<Key, SlotRow>, again: map<Key, SlotRow>, lib: int, drives: int,
                                   slots: nat, more: nat)
    requires FreshLibrary(db, lib, drives, slots) && slots < more
    requires SlotsInserted(db.slots, grown, lib, DataSlotCount(db.slots, lib), more, false)
    requires SlotsInserted(grown, again, lib, DataSlotCount(grown, lib), more, false)
    ensures again == grown
  {
    FreshCount(db, lib, drives, slots);
    forall k: Key | k in again ensures k in grown {
      if k.0 == lib && 0 <= k.1 < more {
        assert k == (lib, k.1) && ((lib, k.1) in db.slots || slots <= k.1 < more);
      }
    }
  }

  // ---------------------------------------------------------------- deleting a library

  const OFFLINE_LIBRARY := "__offline__"

  const LEGACY_DEFAULT_LIBRARY := "default"

  /** The ids of the libraries the kernel serves, by the names in `vtl_libraries`. */
  function OnlineLibraries(names: map<int, string>): set<int> {
    set id | id in names && names[id] != OFFLINE_LIBRARY && names[id] != LEGACY_DEFAULT_LIBRARY
  }

  predicate DistinctLibraryNames(names: map<int, string>) {
    forall i, j :: i in names && j in names && names[i] == names[j] ==> i == j
  }

  predicate IsEmptyLibrary(tapes: map<int, TapeRow>, lib: int) { forall id :: id in tapes ==> tapes[id].library != lib }

  /** What a caller of the deletion of library `id` must see to. */
  predicate MayDelete(tapes: map<int, TapeRow>, names: map<int, string>, id: int) {
    && id in names && names[id] != OFFLINE_LIBRARY
    && (|OnlineLibraries(names)| > 1 || (names[id] == LEGACY_DEFAULT_LIBRARY && IsEmptyLibrary(tapes, id)))
  }

  lemma OneLess(names: map<int, string>, id: int)
    requires id in names
    ensures OnlineLibraries(names - {id}) == OnlineLibraries(names) - {id}
    ensures |OnlineLibraries(names - {id})|
            == |OnlineLibraries(names)| - (if id in OnlineLibraries(names) then 1 else 0)
  {
    assert OnlineLibraries(names - {id}) == OnlineLibraries(names) - {id};
  }

  /**
   * `delete_named_library` up to its commit: the offline library and the last online one stay, and a
   * refusal changes nothing. Wherever there was an online library there still is one.
   */
  method DeleteNamedLibrary(store: Database, names: map<int, string>, name: string)
    returns (r: Result<int, Error>, left: map<int, string>)
    requires store.Valid() && DistinctLibraryNames(names)
    modifies store
    ensures store.Valid()
    ensures r.Ok? <==> exists id :: id in names && names[id] == name && MayDelete(old(store.tapes), names, id)
    ensures r.Ok? ==> && r.value in names && names[r.value] == name && left == names - {r.value}
                      && Ok(store.State()) == DeleteLibrary(old(store.State()), r.value)
    ensures r.Err? ==> store.State() == old(store.State()) && left == names
    ensures r == Err(LibraryReserved) <==> name == "__offline__"
    ensures r == Err(LibraryNotFound) <==> name != "__offline__" && forall id :: id in names ==> names[id] != name
    ensures r.Err? ==> r.error in {LibraryReserved, LibraryNotFound, LastLibrary}
    ensures OnlineLibraries(names) != {} ==> OnlineLibraries(left) != {}
  {
    left := names;
    if name == OFFLINE_LIBRARY { return Err(LibraryReserved), left; }
    if lib :| lib in names && names[lib] == name {
      if |OnlineLibraries(names)| <= 1 && !(name == LEGACY_DEFAULT_LIBRARY && IsEmptyLibrary(store.tapes, lib)) {
        return Err(LastLibrary), left;
      }
      OneLess(names, lib);
      store.RemoveLibrary(lib);
      return Ok(lib), names - {lib};
    }
    return Err(LibraryNotFound), left;
  }
}
