/**
 * The two commands that write `tapes.slot` without looking at the element rows, `robot sync-db` and
 * the import of an image file: when they leave every tape in one place.
 */
module CatalogHints {
  import opened Common
  import opened Elements
  import opened Media
  import Inv = Inventory
  import opened Catalog
  import opened CatalogOps
  import opened CatalogGrants
  import opened CatalogStore
  import opened Reconcile
  import opened AutoAlign

  // ---------------------------------------------------------------- sync-db

  /** The slot column that the kernel's map gives tape `name`. */
  function Hint(m: Inventory, name: string): Option<int> {
    if name in m && m[name].DataSlot? then Some(m[name].slot) else None
  }

  /** The catalog with the hints of the names `done` written; all others of the library are cleared. */
  function Mirrored(db: Db, lib: int, m: Inventory, done: set<string>): Db {
    db.(tapes := map id | id in db.tapes ::
          var t := db.tapes[id];
          if t.library != lib then t
          else if t.name in done && Hint(m, t.name).Some? then t.(shelf := None, slot := Hint(m, t.name))
          else t.(slot := None))
  }

  /**
   * Row by row what sync-db leaves: a tape of the library that the map has in a data slot is off its
   * shelf and in that slot, and any other tape of the library keeps its shelf and has no slot.
   */
  ghost predicate HintsWritten(db: Db, r: Db, lib: int, m: Inventory) {
    && r.tapes.Keys == db.tapes.Keys && r.slots == db.slots && r.drives == db.drives && r.shelves == db.shelves
    && forall id :: id in db.tapes ==>
         var was, now := db.tapes[id], r.tapes[id];
         && now.library == was.library && now.name == was.name
         && (was.library != lib ==> now == was)
         && (was.library == lib && was.name in m && m[was.name].DataSlot? ==>
               now.shelf == None && now.slot == Some(m[was.name].slot))
         && (was.library == lib && !(was.name in m && m[was.name].DataSlot?) ==>
               now.shelf == was.shelf && now.slot == None)
  }

  lemma MirroredIsWritten(db: Db, lib: int, m: Inventory)
    ensures HintsWritten(db, Mirrored(db, lib, m, m.Keys), lib, m)
  {
  }

  /** The tapes of the library whose hint the map gives. */
  ghost function HintedNames(db: Db, lib: int, m: Inventory): set<string> {
    set name | name in m && m[name].DataSlot? && TapeId(db, lib, name).Some?
  }

  lemma MirrorStep(db: Db, lib: int, m: Inventory, done: set<string>, name: string)
    requires UniqueNames(db.tapes) && name in m
    ensures UniqueNames(Mirrored(db, lib, m, done).tapes)
    ensures var d, found := Mirrored(db, lib, m, done), TapeId(db, lib, name);
            && TapeId(d, lib, name) == found
            && Mirrored(db, lib, m, done + {name}) ==
                 if found.Some? && m[name].DataSlot?
                 then d.(tapes := SetPlace(d.tapes, found.value, lib, None, Some(m[name].slot))) else d
  {
    var d, found := Mirrored(db, lib, m, done), TapeId(db, lib, name);
    SameIds(db, d, lib, name);
    forall id | id in db.tapes && db.tapes[id].library == lib ensures db.tapes[id].name == name <==> found == Some(id) {
      assert db.tapes[id].name == name ==> IsTape(db.tapes, id, lib, name);
    }
    var r := if found.Some? && m[name].DataSlot?
             then d.(tapes := SetPlace(d.tapes, found.value, lib, None, Some(m[name].slot))) else d;
    assert Mirrored(db, lib, m, done + {name}).tapes == r.tapes;
  }

  /** One turn of the loop. */
  method WriteHint(store: Database, lib: int, kernel: Inventory, name: string, ghost db: Db, ghost done: set<string>)
    returns (written: bool)
    requires UniqueNames(db.tapes) && store.State() == Mirrored(db, lib, kernel, done) && name in kernel
    modifies store`tapes
    ensures store.State() == Mirrored(db, lib, kernel, done + {name})
    ensures written <==> name in HintedNames(db, lib, kernel)
  {
    hide Mirrored, UniqueNames;
    MirrorStep(db, lib, kernel, done, name);
    if !kernel[name].DataSlot? { return false; }
    var id := store.FindTape(lib, name);
    if id.None? { return false; }
    store.UpdateShelfAndSlot(id.value, None, Some(kernel[name].slot));
    return true;
  }

  /** UPDATE tapes SET slot = NULL WHERE library_id = ? */
  method ClearHints(store: Database, lib: int, ghost kernel: Inventory)
    requires store.Valid()
    modifies store`tapes
    ensures store.Valid() && store.State() == Mirrored(old(store.State()), lib, kernel, {})
  {
    store.tapes := map id | id in store.tapes ::
      if store.tapes[id].library == lib then store.tapes[id].(slot := None) else store.tapes[id];
  }

  /** The transaction: all hints of the library cleared, then one turn for each name, in any order. */
  method MirrorHints(store: Database, lib: int, kernel: Inventory) returns (n: nat)
    requires store.Valid()
    modifies store`tapes
    ensures store.Valid() && store.State() == Mirrored(old(store.State()), lib, kernel, kernel.Keys)
    ensures HintsWritten(old(store.State()), store.State(), lib, kernel)
    ensures n == |HintedNames(old(store.State()), lib, kernel)|
  {
    hide Mirrored, HintedNames, UniqueNames, HintsWritten;
    ghost var db := store.State();
    ClearHints(store, lib, kernel);
    var todo := kernel.Keys;
    n := 0;
    ghost var found: set<string> := {};
    ghost var done: set<string> := {};
    while exists name :: name in todo
      invariant todo <= kernel.Keys && n == |found|
      invariant forall name :: name in done <==> name in kernel && name !in todo
      invariant forall name :: name in found <==> name in HintedNames(db, lib, kernel) && name in done
      invariant store.State() == Mirrored(db, lib, kernel, done)
      decreases todo
    {
      var name :| name in todo;
      var written := WriteHint(store, lib, kernel, name, db, done);
      todo := todo - {name};
      done := done + {name};
      if written {
        n := n + 1;
        found := found + {name};
      }
    }
    assert done == kernel.Keys;
    HintedAreNamed(db, lib, kernel);
    assert found == HintedNames(db, lib, kernel);
    MirroredIsUnique(db, lib, kernel, kernel.Keys);
    MirroredIsWritten(db, lib, kernel);
  }

  lemma HintedAreNamed(db: Db, lib: int, m: Inventory)
    ensures HintedNames(db, lib, m) <= m.Keys
  {
  }

  lemma MirroredIsUnique(db: Db, lib: int, m: Inventory, done: set<string>)
    requires UniqueNames(db.tapes)
    ensures UniqueNames(Mirrored(db, lib, m, done).tapes)
  {
  }

  /**
   * `mirror_kernel_catalog_hints_only`: refused exactly when one snapshot does not list the changer;
   * otherwise the slot column of each tape of the library is what the snapshot says of it.
   */
  method MirrorKernelHints(store: Database, lib: int, ch: Changer)
    returns (r: Result<nat, Error>, ghost kernel: Inventory)
    requires store.Valid() && ch.Valid()
    modifies store`tapes
    ensures store.Valid()
    ensures r.Ok? <==> Listable(ch.Contents())
    ensures r.Err? ==> store.State() == old(store.State())
    ensures r.Ok? ==> Inv.IsDecoded(ch.Contents(), kernel)
    ensures r.Ok? ==> store.State() == Mirrored(old(store.State()), lib, kernel, kernel.Keys)
    ensures r.Ok? ==> r.value == |HintedNames(old(store.State()), lib, kernel)|
  {
    hide Inv.IsDecoded, Inv.DecodesSome, Changer.Valid, Changer.Contents, Mirrored, HintedNames;
    var snap := Snapshot(ch);
    if snap.Err? { return Err(snap.error), map[]; }
    if snap.value.truncated { return Err(TruncatedInventory), map[]; }
    kernel := snap.value.locations;
    ghost var contents := ch.Contents();
    var n := MirrorHints(store, lib, snap.value.locations);
    assert ch.Contents() == contents;
    return Ok(n), kernel;
  }

  /** The slot column of each tape of the library already says what the map does. */
  predicate HintsAgree(db: Db, lib: int, m: Inventory) {
    forall id :: id in db.tapes && db.tapes[id].library == lib ==> db.tapes[id].slot == Hint(m, db.tapes[id].name)
  }

  /** From a well-placed catalog sync-db keeps every tape in one place exactly when it has nothing to change. */
  lemma MirrorKeepsWellPlacedIff(db: Db, lib: int, m: Inventory)
    requires WellPlaced(db)
    ensures var r := Mirrored(db, lib, m, m.Keys);
            && (WellPlaced(r) <==> HintsAgree(db, lib, m)) && (HintsAgree(db, lib, m) <==> r == db)
  {
    var r := Mirrored(db, lib, m, m.Keys);
    HoldersDoNotDependOnTapes(db, r);
    if HintsAgree(db, lib, m) {
      forall id | id in db.tapes ensures r.tapes[id] == db.tapes[id] {
        assert Anchored(db, id);
      }
      assert r.tapes == db.tapes;
    } else {
      var id :| id in db.tapes && db.tapes[id].library == lib && db.tapes[id].slot != Hint(m, db.tapes[id].name);
      assert Anchored(db, id);
      assert r.tapes[id].slot == Hint(m, db.tapes[id].name);
      if Hint(m, db.tapes[id].name).None? {
        assert SlotHolds(r, (lib, db.tapes[id].slot.value), id);
      } else {
        assert !SlotHolds(r, (lib, r.tapes[id].slot.value), id);
        assert !Anchored(r, id);
      }
    }
  }

  /**
   * A catalog that agrees with the kernel does not help: sync-db breaks it whenever a medium it knows
   * is in a drive, or in a mailslot and so in a slot row.
   */
  lemma MirrorBreaksMailAndDrives(db: Db, lib: int, contents: map<int, Tape>, m: Inventory, a: int, id: int)
    requires WellPlaced(db) && SlotsBelowDrives(db) && Inv.IsDecoded(contents, m) && a in contents
    requires contents[a].name != "" && IsTape(db.tapes, id, lib, contents[a].name)
    requires IsDriveAddress(a) || (IsMailAddress(a) && db.tapes[id].slot.Some?)
    ensures !WellPlaced(Mirrored(db, lib, m, m.Keys))
  {
    MirrorKeepsWellPlacedIff(db, lib, m);
    assert Anchored(db, id);
    SlotIsBelowDrives(db, id);
    if IsDriveAddress(a) {
      assert Hint(m, contents[a].name) == Some(a);
    }
  }

  lemma SlotIsBelowDrives(db: Db, id: int)
    requires WellPlaced(db) && SlotsBelowDrives(db) && id in db.tapes
    ensures db.tapes[id].slot.Some? ==> db.tapes[id].slot.value < DRIVE_BASE
  {
    assert Anchored(db, id);
    if db.tapes[id].slot.Some? {
      assert (db.tapes[id].library, db.tapes[id].slot.value) in db.slots;
    }
  }

  /**
   * A loaded tape given the drive's address as its slot is then lost by unloading: unload follows the
   * recorded slot, which has no row, and the tape is on no shelf, in no slot and in no drive.
   */
  lemma SyncThenUnloadLoses(db: Db, lib: int, m: Inventory, drive: int, id: int)
    requires WellPlaced(db) && 0 <= drive < IE_BASE - DRIVE_BASE && DriveTape(db, (lib, drive)) == Some(id)
    requires (lib, DRIVE_BASE + drive) !in db.slots
    requires id in db.tapes && db.tapes[id].name in m && FromElement(DRIVE_BASE + drive) == Some(m[db.tapes[id].name])
    ensures var d := Mirrored(db, lib, m, m.Keys);
            && CatalogOps.Unload(d, lib, drive).Ok?
            && var r := CatalogOps.Unload(d, lib, drive).value;
               id in r.tapes && r.tapes[id].shelf == None && forall k :: !SlotHolds(r, k, id) && !DriveHolds(r, k, id)
  {
    var d := Mirrored(db, lib, m, m.Keys);
    assert DriveHolds(db, (lib, drive), id);
    assert d.tapes[id].slot == Some(DRIVE_BASE + drive);
    var r := CatalogOps.Unload(d, lib, drive).value;
    forall k ensures !SlotHolds(r, k, id) && !DriveHolds(r, k, id) {
      assert !SlotHolds(db, k, id);
      assert DriveHolds(db, k, id) ==> k == (lib, drive);
    }
  }

  // ---------------------------------------------------------------- import of an image file

  /** The tables of `import_tape`; `id` is the row id the database hands out to a new tape. */
  ghost function ImportFile(db: Db, id: int, lib: int, name: string, slot: int): Outcome {
    var known := TapeId(db, lib, name);
    if known.None? && (exists j :: j in db.tapes && db.tapes[j].name == name) then Err(NameTaken)
    else if known.None? && (id in db.tapes || InSomeDrive(db, id) || exists k :: SlotHolds(db, k, id)) then Err(IdInUse)
    else
      var i := if known.Some? then known.value else id;
      Ok(db.(tapes := db.tapes[i := TapeRow(lib, name, None, Some(slot))],
             slots := SetSlot(db.slots, (lib, slot), Some(i))))
  }

  /** The slot row exists, and is the tape's already or is empty while the tape is new or on a shelf. */
  ghost predicate ImportFits(db: Db, lib: int, name: string, slot: int) {
    var known := TapeId(db, lib, name);
    && (lib, slot) in db.slots
    && if db.slots[(lib, slot)].tape.Some? then db.slots[(lib, slot)].tape == known
       else known.None? || db.tapes[known.value].shelf.Some?
  }

  lemma NewInSlotKeeps(db: Db, id: int, lib: int, name: string, slot: int, r: Db)
    requires WellPlaced(db) && id !in db.tapes && SlotTape(db, (lib, slot)).None? && (lib, slot) in db.slots
    requires forall j :: j in db.tapes ==> db.tapes[j].name != name
    requires !InSomeDrive(db, id) && forall k :: !SlotHolds(db, k, id)
    requires r == db.(tapes := db.tapes[id := TapeRow(lib, name, None, Some(slot))],
                      slots := SetSlot(db.slots, (lib, slot), Some(id)))
    ensures WellPlaced(r)
  {
    forall k, j ensures SlotHolds(r, k, j) <==> SlotHolds(db, k, j) || (k == (lib, slot) && j == id) {
    }
    forall k, j ensures DriveHolds(r, k, j) <==> DriveHolds(db, k, j) {
    }
    forall j | j in r.tapes ensures Anchored(r, j) {
      if j != id {
        assert Anchored(db, j);
        SameHolders(db, r, j);
      }
    }
  }

  lemma ImportBreaks(db: Db, id: int, lib: int, name: string, slot: int)
    requires WellPlaced(db) && ImportFile(db, id, lib, name, slot).Ok? && !ImportFits(db, lib, name, slot)
    ensures !WellPlaced(ImportFile(db, id, lib, name, slot).value)
  {
    var r, known := ImportFile(db, id, lib, name, slot).value, TapeId(db, lib, name);
    var i := if known.Some? then known.value else id;
    if (lib, slot) !in db.slots {
      assert !Anchored(r, i);
    } else if db.slots[(lib, slot)].tape.Some? {
      HeldIsKnownTape(db, (lib, slot));
      assert !Anchored(r, db.slots[(lib, slot)].tape.value);
    } else {
      assert Anchored(db, i);
      if db.tapes[i].slot.Some? {
        assert SlotHolds(r, (lib, db.tapes[i].slot.value), i);
      } else {
        var k :| DriveHolds(db, k, i);
        assert DriveHolds(r, k, i);
      }
    }
  }

  /** Importing an image keeps every tape in one place exactly when it fits the catalog. */
  lemma ImportFileKeepsWellPlacedIff(db: Db, id: int, lib: int, name: string, slot: int)
    requires WellPlaced(db) && ImportFile(db, id, lib, name, slot).Ok?
    ensures WellPlaced(ImportFile(db, id, lib, name, slot).value) <==> ImportFits(db, lib, name, slot)
  {
    hide WellPlaced;
    var r, known := ImportFile(db, id, lib, name, slot).value, TapeId(db, lib, name);
    if !ImportFits(db, lib, name, slot) {
      ImportBreaks(db, id, lib, name, slot);
    } else if known.None? {
      NewInSlotKeeps(db, id, lib, name, slot, r);
    } else if db.slots[(lib, slot)].tape == known {
      HeldIsKnownTape(db, (lib, slot));
      assert r.tapes == db.tapes && r.slots == db.slots;
    } else {
      ShelfToSlot(db, known.value, lib, slot, r);
    }
  }

  /**
   * An image is taken in exactly when its name is the library's already, or no library's and the row id
   * is free; its tape is then in the slot, and every other tape of a catalog it fits is where it was.
   */
  lemma ImportFileOutcome(db: Db, id: int, lib: int, name: string, slot: int)
    requires WellPlaced(db)
    ensures var r := ImportFile(db, id, lib, name, slot);
            && (r.Ok? <==> Known(db, lib, name) || ((forall l :: !Known(db, l, name)) && id !in db.tapes))
            && (r == Err(NameTaken) <==> !Known(db, lib, name) && exists l :: Known(db, l, name))
            && (r.Ok? && ImportFits(db, lib, name, slot) ==>
                  Sits(r.value, lib, name, AtSlot(slot)) && OthersStay(db, r.value, lib, name) && SameRows(db, r.value))
  {
    hide Known, Sits, OthersStay, SameRows;
    NameQuery(db, lib, name);
    NamesAnywhere(db, name);
    assert InSomeDrive(db, id) || (exists k :: SlotHolds(db, k, id)) ==> id in db.tapes;
    var r := ImportFile(db, id, lib, name, slot);
    if r.Ok? && ImportFits(db, lib, name, slot) {
      ImportFileKeepsWellPlacedIff(db, id, lib, name, slot);
      ImportedOnly(db, id, lib, name, slot);
    }
  }

  lemma NamesAnywhere(db: Db, name: string)
    ensures (exists l :: Known(db, l, name)) <==> exists j :: j in db.tapes && db.tapes[j].name == name
  {
    if j :| j in db.tapes && db.tapes[j].name == name {
      assert Known(db, db.tapes[j].library, name);
    }
  }

  ghost predicate OthersStay(db: Db, r: Db, lib: int, name: string) {
    forall j :: j in db.tapes && !IsTape(db.tapes, j, lib, name) ==> j in r.tapes && Where(r)[j] == Where(db)[j]
  }

  lemma ImportedOnly(db: Db, id: int, lib: int, name: string, slot: int)
    requires WellPlaced(db) && ImportFile(db, id, lib, name, slot).Ok?
    requires WellPlaced(ImportFile(db, id, lib, name, slot).value)
    ensures var r := ImportFile(db, id, lib, name, slot).value;
            Sits(r, lib, name, AtSlot(slot)) && OthersStay(db, r, lib, name) && SameRows(db, r)
  {
    var r, known := ImportFile(db, id, lib, name, slot).value, TapeId(db, lib, name);
    var i := if known.Some? then known.value else id;
    assert Where(r)[i] == (lib, AtSlot(slot));
    forall j | j in db.tapes && !IsTape(db.tapes, j, lib, name) ensures j in r.tapes && Where(r)[j] == Where(db)[j] {
      assert forall k :: DriveHolds(r, k, j) <==> DriveHolds(db, k, j);
      SamePlace(db, r, j);
    }
  }

  lemma HeldIsKnownTape(db: Db, k: Key)
    requires WellPlaced(db) && k in db.slots && db.slots[k].tape.Some?
    ensures var id := db.slots[k].tape.value;
            id in db.tapes && db.tapes[id].library == k.0 && db.tapes[id].slot == Some(k.1)
                && db.tapes[id].shelf == None
  {
    assert SlotHolds(db, k, db.slots[k].tape.value);
    assert Anchored(db, db.slots[k].tape.value);
  }

  /** `import_tape`: the tables as it updates them, the image file copied. */
  method ImportImage(store: Database, id: int, lib: int, name: string, slot: int) returns (r: Reply)
    requires store.Valid()
    requires id !in store.tapes && !InSomeDrive(store.State(), id) && forall k :: !SlotHolds(store.State(), k, id)
    modifies store
    ensures store.Valid() && Performed(old(store.State()), ImportFile(old(store.State()), id, lib, name, slot),
                                       store.State(), r)
  {
    var known := store.FindTape(lib, name);
    var i := id;
    if known.Some? {
      i := known.value;
      store.UpdateShelfAndSlot(i, None, Some(slot));
    } else {
      if exists j :: j in store.tapes && store.tapes[j].name == name && store.tapes[j].library != lib {
        return Err(NameTaken);
      }
      assert forall j :: j in store.tapes && store.tapes[j].name == name ==> !IsTape(store.tapes, j, lib, name);
      store.tapes := store.tapes[id := TapeRow(lib, name, None, Some(slot))];
    }
    store.UpdateSlot((lib, slot), Some(i));
    return Ok(Unit);
  }
}
