/** The catalog operations as the code performs them, and what each means for where tapes are. */
module CatalogOps {
  import opened Common
  import opened Catalog

  type Outcome = Result<Db, Error>

  predicate ShelfIn(db: Db, lib: int, shelf: int) { shelf in db.shelves && db.shelves[shelf].library == lib }

  /** `assign_one_tape_to_slot` */
  ghost function Assign(db: Db, lib: int, name: string, slot: int): Outcome {
    var found := TapeId(db, lib, name);
    if found.None? then Err(TapeNotFound)
    else if InDriveOf(db, lib, found.value) then Err(TapeInDrive)
    else if db.tapes[found.value].slot.Some? then Err(AlreadyInSlot)
    else if db.tapes[found.value].shelf.None? then Err(TapeNotOnShelf)
    else if SlotTape(db, (lib, slot)).Some? then Err(SlotNotEmpty)
    else
      var id := found.value;
      Ok(db.(tapes := SetPlace(db.tapes, id, lib, None, Some(slot)), slots := SetSlot(db.slots, (lib, slot), Some(id))))
  }

  /** `load_tape` */
  ghost function Load(db: Db, lib: int, slot: int, drive: int): Outcome {
    var found := SlotTape(db, (lib, slot));
    if found.None? then Err(SlotEmpty)
    else if DriveTape(db, (lib, drive)).Some? then Err(DriveBusy)
    else
      var id := found.value;
      Ok(db.(drives := SetDrive(db.drives, (lib, drive), Some(id)),
             tapes := if id in db.tapes then SetPlace(db.tapes, id, db.tapes[id].library, None, None) else db.tapes,
             slots := SetSlot(db.slots, (lib, slot), None)))
  }

  /** Where `unload_tape` puts the tape: its recorded slot if it has one, else the first empty data slot. */
  ghost function UnloadTarget(db: Db, lib: int, id: int): Option<int> {
    if id in db.tapes && db.tapes[id].slot.Some? then db.tapes[id].slot else FirstEmpty(db, lib, false)
  }

  /** `unload_tape` */
  ghost function Unload(db: Db, lib: int, drive: int): Outcome {
    var found := DriveTape(db, (lib, drive));
    if found.None? then Err(DriveEmpty)
    else
      var id := found.value;
      var target := UnloadTarget(db, lib, id);
      if target.None? then Err(NoAvailableSlots)
      else Ok(db.(tapes := if id in db.tapes
                           then SetPlace(db.tapes, id, db.tapes[id].library, None, target) else db.tapes,
                  slots := SetSlot(db.slots, (lib, target.value), Some(id)),
                  drives := SetDrive(db.drives, (lib, drive), None)))
  }

  /** `eject_tape` */
  ghost function Eject(db: Db, lib: int, slot: int): Outcome {
    var found, mail := SlotTape(db, (lib, slot)), FirstEmpty(db, lib, true);
    if found.None? then Err(SlotEmpty)
    else if mail.None? then Err(NoAvailableSlots)
    else
      var id := found.value;
      Ok(db.(tapes := if id in db.tapes then SetPlace(db.tapes, id, db.tapes[id].library, None, mail) else db.tapes,
             slots := SetSlot(SetSlot(db.slots, (lib, slot), None), (lib, mail.value), Some(id))))
  }

  /** Every slot row of the library that holds `id`, emptied. */
  function ReleaseSlots(slots: map<Key, SlotRow>, lib: int, id: int): map<Key, SlotRow> {
    map k | k in slots :: if k.0 == lib && slots[k].tape == Some(id) then slots[k].(tape := None) else slots[k]
  }

  function ReleaseDrives(drives: map<Key, Option<int>>, lib: int, id: int): map<Key, Option<int>> {
    map k | k in drives :: if k.0 == lib && drives[k] == Some(id) then None else drives[k]
  }

  /** `shelf_place_tape` */
  ghost function ShelfPlace(db: Db, lib: int, name: string, shelf: int): Outcome {
    var found := TapeId(db, lib, name);
    if found.None? then Err(TapeNotFound)
    else if InDriveOf(db, lib, found.value) then Err(TapeInDrive)
    else if !ShelfIn(db, lib, shelf) then Err(ShelfNotFound)
    else
      var id := found.value;
      var current := db.tapes[id].slot;
      var cleared := if current.Some? then SetSlot(db.slots, (lib, current.value), None) else db.slots;
      Ok(db.(slots := ReleaseSlots(cleared, lib, id), tapes := SetPlace(db.tapes, id, lib, Some(shelf), None)))
  }

  /** One tape of `migrate_tapes_between_shelves` */
  ghost function Migrate(db: Db, lib: int, name: string, from: int, to: int): Outcome {
    var found := TapeId(db, lib, name);
    if !ShelfIn(db, lib, from) || !ShelfIn(db, lib, to) then Err(ShelfNotFound)
    else if found.None? then Err(TapeNotFound)
    else if db.tapes[found.value].shelf != Some(from) then Err(WrongShelf)
    else if db.tapes[found.value].slot.Some? then Err(AlreadyInSlot)
    else if InDriveOf(db, lib, found.value) then Err(TapeInDrive)
    else Ok(db.(tapes := SetPlace(db.tapes, found.value, lib, Some(to), None)))
  }

  /** One tape of `move_tapes_to_offline_shelf` */
  ghost function MoveOffline(db: Db, lib: int, offline: int, name: string, shelf: int): Outcome {
    var found := TapeId(db, lib, name);
    if !ShelfIn(db, offline, shelf) then Err(ShelfNotFound)
    else if found.None? then Err(TapeNotFound)
    else if InDriveOf(db, lib, found.value) then Err(TapeInDrive)
    else if TapeId(db, offline, name).Some? then Err(NameTaken)
    else
      var id := found.value;
      var current := db.tapes[id].slot;
      Ok(db.(slots := if current.Some? then SetSlot(db.slots, (lib, current.value), None) else db.slots,
             tapes := SetPlace(db.tapes, id, offline, Some(shelf), None)))
  }

  /** `import_offline_tape_to_online_slot` */
  ghost function Import(db: Db, online: int, offline: int, name: string, slot: int): Outcome {
    var found := TapeId(db, offline, name);
    if found.None? then Err(TapeNotFound)
    else if InDriveOf(db, offline, found.value) then Err(TapeInDrive)
    else if db.tapes[found.value].slot.Some? then Err(Inconsistent)
    else if db.tapes[found.value].shelf.None? then Err(TapeNotOnShelf)
    else if TapeId(db, online, name).Some? then Err(NameTaken)
    else if SlotTape(db, (online, slot)).Some? then Err(SlotNotEmpty)
    else
      var id := found.value;
      Ok(db.(tapes := SetPlace(db.tapes, id, online, None, Some(slot)),
             slots := SetSlot(db.slots, (online, slot), Some(id))))
  }

  /** `create_tape`; `id` is the row id the database hands out. */
  ghost function Create(db: Db, id: int, lib: int, name: string, shelf: int): Outcome {
    if exists j :: j in db.tapes && db.tapes[j].name == name then Err(NameTaken)
    else if !ShelfIn(db, lib, shelf) then Err(ShelfNotFound)
    else if id in db.tapes || InSomeDrive(db, id) || (exists k :: SlotHolds(db, k, id)) then Err(IdInUse)
    else Ok(db.(tapes := db.tapes[id := TapeRow(lib, name, Some(shelf), None)]))
  }

  /** `delete_tape_in_library` */
  ghost function Delete(db: Db, lib: int, name: string): Outcome {
    var found := TapeId(db, lib, name);
    if found.None? then Err(TapeNotFound)
    else
      var id := found.value;
      Ok(db.(slots := ReleaseSlots(db.slots, lib, id), drives := ReleaseDrives(db.drives, lib, id),
             tapes := db.tapes - {id}))
  }

  /** `delete_shelf_in_library` */
  ghost function DeleteShelf(db: Db, lib: int, shelf: int): Outcome {
    if !ShelfIn(db, lib, shelf) then Err(ShelfNotFound)
    else if db.shelves[shelf].isDefault then Err(ShelfInUse)
    else if exists id :: id in db.tapes && db.tapes[id].shelf == Some(shelf) then Err(ShelfInUse)
    else Ok(db.(shelves := db.shelves - {shelf}))
  }

  /** The table deletions of `delete_named_library` */
  ghost function DeleteLibrary(db: Db, lib: int): Outcome {
    Ok(Db(map id | id in db.tapes && db.tapes[id].library != lib :: db.tapes[id],
          map k | k in db.slots && k.0 != lib :: db.slots[k],
          map k | k in db.drives && k.0 != lib :: db.drives[k],
          map h | h in db.shelves && db.shelves[h].library != lib :: db.shelves[h]))
  }

  /** INSERT OR IGNORE of an empty slot row, as `config_set` and `create_named_library` do. */
  ghost function AddSlot(db: Db, lib: int, slot: int, importExport: bool): Outcome {
    Ok(if (lib, slot) in db.slots then db else db.(slots := db.slots[(lib, slot) := SlotRow(None, importExport)]))
  }

  ghost function AddDrive(db: Db, lib: int, drive: int): Outcome {
    Ok(if (lib, drive) in db.drives then db else db.(drives := db.drives[(lib, drive) := None]))
  }

  // ---------------------------------------------------------------- what each one means

  /** `r` is `db` with tape `id` moved to `p` of library `lib`, and nothing else changed. */
  ghost predicate Moved(db: Db, r: Db, id: int, lib: int, p: Place) {
    && id in db.tapes
    && WellPlaced(r) && SameFrame(r, db)
    && Where(r) == Where(db)[id := (lib, p)]
  }

  /** A tape on a shelf is in no slot and no drive. */
  lemma ShelvedIsNowhereElse(db: Db, id: int)
    requires WellPlaced(db) && id in db.tapes && db.tapes[id].shelf.Some?
    ensures forall k :: !SlotHolds(db, k, id) && !DriveHolds(db, k, id)
    ensures !InSomeDrive(db, id)
  {
    assert Anchored(db, id);
  }

  lemma OneOfItsName(db: Db, id: int, lib: int)
    requires WellPlaced(db) && id in db.tapes
    requires lib == db.tapes[id].library || TapeId(db, lib, db.tapes[id].name).None?
    ensures forall j :: IsTape(db.tapes, j, lib, db.tapes[id].name) ==> j == id
  {
  }

  /** Putting a shelved tape into a slot is sound exactly when the slot has a row. */
  lemma ShelfToSlot(db: Db, id: int, lib: int, slot: int, r: Db)
    requires WellPlaced(db) && id in db.tapes && db.tapes[id].shelf.Some? && SlotTape(db, (lib, slot)).None?
    requires lib == db.tapes[id].library || TapeId(db, lib, db.tapes[id].name).None?
    requires r == db.(tapes := SetPlace(db.tapes, id, lib, None, Some(slot)),
                      slots := SetSlot(db.slots, (lib, slot), Some(id)))
    ensures (lib, slot) in db.slots ==> Moved(db, r, id, lib, AtSlot(slot))
    ensures WellPlaced(r) <==> (lib, slot) in db.slots
  {
    ShelvedIsNowhereElse(db, id);
    OneOfItsName(db, id, lib);
    if (lib, slot) in db.slots {
      assert forall k :: k in db.slots ==> !SlotHolds(db, k, id);
      assert forall k :: k in db.drives ==> !DriveHolds(db, k, id);
      assert r == Relocate(db, id, lib, AtSlot(slot));
      RelocateKeepsWellPlaced(db, id, lib, AtSlot(slot));
      RelocateMoves(db, id, lib, AtSlot(slot));
    } else {
      assert r.tapes[id].slot == Some(slot) && !SlotHolds(r, (lib, slot), id);
      assert !Anchored(r, id);
    }
  }

  lemma AssignMoves(db: Db, lib: int, name: string, slot: int)
    requires WellPlaced(db) && Assign(db, lib, name, slot).Ok?
    ensures var r, id := Assign(db, lib, name, slot).value, TapeId(db, lib, name).value;
            (WellPlaced(r) <==> (lib, slot) in db.slots) && (WellPlaced(r) ==> Moved(db, r, id, lib, AtSlot(slot)))
  {
    ShelfToSlot(db, TapeId(db, lib, name).value, lib, slot, Assign(db, lib, name, slot).value);
  }

  lemma ImportMoves(db: Db, online: int, offline: int, name: string, slot: int)
    requires WellPlaced(db) && Import(db, online, offline, name, slot).Ok?
    ensures var r, id := Import(db, online, offline, name, slot).value, TapeId(db, offline, name).value;
            (WellPlaced(r) <==> (online, slot) in db.slots)
                && (WellPlaced(r) ==> Moved(db, r, id, online, AtSlot(slot)))
  {
    ShelfToSlot(db, TapeId(db, offline, name).value, online, slot, Import(db, online, offline, name, slot).value);
  }

  /** A load through a missing drive row loses the tape; otherwise it goes to the drive. */
  lemma LoadMoves(db: Db, lib: int, slot: int, drive: int)
    requires WellPlaced(db) && Load(db, lib, slot, drive).Ok?
    ensures var r, id := Load(db, lib, slot, drive).value, SlotTape(db, (lib, slot)).value;
            (WellPlaced(r) <==> (lib, drive) in db.drives) && (WellPlaced(r) ==> Moved(db, r, id, lib, AtDrive(drive)))
  {
    var r, id := Load(db, lib, slot, drive).value, SlotTape(db, (lib, slot)).value;
    assert SlotHolds(db, (lib, slot), id) && Anchored(db, id);
    OneOfItsName(db, id, lib);
    assert forall k :: SlotHolds(db, k, id) ==> k == (lib, slot);
    assert forall k :: !DriveHolds(db, k, id);
    if (lib, drive) in db.drives {
      assert forall k :: k in db.slots && k != (lib, slot) ==> !SlotHolds(db, k, id);
      assert forall k :: k in db.drives ==> !DriveHolds(db, k, id);
      assert r == Relocate(db, id, lib, AtDrive(drive));
      RelocateKeepsWellPlaced(db, id, lib, AtDrive(drive));
      RelocateMoves(db, id, lib, AtDrive(drive));
    } else {
      assert r.drives == db.drives && r.tapes[id].slot == None && r.tapes[id].shelf == None;
      assert forall k :: DriveHolds(r, k, id) ==> DriveHolds(db, k, id);
      assert !Anchored(r, id);
    }
  }

  /** A tape in a drive has no recorded slot: unload always takes the first empty data slot, and never one in use. */
  lemma UnloadTargetIsEmpty(db: Db, lib: int, drive: int)
    requires WellPlaced(db) && DriveTape(db, (lib, drive)).Some?
    ensures var id := DriveTape(db, (lib, drive)).value;
            && id in db.tapes && db.tapes[id].slot == None
            && UnloadTarget(db, lib, id) == FirstEmpty(db, lib, false)
            && (UnloadTarget(db, lib, id).Some? ==> IsEmptySlot(db, lib, false, UnloadTarget(db, lib, id).value))
  {
    assert DriveHolds(db, (lib, drive), DriveTape(db, (lib, drive)).value);
  }

  lemma UnloadMoves(db: Db, lib: int, drive: int)
    requires WellPlaced(db) && Unload(db, lib, drive).Ok?
    ensures var id := DriveTape(db, (lib, drive)).value;
            Moved(db, Unload(db, lib, drive).value, id, lib, AtSlot(FirstEmpty(db, lib, false).value))
  {
    var r, id := Unload(db, lib, drive).value, DriveTape(db, (lib, drive)).value;
    UnloadTargetIsEmpty(db, lib, drive);
    var s := FirstEmpty(db, lib, false).value;
    assert DriveHolds(db, (lib, drive), id) && Anchored(db, id);
    OneOfItsName(db, id, lib);
    assert forall k :: k in db.slots ==> !SlotHolds(db, k, id);
    assert forall k :: k in db.drives && k != (lib, drive) ==> !DriveHolds(db, k, id);
    assert r == Relocate(db, id, lib, AtSlot(s));
    RelocateKeepsWellPlaced(db, id, lib, AtSlot(s));
    RelocateMoves(db, id, lib, AtSlot(s));
  }

  lemma EjectMoves(db: Db, lib: int, slot: int)
    requires WellPlaced(db) && Eject(db, lib, slot).Ok?
    ensures var id := SlotTape(db, (lib, slot)).value;
            Moved(db, Eject(db, lib, slot).value, id, lib, AtSlot(FirstEmpty(db, lib, true).value))
  {
    var r, id, s := Eject(db, lib, slot).value, SlotTape(db, (lib, slot)).value, FirstEmpty(db, lib, true).value;
    assert SlotHolds(db, (lib, slot), id) && Anchored(db, id);
    OneOfItsName(db, id, lib);
    assert forall k :: k in db.slots && k != (lib, slot) ==> !SlotHolds(db, k, id);
    assert forall k :: k in db.drives ==> !DriveHolds(db, k, id);
    assert r == Relocate(db, id, lib, AtSlot(s));
    RelocateKeepsWellPlaced(db, id, lib, AtSlot(s));
    RelocateMoves(db, id, lib, AtSlot(s));
  }

  /** Taking a tape that is in no drive to a shelf, from a slot or from another shelf. */
  lemma ToShelf(db: Db, id: int, lib: int, shelf: int, r: Db)
    requires WellPlaced(db) && id in db.tapes && !InSomeDrive(db, id) && ShelfIn(db, lib, shelf)
    requires lib == db.tapes[id].library || TapeId(db, lib, db.tapes[id].name).None?
    requires r.tapes == SetPlace(db.tapes, id, lib, Some(shelf), None) && r.drives == db.drives
             && r.shelves == db.shelves
    requires r.slots.Keys == db.slots.Keys
    requires forall k :: k in db.slots ==>
               r.slots[k] == if db.slots[k].tape == Some(id) then db.slots[k].(tape := None) else db.slots[k]
    ensures Moved(db, r, id, lib, AtShelf(shelf))
  {
    OneOfItsName(db, id, lib);
    assert forall k :: k in db.drives ==> !DriveHolds(db, k, id);
    assert r == Relocate(db, id, lib, AtShelf(shelf));
    RelocateKeepsWellPlaced(db, id, lib, AtShelf(shelf));
    RelocateMoves(db, id, lib, AtShelf(shelf));
  }

  /** Under a well-placed catalog the library's drive rows are the only ones that can hold its tape. */
  lemma DriveOfLibrary(db: Db, lib: int, id: int)
    requires WellPlaced(db) && id in db.tapes && db.tapes[id].library == lib
    ensures InDriveOf(db, lib, id) <==> InSomeDrive(db, id)
  {
  }

  lemma ShelfPlaceMoves(db: Db, lib: int, name: string, shelf: int)
    requires WellPlaced(db) && ShelfPlace(db, lib, name, shelf).Ok?
    ensures Moved(db, ShelfPlace(db, lib, name, shelf).value, TapeId(db, lib, name).value, lib, AtShelf(shelf))
  {
    var r, id := ShelfPlace(db, lib, name, shelf).value, TapeId(db, lib, name).value;
    DriveOfLibrary(db, lib, id);
    SlotColumnAgrees(db, id);
    ToShelf(db, id, lib, shelf, r);
  }

  /** The only slot row that can hold a tape is the one its own row names. */
  lemma SlotColumnAgrees(db: Db, id: int)
    requires WellPlaced(db) && id in db.tapes
    ensures forall k :: k in db.slots ==>
              (db.slots[k].tape == Some(id) <==> k.0 == db.tapes[id].library && db.tapes[id].slot == Some(k.1))
  {
    forall k | k in db.slots
      ensures db.slots[k].tape == Some(id) <==> k.0 == db.tapes[id].library && db.tapes[id].slot == Some(k.1)
    {
      assert Anchored(db, id);
      if db.slots[k].tape == Some(id) { assert SlotHolds(db, k, id); }
    }
  }

  lemma MigrateMoves(db: Db, lib: int, name: string, from: int, to: int)
    requires WellPlaced(db) && Migrate(db, lib, name, from, to).Ok?
    ensures Where(db)[TapeId(db, lib, name).value] == (lib, AtShelf(from))
    ensures Moved(db, Migrate(db, lib, name, from, to).value, TapeId(db, lib, name).value, lib, AtShelf(to))
  {
    var id := TapeId(db, lib, name).value;
    DriveOfLibrary(db, lib, id);
    ShelvedIsNowhereElse(db, id);
    assert forall k :: k in db.slots ==> !SlotHolds(db, k, id);
    ToShelf(db, id, lib, to, Migrate(db, lib, name, from, to).value);
  }

  lemma MoveOfflineMoves(db: Db, lib: int, offline: int, name: string, shelf: int)
    requires WellPlaced(db) && MoveOffline(db, lib, offline, name, shelf).Ok?
    ensures Moved(db, MoveOffline(db, lib, offline, name, shelf).value, TapeId(db, lib, name).value, offline,
                  AtShelf(shelf))
  {
    var id := TapeId(db, lib, name).value;
    DriveOfLibrary(db, lib, id);
    SlotColumnAgrees(db, id);
    ToShelf(db, id, offline, shelf, MoveOffline(db, lib, offline, name, shelf).value);
  }

  lemma SameHolders(db: Db, r: Db, id: int)
    requires forall k :: DriveHolds(r, k, id) <==> DriveHolds(db, k, id)
    ensures InSomeDrive(r, id) <==> InSomeDrive(db, id)
  {
  }

  /** A tape whose row and holders are as before is where it was. */
  lemma SamePlace(db: Db, r: Db, id: int)
    requires WellPlaced(db) && WellPlaced(r) && id in db.tapes && id in r.tapes && r.tapes[id] == db.tapes[id]
    requires forall k :: DriveHolds(r, k, id) <==> DriveHolds(db, k, id)
    ensures PlaceOf(r, id) == PlaceOf(db, id)
  {
    if InSomeDrive(db, id) {
      var k :| DriveHolds(db, k, id);
      AtDriveIff(db, id, k);
      AtDriveIff(r, id, k);
    }
  }

  /** `r` is `db` without some tapes, each of them also gone from the rows that held it. */
  ghost predicate Restricts(db: Db, r: Db) {
    && (forall id :: id in r.tapes ==> id in db.tapes && r.tapes[id] == db.tapes[id])
    && (forall k, id :: SlotHolds(r, k, id) <==> SlotHolds(db, k, id) && id in r.tapes)
    && (forall k, id :: DriveHolds(r, k, id) <==> DriveHolds(db, k, id) && id in r.tapes)
    && (forall id :: id in r.tapes && r.tapes[id].shelf.Some? ==>
          var h := r.tapes[id].shelf.value; h in r.shelves && h in db.shelves && r.shelves[h] == db.shelves[h])
  }

  lemma RestrictionKeepsPlaces(db: Db, r: Db)
    requires WellPlaced(db) && Restricts(db, r)
    ensures WellPlaced(r) && Where(r) == map id | id in Where(db) && id in r.tapes :: Where(db)[id]
  {
    hide SlotHolds, DriveHolds;
    forall j | j in r.tapes ensures Anchored(r, j) {
      assert Anchored(db, j);
      SameHolders(db, r, j);
    }
    forall j | j in r.tapes ensures Where(r)[j] == Where(db)[j] {
      SamePlace(db, r, j);
    }
  }

  /** The element rows and shelves are the same, and so are the names of the tapes that both have. */
  ghost predicate SameRows(a: Db, b: Db) {
    && a.slots.Keys == b.slots.Keys && a.drives.Keys == b.drives.Keys && a.shelves == b.shelves
    && (forall k :: k in a.slots ==> a.slots[k].importExport == b.slots[k].importExport)
    && (forall id :: id in a.tapes && id in b.tapes ==> a.tapes[id].name == b.tapes[id].name)
  }

  /** A new tape appears on its shelf; nothing else moves. */
  lemma CreateAdds(db: Db, id: int, lib: int, name: string, shelf: int)
    requires WellPlaced(db) && Create(db, id, lib, name, shelf).Ok?
    ensures var r := Create(db, id, lib, name, shelf).value;
            && WellPlaced(r) && id !in Where(db) && Where(r) == Where(db)[id := (lib, AtShelf(shelf))]
            && r.tapes[id].name == name && SameRows(db, r)
  {
    var r := Create(db, id, lib, name, shelf).value;
    CreateKeeps(db, r, id, lib, name, shelf);
    assert Restricts(r, db);
    RestrictionKeepsPlaces(r, db);
  }

  lemma CreateKeeps(db: Db, r: Db, id: int, lib: int, name: string, shelf: int)
    requires WellPlaced(db) && id !in db.tapes && ShelfIn(db, lib, shelf)
    requires forall j :: j in db.tapes ==> db.tapes[j].name != name
    requires r == db.(tapes := db.tapes[id := TapeRow(lib, name, Some(shelf), None)])
    ensures WellPlaced(r)
  {
    hide SlotHolds, DriveHolds;
    HoldersDoNotDependOnTapes(db, r);
    forall j | j in r.tapes ensures Anchored(r, j) {
      if j != id {
        assert Anchored(db, j);
        SameHolders(db, r, j);
      }
    }
  }

  lemma HoldersDoNotDependOnTapes(db: Db, r: Db)
    requires r.slots == db.slots && r.drives == db.drives
    ensures forall k, j :: SlotHolds(r, k, j) <==> SlotHolds(db, k, j)
    ensures forall k, j :: DriveHolds(r, k, j) <==> DriveHolds(db, k, j)
  {
  }

  lemma DeleteRemoves(db: Db, lib: int, name: string)
    requires WellPlaced(db) && Delete(db, lib, name).Ok?
    ensures var r, id := Delete(db, lib, name).value, TapeId(db, lib, name).value;
            WellPlaced(r) && Where(r) == Where(db) - {id} && SameRows(db, r)
  {
    hide Anchored;
    var r, id := Delete(db, lib, name).value, TapeId(db, lib, name).value;
    forall k, j ensures SlotHolds(r, k, j) <==> SlotHolds(db, k, j) && j in r.tapes {
      assert SlotHolds(db, k, j) ==> j in db.tapes && db.tapes[j].library == k.0;
    }
    forall k, j ensures DriveHolds(r, k, j) <==> DriveHolds(db, k, j) && j in r.tapes {
      assert DriveHolds(db, k, j) ==> j in db.tapes && db.tapes[j].library == k.0;
    }
    forall j | j in r.tapes ensures r.tapes[j].shelf.Some? ==> r.tapes[j].shelf.value in db.shelves {
      if r.tapes[j].shelf.Some? { ShelfOfTape(db, j); }
    }
    RestrictionKeepsPlaces(db, r);
  }

  lemma ShelfOfTape(db: Db, id: int)
    requires WellPlaced(db) && id in db.tapes && db.tapes[id].shelf.Some?
    ensures ShelfIn(db, db.tapes[id].library, db.tapes[id].shelf.value)
  {
    assert Anchored(db, id);
  }

  lemma DeleteShelfKeeps(db: Db, lib: int, shelf: int)
    requires WellPlaced(db) && DeleteShelf(db, lib, shelf).Ok?
    ensures var r := DeleteShelf(db, lib, shelf).value;
            WellPlaced(r) && Where(r) == Where(db) && SameRows(db, r.(shelves := db.shelves))
            && r.shelves == map h | h in db.shelves && h != shelf :: db.shelves[h]
  {
    var r := DeleteShelf(db, lib, shelf).value;
    forall j | j in r.tapes ensures r.tapes[j].shelf.Some? ==> r.tapes[j].shelf.value in db.shelves {
      assert Anchored(db, j);
    }
    forall k, j ensures SlotHolds(r, k, j) <==> SlotHolds(db, k, j) && j in r.tapes {
      assert SlotHolds(db, k, j) ==> j in db.tapes;
    }
    forall k, j ensures DriveHolds(r, k, j) <==> DriveHolds(db, k, j) && j in r.tapes {
      assert DriveHolds(db, k, j) ==> j in db.tapes;
    }
    RestrictionKeepsPlaces(db, r);
  }

  lemma DeleteLibraryRemoves(db: Db, lib: int)
    requires WellPlaced(db)
    ensures var r := DeleteLibrary(db, lib).value;
            && WellPlaced(r) && Where(r) == (map id | id in Where(db) && Where(db)[id].0 != lib :: Where(db)[id])
            && (forall id :: id in r.tapes ==> r.tapes[id].name == db.tapes[id].name)
            && (forall k: Key :: k in r.slots <==> k in db.slots && k.0 != lib)
            && (forall k: Key :: k in r.slots ==> r.slots[k].importExport == db.slots[k].importExport)
            && (forall k: Key :: k in r.drives <==> k in db.drives && k.0 != lib)
            && (forall h :: h in r.shelves <==> h in db.shelves && db.shelves[h].library != lib)
            && (forall h :: h in r.shelves ==> r.shelves[h] == db.shelves[h])
  {
    var r := DeleteLibrary(db, lib).value;
    forall k, j ensures SlotHolds(r, k, j) <==> SlotHolds(db, k, j) && j in r.tapes {
      assert SlotHolds(db, k, j) ==> j in db.tapes && db.tapes[j].library == k.0;
    }
    forall k, j ensures DriveHolds(r, k, j) <==> DriveHolds(db, k, j) && j in r.tapes {
      assert DriveHolds(db, k, j) ==> j in db.tapes && db.tapes[j].library == k.0;
    }
    forall j | j in r.tapes
      ensures r.tapes[j].shelf.Some? ==> r.tapes[j].shelf.value in db.shelves && r.tapes[j].shelf.value in r.shelves
    {
      assert Anchored(db, j);
    }
    assert Restricts(db, r);
    RestrictionKeepsPlaces(db, r);
  }

  lemma AddSlotKeeps(db: Db, lib: int, n: int, importExport: bool)
    requires WellPlaced(db)
    ensures var r := AddSlot(db, lib, n, importExport).value;
            && WellPlaced(r) && Where(r) == Where(db) && r.slots.Keys == db.slots.Keys + {(lib, n)}
            && SameRows(db, r.(slots := db.slots)) && forall k :: k in db.slots ==> r.slots[k] == db.slots[k]
  {
    hide WellPlaced, Where;
    RowsAdded(db, AddSlot(db, lib, n, importExport).value);
  }

  lemma AddDriveKeeps(db: Db, lib: int, n: int)
    requires WellPlaced(db)
    ensures var r := AddDrive(db, lib, n).value;
            && WellPlaced(r) && Where(r) == Where(db) && r.drives.Keys == db.drives.Keys + {(lib, n)}
            && SameRows(db, r.(drives := db.drives)) && forall k :: k in db.drives ==> r.drives[k] == db.drives[k]
  {
    hide WellPlaced, Where;
    RowsAdded(db, AddDrive(db, lib, n).value);
  }

  /** New empty rows move nothing and change no other row. */
  lemma AddRowsKeeps(db: Db, lib: int, n: int, importExport: bool)
    requires WellPlaced(db)
    ensures var r := AddSlot(db, lib, n, importExport).value;
            && WellPlaced(r) && Where(r) == Where(db) && r.slots.Keys == db.slots.Keys + {(lib, n)}
            && forall k :: k in db.slots ==> r.slots[k] == db.slots[k]
    ensures var r := AddDrive(db, lib, n).value;
            && WellPlaced(r) && Where(r) == Where(db) && r.drives.Keys == db.drives.Keys + {(lib, n)}
            && forall k :: k in db.drives ==> r.drives[k] == db.drives[k]
  {
    hide WellPlaced, Where, AddSlot, AddDrive;
    AddSlotKeeps(db, lib, n, importExport);
    AddDriveKeeps(db, lib, n);
  }

  lemma RowsAdded(db: Db, r: Db)
    requires WellPlaced(db) && r.tapes == db.tapes && r.shelves == db.shelves
    requires forall k :: k in db.slots ==> k in r.slots && r.slots[k] == db.slots[k]
    requires forall k :: k in r.slots && k !in db.slots ==> r.slots[k].tape == None
    requires forall k :: k in db.drives ==> k in r.drives && r.drives[k] == db.drives[k]
    requires forall k :: k in r.drives && k !in db.drives ==> r.drives[k] == None
    ensures WellPlaced(r) && Where(r) == Where(db)
  {
    forall j | j in db.tapes && db.tapes[j].shelf.Some? ensures db.tapes[j].shelf.value in db.shelves {
      assert Anchored(db, j);
    }
    forall k, j ensures SlotHolds(r, k, j) <==> SlotHolds(db, k, j) && j in r.tapes {
      assert SlotHolds(db, k, j) ==> j in db.tapes;
    }
    forall k, j ensures DriveHolds(r, k, j) <==> DriveHolds(db, k, j) && j in r.tapes {
      assert DriveHolds(db, k, j) ==> j in db.tapes;
    }
    RestrictionKeepsPlaces(db, r);
  }

  // ---------------------------------------------------------------- over every run

  datatype Op =
    | OpCreate(id: int, lib: int, name: string, shelf: int)
    | OpAssign(lib: int, name: string, slot: int)
    | OpLoad(lib: int, slot: int, drive: int)
    | OpUnload(lib: int, drive: int)
    | OpEject(lib: int, slot: int)
    | OpShelfPlace(lib: int, name: string, shelf: int)
    | OpMigrate(lib: int, name: string, from: int, to: int)
    | OpMoveOffline(lib: int, offline: int, name: string, shelf: int)
    | OpImport(online: int, offline: int, name: string, slot: int)
    | OpDelete(lib: int, name: string)
    | OpDeleteShelf(lib: int, shelf: int)
    | OpDeleteLibrary(lib: int)
    | OpAddSlot(lib: int, slot: int, importExport: bool)
    | OpAddDrive(lib: int, drive: int)

  ghost function Attempt(db: Db, op: Op): Outcome {
    match op
    case OpCreate(id, lib, name, shelf) => Create(db, id, lib, name, shelf)
    case OpAssign(lib, name, slot) => Assign(db, lib, name, slot)
    case OpLoad(lib, slot, drive) => Load(db, lib, slot, drive)
    case OpUnload(lib, drive) => Unload(db, lib, drive)
    case OpEject(lib, slot) => Eject(db, lib, slot)
    case OpShelfPlace(lib, name, shelf) => ShelfPlace(db, lib, name, shelf)
    case OpMigrate(lib, name, from, to) => Migrate(db, lib, name, from, to)
    case OpMoveOffline(lib, offline, name, shelf) => MoveOffline(db, lib, offline, name, shelf)
    case OpImport(online, offline, name, slot) => Import(db, online, offline, name, slot)
    case OpDelete(lib, name) => Delete(db, lib, name)
    case OpDeleteShelf(lib, shelf) => DeleteShelf(db, lib, shelf)
    case OpDeleteLibrary(lib) => DeleteLibrary(db, lib)
    case OpAddSlot(lib, slot, importExport) => AddSlot(db, lib, slot, importExport)
    case OpAddDrive(lib, drive) => AddDrive(db, lib, drive)
  }

  /** A refused operation leaves the catalog as it was. */
  ghost function Apply(db: Db, op: Op): Db {
    if Attempt(db, op).Ok? then Attempt(db, op).value else db
  }

  /** The row an operation is about to fill: an UPDATE of a missing row would silently do nothing. */
  predicate TargetRowExists(db: Db, op: Op) {
    match op
    case OpAssign(lib, _, slot) => (lib, slot) in db.slots
    case OpLoad(lib, _, drive) => (lib, drive) in db.drives
    case OpImport(online, _, _, slot) => (online, slot) in db.slots
    case _ => true
  }

  /** One operation keeps every tape well placed exactly when it is refused or its target row exists. */
  lemma StepKeepsWellPlacedIff(db: Db, op: Op)
    requires WellPlaced(db)
    ensures WellPlaced(Apply(db, op)) <==> Attempt(db, op).Err? || TargetRowExists(db, op)
  {
    hide WellPlaced, Create, Assign, Load, Unload, Eject, ShelfPlace, Migrate, MoveOffline, Import, Delete, DeleteShelf;
    if Attempt(db, op).Ok? {
      match op
      case OpCreate(id, lib, name, shelf) => CreateAdds(db, id, lib, name, shelf);
      case OpAssign(lib, name, slot) => AssignMoves(db, lib, name, slot);
      case OpLoad(lib, slot, drive) => LoadMoves(db, lib, slot, drive);
      case OpUnload(lib, drive) => UnloadMoves(db, lib, drive);
      case OpEject(lib, slot) => EjectMoves(db, lib, slot);
      case OpShelfPlace(lib, name, shelf) => ShelfPlaceMoves(db, lib, name, shelf);
      case OpMigrate(lib, name, from, to) => MigrateMoves(db, lib, name, from, to);
      case OpMoveOffline(lib, offline, name, shelf) => MoveOfflineMoves(db, lib, offline, name, shelf);
      case OpImport(online, offline, name, slot) => ImportMoves(db, online, offline, name, slot);
      case OpDelete(lib, name) => DeleteRemoves(db, lib, name);
      case OpDeleteShelf(lib, shelf) => DeleteShelfKeeps(db, lib, shelf);
      case OpDeleteLibrary(lib) => DeleteLibraryRemoves(db, lib);
      case OpAddSlot(lib, slot, importExport) => AddRowsKeeps(db, lib, slot, importExport);
      case OpAddDrive(lib, drive) => AddRowsKeeps(db, lib, drive, false);
    }
  }

  /** A library with one tape, on a shelf, and no slot row. */
  function NoSlots(): Db { Db(map[7 := TapeRow(1, "T", Some(3), None)], map[], map[], map[3 := ShelfRow(1, true)]) }

  /** Assigning to a slot without a row is granted, and the tape is then in a slot that does not hold it. */
  lemma MissingRowExample()
    ensures WellPlaced(NoSlots()) && Attempt(NoSlots(), OpAssign(1, "T", 0)).Ok?
    ensures !WellPlaced(Apply(NoSlots(), OpAssign(1, "T", 0)))
  {
    var db := NoSlots();
    assert Anchored(db, 7);
    assert IsTape(db.tapes, 7, 1, "T");
    StepKeepsWellPlacedIff(db, OpAssign(1, "T", 0));
  }

  ghost function Run(db: Db, ops: seq<Op>): Db {
    if ops == [] then db else Apply(Run(db, ops[..|ops| - 1]), ops[|ops| - 1])
  }

  ghost predicate TargetsExist(db: Db, ops: seq<Op>) {
    ops == [] || (TargetsExist(db, ops[..|ops| - 1]) && TargetRowExists(Run(db, ops[..|ops| - 1]), ops[|ops| - 1]))
  }

  /** Over every run whose target rows exist, each tape stays in exactly one place. */
  lemma {:induction false} RunKeepsWellPlaced(db: Db, ops: seq<Op>)
    requires WellPlaced(db) && TargetsExist(db, ops)
    ensures WellPlaced(Run(db, ops))
  {
    if ops != [] {
      RunKeepsWellPlaced(db, ops[..|ops| - 1]);
      StepKeepsWellPlacedIff(Run(db, ops[..|ops| - 1]), ops[|ops| - 1]);
    }
  }

  /** After any such run, unloading never overwrites an occupied slot nor follows a recorded one. */
  lemma UnloadAfterAnyRun(db: Db, ops: seq<Op>, lib: int, drive: int)
    requires WellPlaced(db) && TargetsExist(db, ops)
    requires Unload(Run(db, ops), lib, drive).Ok?
    ensures var now := Run(db, ops);
            var id := DriveTape(now, (lib, drive)).value;
            id in now.tapes && now.tapes[id].slot == None
            && IsFirstEmpty(now, lib, false, UnloadTarget(now, lib, id).value)
  {
    RunKeepsWellPlaced(db, ops);
    UnloadTargetIsEmpty(Run(db, ops), lib, drive);
  }
}
