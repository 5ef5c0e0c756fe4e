/**
 * When each catalog operation is granted, and what a refusal says, told by names, rows and where the
 * tapes are: what can be seen of a well-placed catalog before the call.
 */
module CatalogGrants {
  import opened Common
  import opened Catalog
  import opened CatalogOps

  /** Some tape of the library is at `p`. */
  ghost predicate Occupied(db: Db, lib: int, p: Place) { exists id :: id in db.tapes && Where(db)[id] == (lib, p) }

  ghost predicate Known(db: Db, lib: int, name: string) {
    exists id :: id in db.tapes && db.tapes[id].library == lib && db.tapes[id].name == name
  }

  /** The library's tape of this name is at `p`. */
  ghost predicate Sits(db: Db, lib: int, name: string, p: Place) {
    exists id :: id in db.tapes && db.tapes[id].name == name && Where(db)[id] == (lib, p)
  }

  ghost predicate OnShelf(db: Db, lib: int, name: string) { exists h :: Sits(db, lib, name, AtShelf(h)) }

  ghost predicate InSlot(db: Db, lib: int, name: string) { exists s :: Sits(db, lib, name, AtSlot(s)) }

  ghost predicate InDrive(db: Db, lib: int, name: string) { exists d :: Sits(db, lib, name, AtDrive(d)) }

  /** The library has an empty data slot, or an empty mailslot. */
  ghost predicate HasEmpty(db: Db, lib: int, importExport: bool) {
    exists s :: (lib, s) in db.slots && db.slots[(lib, s)].importExport == importExport && !Occupied(db, lib, AtSlot(s))
  }

  predicate HasShelf(db: Db, lib: int, h: int) { h in db.shelves && db.shelves[h].library == lib }

  ghost predicate Permitted(db: Db, op: Op) {
    match op
    case OpCreate(id, lib, name, shelf) =>
      (forall l :: !Known(db, l, name)) && HasShelf(db, lib, shelf) && id !in db.tapes
    case OpAssign(lib, name, slot) => OnShelf(db, lib, name) && !Occupied(db, lib, AtSlot(slot))
    case OpLoad(lib, slot, drive) => Occupied(db, lib, AtSlot(slot)) && !Occupied(db, lib, AtDrive(drive))
    case OpUnload(lib, drive) => Occupied(db, lib, AtDrive(drive)) && HasEmpty(db, lib, false)
    case OpEject(lib, slot) => Occupied(db, lib, AtSlot(slot)) && HasEmpty(db, lib, true)
    case OpShelfPlace(lib, name, shelf) => Known(db, lib, name) && !InDrive(db, lib, name) && HasShelf(db, lib, shelf)
    case OpMigrate(lib, name, from, to) => Sits(db, lib, name, AtShelf(from)) && HasShelf(db, lib, to)
    case OpMoveOffline(lib, offline, name, shelf) =>
      Known(db, lib, name) && !InDrive(db, lib, name) && HasShelf(db, offline, shelf) && !Known(db, offline, name)
    case OpImport(online, offline, name, slot) =>
      OnShelf(db, offline, name) && !Known(db, online, name) && !Occupied(db, online, AtSlot(slot))
    case OpDelete(lib, name) => Known(db, lib, name)
    case OpDeleteShelf(lib, shelf) =>
      HasShelf(db, lib, shelf) && !db.shelves[shelf].isDefault && forall l :: !Occupied(db, l, AtShelf(shelf))
    case OpDeleteLibrary(_) => true
    case OpAddSlot(_, _, _) => true
    case OpAddDrive(_, _) => true
  }

  /** What the error of a refused operation means. */
  ghost predicate Reason(db: Db, op: Op, e: Error) {
    match op
    case OpCreate(id, lib, name, shelf) =>
      || (e == NameTaken && exists l :: Known(db, l, name))
      || (e == ShelfNotFound && !HasShelf(db, lib, shelf))
      || (e == IdInUse && id in db.tapes)
    case OpAssign(lib, name, slot) =>
      || (e == TapeNotFound && !Known(db, lib, name))
      || (e == TapeInDrive && InDrive(db, lib, name))
      || (e == AlreadyInSlot && InSlot(db, lib, name))
      || (e == SlotNotEmpty && Occupied(db, lib, AtSlot(slot)))
    case OpLoad(lib, slot, drive) =>
      || (e == SlotEmpty && !Occupied(db, lib, AtSlot(slot)))
      || (e == DriveBusy && Occupied(db, lib, AtDrive(drive)))
    case OpUnload(lib, drive) =>
      || (e == DriveEmpty && !Occupied(db, lib, AtDrive(drive)))
      || (e == NoAvailableSlots && !HasEmpty(db, lib, false))
    case OpEject(lib, slot) =>
      || (e == SlotEmpty && !Occupied(db, lib, AtSlot(slot)))
      || (e == NoAvailableSlots && !HasEmpty(db, lib, true))
    case OpShelfPlace(lib, name, shelf) =>
      || (e == TapeNotFound && !Known(db, lib, name))
      || (e == TapeInDrive && InDrive(db, lib, name))
      || (e == ShelfNotFound && !HasShelf(db, lib, shelf))
    case OpMigrate(lib, name, from, to) =>
      || (e == ShelfNotFound && !(HasShelf(db, lib, from) && HasShelf(db, lib, to)))
      || (e == TapeNotFound && !Known(db, lib, name))
      || (e == WrongShelf && Known(db, lib, name) && !Sits(db, lib, name, AtShelf(from)))
    case OpMoveOffline(lib, offline, name, shelf) =>
      || (e == ShelfNotFound && !HasShelf(db, offline, shelf))
      || (e == TapeNotFound && !Known(db, lib, name))
      || (e == TapeInDrive && InDrive(db, lib, name))
      || (e == NameTaken && Known(db, offline, name))
    case OpImport(online, offline, name, slot) =>
      || (e == TapeNotFound && !Known(db, offline, name))
      || (e == TapeInDrive && InDrive(db, offline, name))
      || (e == Inconsistent && InSlot(db, offline, name))
      || (e == TapeNotOnShelf && Known(db, offline, name) && !OnShelf(db, offline, name))
      || (e == NameTaken && Known(db, online, name))
      || (e == SlotNotEmpty && Occupied(db, online, AtSlot(slot)))
    case OpDelete(lib, name) => e == TapeNotFound && !Known(db, lib, name)
    case OpDeleteShelf(lib, shelf) =>
      || (e == ShelfNotFound && !HasShelf(db, lib, shelf))
      || (e == ShelfInUse && HasShelf(db, lib, shelf)
          && (db.shelves[shelf].isDefault || exists l :: Occupied(db, l, AtShelf(shelf))))
    case OpDeleteLibrary(_) => false
    case OpAddSlot(_, _, _) => false
    case OpAddDrive(_, _) => false
  }

  // ---------------------------------------------------------------- what the queries answer

  lemma SlotQuery(db: Db, lib: int, s: int)
    requires WellPlaced(db)
    ensures SlotTape(db, (lib, s)).Some? <==> Occupied(db, lib, AtSlot(s))
  {
    if SlotTape(db, (lib, s)).Some? {
      var id := SlotTape(db, (lib, s)).value;
      assert SlotHolds(db, (lib, s), id) && Anchored(db, id);
      assert Where(db)[id] == (lib, AtSlot(s));
    }
    if id :| id in db.tapes && Where(db)[id] == (lib, AtSlot(s)) {
      assert Anchored(db, id);
    }
  }

  lemma DriveQuery(db: Db, lib: int, d: int)
    requires WellPlaced(db)
    ensures DriveTape(db, (lib, d)).Some? <==> Occupied(db, lib, AtDrive(d))
  {
    if DriveTape(db, (lib, d)).Some? {
      var id := DriveTape(db, (lib, d)).value;
      assert DriveHolds(db, (lib, d), id);
      AtDriveIff(db, id, (lib, d));
    }
    if id :| id in db.tapes && Where(db)[id] == (lib, AtDrive(d)) {
      var k :| DriveHolds(db, k, id) && k.1 == d;
      assert k == (lib, d);
    }
  }

  lemma EmptyQuery(db: Db, lib: int, importExport: bool)
    requires WellPlaced(db)
    ensures FirstEmpty(db, lib, importExport).Some? <==> HasEmpty(db, lib, importExport)
  {
    hide WellPlaced, Occupied;
    forall s | (lib, s) in db.slots
      ensures IsEmptySlot(db, lib, importExport, s) <==>
              db.slots[(lib, s)].importExport == importExport && !Occupied(db, lib, AtSlot(s))
    {
      SlotQuery(db, lib, s);
    }
    if FirstEmpty(db, lib, importExport).Some? {
      assert IsEmptySlot(db, lib, importExport, FirstEmpty(db, lib, importExport).value);
    }
    if s :| (lib, s) in db.slots && db.slots[(lib, s)].importExport == importExport && !Occupied(db, lib, AtSlot(s)) {
      assert IsEmptySlot(db, lib, importExport, s);
    }
  }

  lemma NameQuery(db: Db, lib: int, name: string)
    ensures TapeId(db, lib, name).Some? <==> Known(db, lib, name)
  {
    if id :| id in db.tapes && db.tapes[id].library == lib && db.tapes[id].name == name {
      assert IsTape(db.tapes, id, lib, name);
    }
  }

  /** The one tape of a name, and the place its row and the drives give it. */
  lemma PlaceQuery(db: Db, lib: int, name: string)
    requires WellPlaced(db) && TapeId(db, lib, name).Some?
    ensures var id := TapeId(db, lib, name).value;
            && (forall p :: Sits(db, lib, name, p) <==> PlaceOf(db, id) == p)
            && (db.tapes[id].shelf.Some? ==> PlaceOf(db, id) == AtShelf(db.tapes[id].shelf.value))
            && (db.tapes[id].slot.Some? <==> PlaceOf(db, id).AtSlot?)
            && (PlaceOf(db, id).AtShelf? ==> db.tapes[id].shelf == Some(PlaceOf(db, id).shelf))
            && (InDriveOf(db, lib, id) <==> PlaceOf(db, id).AtDrive?)
            && !PlaceOf(db, id).Nowhere?
  {
    var id := TapeId(db, lib, name).value;
    assert Anchored(db, id);
    DriveOfLibrary(db, lib, id);
    if InSomeDrive(db, id) {
      var k :| DriveHolds(db, k, id);
    }
    assert Where(db)[id] == (lib, PlaceOf(db, id));
    forall p ensures Sits(db, lib, name, p) <==> PlaceOf(db, id) == p {
      if j :| j in db.tapes && db.tapes[j].name == name && Where(db)[j] == (lib, p) {
        assert j == id;
      }
    }
  }

  /** The same by kind of place. */
  lemma KindQuery(db: Db, lib: int, name: string)
    requires WellPlaced(db) && TapeId(db, lib, name).Some?
    ensures var id := TapeId(db, lib, name).value;
            && (OnShelf(db, lib, name) <==> db.tapes[id].shelf.Some?)
            && (InSlot(db, lib, name) <==> db.tapes[id].slot.Some?)
            && (InDrive(db, lib, name) <==> InDriveOf(db, lib, id))
            && (db.tapes[id].shelf.Some? || db.tapes[id].slot.Some? || InDriveOf(db, lib, id))
            && (forall h :: Sits(db, lib, name, AtShelf(h)) <==> db.tapes[id].shelf == Some(h))
  {
    hide WellPlaced, Sits, PlaceOf, InDriveOf;
    PlaceQuery(db, lib, name);
    var p := PlaceOf(db, TapeId(db, lib, name).value);
    assert Sits(db, lib, name, p);
    match p
    case AtShelf(h) => assert Sits(db, lib, name, AtShelf(h));
    case AtSlot(s) => assert Sits(db, lib, name, AtSlot(s));
    case AtDrive(d) => assert Sits(db, lib, name, AtDrive(d));
  }

  lemma OnlyKnownSit(db: Db, lib: int, name: string, p: Place)
    requires Sits(db, lib, name, p)
    ensures Known(db, lib, name)
  {
    hide PlaceOf;
  }

  // ---------------------------------------------------------------- granted exactly when permitted

  ghost predicate Told(db: Db, op: Op) {
    && (Attempt(db, op).Ok? <==> Permitted(db, op))
    && (Attempt(db, op).Err? ==> Reason(db, op, Attempt(db, op).error))
  }

  lemma ByElement(db: Db, op: Op)
    requires WellPlaced(db) && (op.OpLoad? || op.OpUnload? || op.OpEject?)
    ensures Told(db, op)
  {
    hide WellPlaced, Occupied, HasEmpty, SetSlot, SetDrive, SetPlace;
    match op
    case OpLoad(lib, slot, drive) =>
      SlotQuery(db, lib, slot);
      DriveQuery(db, lib, drive);
    case OpUnload(lib, drive) =>
      DriveQuery(db, lib, drive);
      EmptyQuery(db, lib, false);
      if DriveTape(db, (lib, drive)).Some? { UnloadTargetIsEmpty(db, lib, drive); }
    case OpEject(lib, slot) =>
      SlotQuery(db, lib, slot);
      EmptyQuery(db, lib, true);
  }

  lemma ByName(db: Db, op: Op)
    requires WellPlaced(db) && (op.OpAssign? || op.OpShelfPlace? || op.OpMigrate?)
    ensures Told(db, op)
  {
    hide WellPlaced, Occupied, OnShelf, InSlot, InDrive, Sits, Known, InDriveOf, SetSlot, SetPlace, ReleaseSlots;
    var lib, name := op.lib, op.name;
    NameQuery(db, lib, name);
    Unknown(db, lib, name);
    if TapeId(db, lib, name).Some? {
      KindQuery(db, lib, name);
      var id := TapeId(db, lib, name).value;
      if db.tapes[id].shelf.Some? {
        ShelfOfTape(db, id);
        ShelvedIsFree(db, lib, id);
      }
    }
    if op.OpAssign? { SlotQuery(db, lib, op.slot); }
  }

  lemma ShelvedIsFree(db: Db, lib: int, id: int)
    requires WellPlaced(db) && id in db.tapes && db.tapes[id].shelf.Some?
    ensures db.tapes[id].slot == None && !InDriveOf(db, lib, id)
  {
    assert Anchored(db, id);
  }

  /** A name the library does not have is nowhere in it. */
  lemma Unknown(db: Db, lib: int, name: string)
    ensures !Known(db, lib, name) ==>
              !OnShelf(db, lib, name) && !InSlot(db, lib, name) && !InDrive(db, lib, name)
              && forall p :: !Sits(db, lib, name, p)
  {
    forall p | Sits(db, lib, name, p) ensures Known(db, lib, name) {
      OnlyKnownSit(db, lib, name, p);
    }
  }

  lemma ByTwoLibraries(db: Db, op: Op)
    requires WellPlaced(db) && (op.OpMoveOffline? || op.OpImport?)
    ensures Told(db, op)
  {
    hide WellPlaced, Occupied, OnShelf, InSlot, InDrive, Sits, Known, InDriveOf, SetSlot, SetPlace;
    var source, other := if op.OpMoveOffline? then op.lib else op.offline,
        if op.OpMoveOffline? then op.offline else op.online;
    NameQuery(db, source, op.name);
    NameQuery(db, other, op.name);
    Unknown(db, source, op.name);
    if TapeId(db, source, op.name).Some? { KindQuery(db, source, op.name); }
    if op.OpImport? {
      SlotQuery(db, other, op.slot);
      if TapeId(db, source, op.name).Some? && db.tapes[TapeId(db, source, op.name).value].shelf.Some? {
        ShelvedIsFree(db, source, TapeId(db, source, op.name).value);
      }
    }
  }

  lemma ByCreate(db: Db, op: Op)
    requires WellPlaced(db) && op.OpCreate?
    ensures Told(db, op)
  {
    var id, name := op.id, op.name;
    if j :| j in db.tapes && db.tapes[j].name == name {
      assert Known(db, db.tapes[j].library, name);
    }
    assert InSomeDrive(db, id) ==> id in db.tapes;
    assert (exists k :: SlotHolds(db, k, id)) ==> id in db.tapes;
  }

  lemma ByDeletion(db: Db, op: Op)
    requires WellPlaced(db) && (op.OpDelete? || op.OpDeleteShelf?)
    ensures Told(db, op)
  {
    hide WellPlaced;
    match op
    case OpDelete(lib, name) => NameQuery(db, lib, name);
    case OpDeleteShelf(lib, shelf) =>
      forall id | id in db.tapes
        ensures db.tapes[id].shelf == Some(shelf) <==> Where(db)[id] == (db.tapes[id].library, AtShelf(shelf))
      {
      }
      if id :| id in db.tapes && db.tapes[id].shelf == Some(shelf) {
        assert Occupied(db, db.tapes[id].library, AtShelf(shelf));
      }
  }

  /**
   * In a well-placed catalog an operation is granted exactly when names, rows and places permit it,
   * and the error of a refused one is true.
   */
  lemma GrantedIffPermitted(db: Db, op: Op)
    requires WellPlaced(db)
    ensures Attempt(db, op).Ok? <==> Permitted(db, op)
    ensures Attempt(db, op).Err? ==> Reason(db, op, Attempt(db, op).error)
  {
    hide WellPlaced, Permitted, Reason, Attempt;
    match op
    case OpCreate(_, _, _, _) => ByCreate(db, op);
    case OpAssign(_, _, _) => ByName(db, op);
    case OpLoad(_, _, _) => ByElement(db, op);
    case OpUnload(_, _) => ByElement(db, op);
    case OpEject(_, _) => ByElement(db, op);
    case OpShelfPlace(_, _, _) => ByName(db, op);
    case OpMigrate(_, _, _, _) => ByName(db, op);
    case OpMoveOffline(_, _, _, _) => ByTwoLibraries(db, op);
    case OpImport(_, _, _, _) => ByTwoLibraries(db, op);
    case OpDelete(_, _) => ByDeletion(db, op);
    case OpDeleteShelf(_, _) => ByDeletion(db, op);
    case _ => AlwaysGranted(db, op);
  }

  lemma AlwaysGranted(db: Db, op: Op)
    requires op.OpDeleteLibrary? || op.OpAddSlot? || op.OpAddDrive?
    ensures Attempt(db, op).Ok? && Permitted(db, op)
  {
  }
}
