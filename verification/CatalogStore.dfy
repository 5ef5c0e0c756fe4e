/** The catalog tables as the operations update them: one SQL statement after another, per transaction. */
module CatalogStore {
  import opened Common
  import opened Catalog
  import opened CatalogOps
  import opened Batch

  datatype Unit = Unit

  type Reply = Result<Unit, Error>

  /** The method's reply and new state are those of `outcome`; a refused transaction changes nothing. */
  ghost predicate Performed(before: Db, outcome: Outcome, after: Db, r: Reply) {
    match outcome
    case Ok(db) => r == Ok(Unit) && after == db
    case Err(e) => r == Err(e) && after == before
  }

  lemma RelocationKeepsUnique(db: Db, id: int, lib: int, shelf: Option<int>, slot: Option<int>)
    requires UniqueNames(db.tapes) && id in db.tapes
    requires lib == db.tapes[id].library || TapeId(db, lib, db.tapes[id].name).None?
    ensures UniqueNames(SetPlace(db.tapes, id, lib, shelf, slot))
  {
    var tapes, name := SetPlace(db.tapes, id, lib, shelf, slot), db.tapes[id].name;
    forall i, j | i in tapes && j in tapes && tapes[i].library == tapes[j].library && tapes[i].name == tapes[j].name
      ensures i == j
    {
      assert i == id && j != id ==> !IsTape(db.tapes, j, lib, name);
      assert j == id && i != id ==> !IsTape(db.tapes, i, lib, name);
    }
  }

  /** SELECT ... FROM slots WHERE library_id = ? AND tape_id IS NULL AND is_import_export = 0 */
  function EmptyDataSlots(slots: map<Key, SlotRow>, lib: int): (r: set<Key>)
    ensures forall k :: k in r <==> k in slots && k.0 == lib && slots[k].tape == None && !slots[k].importExport
  {
    set k | k in slots && k.0 == lib && slots[k] == SlotRow(None, false)
  }

  class Database {
    var tapes: map<int, TapeRow>
    var slots: map<Key, SlotRow>
    var drives: map<Key, Option<int>>
    var shelves: map<int, ShelfRow>

    /** The schema's uniqueness constraint. */
    ghost predicate Valid()
      reads this
    {
      UniqueNames(tapes)
    }

    ghost function State(): Db
      reads this
    {
      Db(tapes, slots, drives, shelves)
    }

    constructor ()
      ensures Valid() && State() == Db(map[], map[], map[], map[])
    {
      tapes, slots, drives, shelves := map[], map[], map[], map[];
    }

    /** SELECT id FROM tapes WHERE library_id = ? AND name = ? */
    method FindTape(lib: int, name: string) returns (r: Option<int>)
      requires Valid()
      ensures r == TapeId(State(), lib, name)
    {
      if id :| id in tapes && tapes[id].library == lib && tapes[id].name == name {
        assert IsTape(tapes, id, lib, name);
        return Some(id);
      }
      return None;
    }

    /** `tape_in_drive` */
    method TapeInDriveOf(lib: int, id: int) returns (r: bool)
      ensures r == InDriveOf(State(), lib, id)
    {
      r := exists k :: k in drives && drives[k] == Some(id) && k.0 == lib;
      if r {
        var k :| k in drives && drives[k] == Some(id) && k.0 == lib;
        assert DriveHolds(State(), k, id);
      }
    }

    method FindEmptySlot(lib: int, importExport: bool) returns (r: Option<int>)
      ensures r == FirstEmpty(State(), lib, importExport)
    {
      var ids := set k | k in slots && k.0 == lib && slots[k] == SlotRow(None, importExport) :: k.1;
      assert forall s :: s in ids <==> IsEmptySlot(State(), lib, importExport, s) by {
        assert forall s :: IsEmptySlot(State(), lib, importExport, s) ==> (lib, s) in slots && (lib, s).1 in ids;
      }
      if s :| s in ids && forall t :: t in ids ==> s <= t {
        assert IsFirstEmpty(State(), lib, importExport, s);
        return Some(s);
      }
      if exists s :: s in ids {
        ghost var least := LeastExists(ids);
      }
      return None;
    }

    method UpdateSlot(k: Key, tape: Option<int>)
      modifies this`slots
      ensures slots == SetSlot(old(slots), k, tape)
    {
      if k in slots { slots := slots[k := slots[k].(tape := tape)]; }
    }

    method UpdateDrive(k: Key, tape: Option<int>)
      modifies this`drives
      ensures drives == SetDrive(old(drives), k, tape)
    {
      if k in drives { drives := drives[k := tape]; }
    }

    /** UPDATE tapes SET library_id, shelf_id, slot WHERE id = ? */
    method UpdatePlace(id: int, lib: int, shelf: Option<int>, slot: Option<int>)
      modifies this`tapes
      ensures tapes == SetPlace(old(tapes), id, lib, shelf, slot)
    {
      if id in tapes { tapes := tapes[id := TapeRow(lib, tapes[id].name, shelf, slot)]; }
    }

    /** The same UPDATE with the library left alone. */
    method UpdateShelfAndSlot(id: int, shelf: Option<int>, slot: Option<int>)
      requires Valid()
      modifies this`tapes
      ensures Valid()
      ensures tapes == if id in old(tapes) then SetPlace(old(tapes), id, old(tapes)[id].library, shelf, slot)
              else old(tapes)
    {
      if id in tapes {
        RelocationKeepsUnique(State(), id, tapes[id].library, shelf, slot);
        tapes := tapes[id := TapeRow(tapes[id].library, tapes[id].name, shelf, slot)];
      }
    }

    /** `assign_one_tape_to_slot` */
    method AssignTape(lib: int, name: string, slot: int) returns (r: Reply)
      requires Valid()
      modifies this
      ensures Valid() && Performed(old(State()), Assign(old(State()), lib, name, slot), State(), r)
    {
      var found := FindTape(lib, name);
      if found.None? { return Err(TapeNotFound); }
      var id := found.value;
      var inDrive := TapeInDriveOf(lib, id);
      if inDrive { return Err(TapeInDrive); }
      if tapes[id].slot.Some? { return Err(AlreadyInSlot); }
      if tapes[id].shelf.None? { return Err(TapeNotOnShelf); }
      if (lib, slot) in slots && slots[(lib, slot)].tape.Some? { return Err(SlotNotEmpty); }
      UpdateShelfAndSlot(id, None, Some(slot));
      UpdateSlot((lib, slot), Some(id));
      return Ok(Unit);
    }

    /** `load_tape`, up to its commit */
    method LoadTape(lib: int, slot: int, drive: int) returns (r: Reply)
      requires Valid()
      modifies this
      ensures Valid() && Performed(old(State()), Load(old(State()), lib, slot, drive), State(), r)
    {
      if (lib, slot) !in slots || slots[(lib, slot)].tape.None? { return Err(SlotEmpty); }
      var id := slots[(lib, slot)].tape.value;
      if (lib, drive) in drives && drives[(lib, drive)].Some? { return Err(DriveBusy); }
      UpdateDrive((lib, drive), Some(id));
      UpdateShelfAndSlot(id, None, None);
      UpdateSlot((lib, slot), None);
      return Ok(Unit);
    }

    /** `unload_tape`, up to its commit */
    method UnloadTape(lib: int, drive: int) returns (r: Reply, target: int)
      requires Valid()
      modifies this
      ensures Valid() && Performed(old(State()), Unload(old(State()), lib, drive), State(), r)
      ensures r.Ok? ==> Some(target) == UnloadTarget(old(State()), lib, DriveTape(old(State()), (lib, drive)).value)
    {
      target := 0;
      if (lib, drive) !in drives || drives[(lib, drive)].None? { return Err(DriveEmpty), 0; }
      var id := drives[(lib, drive)].value;
      if id in tapes && tapes[id].slot.Some? {
        target := tapes[id].slot.value;
      } else {
        var empty := FindEmptySlot(lib, false);
        if empty.None? { return Err(NoAvailableSlots), 0; }
        target := empty.value;
      }
      UpdateShelfAndSlot(id, None, Some(target));
      UpdateSlot((lib, target), Some(id));
      UpdateDrive((lib, drive), None);
      r := Ok(Unit);
    }

    /** `eject_tape`, up to its commit */
    method EjectTape(lib: int, slot: int) returns (r: Reply)
      requires Valid()
      modifies this
      ensures Valid() && Performed(old(State()), Eject(old(State()), lib, slot), State(), r)
    {
      if (lib, slot) !in slots || slots[(lib, slot)].tape.None? { return Err(SlotEmpty); }
      var id := slots[(lib, slot)].tape.value;
      var mail := FindEmptySlot(lib, true);
      if mail.None? { return Err(NoAvailableSlots); }
      UpdateShelfAndSlot(id, None, mail);
      UpdateSlot((lib, slot), None);
      UpdateSlot((lib, mail.value), Some(id));
      return Ok(Unit);
    }

    /** `shelf_place_tape`, up to its commit */
    method PlaceOnShelf(lib: int, name: string, shelf: int) returns (r: Reply)
      requires Valid()
      modifies this
      ensures Valid() && Performed(old(State()), ShelfPlace(old(State()), lib, name, shelf), State(), r)
    {
      var found := FindTape(lib, name);
      if found.None? { return Err(TapeNotFound); }
      var id := found.value;
      var inDrive := TapeInDriveOf(lib, id);
      if inDrive { return Err(TapeInDrive); }
      if shelf !in shelves || shelves[shelf].library != lib { return Err(ShelfNotFound); }
      if tapes[id].slot.Some? { UpdateSlot((lib, tapes[id].slot.value), None); }
      slots := ReleaseSlots(slots, lib, id);
      UpdateShelfAndSlot(id, Some(shelf), None);
      return Ok(Unit);
    }

    /** `import_offline_tape_to_online_slot`, the image file moved with it */
    method ImportTape(online: int, offline: int, name: string, slot: int) returns (r: Reply)
      requires Valid()
      modifies this
      ensures Valid() && Performed(old(State()), Import(old(State()), online, offline, name, slot), State(), r)
    {
      var found := FindTape(offline, name);
      if found.None? { return Err(TapeNotFound); }
      var id := found.value;
      var inDrive := TapeInDriveOf(offline, id);
      if inDrive { return Err(TapeInDrive); }
      if tapes[id].slot.Some? { return Err(Inconsistent); }
      if tapes[id].shelf.None? { return Err(TapeNotOnShelf); }
      var dup := FindTape(online, name);
      if dup.Some? { return Err(NameTaken); }
      if (online, slot) in slots && slots[(online, slot)].tape.Some? { return Err(SlotNotEmpty); }
      RelocationKeepsUnique(State(), id, online, None, Some(slot));
      UpdatePlace(id, online, None, Some(slot));
      UpdateSlot((online, slot), Some(id));
      return Ok(Unit);
    }

    /** One tape of `move_tapes_to_offline_shelf` */
    method MoveTapeOffline(lib: int, offline: int, name: string, shelf: int) returns (r: Reply)
      requires Valid()
      modifies this
      ensures Valid() && Performed(old(State()), MoveOffline(old(State()), lib, offline, name, shelf), State(), r)
    {
      if shelf !in shelves || shelves[shelf].library != offline { return Err(ShelfNotFound); }
      var found := FindTape(lib, name);
      if found.None? { return Err(TapeNotFound); }
      var id := found.value;
      var inDrive := TapeInDriveOf(lib, id);
      if inDrive { return Err(TapeInDrive); }
      var dup := FindTape(offline, name);
      if dup.Some? { return Err(NameTaken); }
      RelocationKeepsUnique(State(), id, offline, Some(shelf), None);
      if tapes[id].slot.Some? { UpdateSlot((lib, tapes[id].slot.value), None); }
      UpdatePlace(id, offline, Some(shelf), None);
      return Ok(Unit);
    }

    /** `delete_tape_in_library`, up to its commit */
    method DeleteTape(lib: int, name: string) returns (r: Reply)
      requires Valid()
      modifies this
      ensures Valid() && Performed(old(State()), Delete(old(State()), lib, name), State(), r)
    {
      var found := FindTape(lib, name);
      if found.None? { return Err(TapeNotFound); }
      slots := ReleaseSlots(slots, lib, found.value);
      drives := ReleaseDrives(drives, lib, found.value);
      tapes := tapes - {found.value};
      return Ok(Unit);
    }

    /** `create_tape`; `id` is a row id in use nowhere. */
    method CreateTape(id: int, lib: int, name: string, shelf: int) returns (r: Reply)
      requires Valid() && id !in tapes && !InSomeDrive(State(), id) && forall k :: !SlotHolds(State(), k, id)
      modifies this`tapes
      ensures Valid() && Performed(old(State()), Create(old(State()), id, lib, name, shelf), State(), r)
    {
      if exists j :: j in tapes && tapes[j].name == name { return Err(NameTaken); }
      if shelf !in shelves || shelves[shelf].library != lib { return Err(ShelfNotFound); }
      tapes := tapes[id := TapeRow(lib, name, Some(shelf), None)];
      return Ok(Unit);
    }

    /** `delete_shelf_in_library` */
    method RemoveShelf(lib: int, shelf: int) returns (r: Reply)
      requires Valid()
      modifies this`shelves
      ensures Valid() && Performed(old(State()), DeleteShelf(old(State()), lib, shelf), State(), r)
    {
      if shelf !in shelves || shelves[shelf].library != lib { return Err(ShelfNotFound); }
      if shelves[shelf].isDefault { return Err(ShelfInUse); }
      if exists id :: id in tapes && tapes[id].shelf == Some(shelf) { return Err(ShelfInUse); }
      shelves := shelves - {shelf};
      return Ok(Unit);
    }

    /** UPDATE drives SET tape_id = NULL, and the same for slots, of one library */
    method ClearRows(lib: int)
      modifies this`slots, this`drives
      ensures slots.Keys == old(slots).Keys && drives.Keys == old(drives).Keys
      ensures forall k :: k in slots && k.0 != lib ==> slots[k] == old(slots)[k]
      ensures forall k :: k in drives && k.0 != lib ==> drives[k] == old(drives)[k]
    {
      drives := map k | k in drives :: if k.0 == lib then None else drives[k];
      slots := map k | k in slots :: if k.0 == lib then slots[k].(tape := None) else slots[k];
    }

    /** The transaction of `delete_named_library`: rows emptied, then tapes, drives, slots and shelves deleted. */
    method RemoveLibrary(lib: int)
      requires Valid()
      modifies this
      ensures Valid() && Ok(State()) == DeleteLibrary(old(State()), lib)
    {
      ClearRows(lib);
      ghost var left := DeleteLibrary(old(State()), lib).value;
      tapes := map id | id in tapes && tapes[id].library != lib :: tapes[id];
      drives := map k | k in drives && k.0 != lib :: drives[k];
      assert drives == left.drives;
      slots := map k | k in slots && k.0 != lib :: slots[k];
      assert slots == left.slots;
      shelves := map h | h in shelves && shelves[h].library != lib :: shelves[h];
      assert shelves == left.shelves;
    }

    /** `validate_tape_ready_for_online_slot` */
    method ValidatePair(online: int, offline: int, p: Pair) returns (objection: Option<Error>)
      requires Valid()
      ensures objection == Objection(State(), online, offline, p)
    {
      if (online, p.slot) in slots && slots[(online, p.slot)].tape.Some? { return Some(SlotNotEmpty); }
      var found := FindTape(if p.fromOffline then offline else online, p.name);
      if found.None? { return Some(TapeNotFound); }
      var id := found.value;
      if p.fromOffline {
        if tapes[id].slot.Some? { return Some(Inconsistent); }
        if tapes[id].shelf.None? { return Some(TapeNotOnShelf); }
        var inDrive := TapeInDriveOf(offline, id);
        if inDrive { return Some(TapeInDrive); }
        var dup := FindTape(online, p.name);
        if dup.Some? { return Some(NameTaken); }
      } else {
        var inDrive := TapeInDriveOf(online, id);
        if inDrive { return Some(TapeInDrive); }
        if tapes[id].slot.Some? { return Some(AlreadyInSlot); }
        if tapes[id].shelf.None? { return Some(TapeNotOnShelf); }
      }
      return None;
    }

    /** The checks of `assign_tapes_to_slots_batch` before anything is changed. */
    method ValidateBatch(online: int, offline: int, pairs: seq<Pair>) returns (r: Reply)
      requires Valid()
      ensures r.Ok? <==> && pairs != [] && online != offline && |pairs| <= |EmptyDataSlots(slots, online)|
                         && DistinctPairs(pairs) && AllReady(State(), online, offline, pairs)
      ensures r == Err(InvalidBatch) <==>
                || pairs == [] || online == offline || |pairs| > |EmptyDataSlots(slots, online)|
                || !DistinctPairs(pairs)
      ensures r.Err? && r.error != InvalidBatch ==> FirstObjection(State(), online, offline, pairs, r.error)
    {
      if pairs == [] { return Err(InvalidBatch); }
      if online == offline { return Err(InvalidBatch); }
      if |pairs| > |EmptyDataSlots(slots, online)| { return Err(InvalidBatch); }
      var seenSlots, seenNames := {}, {};
      for i := 0 to |pairs|
        invariant seenSlots == set j | 0 <= j < i :: pairs[j].slot
        invariant seenNames == set j | 0 <= j < i :: pairs[j].name
        invariant DistinctPairs(pairs[..i])
      {
        if pairs[i].slot in seenSlots || pairs[i].name in seenNames {
          assert exists j :: 0 <= j < i && (pairs[j].slot == pairs[i].slot || pairs[j].name == pairs[i].name);
          return Err(InvalidBatch);
        }
        seenSlots, seenNames := seenSlots + {pairs[i].slot}, seenNames + {pairs[i].name};
      }
      assert pairs[..|pairs|] == pairs;
      for i := 0 to |pairs|
        invariant forall j :: 0 <= j < i ==> Objection(State(), online, offline, pairs[j]).None?
      {
        var objection := ValidatePair(online, offline, pairs[i]);
        if objection.Some? { return Err(objection.value); }
      }
      return Ok(Unit);
    }

    /** `assign_tapes_to_slots_batch`: it changes nothing, or assigns every pair. */
    method AssignBatch(online: int, offline: int, pairs: seq<Pair>) returns (r: Reply)
      requires Valid()
      modifies this
      ensures Valid()
      ensures r.Err? ==> State() == old(State())
      ensures r.Ok? <==> && pairs != [] && online != offline && |pairs| <= |EmptyDataSlots(old(slots), online)|
                         && DistinctPairs(pairs) && AllReady(old(State()), online, offline, pairs)
      ensures r.Ok? ==> IsAssigned(old(State()), online, offline, pairs, State())
    {
      hide Objection, IsAssigned, FirstObjection;
      r := ValidateBatch(online, offline, pairs);
      if r.Err? { return; }
      ghost var before := State();
      assert pairs[..0] == [];
      for i := 0 to |pairs|
        invariant Valid() && DistinctPairs(pairs) && AllReady(before, online, offline, pairs)
        invariant ApplyAll(before, online, offline, pairs[..i]) == Ok(State())
      {
        var p := pairs[i];
        assert pairs[..i + 1][..i] == pairs[..i];
        LastStaysReady(before, online, offline, pairs[..i], p);
        ReadyApplies(State(), online, offline, p);
        if p.fromOffline {
          r := ImportTape(online, offline, p.name, p.slot);
        } else {
          r := AssignTape(online, p.name, p.slot);
        }
        if r.Err? { assert false; return; }
      }
      assert pairs[..|pairs|] == pairs;
      AcceptedBatchApplies(before, online, offline, pairs);
      return Ok(Unit);
    }
  }
}
