/**
 * The SQLite catalog: where each tape is, spread over the columns of `tapes` and the rows of
 * `slots` and `drives`. Operations are written update by update, as their SQL does; on a
 * well-placed catalog each of them is one relocation of one tape.
 */
module Catalog {
  import opened Common

  /** Primary key of a slot or drive row: library id, and slot or drive id. */
  type Key = (int, int)

  datatype TapeRow = TapeRow(library: int, name: string, shelf: Option<int>, slot: Option<int>)
  datatype SlotRow = SlotRow(tape: Option<int>, importExport: bool)
  datatype ShelfRow = ShelfRow(library: int, isDefault: bool)

  datatype Db = Db(tapes: map<int, TapeRow>, slots: map<Key, SlotRow>, drives: map<Key, Option<int>>,
                   shelves: map<int, ShelfRow>)

  datatype Error =
    | TapeNotFound | TapeInDrive | TapeNotOnShelf | AlreadyInSlot | SlotNotEmpty | SlotEmpty | DriveBusy
    | DriveEmpty | NoAvailableSlots | NameTaken | ShelfNotFound | ShelfInUse | WrongShelf | InvalidBatch
    | LibraryNotFound | LibraryReserved | LastLibrary | Inconsistent | IdInUse | TruncatedInventory
    | DuplicateInventory | PushRemoved

  // ---------------------------------------------------------------- queries

  ghost predicate IsTape(tapes: map<int, TapeRow>, id: int, lib: int, name: string) {
    id in tapes && tapes[id].library == lib && tapes[id].name == name
  }

  /** UNIQUE(library_id, name) */
  ghost predicate UniqueNames(tapes: map<int, TapeRow>) {
    forall i, j :: i in tapes && j in tapes && tapes[i].library == tapes[j].library && tapes[i].name == tapes[j].name
                   ==> i == j
  }

  ghost function TapeId(db: Db, lib: int, name: string): (r: Option<int>)
    ensures r.Some? ==> IsTape(db.tapes, r.value, lib, name)
    ensures r.None? ==> forall id :: !IsTape(db.tapes, id, lib, name)
  {
    if exists id :: IsTape(db.tapes, id, lib, name)
    then var id :| IsTape(db.tapes, id, lib, name); Some(id)
    else None
  }

  ghost predicate SlotHolds(db: Db, k: Key, id: int) { k in db.slots && db.slots[k].tape == Some(id) }

  ghost predicate DriveHolds(db: Db, k: Key, id: int) { k in db.drives && db.drives[k] == Some(id) }

  /** `tape_in_drive` */
  ghost predicate InDriveOf(db: Db, lib: int, id: int) { exists k :: DriveHolds(db, k, id) && k.0 == lib }

  ghost predicate InSomeDrive(db: Db, id: int) { exists k :: DriveHolds(db, k, id) }

  function SlotTape(db: Db, k: Key): Option<int> { if k in db.slots then db.slots[k].tape else None }

  function DriveTape(db: Db, k: Key): Option<int> { if k in db.drives then db.drives[k] else None }

  ghost predicate IsEmptySlot(db: Db, lib: int, importExport: bool, s: int) {
    (lib, s) in db.slots && db.slots[(lib, s)] == SlotRow(None, importExport)
  }

  ghost predicate IsFirstEmpty(db: Db, lib: int, importExport: bool, s: int) {
    IsEmptySlot(db, lib, importExport, s) && forall t :: IsEmptySlot(db, lib, importExport, t) ==> s <= t
  }

  lemma {:induction false} LeastExists(s: set<int>) returns (least: int)
    requires exists x :: x in s
    ensures least in s && forall x :: x in s ==> least <= x
  {
    var x :| x in s;
    var rest := s - {x};
    least := x;
    if exists y :: y in rest {
      var m := LeastExists(rest);
      least := if m < x then m else x;
    }
    forall y | y in s ensures least <= y {
      assert y == x || y in rest;
    }
  }

  lemma FirstEmptyExists(db: Db, lib: int, importExport: bool)
    requires exists s :: IsEmptySlot(db, lib, importExport, s)
    ensures exists s :: IsFirstEmpty(db, lib, importExport, s)
  {
    var ids := set k | k in db.slots && k.0 == lib && db.slots[k] == SlotRow(None, importExport) :: k.1;
    var s :| IsEmptySlot(db, lib, importExport, s);
    assert (lib, s) in db.slots && (lib, s).1 in ids;
    var least := LeastExists(ids);
    assert forall t :: IsEmptySlot(db, lib, importExport, t) ==> (lib, t).1 in ids;
    assert IsFirstEmpty(db, lib, importExport, least);
  }

  /** `... tape_id IS NULL AND is_import_export = ? ORDER BY slot_id`, first row. */
  ghost function FirstEmpty(db: Db, lib: int, importExport: bool): (r: Option<int>)
    ensures r.Some? ==> IsFirstEmpty(db, lib, importExport, r.value)
    ensures r.None? ==> forall s :: !IsEmptySlot(db, lib, importExport, s)
  {
    if exists s :: IsEmptySlot(db, lib, importExport, s)
    then
      FirstEmptyExists(db, lib, importExport);
      var s :| IsFirstEmpty(db, lib, importExport, s); Some(s)
    else None
  }

  // ---------------------------------------------------------------- updates

  /** UPDATE of a missing row changes nothing. */
  function SetSlot(slots: map<Key, SlotRow>, k: Key, tape: Option<int>): map<Key, SlotRow> {
    if k in slots then slots[k := slots[k].(tape := tape)] else slots
  }

  function SetDrive(drives: map<Key, Option<int>>, k: Key, tape: Option<int>): map<Key, Option<int>> {
    if k in drives then drives[k := tape] else drives
  }

  function SetPlace(tapes: map<int, TapeRow>, id: int, lib: int, shelf: Option<int>, slot: Option<int>)
    : map<int, TapeRow>
  {
    if id in tapes then tapes[id := TapeRow(lib, tapes[id].name, shelf, slot)] else tapes
  }

  // ---------------------------------------------------------------- one place per tape

  datatype Place = AtShelf(shelf: int) | AtSlot(slot: int) | AtDrive(drive: int) | Nowhere

  /** Every tape is in exactly one of shelf, slot and drive, and columns and rows say the same. */
  ghost predicate WellPlaced(db: Db) {
    && UniqueNames(db.tapes)
    && (forall k, id :: SlotHolds(db, k, id) ==>
          id in db.tapes && db.tapes[id].library == k.0 && db.tapes[id].slot == Some(k.1))
    && (forall k, id :: DriveHolds(db, k, id) ==>
          id in db.tapes && db.tapes[id].library == k.0 && db.tapes[id].slot == None && db.tapes[id].shelf == None)
    && (forall k, l, id :: DriveHolds(db, k, id) && DriveHolds(db, l, id) ==> k == l)
    && (forall id :: id in db.tapes ==> Anchored(db, id))
  }

  lemma WellPlacedIsUnique(db: Db)
    requires WellPlaced(db)
    ensures UniqueNames(db.tapes)
  {
  }

  /** What a tape's own row must be backed by. */
  ghost predicate Anchored(db: Db, id: int)
    requires id in db.tapes
  {
    var t := db.tapes[id];
    && (t.slot.Some? ==> t.shelf == None && SlotHolds(db, (t.library, t.slot.value), id))
    && (t.shelf.Some? ==> t.shelf.value in db.shelves && db.shelves[t.shelf.value].library == t.library)
    && (t.slot == None && t.shelf == None ==> InSomeDrive(db, id))
  }

  ghost function PlaceOf(db: Db, id: int): Place
    requires id in db.tapes
  {
    var t := db.tapes[id];
    if t.shelf.Some? then AtShelf(t.shelf.value)
    else if t.slot.Some? then AtSlot(t.slot.value)
    else if InSomeDrive(db, id) then var k :| DriveHolds(db, k, id); AtDrive(k.1)
    else Nowhere
  }

  /** The catalog's meaning: each tape's library and place. */
  ghost function Where(db: Db): map<int, (int, Place)> {
    map id | id in db.tapes :: (db.tapes[id].library, PlaceOf(db, id))
  }

  /** `a` and `b` list the same tapes by name, the same elements and the same shelves. */
  ghost predicate SameFrame(a: Db, b: Db) {
    && a.tapes.Keys == b.tapes.Keys && a.slots.Keys == b.slots.Keys && a.drives.Keys == b.drives.Keys
    && a.shelves == b.shelves
    && (forall id :: id in a.tapes ==> a.tapes[id].name == b.tapes[id].name)
    && (forall k :: k in a.slots ==> a.slots[k].importExport == b.slots[k].importExport)
  }

  lemma AtDriveIff(db: Db, id: int, k: Key)
    requires WellPlaced(db) && id in db.tapes && k in db.drives
    ensures db.drives[k] == Some(id) <==> Where(db)[id] == (k.0, AtDrive(k.1))
  {
    if db.drives[k] == Some(id) {
      assert DriveHolds(db, k, id);
    }
    if Where(db)[id] == (k.0, AtDrive(k.1)) {
      var l :| DriveHolds(db, l, id) && l.1 == k.1;
      assert l == k;
    }
  }

  lemma AtSlotIff(db: Db, id: int, k: Key)
    requires WellPlaced(db) && id in db.tapes && k in db.slots
    ensures db.slots[k].tape == Some(id) <==> Where(db)[id] == (k.0, AtSlot(k.1))
  {
    if db.slots[k].tape == Some(id) {
      assert SlotHolds(db, k, id);
      assert Anchored(db, id);
    }
    if Where(db)[id] == (k.0, AtSlot(k.1)) {
      assert Anchored(db, id);
    }
  }

  /** A well-placed catalog is determined by its frame and by where the tapes are. */
  lemma WhereDetermines(a: Db, b: Db)
    requires WellPlaced(a) && WellPlaced(b) && SameFrame(a, b) && Where(a) == Where(b)
    ensures a == b
  {
    forall id | id in a.tapes ensures a.tapes[id] == b.tapes[id] {
      assert Where(a)[id] == Where(b)[id];
      assert Anchored(a, id) && Anchored(b, id);
    }
    forall k | k in a.slots ensures a.slots[k] == b.slots[k] {
      forall id ensures a.slots[k].tape == Some(id) <==> b.slots[k].tape == Some(id) {
        if id in a.tapes {
          AtSlotIff(a, id, k);
          AtSlotIff(b, id, k);
        } else {
          assert !SlotHolds(a, k, id) && !SlotHolds(b, k, id);
        }
      }
      SameOption(a.slots[k].tape, b.slots[k].tape);
    }
    forall k | k in a.drives ensures a.drives[k] == b.drives[k] {
      forall id ensures a.drives[k] == Some(id) <==> b.drives[k] == Some(id) {
        if id in a.tapes {
          AtDriveIff(a, id, k);
          AtDriveIff(b, id, k);
        } else {
          assert !DriveHolds(a, k, id) && !DriveHolds(b, k, id);
        }
      }
      SameOption(a.drives[k], b.drives[k]);
    }
  }

  lemma SameOption(x: Option<int>, y: Option<int>)
    requires forall v :: x == Some(v) <==> y == Some(v)
    ensures x == y
  {
    if x.Some? {
      var v := x.value;
      assert x == Some(v) <==> y == Some(v);
    }
    if y.Some? {
      var v := y.value;
      assert x == Some(v) <==> y == Some(v);
    }
  }

  // ---------------------------------------------------------------- relocation

  /** The catalog with tape `id` in library `lib` at `p`, and out of every other element. */
  ghost function Relocate(db: Db, id: int, lib: int, p: Place): Db {
    Db(SetPlace(db.tapes, id, lib, if p.AtShelf? then Some(p.shelf) else None,
                if p.AtSlot? then Some(p.slot) else None),
       map k | k in db.slots :: if p.AtSlot? && k == (lib, p.slot) then db.slots[k].(tape := Some(id))
                                else if db.slots[k].tape == Some(id) then db.slots[k].(tape := None) else db.slots[k],
       map k | k in db.drives :: if p.AtDrive? && k == (lib, p.drive) then Some(id)
                                 else if db.drives[k] == Some(id) then None else db.drives[k],
       db.shelves)
  }

  /** `p` is a place in library `lib` that tape `id` may take. */
  ghost predicate Available(db: Db, id: int, lib: int, p: Place) {
    match p
    case AtShelf(h) => h in db.shelves && db.shelves[h].library == lib
    case AtSlot(s) => (lib, s) in db.slots && (db.slots[(lib, s)].tape == None || db.slots[(lib, s)].tape == Some(id))
    case AtDrive(d) => (lib, d) in db.drives && (db.drives[(lib, d)] == None || db.drives[(lib, d)] == Some(id))
    case Nowhere => false
  }

  lemma RelocateKeepsWellPlaced(db: Db, id: int, lib: int, p: Place)
    requires WellPlaced(db) && id in db.tapes && Available(db, id, lib, p)
    requires forall j :: IsTape(db.tapes, j, lib, db.tapes[id].name) ==> j == id
    ensures WellPlaced(Relocate(db, id, lib, p))
  {
    var r := Relocate(db, id, lib, p);
    forall i, j | i in r.tapes && j in r.tapes && r.tapes[i].library == r.tapes[j].library
        && r.tapes[i].name == r.tapes[j].name
      ensures i == j
    {
      assert i == id && j != id ==> IsTape(db.tapes, j, lib, db.tapes[id].name);
      assert j == id && i != id ==> IsTape(db.tapes, i, lib, db.tapes[id].name);
    }
    forall k, j | SlotHolds(r, k, j) && j != id ensures SlotHolds(db, k, j) {
    }
    forall k, j | DriveHolds(r, k, j) && j != id ensures DriveHolds(db, k, j) {
    }
    forall j | j in r.tapes ensures Anchored(r, j) {
      assert Anchored(db, j);
      if j != id {
        RelocateKeepsOthers(db, id, lib, p, j);
      } else if p.AtDrive? {
        assert DriveHolds(r, (lib, p.drive), id);
      }
    }
  }

  lemma RelocateKeepsOthers(db: Db, id: int, lib: int, p: Place, j: int)
    requires j != id && (p.Nowhere? || Available(db, id, lib, p))
    ensures var r := Relocate(db, id, lib, p);
            && (forall k :: SlotHolds(r, k, j) <==> SlotHolds(db, k, j))
            && (forall k :: DriveHolds(r, k, j) <==> DriveHolds(db, k, j))
            && (InSomeDrive(r, j) <==> InSomeDrive(db, j))
  {
    var r := Relocate(db, id, lib, p);
    forall k ensures DriveHolds(r, k, j) <==> DriveHolds(db, k, j) {
    }
  }

  /** What a relocation does to the rows of `tapes`. */
  lemma RelocatedRows(db: Db, id: int, lib: int, p: Place)
    requires id in db.tapes
    ensures var r := Relocate(db, id, lib, p);
            && SameFrame(r, db)
            && (forall j :: j in db.tapes && j != id ==> r.tapes[j] == db.tapes[j])
            && r.tapes[id].library == lib
            && r.tapes[id].shelf == (if p.AtShelf? then Some(p.shelf) else None)
            && r.tapes[id].slot == (if p.AtSlot? then Some(p.slot) else None)
  {
  }

  lemma RelocateMoves(db: Db, id: int, lib: int, p: Place)
    requires WellPlaced(db) && id in db.tapes && Available(db, id, lib, p)
    requires forall j :: IsTape(db.tapes, j, lib, db.tapes[id].name) ==> j == id
    ensures Where(Relocate(db, id, lib, p)) == Where(db)[id := (lib, p)]
    ensures SameFrame(Relocate(db, id, lib, p), db)
  {
    var r := Relocate(db, id, lib, p);
    RelocateKeepsWellPlaced(db, id, lib, p);
    RelocatedRows(db, id, lib, p);
    if p.AtDrive? {
      assert DriveHolds(r, (lib, p.drive), id);
    }
    RelocatedPlaces(db, r, id, lib, p);
  }

  lemma RelocatedPlaces(db: Db, r: Db, id: int, lib: int, p: Place)
    requires WellPlaced(db) && WellPlaced(r) && id in db.tapes && Available(db, id, lib, p)
    requires r == Relocate(db, id, lib, p) && SameFrame(r, db)
    requires r.tapes[id].library == lib && forall j :: j in db.tapes && j != id ==> r.tapes[j] == db.tapes[j]
    requires r.tapes[id].shelf == (if p.AtShelf? then Some(p.shelf) else None)
    requires r.tapes[id].slot == (if p.AtSlot? then Some(p.slot) else None)
    requires p.AtDrive? ==> DriveHolds(r, (lib, p.drive), id)
    ensures Where(r) == Where(db)[id := (lib, p)]
  {
    hide Relocate, SlotHolds, WellPlaced;
    forall j | j in db.tapes ensures Where(r)[j] == Where(db)[id := (lib, p)][j] {
      if j != id {
        RelocateKeepsOthers(db, id, lib, p, j);
        if InSomeDrive(db, j) {
          var k :| DriveHolds(db, k, j);
          AtDriveIff(db, j, k);
          AtDriveIff(r, j, k);
        }
      } else if p.AtDrive? {
        AtDriveIff(r, id, (lib, p.drive));
      }
    }
  }
}
