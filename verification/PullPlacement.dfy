/** What a pull does to where tapes are: when it loses none, and when it loses some. */
module PullPlacement {
  import opened Common
  import opened Elements
  import opened Catalog
  import opened CatalogOps
  import opened Reconcile

  function PlaceAt(loc: MediumLocation): Place {
    match loc
    case DataSlot(s) => AtSlot(s)
    case MailSlot(s) => AtSlot(s)
    case Drive(d) => AtDrive(d)
  }

  /** The library's tape `id` is one the kernel's map puts into slot row `s`. */
  ghost predicate ToSlot(db: Db, lib: int, m: Inventory, id: int, s: int) {
    id in db.tapes && ListedIn(db, lib, m, id) && SlotColumn(m[db.tapes[id].name]) == Some(s)
  }

  ghost predicate ToDrive(db: Db, lib: int, m: Inventory, id: int, d: int) {
    id in db.tapes && ListedIn(db, lib, m, id) && m[db.tapes[id].name] == Drive(d)
  }

  /** Each of the library's tapes in the map has an element row, of either kind, and shares it with no other. */
  ghost predicate Placeable(db: Db, lib: int, m: Inventory) {
    && (forall id, s :: ToSlot(db, lib, m, id, s) ==> (lib, s) in db.slots)
    && (forall id, d :: ToDrive(db, lib, m, id, d) ==> (lib, d) in db.drives)
    && (forall i, j, s :: ToSlot(db, lib, m, i, s) && ToSlot(db, lib, m, j, s) ==> i == j)
    && (forall i, j, d :: ToDrive(db, lib, m, i, d) && ToDrive(db, lib, m, j, d) ==> i == j)
  }

  lemma PullableIsPlaceable(db: Db, lib: int, m: Inventory)
    requires UniqueNames(db.tapes) && Pullable(db, lib, m)
    ensures Placeable(db, lib, m)
  {
    forall i, j, s | ToSlot(db, lib, m, i, s) && ToSlot(db, lib, m, j, s) ensures i == j {
      assert RowExists(db, lib, m[db.tapes[i].name]) && RowExists(db, lib, m[db.tapes[j].name]);
    }
  }

  // ---------------------------------------------------------------- the loop, whatever the map

  /** The tape rows after the names `done`. */
  ghost predicate RowsSoFar(db: Db, lib: int, m: Inventory, done: set<string>, d: Db) {
    && SameFrame(d, db)
    && forall id :: id in db.tapes ==>
         d.tapes[id] == if ListedIn(db, lib, m, id) && db.tapes[id].name in done
                        then TapeRow(lib, db.tapes[id].name, None, SlotColumn(m[db.tapes[id].name])) else db.tapes[id]
  }

  /** The library's slot rows hold tapes put there; all of them if the map is placeable. */
  ghost predicate SlotsSoFar(db: Db, lib: int, m: Inventory, done: set<string>, d: Db) {
    && (forall k: Key, id :: k.0 != lib ==> (SlotHolds(d, k, id) <==> SlotHolds(db, k, id)))
    && (forall k: Key, id :: k.0 == lib && SlotHolds(d, k, id) ==>
       ToSlot(db, lib, m, id, k.1) && db.tapes[id].name in done)
    && (Placeable(db, lib, m) ==>
          forall s, id :: ToSlot(db, lib, m, id, s) && db.tapes[id].name in done ==> SlotHolds(d, (lib, s), id))
  }

  ghost predicate DrivesSoFar(db: Db, lib: int, m: Inventory, done: set<string>, d: Db) {
    && (forall k: Key, id :: k.0 != lib ==> (DriveHolds(d, k, id) <==> DriveHolds(db, k, id)))
    && (forall k: Key, id :: k.0 == lib && DriveHolds(d, k, id) ==>
       ToDrive(db, lib, m, id, k.1) && db.tapes[id].name in done)
    && (Placeable(db, lib, m) ==>
          forall dr, id :: ToDrive(db, lib, m, id, dr) && db.tapes[id].name in done ==> DriveHolds(d, (lib, dr), id))
  }

  ghost predicate PutSoFar(db: Db, lib: int, m: Inventory, done: set<string>, d: Db) {
    RowsSoFar(db, lib, m, done, d) && SlotsSoFar(db, lib, m, done, d) && DrivesSoFar(db, lib, m, done, d)
  }

  lemma ClearedSoFar(db: Db, lib: int, m: Inventory)
    ensures PutSoFar(db, lib, m, {}, ClearLibrary(db, lib))
  {
  }

  /** The name is that of no other tape of the library. */
  lemma NamedTape(db: Db, lib: int, name: string, id: int)
    requires UniqueNames(db.tapes) && id in db.tapes && db.tapes[id].library == lib
    ensures db.tapes[id].name == name <==> TapeId(db, lib, name) == Some(id)
  {
    assert db.tapes[id].name == name ==> IsTape(db.tapes, id, lib, name);
  }

  lemma RowsStep(db: Db, lib: int, m: Inventory, done: set<string>, d: Db, name: string, id: int, r: Db)
    requires UniqueNames(db.tapes) && RowsSoFar(db, lib, m, done, d) && name in m && TapeId(db, lib, name) == Some(id)
    requires SameFrame(r, d) && r.tapes == SetPlace(d.tapes, id, lib, None, SlotColumn(m[name]))
    ensures RowsSoFar(db, lib, m, done + {name}, r)
  {
    forall j | j in db.tapes && db.tapes[j].library == lib ensures db.tapes[j].name == name <==> j == id {
      NamedTape(db, lib, name, j);
    }
  }

  lemma SlotsStep(db: Db, lib: int, m: Inventory, done: set<string>, d: Db, name: string, id: int, r: Db)
    requires UniqueNames(db.tapes) && SameFrame(d, db) && SlotsSoFar(db, lib, m, done, d) && name in m
    requires TapeId(db, lib, name) == Some(id)
    requires r.slots == if m[name].Drive? then d.slots else SetSlot(d.slots, (lib, SlotColumn(m[name]).value), Some(id))
    ensures SlotsSoFar(db, lib, m, done + {name}, r)
  {
    assert IsTape(db.tapes, id, lib, name);
    forall j | j in db.tapes && db.tapes[j].library == lib ensures db.tapes[j].name == name <==> j == id {
      NamedTape(db, lib, name, j);
    }
    if m[name].Drive? {
      assert forall k, j :: SlotHolds(r, k, j) <==> SlotHolds(d, k, j);
    } else {
      var s := SlotColumn(m[name]).value;
      assert ToSlot(db, lib, m, id, s);
      assert forall k: Key, j :: k != (lib, s) ==> (SlotHolds(r, k, j) <==> SlotHolds(d, k, j));
      assert forall j :: SlotHolds(r, (lib, s), j) <==> (lib, s) in db.slots && j == id;
    }
  }

  lemma DrivesStep(db: Db, lib: int, m: Inventory, done: set<string>, d: Db, name: string, id: int, r: Db)
    requires UniqueNames(db.tapes) && SameFrame(d, db) && DrivesSoFar(db, lib, m, done, d) && name in m
    requires TapeId(db, lib, name) == Some(id)
    requires r.drives == if m[name].Drive? then SetDrive(d.drives, (lib, m[name].drive), Some(id)) else d.drives
    ensures DrivesSoFar(db, lib, m, done + {name}, r)
  {
    assert IsTape(db.tapes, id, lib, name);
    forall j | j in db.tapes && db.tapes[j].library == lib ensures db.tapes[j].name == name <==> j == id {
      NamedTape(db, lib, name, j);
    }
    if m[name].Drive? {
      var dr := m[name].drive;
      assert ToDrive(db, lib, m, id, dr);
      assert forall k: Key, j :: k != (lib, dr) ==> (DriveHolds(r, k, j) <==> DriveHolds(d, k, j));
      assert forall j :: DriveHolds(r, (lib, dr), j) <==> (lib, dr) in db.drives && j == id;
    } else {
      assert forall k, j :: DriveHolds(r, k, j) <==> DriveHolds(d, k, j);
    }
  }

  lemma PullOneShape(d: Db, lib: int, name: string, loc: MediumLocation, id: int)
    requires TapeId(d, lib, name) == Some(id)
    ensures var r := PullOne(d, lib, name, loc);
            && SameFrame(r, d) && r.tapes == SetPlace(d.tapes, id, lib, None, SlotColumn(loc))
            && r.slots == (if loc.Drive? then d.slots else SetSlot(d.slots, (lib, SlotColumn(loc).value), Some(id)))
            && r.drives == if loc.Drive? then SetDrive(d.drives, (lib, loc.drive), Some(id)) else d.drives
  {
  }

  /** A name that is no tape's changes nothing. */
  lemma UnknownStep(db: Db, lib: int, m: Inventory, done: set<string>, d: Db, name: string)
    requires PutSoFar(db, lib, m, done, d) && TapeId(db, lib, name).None?
    ensures PutSoFar(db, lib, m, done + {name}, d)
  {
    assert forall id :: id in db.tapes && db.tapes[id].library == lib ==> !IsTape(db.tapes, id, lib, name);
    assert forall id :: id in db.tapes && db.tapes[id].library == lib ==> db.tapes[id].name != name;
  }

  lemma PutStep(db: Db, lib: int, m: Inventory, done: set<string>, d: Db, name: string)
    requires UniqueNames(db.tapes) && PutSoFar(db, lib, m, done, d) && name in m && name !in done
    ensures PutSoFar(db, lib, m, done + {name}, PullOne(d, lib, name, m[name]))
  {
    hide RowsSoFar, SlotsSoFar, DrivesSoFar, UniqueNames, PullOne, SetSlot, SetDrive, SetPlace;
    SoFarKeepsIds(db, lib, m, done, d, name);
    var found := TapeId(db, lib, name);
    if found.None? {
      UnknownStep(db, lib, m, done, d, name);
      PullOneUnknown(d, lib, name, m[name]);
    } else {
      var r := PullOne(d, lib, name, m[name]);
      PullOneShape(d, lib, name, m[name], found.value);
      RowsStep(db, lib, m, done, d, name, found.value, r);
      SlotsStep(db, lib, m, done, d, name, found.value, r);
      DrivesStep(db, lib, m, done, d, name, found.value, r);
    }
  }

  lemma PullOneUnknown(d: Db, lib: int, name: string, loc: MediumLocation)
    requires TapeId(d, lib, name).None?
    ensures PullOne(d, lib, name, loc) == d
  {
  }

  lemma SoFarKeepsIds(db: Db, lib: int, m: Inventory, done: set<string>, d: Db, name: string)
    requires UniqueNames(db.tapes) && RowsSoFar(db, lib, m, done, d)
    ensures SameFrame(d, db) && TapeId(d, lib, name) == TapeId(db, lib, name)
  {
    SameIds(db, d, lib, name);
  }

  function NamesIn(order: seq<string>): set<string> { set n | n in order }

  lemma {:induction false} PullSoFar(db: Db, lib: int, m: Inventory, order: seq<string>)
    requires UniqueNames(db.tapes) && forall n :: n in order ==> n in m
    requires forall i, j :: 0 <= i < j < |order| ==> order[i] != order[j]
    ensures PutSoFar(db, lib, m, NamesIn(order), PullAll(ClearLibrary(db, lib), lib, m, order))
  {
    hide PutSoFar, ClearLibrary, PullOne, UniqueNames;
    if order == [] {
      ClearedSoFar(db, lib, m);
      assert NamesIn(order) == {};
    } else {
      var init, name := order[..|order| - 1], order[|order| - 1];
      PullSoFar(db, lib, m, init);
      PutStep(db, lib, m, NamesIn(init), PullAll(ClearLibrary(db, lib), lib, m, init), name);
      assert init + [name] == order;
      assert NamesIn(order) == NamesIn(init) + {name};
    }
  }

  // ---------------------------------------------------------------- the catalog after a pull

  /** The library's elements hold tapes put there, all of them if the map is placeable; elsewhere what they held. */
  ghost predicate HeldAsPut(db: Db, lib: int, m: Inventory, r: Db) {
    && SlotsSoFar(db, lib, m, m.Keys, r) && DrivesSoFar(db, lib, m, m.Keys, r)
  }

  /** What the rows of `tapes` say after a pull: a listed tape that no element holds has lost its slot column. */
  ghost predicate RowsAsPut(db: Db, lib: int, m: Inventory, r: Db) {
    && SameFrame(r, db)
    && forall id :: id in db.tapes ==>
         r.tapes[id] == if ListedIn(db, lib, m, id)
                        then TapeRow(lib, db.tapes[id].name, None,
                                     if HeldIn(r, lib, id) then SlotColumn(m[db.tapes[id].name]) else None)
                        else if db.tapes[id].library == lib && db.tapes[id].shelf == None
                        then db.tapes[id].(slot := None) else db.tapes[id]
  }

  /** Whatever the map and the order: which element may hold which tape, and what the tape rows say. */
  lemma PulledShape(db: Db, lib: int, m: Inventory, order: seq<string>)
    requires UniqueNames(db.tapes) && IsOrder(order, m)
    ensures HeldAsPut(db, lib, m, Pull(db, lib, m, order)) && RowsAsPut(db, lib, m, Pull(db, lib, m, order))
  {
    hide HeldAsPut, RowsAsPut, PutSoFar, UniqueNames, DropHints;
    var d := PullAll(ClearLibrary(db, lib), lib, m, order);
    PullSoFar(db, lib, m, order);
    assert NamesIn(order) == m.Keys;
    Dropped(db, lib, m, d);
  }

  lemma Dropped(db: Db, lib: int, m: Inventory, d: Db)
    requires PutSoFar(db, lib, m, m.Keys, d)
    ensures HeldAsPut(db, lib, m, DropHints(d, lib)) && RowsAsPut(db, lib, m, DropHints(d, lib))
  {
    hide SlotHolds, DriveHolds, RowsSoFar, RowsAsPut, DropHints, HeldIn, ListedIn, ToSlot, ToDrive, Placeable;
    var r := DropHints(d, lib);
    DropKeepsElements(d, lib);
    HoldersDoNotDependOnTapes(d, r);
    DroppedRows(db, lib, m, d);
  }

  lemma DropKeepsElements(d: Db, lib: int)
    ensures DropHints(d, lib).slots == d.slots && DropHints(d, lib).drives == d.drives
  {
  }

  lemma DroppedRows(db: Db, lib: int, m: Inventory, d: Db)
    requires RowsSoFar(db, lib, m, m.Keys, d) && SlotsSoFar(db, lib, m, m.Keys, d) && DrivesSoFar(db, lib, m, m.Keys, d)
    ensures RowsAsPut(db, lib, m, DropHints(d, lib))
  {
    hide SlotsSoFar, DrivesSoFar, HeldIn;
    var r := DropHints(d, lib);
    forall id | id in db.tapes ensures HeldIn(r, lib, id) <==> HeldIn(d, lib, id) {
      SameHeldIn(d, r, lib, id);
    }
    forall id | id in db.tapes && HeldIn(d, lib, id) ensures ListedIn(db, lib, m, id) {
      HeldIsListed(db, lib, m, d, id);
    }
  }

  lemma SameHeldIn(a: Db, b: Db, lib: int, id: int)
    requires a.slots == b.slots && a.drives == b.drives
    ensures HeldIn(a, lib, id) <==> HeldIn(b, lib, id)
  {
    HoldersDoNotDependOnTapes(a, b);
  }

  lemma HeldIsListed(db: Db, lib: int, m: Inventory, d: Db, id: int)
    requires SlotsSoFar(db, lib, m, m.Keys, d) && DrivesSoFar(db, lib, m, m.Keys, d) && HeldIn(d, lib, id)
    ensures id in db.tapes && ListedIn(db, lib, m, id)
  {
  }

  // ---------------------------------------------------------------- tapes kept and tapes lost

  /** What pulling makes of the place of tape `id`. */
  ghost function PulledPlace(db: Db, lib: int, m: Inventory, id: int): (int, Place)
    requires id in db.tapes
  {
    if ListedIn(db, lib, m, id) then (lib, PlaceAt(m[db.tapes[id].name])) else Where(db)[id]
  }

  /** The catalog has no tape in the library's robot that the kernel's map leaves out. */
  ghost predicate NoneLeftOut(db: Db, lib: int, m: Inventory) {
    forall id :: id in db.tapes && db.tapes[id].library == lib && db.tapes[id].shelf == None ==> db.tapes[id].name in m
  }

  // ---------------------------------------------------------------- one library at a time

  /** What the row of a tape of library `lib` must be backed by within that library. */
  ghost predicate AnchoredIn(db: Db, lib: int, id: int)
    requires id in db.tapes
  {
    var t := db.tapes[id];
    && (t.slot.Some? ==> t.shelf == None && SlotHolds(db, (lib, t.slot.value), id))
    && (t.shelf.Some? ==> ShelfIn(db, lib, t.shelf.value))
    && (t.slot == None && t.shelf == None ==> InDriveOf(db, lib, id))
  }

  /** The elements of library `lib` hold its own tapes only, as those tapes' rows say, and no tape twice. */
  ghost predicate ElementsAgree(db: Db, lib: int) {
    && (forall k: Key, id :: k.0 == lib && SlotHolds(db, k, id) ==>
          id in db.tapes && db.tapes[id].library == lib && db.tapes[id].slot == Some(k.1))
    && (forall k: Key, id :: k.0 == lib && DriveHolds(db, k, id) ==>
          id in db.tapes && db.tapes[id].library == lib && db.tapes[id].slot == None && db.tapes[id].shelf == None)
    && (forall k: Key, l: Key, id :: k.0 == lib && l.0 == lib && DriveHolds(db, k, id) && DriveHolds(db, l, id) ==>
          k == l)
  }

  /** `WellPlaced` as far as it concerns the tapes and elements of one library. */
  ghost predicate WellPlacedIn(db: Db, lib: int) {
    ElementsAgree(db, lib) && forall id :: id in db.tapes && db.tapes[id].library == lib ==> AnchoredIn(db, lib, id)
  }

  /** A catalog is well placed exactly when each library is. */
  lemma WellPlacedByLibrary(db: Db)
    ensures WellPlaced(db) <==> UniqueNames(db.tapes) && forall lib :: WellPlacedIn(db, lib)
  {
    hide UniqueNames;
    if UniqueNames(db.tapes) && forall lib :: WellPlacedIn(db, lib) {
      EachLibraryPlaces(db);
    }
    if WellPlaced(db) {
      forall lib ensures WellPlacedIn(db, lib) {
        LibraryIsPlaced(db, lib);
      }
    }
  }

  lemma LibraryIsPlaced(db: Db, lib: int)
    requires WellPlaced(db)
    ensures WellPlacedIn(db, lib)
  {
    forall id | id in db.tapes && db.tapes[id].library == lib ensures AnchoredIn(db, lib, id) {
      assert Anchored(db, id);
    }
  }

  lemma EachLibraryPlaces(db: Db)
    requires UniqueNames(db.tapes) && forall lib :: WellPlacedIn(db, lib)
    ensures WellPlaced(db)
  {
    forall k, id | SlotHolds(db, k, id)
      ensures id in db.tapes && db.tapes[id].library == k.0 && db.tapes[id].slot == Some(k.1)
    {
      assert WellPlacedIn(db, k.0);
    }
    forall k, id | DriveHolds(db, k, id)
      ensures id in db.tapes && db.tapes[id].library == k.0 && db.tapes[id].slot == None && db.tapes[id].shelf == None
    {
      assert WellPlacedIn(db, k.0);
    }
    forall k, l, id | DriveHolds(db, k, id) && DriveHolds(db, l, id) ensures k == l {
      assert WellPlacedIn(db, k.0);
    }
    forall id | id in db.tapes ensures Anchored(db, id) {
      assert WellPlacedIn(db, db.tapes[id].library) && AnchoredIn(db, db.tapes[id].library, id);
    }
  }

  /** The library's elements agree with the tape rows after every pull. */
  lemma PulledElementsAgree(db: Db, lib: int, m: Inventory, r: Db)
    requires HeldAsPut(db, lib, m, r) && RowsAsPut(db, lib, m, r)
    ensures ElementsAgree(r, lib)
  {
  }

  /** A tape the kernel leaves out stays placed when it only stands on a shelf of the library. */
  ghost predicate StandsOnShelf(db: Db, lib: int, id: int)
    requires id in db.tapes
  {
    db.tapes[id].slot == None && db.tapes[id].shelf.Some? && ShelfIn(db, lib, db.tapes[id].shelf.value)
  }

  ghost predicate UnlistedStand(db: Db, lib: int, m: Inventory) {
    forall id :: id in db.tapes && db.tapes[id].library == lib && db.tapes[id].name !in m ==> StandsOnShelf(db, lib, id)
  }

  lemma PulledAnchoredIn(db: Db, lib: int, m: Inventory, r: Db, id: int)
    requires HeldAsPut(db, lib, m, r) && RowsAsPut(db, lib, m, r)
    requires id in db.tapes && db.tapes[id].library == lib
    ensures AnchoredIn(r, lib, id) <==> if db.tapes[id].name in m then HeldIn(r, lib, id)
            else StandsOnShelf(db, lib, id)
  {
  }

  /** Every listed tape ends in an element exactly when the map is placeable. */
  lemma AllHeldIff(db: Db, lib: int, m: Inventory, r: Db)
    requires HeldAsPut(db, lib, m, r) && SameFrame(r, db)
    ensures Placeable(db, lib, m) <==> forall id :: id in db.tapes && ListedIn(db, lib, m, id) ==> HeldIn(r, lib, id)
  {
    if Placeable(db, lib, m) {
      forall id | id in db.tapes && ListedIn(db, lib, m, id) ensures HeldIn(r, lib, id) {
        PlaceableIsHeld(db, lib, m, r, id);
      }
    }
    if forall id :: id in db.tapes && ListedIn(db, lib, m, id) ==> HeldIn(r, lib, id) {
      forall id, s | ToSlot(db, lib, m, id, s) ensures SlotHolds(r, (lib, s), id) {
        HeldWherePut(db, lib, m, r, id);
      }
      forall id, d | ToDrive(db, lib, m, id, d) ensures DriveHolds(r, (lib, d), id) {
        HeldWherePut(db, lib, m, r, id);
      }
    }
  }

  lemma PlaceableIsHeld(db: Db, lib: int, m: Inventory, r: Db, id: int)
    requires HeldAsPut(db, lib, m, r) && Placeable(db, lib, m) && id in db.tapes && ListedIn(db, lib, m, id)
    ensures HeldIn(r, lib, id)
  {
    match m[db.tapes[id].name]
    case DataSlot(s) => assert ToSlot(db, lib, m, id, s) && SlotHolds(r, (lib, s), id);
    case MailSlot(s) => assert ToSlot(db, lib, m, id, s) && SlotHolds(r, (lib, s), id);
    case Drive(d) => assert ToDrive(db, lib, m, id, d) && DriveHolds(r, (lib, d), id);
  }

  /** A tape the library holds is in the row it was put into, and in no other. */
  lemma HeldWherePut(db: Db, lib: int, m: Inventory, r: Db, id: int)
    requires HeldAsPut(db, lib, m, r) && HeldIn(r, lib, id)
    ensures forall s :: ToSlot(db, lib, m, id, s) ==> SlotHolds(r, (lib, s), id)
    ensures forall d :: ToDrive(db, lib, m, id, d) ==> DriveHolds(r, (lib, d), id)
  {
  }

  /**
   * Whatever the catalog was before, with unique names, and whatever the map: after the pull the
   * library is well placed exactly when each of its tapes in the map has an element row to itself and
   * each of the others only stands on a shelf.
   */
  lemma PullPlacesLibraryIff(db: Db, lib: int, m: Inventory, order: seq<string>)
    requires UniqueNames(db.tapes) && IsOrder(order, m)
    ensures WellPlacedIn(Pull(db, lib, m, order), lib) <==> Placeable(db, lib, m) && UnlistedStand(db, lib, m)
  {
    hide Pull, Placeable, HeldAsPut, AnchoredIn, StandsOnShelf, ElementsAgree, UniqueNames, HeldIn;
    var r := Pull(db, lib, m, order);
    PulledShape(db, lib, m, order);
    PulledElementsAgree(db, lib, m, r);
    AllHeldIff(db, lib, m, r);
    forall id | id in db.tapes && db.tapes[id].library == lib
      ensures AnchoredIn(r, lib, id) <==> if db.tapes[id].name in m then HeldIn(r, lib, id)
              else StandsOnShelf(db, lib, id)
    {
      PulledAnchoredIn(db, lib, m, r, id);
    }
  }

  /** A pull leaves every other library as well placed, or not, as it was. */
  lemma PullSparesOthers(db: Db, lib: int, m: Inventory, order: seq<string>, other: int)
    requires UniqueNames(db.tapes) && IsOrder(order, m) && other != lib
    ensures WellPlacedIn(Pull(db, lib, m, order), other) <==> WellPlacedIn(db, other)
  {
    hide Pull, ToSlot, ToDrive, Placeable, UniqueNames;
    var r := Pull(db, lib, m, order);
    PulledShape(db, lib, m, order);
    PulledElsewhere(db, lib, m, r, other);
    forall id | id in db.tapes && db.tapes[id].library == other
      ensures AnchoredIn(r, other, id) <==> AnchoredIn(db, other, id)
    {
      assert forall k: Key :: k.0 == other ==> (DriveHolds(r, k, id) <==> DriveHolds(db, k, id));
    }
  }

  lemma PulledElsewhere(db: Db, lib: int, m: Inventory, r: Db, other: int)
    requires HeldAsPut(db, lib, m, r) && RowsAsPut(db, lib, m, r) && other != lib
    ensures ElementsAgree(r, other) <==> ElementsAgree(db, other)
    ensures forall id :: id in db.tapes && db.tapes[id].library == other ==> r.tapes[id] == db.tapes[id]
    ensures forall id :: id in db.tapes ==> r.tapes[id].library == db.tapes[id].library
  {
    hide ToSlot, ToDrive, Placeable, HeldIn;
  }

  /** The whole catalog after a pull, from any catalog with unique names. */
  lemma PullPlacesIff(db: Db, lib: int, m: Inventory, order: seq<string>)
    requires UniqueNames(db.tapes) && IsOrder(order, m)
    ensures WellPlaced(Pull(db, lib, m, order)) <==>
            Placeable(db, lib, m) && UnlistedStand(db, lib, m)
                && forall other :: other != lib ==> WellPlacedIn(db, other)
  {
    hide Pull, Placeable, WellPlacedIn, UnlistedStand, WellPlaced, UniqueNames, HeldAsPut;
    var r := Pull(db, lib, m, order);
    PulledShape(db, lib, m, order);
    PulledUnique(db, lib, m, r);
    WellPlacedByLibrary(r);
    PullPlacesLibraryIff(db, lib, m, order);
    forall other | other != lib ensures WellPlacedIn(r, other) <==> WellPlacedIn(db, other) {
      PullSparesOthers(db, lib, m, order, other);
    }
  }

  /**
   * From a well-placed catalog, a pull keeps every tape in exactly one place exactly when the map is
   * placeable and leaves out no tape of the robot.
   */
  lemma PullKeepsWellPlacedIff(db: Db, lib: int, m: Inventory, order: seq<string>)
    requires WellPlaced(db) && IsOrder(order, m)
    ensures WellPlaced(Pull(db, lib, m, order)) <==> Placeable(db, lib, m) && NoneLeftOut(db, lib, m)
  {
    hide Pull, Placeable, WellPlaced, WellPlacedIn, UniqueNames;
    WellPlacedIsUnique(db);
    PullPlacesIff(db, lib, m, order);
    WellPlacedByLibrary(db);
    forall id | id in db.tapes && db.tapes[id].library == lib
      ensures StandsOnShelf(db, lib, id) <==> db.tapes[id].shelf.Some?
    {
      ShelvedStands(db, id);
    }
  }

  lemma ShelvedStands(db: Db, id: int)
    requires WellPlaced(db) && id in db.tapes
    ensures StandsOnShelf(db, db.tapes[id].library, id) <==> db.tapes[id].shelf.Some?
  {
    assert Anchored(db, id);
  }

  lemma PulledUnique(db: Db, lib: int, m: Inventory, r: Db)
    requires UniqueNames(db.tapes) && RowsAsPut(db, lib, m, r)
    ensures UniqueNames(r.tapes)
  {
  }

  /** And then the listed tapes are where the kernel has them, and all others where they were. */
  lemma PullMoves(db: Db, lib: int, m: Inventory, order: seq<string>)
    requires WellPlaced(db) && Placeable(db, lib, m) && IsOrder(order, m) && NoneLeftOut(db, lib, m)
    ensures var r := Pull(db, lib, m, order);
            Where(r) == map id | id in db.tapes :: PulledPlace(db, lib, m, id)
  {
    hide Pull, Placeable, SlotHolds, WellPlaced, HeldAsPut;
    var r := Pull(db, lib, m, order);
    WellPlacedIsUnique(db);
    PulledShape(db, lib, m, order);
    PullKeepsWellPlacedIff(db, lib, m, order);
    forall id | id in db.tapes ensures Where(r)[id] == PulledPlace(db, lib, m, id) {
      PulledToPlace(db, lib, m, r, id);
    }
  }

  lemma PulledToPlace(db: Db, lib: int, m: Inventory, r: Db, id: int)
    requires WellPlaced(db) && WellPlaced(r) && HeldAsPut(db, lib, m, r) && RowsAsPut(db, lib, m, r) && id in db.tapes
    requires NoneLeftOut(db, lib, m) && Placeable(db, lib, m)
    ensures Where(r)[id] == PulledPlace(db, lib, m, id)
  {
    if ListedIn(db, lib, m, id) {
      PlaceableIsHeld(db, lib, m, r, id);
      HeldWherePut(db, lib, m, r, id);
      if m[db.tapes[id].name].Drive? {
        assert ToDrive(db, lib, m, id, m[db.tapes[id].name].drive);
        AtDriveIff(r, id, (lib, m[db.tapes[id].name].drive));
      }
    } else {
      var row := db.tapes[id];
      forall k ensures DriveHolds(r, k, id) <==> DriveHolds(db, k, id) {
        assert DriveHolds(db, k, id) && k.0 == lib ==> row.library == lib && row.shelf == None;
      }
      assert Anchored(db, id);
      SamePlace(db, r, id);
    }
  }

  /** The columns of a tape of the library and the library's slot and drive rows say the same of it. */
  ghost predicate ColumnsAgree(db: Db, lib: int, id: int)
    requires id in db.tapes
  {
    && (forall k: Key :: k.0 == lib ==> (SlotHolds(db, k, id) <==> k in db.slots && db.tapes[id].slot == Some(k.1)))
    && (db.tapes[id].slot.Some? ==> SlotHolds(db, (lib, db.tapes[id].slot.value), id))
    && (db.tapes[id].shelf.Some? ==> !HeldIn(db, lib, id))
  }

  /**
   * Whatever the catalog was before, with unique names, and whatever the map: after the pull the
   * columns of a tape of the library agree with the elements exactly when the kernel lists the tape or
   * the catalog did not have it on a shelf and in a slot at once. Lost tapes are included.
   */
  lemma PulledColumnsAgreeIff(db: Db, lib: int, m: Inventory, order: seq<string>, id: int)
    requires UniqueNames(db.tapes) && IsOrder(order, m)
    requires id in db.tapes && db.tapes[id].library == lib
    ensures var r := Pull(db, lib, m, order);
            id in r.tapes && (ColumnsAgree(r, lib, id) <==>
                                db.tapes[id].name in m || db.tapes[id].shelf == None || db.tapes[id].slot == None)
  {
    hide Pull, UniqueNames, Placeable;
    PulledShape(db, lib, m, order);
  }

  lemma SameHoldersSameDb(a: Db, b: Db)
    requires SameFrame(a, b) && a.tapes == b.tapes
    requires forall k, id :: SlotHolds(a, k, id) <==> SlotHolds(b, k, id)
    requires forall k, id :: DriveHolds(a, k, id) <==> DriveHolds(b, k, id)
    ensures a == b
  {
    forall k | k in a.slots ensures a.slots[k] == b.slots[k] {
      forall id ensures a.slots[k].tape == Some(id) <==> b.slots[k].tape == Some(id) {
        assert SlotHolds(a, k, id) <==> SlotHolds(b, k, id);
      }
      SameOption(a.slots[k].tape, b.slots[k].tape);
    }
    forall k | k in a.drives ensures a.drives[k] == b.drives[k] {
      forall id ensures a.drives[k] == Some(id) <==> b.drives[k] == Some(id) {
        assert DriveHolds(a, k, id) <==> DriveHolds(b, k, id);
      }
      SameOption(a.drives[k], b.drives[k]);
    }
  }

  lemma PlaceableAfterwards(db: Db, lib: int, m: Inventory, r: Db)
    requires UniqueNames(db.tapes) && Placeable(db, lib, m) && RowsAsPut(db, lib, m, r)
    ensures UniqueNames(r.tapes) && Placeable(r, lib, m)
    ensures forall id, s :: ToSlot(r, lib, m, id, s) <==> ToSlot(db, lib, m, id, s)
    ensures forall id, d :: ToDrive(r, lib, m, id, d) <==> ToDrive(db, lib, m, id, d)
  {
    forall id, s ensures ToSlot(r, lib, m, id, s) <==> ToSlot(db, lib, m, id, s) {
    }
    forall id, d ensures ToDrive(r, lib, m, id, d) <==> ToDrive(db, lib, m, id, d) {
    }
  }

  /** A second pull of the same placeable map, walked in any order, changes nothing. */
  lemma PullIsIdempotent(db: Db, lib: int, m: Inventory, o1: seq<string>, o2: seq<string>)
    requires UniqueNames(db.tapes) && Placeable(db, lib, m) && IsOrder(o1, m) && IsOrder(o2, m)
    ensures Pull(Pull(db, lib, m, o1), lib, m, o2) == Pull(db, lib, m, o1)
  {
    hide Pull, Placeable, ToSlot, ToDrive, UniqueNames, HeldAsPut, RowsAsPut;
    var r := Pull(db, lib, m, o1);
    PulledShape(db, lib, m, o1);
    PlaceableAfterwards(db, lib, m, r);
    var r' := Pull(r, lib, m, o2);
    PulledShape(r, lib, m, o2);
    HeldTwice(db, lib, m, r, r');
    PulledTwice(db, lib, m, r, r');
    SameHoldersSameDb(r', r);
  }

  lemma HeldTwice(db: Db, lib: int, m: Inventory, r: Db, r': Db)
    requires Placeable(db, lib, m) && Placeable(r, lib, m) && RowsAsPut(db, lib, m, r)
    requires HeldAsPut(db, lib, m, r) && HeldAsPut(r, lib, m, r')
    requires forall id, s :: ToSlot(r, lib, m, id, s) <==> ToSlot(db, lib, m, id, s)
    requires forall id, d :: ToDrive(r, lib, m, id, d) <==> ToDrive(db, lib, m, id, d)
    ensures forall k, id :: SlotHolds(r', k, id) <==> SlotHolds(r, k, id)
    ensures forall k, id :: DriveHolds(r', k, id) <==> DriveHolds(r, k, id)
  {
    hide Placeable, RowsAsPut, SlotHolds, DriveHolds;
    assert forall k: Key, id :: k.0 == lib && SlotHolds(r, k, id) <==> k.0 == lib && ToSlot(db, lib, m, id, k.1);
    assert forall k: Key, id :: k.0 == lib && DriveHolds(r, k, id) <==> k.0 == lib && ToDrive(db, lib, m, id, k.1);
  }

  lemma PulledTwice(db: Db, lib: int, m: Inventory, r: Db, r': Db)
    requires RowsAsPut(db, lib, m, r) && RowsAsPut(r, lib, m, r')
    requires forall k, id :: SlotHolds(r', k, id) <==> SlotHolds(r, k, id)
    requires forall k, id :: DriveHolds(r', k, id) <==> DriveHolds(r, k, id)
    ensures SameFrame(r', r) && r'.tapes == r.tapes
  {
    hide SlotHolds, DriveHolds;
    forall id | id in db.tapes ensures r'.tapes[id] == r.tapes[id] {
      assert ListedIn(r, lib, m, id) <==> ListedIn(db, lib, m, id);
      assert HeldIn(r', lib, id) <==> HeldIn(r, lib, id);
    }
  }

  // ---------------------------------------------------------------- locations without a row

  /** No element row of the catalog can stand for the location. */
  predicate NoRow(db: Db, lib: int, loc: MediumLocation) {
    match loc
    case DataSlot(s) => (lib, s) !in db.slots
    case MailSlot(s) => (lib, s) !in db.slots
    case Drive(d) => (lib, d) !in db.drives
  }

  /** A pull loses every known tape whose location has no row: it ends on no shelf, in no slot, in no drive. */
  lemma UnplaceableIsLost(db: Db, lib: int, m: Inventory, order: seq<string>, id: int)
    requires WellPlaced(db) && IsOrder(order, m)
    requires id in db.tapes && ListedIn(db, lib, m, id) && NoRow(db, lib, m[db.tapes[id].name])
    ensures id in Where(Pull(db, lib, m, order)) && Where(Pull(db, lib, m, order))[id] == (lib, Nowhere)
    ensures !Placeable(db, lib, m)
  {
    hide Pull, UniqueNames;
    var r := Pull(db, lib, m, order);
    PulledShape(db, lib, m, order);
    match m[db.tapes[id].name] {
      case DataSlot(s) => assert ToSlot(db, lib, m, id, s);
      case MailSlot(s) => assert ToSlot(db, lib, m, id, s);
      case Drive(d) => assert ToDrive(db, lib, m, id, d);
    }
    assert !HeldIn(r, lib, id);
    assert forall k :: DriveHolds(r, k, id) && k.0 != lib ==> DriveHolds(db, k, id);
  }

  // ---------------------------------------------------------------- drifts that are safe

  /** When all drifts are safe, the two inventories name the same tapes. */
  lemma SafeDriftsNameTheSame(dbInv: Inventory, kernel: Inventory, drifts: seq<DriftItem>)
    requires SafeForPull(drifts) && forall d :: IsDrift(dbInv, kernel, d) ==> d in drifts
    ensures dbInv.Keys == kernel.Keys
  {
    forall n ensures n in dbInv <==> n in kernel {
      var d := DriftItem(n, Get(dbInv, n), Get(kernel, n));
      assert IsDrift(dbInv, kernel, d) ==> d in drifts;
    }
  }

  /** A well-placed catalog's inventory names exactly the library's unshelved tapes. */
  lemma InventoryNamesUnshelved(db: Db, lib: int, inv: Inventory)
    requires WellPlaced(db) && IsInventory(db, lib, inv)
    ensures forall n :: n in inv ==> TapeId(db, lib, n).Some?
    ensures forall kernel: Inventory :: kernel.Keys == inv.Keys ==> NoneLeftOut(db, lib, kernel)
  {
    forall n | n in inv ensures TapeId(db, lib, n).Some? {
      var id := Occupant(db, lib, inv[n]).value;
      match inv[n] {
        case DataSlot(s) => assert SlotHolds(db, (lib, s), id);
        case MailSlot(s) => assert SlotHolds(db, (lib, s), id);
        case Drive(d) => assert DriveHolds(db, (lib, d), id);
      }
      assert IsTape(db.tapes, id, lib, n);
    }
    forall id | id in db.tapes && db.tapes[id].library == lib && db.tapes[id].shelf == None
      ensures db.tapes[id].name in inv
    {
      assert Anchored(db, id);
      var name := db.tapes[id].name;
      if db.tapes[id].slot.Some? {
        var k := (lib, db.tapes[id].slot.value);
        assert SlotHolds(db, k, id);
        assert HoldsName(db, lib, SlotLocation(db.slots[k], k.1), name);
      } else {
        var k :| DriveHolds(db, k, id);
        assert HoldsName(db, lib, Drive(k.1), name);
      }
    }
  }

  /** Every location has a row of its kind, and no two names share one. */
  ghost predicate RowsFit(db: Db, lib: int, kernel: Inventory) {
    Injective(kernel) && forall n :: n in kernel ==> RowExists(db, lib, kernel[n])
  }

  /**
   * A pull taken because all drifts are safe, from a well-placed catalog: the catalog then equals the
   * kernel exactly when the rows fit, and in that case no tape is lost. From any other catalog
   * `PullIsExactIff` and `PullPlacesLibraryIff` say what it does.
   */
  lemma SafePullIff(db: Db, lib: int, inv: Inventory, kernel: Inventory, drifts: seq<DriftItem>, order: seq<string>)
    requires WellPlaced(db) && IsInventory(db, lib, inv) && IsOrder(order, kernel)
    requires SafeForPull(drifts) && forall d :: IsDrift(inv, kernel, d) ==> d in drifts
    ensures var r := Pull(db, lib, kernel, order);
            && (Pullable(db, lib, kernel) <==> RowsFit(db, lib, kernel))
            && (IsInventory(r, lib, kernel) <==> RowsFit(db, lib, kernel))
            && (RowsFit(db, lib, kernel) ==> Placeable(db, lib, kernel))
            && (WellPlaced(r) <==> Placeable(db, lib, kernel))
  {
    hide Pull, RowExists, WellPlaced, IsInventory, UniqueNames, Placeable;
    SafeDriftsNameTheSame(inv, kernel, drifts);
    InventoryNamesUnshelved(db, lib, inv);
    WellPlacedIsUnique(db);
    PullIsExactIff(db, lib, kernel, order);
    PullKeepsWellPlacedIff(db, lib, kernel, order);
    if Pullable(db, lib, kernel) {
      PullableIsPlaceable(db, lib, kernel);
    }
  }
}
