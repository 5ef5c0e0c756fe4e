/**
 * Catalog and changer side by side: each command commits to the tables and then issues its ioctl.
 * When the two agree afterwards, decoding element addresses as their documentation means them.
 */
module InStep {
  import opened Common
  import opened Elements
  import opened Media
  import opened Catalog
  import CatalogOps
  import opened Reconcile
  import AutoAlign
  import Inv = Inventory

  function CatalogName(db: Db, lib: int, loc: MediumLocation): Option<string> {
    var id := Occupant(db, lib, loc);
    if id.Some? && id.value in db.tapes then Some(db.tapes[id.value].name) else None
  }

  /** `loc` is what its element address decodes to. */
  predicate IsMeant(loc: MediumLocation) { FromElementAsMeant(ToElement(loc)) == Some(loc) }

  ghost function KernelName(s: State, loc: MediumLocation): Option<string> {
    if IsMeant(loc) && ToElement(loc) in s.contents then Some(s.contents[ToElement(loc)].name) else None
  }

  /** At each location catalog and changer have the same tape by name, or none. */
  ghost predicate InStep(db: Db, lib: int, s: State) {
    forall loc :: CatalogName(db, lib, loc) == KernelName(s, loc)
  }

  /** `m` is the changer's contents decoded as meant. */
  ghost predicate IsMeantDecoding(contents: map<int, Tape>, m: Inventory) {
    && (forall a :: a in contents ==>
          contents[a].name in m && FromElementAsMeant(a) == Some(m[contents[a].name]))
    && (forall name :: name in m ==> exists a :: a in contents && contents[a].name == name)
  }

  /** For a changer with one decoding, being in step is the catalog having it as its inventory. */
  lemma InStepIsInventory(db: Db, lib: int, s: State, m: Inventory)
    requires IsMeantDecoding(s.contents, m)
    ensures InStep(db, lib, s) <==> IsInventory(db, lib, m)
  {
    forall loc, name ensures KernelName(s, loc) == Some(name) <==> name in m && m[name] == loc {
      if name in m && m[name] == loc {
        var a :| a in s.contents && s.contents[a].name == name;
        EncodeInvertsDecode(a);
      }
    }
    assert forall loc, name :: CatalogName(db, lib, loc) == Some(name) <==> HoldsName(db, lib, loc, name);
    if IsInventory(db, lib, m) {
      forall loc ensures CatalogName(db, lib, loc) == KernelName(s, loc) {
        if KernelName(s, loc).Some? {
          assert HoldsName(db, lib, loc, KernelName(s, loc).value);
        }
      }
    }
  }

  // ---------------------------------------------------------------- what each side's names become

  lemma MeantDiffer(l1: MediumLocation, l2: MediumLocation)
    requires IsMeant(l1) && IsMeant(l2) && ToElement(l1) == ToElement(l2)
    ensures l1 == l2
  {
  }

  lemma NamesAfterMove(s: State, src: MediumLocation, dst: MediumLocation)
    requires IsMeant(src) && IsMeant(dst) && src != dst && MoveCode(s, ToElement(src), ToElement(dst)) == OK
    ensures forall loc :: KernelName(MoveTo(s, ToElement(src), ToElement(dst)), loc) ==
              if loc == dst then KernelName(s, src) else if loc == src then None else KernelName(s, loc)
  {
    forall loc ensures KernelName(MoveTo(s, ToElement(src), ToElement(dst)), loc) ==
              if loc == dst then KernelName(s, src) else if loc == src then None else KernelName(s, loc)
    {
      if IsMeant(loc) && ToElement(loc) == ToElement(src) { MeantDiffer(loc, src); }
      if IsMeant(loc) && ToElement(loc) == ToElement(dst) { MeantDiffer(loc, dst); }
    }
  }

  /** What `Occupant` reads in a slot row is at the location of the row's kind. */
  lemma SlotRowName(db: Db, lib: int, slot: int)
    requires (lib, slot) in db.slots
    ensures var id := db.slots[(lib, slot)].tape;
            CatalogName(db, lib, SlotLocation(db.slots[(lib, slot)], slot)) ==
              if id.Some? && id.value in db.tapes then Some(db.tapes[id.value].name) else None
  {
  }

  lemma NamesAfterLoad(db: Db, lib: int, slot: int, drive: int)
    requires CatalogOps.Load(db, lib, slot, drive).Ok? && SlotTape(db, (lib, slot)).value in db.tapes
    ensures (lib, slot) in db.slots
    ensures var r, from := CatalogOps.Load(db, lib, slot, drive).value, SlotLocation(db.slots[(lib, slot)], slot);
            forall loc :: CatalogName(r, lib, loc) ==
              if loc == from then None
              else if loc == Drive(drive) && (lib, drive) in db.drives then CatalogName(db, lib, from)
              else CatalogName(db, lib, loc)
  {
  }

  lemma LoadNeedsRow(db: Db, lib: int, slot: int, drive: int)
    requires CatalogOps.Load(db, lib, slot, drive).Ok?
    ensures (lib, slot) in db.slots && db.slots[(lib, slot)].tape.Some? && DriveTape(db, (lib, drive)) == None
    ensures CatalogName(db, lib, Drive(drive)) == None
  {
  }

  // ---------------------------------------------------------------- load

  lemma LoadFollows(db: Db, lib: int, s: State, slot: int, drive: int, name: string, opening: Opening, r: Db)
    requires InStep(db, lib, s) && InGeometry(s) && 0 <= drive < s.geom.drives && (lib, drive) in db.drives
    requires CatalogName(db, lib, DataSlot(slot)) == Some(name) && CatalogName(db, lib, Drive(drive)) == None
    requires forall loc :: CatalogName(r, lib, loc) ==
               if loc == DataSlot(slot) then None
               else if loc == Drive(drive) && (lib, drive) in db.drives then Some(name) else CatalogName(db, lib, loc)
    ensures InStep(r, lib, LoadFromSlot(s, slot, drive, name, opening))
  {
    hide CatalogName;
    assert KernelName(s, DataSlot(slot)) == Some(name) && KernelName(s, Drive(drive)) == None;
    assert IsMeant(Drive(drive)) && MoveCode(s, slot, DRIVE_BASE + drive) == OK;
    NamesAfterMove(s, DataSlot(slot), Drive(drive));
  }

  /** Loading touches only the slot it is given and the drives. */
  lemma LoadTouches(s: State, slot: int, drive: int, name: string, opening: Opening, a: int)
    requires InGeometry(s) && a >= IE_BASE
    ensures var t := LoadFromSlot(s, slot, drive, name, opening);
            (a in t.contents <==> a in s.contents) && (a in s.contents ==> t.contents[a] == s.contents[a])
  {
  }

  lemma LoadDeparts(db: Db, lib: int, s: State, slot: int, drive: int, name: string, opening: Opening, r: Db)
    requires InStep(db, lib, s) && InGeometry(s) && (lib, slot) in db.slots
    requires var from := SlotLocation(db.slots[(lib, slot)], slot);
             && CatalogName(db, lib, from) == Some(name) && CatalogName(db, lib, Drive(drive)) == None
             && CatalogName(r, lib, from) == None
             && ((lib, drive) !in db.drives ==> CatalogName(r, lib, Drive(drive)) == None)
    requires db.slots[(lib, slot)].importExport || (lib, drive) !in db.drives || !(0 <= drive < s.geom.drives)
    ensures !InStep(r, lib, LoadFromSlot(s, slot, drive, name, opening))
  {
    hide CatalogName;
    var t, from := LoadFromSlot(s, slot, drive, name, opening), SlotLocation(db.slots[(lib, slot)], slot);
    assert KernelName(s, from) == Some(name) && CatalogName(r, lib, from) == None;
    if db.slots[(lib, slot)].importExport {
      LoadTouches(s, slot, drive, name, opening, ToElement(from));
      assert KernelName(t, from) == Some(name);
    } else if !(0 <= drive < s.geom.drives) {
      assert t == s;
    } else {
      assert KernelName(s, Drive(drive)) == None && IsMeant(Drive(drive));
      NamesAfterMove(s, from, Drive(drive));
      assert KernelName(t, Drive(drive)) == Some(name);
    }
  }

  /**
   * Load, whether its ioctl succeeds or not, leaves catalog and changer in step exactly when the tape
   * comes from a data slot and both have the drive. A mailslot's id is sent as a data slot's number.
   */
  lemma LoadStaysInStepIff(db: Db, lib: int, s: State, slot: int, drive: int, opening: Opening)
    requires InStep(db, lib, s) && InGeometry(s) && CatalogOps.Load(db, lib, slot, drive).Ok?
    requires SlotTape(db, (lib, slot)).Some? && SlotTape(db, (lib, slot)).value in db.tapes
    ensures (lib, slot) in db.slots
    ensures var r, name := CatalogOps.Load(db, lib, slot, drive).value, db.tapes[SlotTape(db, (lib, slot)).value].name;
            InStep(r, lib, LoadFromSlot(s, slot, drive, name, opening)) <==>
            !db.slots[(lib, slot)].importExport && (lib, drive) in db.drives && 0 <= drive < s.geom.drives
  {
    hide CatalogOps.Load, CatalogName, InStep, LoadFromSlot;
    var r, id := CatalogOps.Load(db, lib, slot, drive).value, SlotTape(db, (lib, slot)).value;
    LoadNeedsRow(db, lib, slot, drive);
    NamesAfterLoad(db, lib, slot, drive);
    SlotRowName(db, lib, slot);
    if !db.slots[(lib, slot)].importExport && (lib, drive) in db.drives && 0 <= drive < s.geom.drives {
      LoadFollows(db, lib, s, slot, drive, db.tapes[id].name, opening, r);
    } else {
      LoadDeparts(db, lib, s, slot, drive, db.tapes[id].name, opening, r);
    }
  }

  // ---------------------------------------------------------------- assign

  lemma NamesAfterAssign(db: Db, lib: int, name: string, slot: int)
    requires CatalogOps.Assign(db, lib, name, slot).Ok?
    ensures (lib, slot) in db.slots ==> CatalogName(db, lib, SlotLocation(db.slots[(lib, slot)], slot)) == None
    ensures (lib, slot) !in db.slots ==> CatalogName(db, lib, DataSlot(slot)) == None
    ensures var r := CatalogOps.Assign(db, lib, name, slot).value;
            forall loc :: CatalogName(r, lib, loc) ==
              if (lib, slot) in db.slots && loc == SlotLocation(db.slots[(lib, slot)], slot) then Some(name)
              else CatalogName(db, lib, loc)
  {
    var r, id := CatalogOps.Assign(db, lib, name, slot).value, TapeId(db, lib, name).value;
    assert forall j :: j in db.tapes ==> j in r.tapes && r.tapes[j].name == db.tapes[j].name;
  }

  lemma NamesAfterPlace(s: State, slot: int, t: Tape)
    requires InGeometry(s)
    ensures forall loc :: KernelName(PlaceIn(s, slot, t), loc) ==
              if loc == DataSlot(slot) && PlaceCode(s, slot, t) == OK then Some(t.name) else KernelName(s, loc)
  {
    forall loc ensures KernelName(PlaceIn(s, slot, t), loc) ==
              if loc == DataSlot(slot) && PlaceCode(s, slot, t) == OK then Some(t.name) else KernelName(s, loc)
    {
      if IsMeant(loc) && ToElement(loc) == slot && PlaceCode(s, slot, t) == OK { MeantDiffer(loc, DataSlot(slot)); }
    }
  }

  /** SLOT_PLACE, when it is sent and the image opens; otherwise the changer stays as it is. */
  ghost function PlaceOpened(s: State, slot: int, opening: Opening): State {
    if opening.Opened? then PlaceIn(s, slot, opening.tape) else s
  }

  /**
   * Assign stays in step exactly when the slot is a data slot of both and the image opens; or when the
   * slot has no row and nothing is placed, and then neither side has the tape.
   */
  lemma AssignStaysInStepIff(db: Db, lib: int, s: State, name: string, slot: int, opening: Opening)
    requires InStep(db, lib, s) && InGeometry(s) && CatalogOps.Assign(db, lib, name, slot).Ok?
    requires opening.Opened? ==> opening.tape.name == name
    ensures var placed := opening.Opened? && 0 <= slot < s.geom.slots;
            InStep(CatalogOps.Assign(db, lib, name, slot).value, lib, PlaceOpened(s, slot, opening)) <==>
            if (lib, slot) in db.slots then !db.slots[(lib, slot)].importExport && placed else !placed
  {
    hide CatalogOps.Assign, CatalogName;
    var r, s' := CatalogOps.Assign(db, lib, name, slot).value, PlaceOpened(s, slot, opening);
    NamesAfterAssign(db, lib, name, slot);
    if opening.Opened? { NamesAfterPlace(s, slot, opening.tape); }
    if (lib, slot) in db.slots {
      var loc := SlotLocation(db.slots[(lib, slot)], slot);
      assert CatalogName(r, lib, loc) == Some(name) && KernelName(s, loc) == None;
    } else {
      assert CatalogName(r, lib, DataSlot(slot)) == None && KernelName(s, DataSlot(slot)) == None;
    }
  }

  /** A name of more than 63 bytes is granted by the catalog and never reaches the changer. */
  lemma LongNameFallsOut(db: Db, lib: int, s: State, name: string, slot: int, opening: Opening)
    requires InStep(db, lib, s) && InGeometry(s) && CatalogOps.Assign(db, lib, name, slot).Ok?
             && (lib, slot) in db.slots
    requires |name| > 63 && (opening.Opened? ==> opening.tape.name == name)
    ensures !InStep(CatalogOps.Assign(db, lib, name, slot).value, lib, PlaceOpened(s, slot, opening))
  {
    hide CatalogOps.Assign, InStep;
    AssignStaysInStepIff(db, lib, s, name, slot, opening);
  }

  // ---------------------------------------------------------------- unload

  lemma NamesAfterUnload(db: Db, lib: int, drive: int)
    requires WellPlaced(db) && CatalogOps.Unload(db, lib, drive).Ok?
    ensures var r, to := CatalogOps.Unload(db, lib, drive).value, FirstEmpty(db, lib, false);
            && to.Some? && CatalogName(db, lib, DataSlot(to.value)) == None && CatalogName(db, lib, Drive(drive)).Some?
            && forall loc :: CatalogName(r, lib, loc) ==
                 if loc == DataSlot(to.value) then CatalogName(db, lib, Drive(drive))
                 else if loc == Drive(drive) then None
                 else CatalogName(db, lib, loc)
  {
    CatalogOps.UnloadTargetIsEmpty(db, lib, drive);
  }

  /** Unload stays in step exactly when the first empty data slot of the catalog is one the changer has. */
  lemma UnloadStaysInStepIff(db: Db, lib: int, s: State, drive: int)
    requires WellPlaced(db) && InStep(db, lib, s) && InGeometry(s) && CatalogOps.Unload(db, lib, drive).Ok?
    ensures FirstEmpty(db, lib, false).Some?
    ensures var to := FirstEmpty(db, lib, false).value;
            InStep(CatalogOps.Unload(db, lib, drive).value, lib, UnloadToSlot(s, drive, to)) <==> 0 <= to < s.geom.slots
  {
    hide CatalogOps.Unload, CatalogName, WellPlaced, MoveTo;
    NamesAfterUnload(db, lib, drive);
    var r, to := CatalogOps.Unload(db, lib, drive).value, FirstEmpty(db, lib, false).value;
    assert KernelName(s, Drive(drive)).Some? && KernelName(s, DataSlot(to)) == None;
    if 0 <= to < s.geom.slots {
      assert IsMeant(DataSlot(to)) && MoveCode(s, DRIVE_BASE + drive, to) == OK;
      NamesAfterMove(s, Drive(drive), DataSlot(to));
    } else {
      assert CatalogName(r, lib, Drive(drive)) == None;
    }
  }

  // ---------------------------------------------------------------- eject

  lemma NamesAfterEject(db: Db, lib: int, slot: int)
    requires CatalogOps.Eject(db, lib, slot).Ok? && SlotTape(db, (lib, slot)).Some?
             && SlotTape(db, (lib, slot)).value in db.tapes
    ensures (lib, slot) in db.slots && FirstEmpty(db, lib, true).Some?
    ensures var r, from := CatalogOps.Eject(db, lib, slot).value, SlotLocation(db.slots[(lib, slot)], slot);
            var to := MailSlot(FirstEmpty(db, lib, true).value);
            && from != to && CatalogName(db, lib, from).Some? && CatalogName(db, lib, to) == None
            && forall loc :: CatalogName(r, lib, loc) ==
                 if loc == to then CatalogName(db, lib, from)
                 else if loc == from then None
                 else CatalogName(db, lib, loc)
  {
  }

  /**
   * Eject stays in step exactly when the tape comes from a data slot and the mailslot chosen is one
   * the changer has.
   */
  lemma EjectStaysInStepIff(db: Db, lib: int, s: State, slot: int)
    requires InStep(db, lib, s) && InGeometry(s) && CatalogOps.Eject(db, lib, slot).Ok?
    requires SlotTape(db, (lib, slot)).Some? && SlotTape(db, (lib, slot)).value in db.tapes
    ensures (lib, slot) in db.slots && FirstEmpty(db, lib, true).Some?
    ensures var to := FirstEmpty(db, lib, true).value;
            InStep(CatalogOps.Eject(db, lib, slot).value, lib, MoveTo(s, slot, ToElement(MailSlot(to)))) <==>
            !db.slots[(lib, slot)].importExport && MAILSLOT_OFFSET <= to < MAILSLOT_OFFSET + s.geom.mailslots
  {
    hide CatalogOps.Eject, CatalogName;
    NamesAfterEject(db, lib, slot);
    var r, from := CatalogOps.Eject(db, lib, slot).value, SlotLocation(db.slots[(lib, slot)], slot);
    var to := FirstEmpty(db, lib, true).value;
    var s' := MoveTo(s, slot, ToElement(MailSlot(to)));
    assert KernelName(s, from).Some? && KernelName(s, MailSlot(to)) == None;
    if db.slots[(lib, slot)].importExport {
      assert KernelName(s, DataSlot(slot)) == None by { MailRowIsNoDataSlot(db, lib, slot); }
      assert CatalogName(r, lib, from) == None && KernelName(s', from) == KernelName(s, from);
    } else if MAILSLOT_OFFSET <= to < MAILSLOT_OFFSET + s.geom.mailslots {
      assert IsMeant(MailSlot(to)) && MoveCode(s, slot, ToElement(MailSlot(to))) == OK;
      NamesAfterMove(s, from, MailSlot(to));
    } else {
      assert CatalogName(r, lib, MailSlot(to)).Some? && KernelName(s', MailSlot(to)) == None;
    }
  }

  lemma MailRowIsNoDataSlot(db: Db, lib: int, slot: int)
    requires (lib, slot) in db.slots && db.slots[(lib, slot)].importExport
    ensures CatalogName(db, lib, DataSlot(slot)) == None
  {
  }

  // ---------------------------------------------------------------- placing on a shelf

  lemma NamesAfterShelfPlace(db: Db, lib: int, name: string, shelf: int)
    requires WellPlaced(db) && CatalogOps.ShelfPlace(db, lib, name, shelf).Ok?
    ensures var r := CatalogOps.ShelfPlace(db, lib, name, shelf).value;
            forall loc :: CatalogName(r, lib, loc) ==
              if CatalogName(db, lib, loc) == Some(name) then None else CatalogName(db, lib, loc)
  {
    var r, id := CatalogOps.ShelfPlace(db, lib, name, shelf).value, TapeId(db, lib, name).value;
    CatalogOps.DriveOfLibrary(db, lib, id);
    CatalogOps.SlotColumnAgrees(db, id);
    forall loc ensures CatalogName(r, lib, loc) ==
              if CatalogName(db, lib, loc) == Some(name) then None else CatalogName(db, lib, loc)
    {
      NamedOccupant(db, lib, loc, name, id);
    }
  }

  /** What the row of an occupant says. */
  lemma OccupantRow(db: Db, lib: int, loc: MediumLocation)
    requires WellPlaced(db) && Occupant(db, lib, loc).Some?
    ensures var id := Occupant(db, lib, loc).value;
            && id in db.tapes && db.tapes[id].library == lib && db.tapes[id].slot == SlotColumn(loc)
            && (loc.Drive? ==> DriveHolds(db, (lib, loc.drive), id))
  {
    var id := Occupant(db, lib, loc).value;
    match loc {
      case DataSlot(s) => assert SlotHolds(db, (lib, s), id);
      case MailSlot(s) => assert SlotHolds(db, (lib, s), id);
      case Drive(d) => assert DriveHolds(db, (lib, d), id);
    }
  }

  /** In a well-placed catalog the occupant of that name is the tape of that name. */
  lemma NamedOccupant(db: Db, lib: int, loc: MediumLocation, name: string, id: int)
    requires WellPlaced(db) && IsTape(db.tapes, id, lib, name)
    ensures CatalogName(db, lib, loc) == Some(name) <==> Occupant(db, lib, loc) == Some(id)
  {
    if Occupant(db, lib, loc).Some? { OccupantRow(db, lib, loc); }
  }

  /** In step with a well-placed catalog, the changer holds no name twice. */
  lemma InStepNamesDistinct(db: Db, lib: int, s: State)
    requires WellPlaced(db) && InStep(db, lib, s) && InGeometry(s)
    ensures forall a, b :: a in s.contents && b in s.contents && s.contents[a].name == s.contents[b].name ==> a == b
    ensures Inv.DistinctNames(s.contents) && Inv.DistinctNames(Inv.Seen(s.contents))
  {
    forall a, b | a in s.contents && b in s.contents && s.contents[a].name == s.contents[b].name ensures a == b {
      var la, lb := FromElementAsMeant(a).value, FromElementAsMeant(b).value;
      EncodeInvertsDecode(a);
      EncodeInvertsDecode(b);
      assert KernelName(s, la) == KernelName(s, lb) == Some(s.contents[a].name);
      OneOccupant(db, lib, la, lb, s.contents[a].name);
    }
  }

  /** A well-placed catalog has a name of the library at one location at most. */
  lemma OneOccupant(db: Db, lib: int, l1: MediumLocation, l2: MediumLocation, name: string)
    requires WellPlaced(db) && CatalogName(db, lib, l1) == Some(name) == CatalogName(db, lib, l2)
    ensures l1 == l2
  {
    var i, j := Occupant(db, lib, l1).value, Occupant(db, lib, l2).value;
    OccupantRow(db, lib, l1);
    OccupantRow(db, lib, l2);
    assert i == j;
  }

  /** The media of that name, if there are any, are among the first that one inventory lists. */
  ghost predicate SeenByName(contents: map<int, Tape>, name: string) {
    forall a :: a in contents && contents[a].name == name ==> name != "" && a in Inv.Seen(contents)
  }

  /** Evacuating removes the medium of that name, when it is seen, and nothing else. */
  lemma NamesAfterEvacuation(s: State, name: string)
    requires InGeometry(s) && Inv.DistinctNames(Inv.Seen(s.contents)) && SeenByName(s.contents, name)
    requires forall a, b :: a in s.contents && b in s.contents && s.contents[a].name == s.contents[b].name ==> a == b
    ensures forall loc :: KernelName(AutoAlign.Evacuate(s, name), loc) ==
              if KernelName(s, loc) == Some(name) then None else KernelName(s, loc)
  {
    hide Inv.Below, Inv.DistinctNames;
    if exists a :: a in s.contents && s.contents[a].name == name {
      var a :| a in s.contents && s.contents[a].name == name;
      assert AutoAlign.SeenAt(s.contents, a, name) && RemoveCode(s, a) == OK;
      assert AutoAlign.Evacuate(s, name).contents == s.contents - {a};
      forall loc | IsMeant(loc) && ToElement(loc) in s.contents
        ensures ToElement(loc) == a <==> KernelName(s, loc) == Some(name)
      {
      }
    }
  }

  lemma EvacuationLeavesUnseen(s: State, name: string, a: int)
    requires a in s.contents && s.contents[a].name == name && !(name != "" && a in Inv.Seen(s.contents))
    ensures a in AutoAlign.Evacuate(s, name).contents && AutoAlign.Evacuate(s, name).contents[a] == s.contents[a]
  {
    assert !AutoAlign.SeenAt(s.contents, a, name);
  }

  /**
   * Placing a tape on a shelf, with the evacuation behind it, stays in step exactly when the changer
   * does not have the tape or has it among the first `Inv.MAX_ITEMS` media: the evacuation takes one
   * inventory, does not ask whether that was all, and succeeds when the tape is not in it.
   */
  lemma ShelfPlaceStaysInStepIff(db: Db, lib: int, s: State, name: string, shelf: int)
    requires WellPlaced(db) && InStep(db, lib, s) && InGeometry(s) && CatalogOps.ShelfPlace(db, lib, name, shelf).Ok?
    ensures InStep(CatalogOps.ShelfPlace(db, lib, name, shelf).value, lib, AutoAlign.Evacuate(s, name))
            <==> SeenByName(s.contents, name)
  {
    hide CatalogOps.ShelfPlace, CatalogName, AutoAlign.Evacuate, WellPlaced, Inv.DistinctNames, Inv.Seen;
    var r, s' := CatalogOps.ShelfPlace(db, lib, name, shelf).value, AutoAlign.Evacuate(s, name);
    NamesAfterShelfPlace(db, lib, name, shelf);
    InStepNamesDistinct(db, lib, s);
    if SeenByName(s.contents, name) {
      NamesAfterEvacuation(s, name);
    } else {
      var a :| a in s.contents && s.contents[a].name == name && !(name != "" && a in Inv.Seen(s.contents));
      EvacuationLeavesUnseen(s, name, a);
      var loc := FromElementAsMeant(a).value;
      EncodeInvertsDecode(a);
      assert KernelName(s, loc) == Some(name) && KernelName(s', loc) == Some(name);
    }
  }

  /** In step, evacuation and auto-align find nothing to take out of the changer. */
  lemma InStepKeepsAll(db: Db, lib: int, s: State)
    requires WellPlaced(db) && InStep(db, lib, s) && InGeometry(s)
    ensures AutoAlign.WithoutSeen(s.contents, AutoAlign.ShelvedNames(db.tapes, lib)) == s.contents
    ensures AutoAlign.Kept(db, lib, s.contents) == s.contents
  {
    hide CatalogName, Inv.Seen, AutoAlign.InRobot, WellPlaced;
    forall a | a in s.contents
      ensures s.contents[a].name !in AutoAlign.ShelvedNames(db.tapes, lib)
              && AutoAlign.InRobot(db, lib, s.contents[a].name)
    {
      EncodeInvertsDecode(a);
      NamedIsInRobot(db, lib, FromElementAsMeant(a).value, s.contents[a].name);
    }
  }

  lemma NamedIsInRobot(db: Db, lib: int, loc: MediumLocation, name: string)
    requires WellPlaced(db) && CatalogName(db, lib, loc) == Some(name)
    ensures name !in AutoAlign.ShelvedNames(db.tapes, lib) && AutoAlign.InRobot(db, lib, name)
  {
    OccupantRow(db, lib, loc);
    assert HoldsName(db, lib, loc, name);
    var id := Occupant(db, lib, loc).value;
    assert Anchored(db, id);
  }

  /**
   * A tape shelved but not seen stays in the changer for good: neither the evacuation of all shelved
   * tapes nor auto-align behind it sees it, and the changer holds too many media for the rest.
   */
  lemma UnseenIsNotRepaired(db: Db, lib: int, s: State, name: string, shelf: int)
    requires WellPlaced(db) && InStep(db, lib, s) && InGeometry(s) && CatalogOps.ShelfPlace(db, lib, name, shelf).Ok?
    requires name != "" && !SeenByName(s.contents, name)
    ensures var r := CatalogOps.ShelfPlace(db, lib, name, shelf).value;
            && AutoAlign.Evacuate(s, name) == s && |s.contents| > Inv.MAX_ITEMS
            && AutoAlign.WithoutSeen(s.contents, AutoAlign.ShelvedNames(r.tapes, lib)) == s.contents
  {
    hide CatalogOps.ShelfPlace, CatalogName, WellPlaced, Inv.Seen, Inv.DistinctNames, InStep;
    var r := CatalogOps.ShelfPlace(db, lib, name, shelf).value;
    InStepNamesDistinct(db, lib, s);
    InStepKeepsAll(db, lib, s);
    ShelvedWith(db, lib, name, shelf);
    var a :| a in s.contents && s.contents[a].name == name && a !in Inv.Seen(s.contents);
    if |s.contents| <= Inv.MAX_ITEMS { Inv.AllSeen(s.contents); }
    SeenHaveContents(s.contents);
    forall b | b in Inv.Seen(s.contents) && s.contents[b].name != ""
      ensures s.contents[b].name !in AutoAlign.ShelvedNames(r.tapes, lib)
    {
      assert b in AutoAlign.WithoutSeen(s.contents, AutoAlign.ShelvedNames(db.tapes, lib));
    }
  }

  lemma SeenHaveContents(contents: map<int, Tape>)
    ensures forall a :: a in Inv.Seen(contents) ==> a in contents
  {
  }

  lemma ShelvedWith(db: Db, lib: int, name: string, shelf: int)
    requires WellPlaced(db) && CatalogOps.ShelfPlace(db, lib, name, shelf).Ok?
    ensures var r := CatalogOps.ShelfPlace(db, lib, name, shelf).value;
            AutoAlign.ShelvedNames(r.tapes, lib) == AutoAlign.ShelvedNames(db.tapes, lib) + {name}
  {
    var r, id := CatalogOps.ShelfPlace(db, lib, name, shelf).value, TapeId(db, lib, name).value;
    assert id in r.tapes && r.tapes[id].name == name && r.tapes[id].shelf.Some?;
    forall n ensures n in AutoAlign.ShelvedNames(r.tapes, lib) <==>
        n in AutoAlign.ShelvedNames(db.tapes, lib) + {name} {
      if n in AutoAlign.ShelvedNames(db.tapes, lib) {
        var j :| j in db.tapes && db.tapes[j].library == lib && db.tapes[j].shelf.Some? && db.tapes[j].name == n;
        assert j in r.tapes && r.tapes[j].name == n;
      }
    }
  }

  // ---------------------------------------------------------------- over every run

  /**
   * A command on one library. `opening` is what opening the tape's image by name yields; a name too
   * long for the ioctl counts as one that does not open.
   */
  datatype Command =
    | AssignTape(name: string, slot: int, opening: Opening)
    | LoadTape(slot: int, drive: int, opening: Opening)
    | UnloadTape(drive: int)
    | EjectTape(slot: int)
    | ShelveTape(name: string, shelf: int)

  function OpOf(lib: int, c: Command): CatalogOps.Op {
    match c
    case AssignTape(name, slot, _) => CatalogOps.OpAssign(lib, name, slot)
    case LoadTape(slot, drive, _) => CatalogOps.OpLoad(lib, slot, drive)
    case UnloadTape(drive) => CatalogOps.OpUnload(lib, drive)
    case EjectTape(slot) => CatalogOps.OpEject(lib, slot)
    case ShelveTape(name, shelf) => CatalogOps.OpShelfPlace(lib, name, shelf)
  }

  /** What the ioctl sent after the commit makes of the changer; `db` is the catalog before. */
  ghost function Sent(db: Db, lib: int, s: State, c: Command): State {
    match c
    case AssignTape(_, slot, opening) => PlaceOpened(s, slot, opening)
    case LoadTape(slot, drive, opening) =>
      var id := SlotTape(db, (lib, slot));
      if id.Some? && id.value in db.tapes then LoadFromSlot(s, slot, drive, db.tapes[id.value].name, opening) else s
    case UnloadTape(drive) =>
      var id := DriveTape(db, (lib, drive));
      var to := if id.Some? then CatalogOps.UnloadTarget(db, lib, id.value) else None;
      if to.Some? then UnloadToSlot(s, drive, to.value) else s
    case EjectTape(slot) =>
      var to := FirstEmpty(db, lib, true);
      if to.Some? then MoveTo(s, slot, ToElement(MailSlot(to.value))) else s
    case ShelveTape(name, _) => AutoAlign.Evacuate(s, name)
  }

  /** A tape opened by name has that name. */
  predicate OpensByName(c: Command) {
    c.AssignTape? && c.opening.Opened? ==> c.opening.tape.name == c.name
  }

  /** A command the catalog refuses sends nothing. */
  ghost predicate Refused(db: Db, lib: int, c: Command) { CatalogOps.Attempt(db, OpOf(lib, c)).Err? }

  ghost function Changed(db: Db, lib: int, s: State, c: Command): State {
    if Refused(db, lib, c) then s else Sent(db, lib, s, c)
  }

  predicate IsDataRow(db: Db, lib: int, slot: int) { (lib, slot) in db.slots && !db.slots[(lib, slot)].importExport }

  /** What can be seen beforehand of a granted command that both sides will carry out alike. */
  ghost predicate CarriedOut(db: Db, lib: int, s: State, c: Command) {
    match c
    case AssignTape(_, slot, opening) =>
      var placed := opening.Opened? && 0 <= slot < s.geom.slots;
      if (lib, slot) in db.slots then IsDataRow(db, lib, slot) && placed else !placed
    case LoadTape(slot, drive, _) => IsDataRow(db, lib, slot) && (lib, drive) in db.drives && 0 <= drive < s.geom.drives
    case UnloadTape(drive) =>
      var to := FirstEmpty(db, lib, false); to.Some? && 0 <= to.value < s.geom.slots
    case EjectTape(slot) =>
      var to := FirstEmpty(db, lib, true);
      IsDataRow(db, lib, slot) && to.Some? && MAILSLOT_OFFSET <= to.value < MAILSLOT_OFFSET + s.geom.mailslots
    case ShelveTape(name, _) => SeenByName(s.contents, name)
  }

  lemma GrantedLoadHasTape(db: Db, lib: int, slot: int)
    requires WellPlaced(db) && SlotTape(db, (lib, slot)).Some?
    ensures SlotTape(db, (lib, slot)).value in db.tapes
  {
    assert SlotHolds(db, (lib, slot), SlotTape(db, (lib, slot)).value);
  }

  lemma GrantedHasSource(db: Db, lib: int, c: Command)
    requires !Refused(db, lib, c)
    ensures c.LoadTape? || c.EjectTape? ==> SlotTape(db, (lib, c.slot)).Some?
    ensures c.UnloadTape? ==> DriveTape(db, (lib, c.drive)).Some?
  {
  }

  /** A granted command leaves catalog and changer in step exactly when both can carry it out. */
  lemma CommandStaysInStepIff(db: Db, lib: int, s: State, c: Command)
    requires WellPlaced(db) && InStep(db, lib, s) && InGeometry(s) && OpensByName(c) && !Refused(db, lib, c)
    ensures InStep(CatalogOps.Apply(db, OpOf(lib, c)), lib, Changed(db, lib, s, c)) <==> CarriedOut(db, lib, s, c)
  {
    hide WellPlaced, InStep, InGeometry, CatalogOps.Assign, CatalogOps.Load, CatalogOps.Unload,
         CatalogOps.Eject, CatalogOps.ShelfPlace, MoveTo, PlaceIn, LoadFromSlot, UnloadToSlot, SlotTape,
         DriveTape, CatalogOps.UnloadTarget;
    GrantedHasSource(db, lib, c);
    match c
    case AssignTape(name, slot, opening) => AssignStaysInStepIff(db, lib, s, name, slot, opening);
    case LoadTape(slot, drive, opening) =>
      GrantedLoadHasTape(db, lib, slot);
      LoadStaysInStepIff(db, lib, s, slot, drive, opening);
    case UnloadTape(drive) =>
      CatalogOps.UnloadTargetIsEmpty(db, lib, drive);
      UnloadStaysInStepIff(db, lib, s, drive);
    case EjectTape(slot) =>
      GrantedLoadHasTape(db, lib, slot);
      EjectStaysInStepIff(db, lib, s, slot);
    case ShelveTape(name, shelf) => ShelfPlaceStaysInStepIff(db, lib, s, name, shelf);
  }

  lemma ChangedInGeometry(db: Db, lib: int, s: State, c: Command)
    requires InGeometry(s)
    ensures InGeometry(Changed(db, lib, s, c))
  {
  }

  ghost function CatalogAfter(db: Db, lib: int, cs: seq<Command>): Db {
    if cs == [] then db else CatalogOps.Apply(CatalogAfter(db, lib, cs[..|cs| - 1]), OpOf(lib, cs[|cs| - 1]))
  }

  ghost function ChangerAfter(db: Db, lib: int, s: State, cs: seq<Command>): State {
    if cs == [] then s
    else
      var init := cs[..|cs| - 1];
      Changed(CatalogAfter(db, lib, init), lib, ChangerAfter(db, lib, s, init), cs[|cs| - 1])
  }

  /** Each command is refused, or both sides can carry it out and its target row exists. */
  ghost predicate AllCarriedOut(db: Db, lib: int, s: State, cs: seq<Command>) {
    cs == [] ||
    var init, c := cs[..|cs| - 1], cs[|cs| - 1];
    var d := CatalogAfter(db, lib, init);
    && AllCarriedOut(db, lib, s, init) && OpensByName(c)
    && (Refused(d, lib, c) || (CarriedOut(d, lib, ChangerAfter(db, lib, s, init), c)
       && CatalogOps.TargetRowExists(d, OpOf(lib, c))))
  }

  /** Over every run of such commands the two sides stay in step, and every tape in one place. */
  lemma {:induction false} RunStaysInStep(db: Db, lib: int, s: State, cs: seq<Command>)
    requires WellPlaced(db) && InStep(db, lib, s) && InGeometry(s) && AllCarriedOut(db, lib, s, cs)
    ensures WellPlaced(CatalogAfter(db, lib, cs)) && InGeometry(ChangerAfter(db, lib, s, cs))
    ensures InStep(CatalogAfter(db, lib, cs), lib, ChangerAfter(db, lib, s, cs))
  {
    hide WellPlaced, InStep, InGeometry, CarriedOut, Sent, CatalogOps.TargetRowExists, CatalogOps.Attempt, OpOf,
         OpensByName;
    if cs != [] {
      var init, c := cs[..|cs| - 1], cs[|cs| - 1];
      RunStaysInStep(db, lib, s, init);
      var d, t := CatalogAfter(db, lib, init), ChangerAfter(db, lib, s, init);
      ChangedInGeometry(d, lib, t, c);
      CatalogOps.StepKeepsWellPlacedIff(d, OpOf(lib, c));
      if !Refused(d, lib, c) { CommandStaysInStepIff(d, lib, t, c); }
    }
  }

  // ---------------------------------------------------------------- an example

  /** One tape in the first mailslot of library 1, with one data slot and one drive. */
  function OneInMail(): Db {
    Db(map[7 := TapeRow(1, "T", None, Some(100))],
       map[(1, 0) := SlotRow(None, false), (1, 100) := SlotRow(Some(7), true)], map[(1, 0) := None], map[])
  }

  lemma OneInMailIsWellPlaced()
    ensures WellPlaced(OneInMail())
  {
    assert Anchored(OneInMail(), 7);
  }

  /** Loading it is granted, and leaves it in the drive for the catalog and in the mailslot for the changer. */
  lemma LoadFromMailExample(t: Tape, opening: Opening)
    requires t.name == "T"
    ensures var db, s, c := OneInMail(), State(Geometry(1, 1, 4), map[IE_BASE := t], {}), LoadTape(100, 0, opening);
            && WellPlaced(db) && InStep(db, 1, s) && !Refused(db, 1, c)
            && !InStep(CatalogOps.Apply(db, OpOf(1, c)), 1, Changed(db, 1, s, c))
  {
    var db, s, c := OneInMail(), State(Geometry(1, 1, 4), map[IE_BASE := t], {}), LoadTape(100, 0, opening);
    OneInMailIsWellPlaced();
    hide WellPlaced, Changed;
    forall loc ensures CatalogName(db, 1, loc) == KernelName(s, loc) {
    }
    CommandStaysInStepIff(db, 1, s, c);
  }

  /** The names of 129 tapes, from "Aa" on. */
  function NameOf(i: int): Name
    requires 0 <= i < 129
  {
    ['A' + (i / 16) as char, 'a' + (i % 16) as char]
  }

  lemma NamesDiffer(i: int, j: int)
    requires 0 <= i < 129 && 0 <= j < 129 && NameOf(i) == NameOf(j)
    ensures i == j
  {
    assert NameOf(i)[0] == NameOf(j)[0] && NameOf(i)[1] == NameOf(j)[1];
  }

  /** 129 tapes in the first 129 data slots of library 1, which has one shelf. */
  function ManyInSlots(): Db {
    Db(map id | 0 <= id < 129 :: TapeRow(1, NameOf(id), None, Some(id)),
       map k: Key | k in (set i | 0 <= i < 129 :: (1, i)) :: SlotRow(Some(k.1), false),
       map[], map[3 := ShelfRow(1, true)])
  }

  function ManyMedia(tapes: seq<Tape>): map<int, Tape> { map i | 0 <= i < |tapes| :: tapes[i] }

  lemma ManyAreWellPlaced()
    ensures WellPlaced(ManyInSlots())
  {
    var db := ManyInSlots();
    forall i, j | i in db.tapes && j in db.tapes && db.tapes[i].name == db.tapes[j].name ensures i == j {
      NamesDiffer(i, j);
    }
    forall id | id in db.tapes ensures Anchored(db, id) {
      assert SlotHolds(db, (1, id), id);
    }
  }

  lemma ManyAreInStep(tapes: seq<Tape>)
    requires |tapes| == 129 && forall i :: 0 <= i < 129 ==> tapes[i].name == NameOf(i)
    ensures InStep(ManyInSlots(), 1, State(Geometry(1, 129, 4), ManyMedia(tapes), {}))
  {
    var db, s := ManyInSlots(), State(Geometry(1, 129, 4), ManyMedia(tapes), {});
    forall loc ensures CatalogName(db, 1, loc) == KernelName(s, loc) {
      if loc.DataSlot? && 0 <= loc.slot < 129 {
        assert (1, loc.slot) in db.slots;
      }
    }
  }

  lemma LastIsUnseen(tapes: seq<Tape>)
    requires |tapes| == 129
    ensures 128 !in Inv.Seen(ManyMedia(tapes))
  {
    var first := seq(128, i => i);
    Inv.SetOfAscending(first);
    var listed := set k | 0 <= k < |first| :: first[k];
    assert forall a :: a in Inv.Below(ManyMedia(tapes), 128) <==> 0 <= a < 128;
    forall a | 0 <= a < 128 ensures a in listed {
      assert first[a] == a;
    }
    Inv.SubsetSize(listed, Inv.Below(ManyMedia(tapes), 128));
  }

  lemma ShelvingIsGranted()
    ensures CatalogOps.ShelfPlace(ManyInSlots(), 1, NameOf(128), 3).Ok?
  {
    assert IsTape(ManyInSlots().tapes, 128, 1, NameOf(128));
  }

  lemma ManyNotCarriedOut(tapes: seq<Tape>)
    requires |tapes| == 129 && tapes[128].name == NameOf(128)
    ensures var s := State(Geometry(1, 129, 4), ManyMedia(tapes), {});
            InGeometry(s) && !CarriedOut(ManyInSlots(), 1, s, ShelveTape(NameOf(128), 3))
  {
    hide Inv.Seen, ManyInSlots;
    LastIsUnseen(tapes);
    assert 128 in ManyMedia(tapes);
  }

  /**
   * Shelving the last of 129 tapes is granted, and leaves it on the shelf for the catalog and in its
   * slot for the changer.
   */
  lemma ShelveUnseenExample(tapes: seq<Tape>)
    requires |tapes| == 129 && forall i :: 0 <= i < 129 ==> tapes[i].name == NameOf(i)
    ensures var db, s := ManyInSlots(), State(Geometry(1, 129, 4), ManyMedia(tapes), {});
            var c := ShelveTape(NameOf(128), 3);
            && WellPlaced(db) && InStep(db, 1, s) && !Refused(db, 1, c)
            && !InStep(CatalogOps.Apply(db, OpOf(1, c)), 1, Changed(db, 1, s, c))
  {
    hide WellPlaced, InStep, InGeometry, Changed, Inv.Seen, ManyInSlots, ManyMedia, CatalogOps.ShelfPlace, CarriedOut;
    var db, s := ManyInSlots(), State(Geometry(1, 129, 4), ManyMedia(tapes), {});
    ManyAreWellPlaced();
    ManyAreInStep(tapes);
    ShelvingIsGranted();
    ManyNotCarriedOut(tapes);
    CommandStaysInStepIff(db, 1, s, ShelveTape(NameOf(128), 3));
  }
}
