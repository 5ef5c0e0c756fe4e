/** Batch assignment: validate every pair, then apply them one transaction each. */
module Batch {
  import opened Common
  import opened Catalog
  import opened CatalogOps
  import opened CatalogGrants

  /** A tape by name, the slot it is to take, and whether it comes from offline storage. */
  datatype Pair = Pair(name: string, slot: int, fromOffline: bool)

  function Home(p: Pair, online: int, offline: int): int { if p.fromOffline then offline else online }

  /** `validate_tape_ready_for_online_slot`: the error it reports, if any. */
  ghost function Objection(db: Db, online: int, offline: int, p: Pair): Option<Error> {
    var home := Home(p, online, offline);
    var found := TapeId(db, home, p.name);
    if SlotTape(db, (online, p.slot)).Some? then Some(SlotNotEmpty)
    else if found.None? then Some(TapeNotFound)
    else if !p.fromOffline && InDriveOf(db, online, found.value) then Some(TapeInDrive)
    else if db.tapes[found.value].slot.Some? then Some(if p.fromOffline then Inconsistent else AlreadyInSlot)
    else if db.tapes[found.value].shelf.None? then Some(TapeNotOnShelf)
    else if p.fromOffline && InDriveOf(db, offline, found.value) then Some(TapeInDrive)
    else if p.fromOffline && TapeId(db, online, p.name).Some? then Some(NameTaken)
    else None
  }

  ghost function ApplyPair(db: Db, online: int, offline: int, p: Pair): Outcome {
    if p.fromOffline then Import(db, online, offline, p.name, p.slot) else Assign(db, online, p.name, p.slot)
  }

  /** The apply loop; it stops at the first failure. */
  ghost function ApplyAll(db: Db, online: int, offline: int, pairs: seq<Pair>): Outcome {
    if pairs == [] then Ok(db)
    else
      var before := ApplyAll(db, online, offline, pairs[..|pairs| - 1]);
      if before.Err? then before else ApplyPair(before.value, online, offline, pairs[|pairs| - 1])
  }

  ghost predicate DistinctPairs(pairs: seq<Pair>) {
    forall i, j :: 0 <= i < j < |pairs| ==> pairs[i].slot != pairs[j].slot && pairs[i].name != pairs[j].name
  }

  ghost predicate AllReady(db: Db, online: int, offline: int, pairs: seq<Pair>) {
    forall i :: 0 <= i < |pairs| ==> Objection(db, online, offline, pairs[i]).None?
  }

  /** `e` is what the first pair in the list that does not validate is refused with. */
  ghost predicate FirstObjection(db: Db, online: int, offline: int, pairs: seq<Pair>, e: Error) {
    exists i :: 0 <= i < |pairs| && Objection(db, online, offline, pairs[i]) == Some(e)
                && forall j :: 0 <= j < i ==> Objection(db, online, offline, pairs[j]).None?
  }

  ghost function IdOf(db: Db, online: int, offline: int, p: Pair): int
    requires Objection(db, online, offline, p).None?
  {
    TapeId(db, Home(p, online, offline), p.name).value
  }

  ghost predicate TapesAssigned(db: Db, online: int, offline: int, pairs: seq<Pair>, tapes: map<int, TapeRow>)
    requires AllReady(db, online, offline, pairs)
  {
    && tapes.Keys == db.tapes.Keys
    && (forall i :: 0 <= i < |pairs| ==>
          IdOf(db, online, offline, pairs[i]) in tapes
          && tapes[IdOf(db, online, offline, pairs[i])] == TapeRow(online, pairs[i].name, None, Some(pairs[i].slot)))
    && (forall id :: id in db.tapes && (forall i :: 0 <= i < |pairs| ==> id != IdOf(db, online, offline, pairs[i]))
          ==> tapes[id] == db.tapes[id])
  }

  ghost predicate SlotsAssigned(db: Db, online: int, offline: int, pairs: seq<Pair>, slots: map<Key, SlotRow>)
    requires AllReady(db, online, offline, pairs)
  {
    && slots.Keys == db.slots.Keys
    && (forall i :: 0 <= i < |pairs| && (online, pairs[i].slot) in db.slots ==>
          slots[(online, pairs[i].slot)]
          == db.slots[(online, pairs[i].slot)].(tape := Some(IdOf(db, online, offline, pairs[i]))))
    && (forall k :: k in db.slots && (forall i :: 0 <= i < |pairs| ==> k != (online, pairs[i].slot))
          ==> slots[k] == db.slots[k])
  }

  /**
   * The catalog in which every listed tape has taken its slot, read off row by row: listed tapes
   * and listed slots have their new contents and every other row is as before.
   */
  ghost predicate IsAssigned(db: Db, online: int, offline: int, pairs: seq<Pair>, r: Db)
    requires AllReady(db, online, offline, pairs)
  {
    && TapesAssigned(db, online, offline, pairs, r.tapes) && SlotsAssigned(db, online, offline, pairs, r.slots)
    && r.drives == db.drives && r.shelves == db.shelves
  }

  /** A pair that validates is applied without objection. */
  lemma ReadyApplies(db: Db, online: int, offline: int, p: Pair)
    requires Objection(db, online, offline, p).None?
    ensures ApplyPair(db, online, offline, p).Ok?
    ensures var r, id := ApplyPair(db, online, offline, p).value, IdOf(db, online, offline, p);
            && id in db.tapes && r.tapes == db.tapes[id := TapeRow(online, p.name, None, Some(p.slot))]
            && r.slots == SetSlot(db.slots, (online, p.slot), Some(id)) && r.drives == db.drives
               && r.shelves == db.shelves
  {
  }

  /** The single operation a pair stands for. */
  function AsOp(online: int, offline: int, p: Pair): Op {
    if p.fromOffline then OpImport(online, offline, p.name, p.slot) else OpAssign(online, p.name, p.slot)
  }

  /**
   * In a well-placed catalog a pair validates exactly when names and places permit its operation, and
   * the objection to it is true.
   */
  lemma ReadyIffPermitted(db: Db, online: int, offline: int, p: Pair)
    requires WellPlaced(db)
    ensures var o := Objection(db, online, offline, p);
            && (o.None? <==> Permitted(db, AsOp(online, offline, p)))
            && (o.Some? ==> Reason(db, AsOp(online, offline, p), o.value))
  {
    hide WellPlaced, Occupied, OnShelf, InSlot, InDrive, Known, InDriveOf, SetSlot, SetPlace;
    var home := Home(p, online, offline);
    GrantedIffPermitted(db, AsOp(online, offline, p));
    SlotQuery(db, online, p.slot);
    NameQuery(db, home, p.name);
    NameQuery(db, online, p.name);
    if TapeId(db, home, p.name).Some? { KindQuery(db, home, p.name); }
  }

  /** Rows of other names answer lookups as before. */
  lemma OtherNamesUntouched(db: Db, r: Db, id: int, row: TapeRow, lib: int, name: string)
    requires UniqueNames(db.tapes) && id in db.tapes && db.tapes[id].name == row.name != name
    requires r.tapes == db.tapes[id := row]
    ensures TapeId(r, lib, name) == TapeId(db, lib, name)
  {
    assert forall j :: IsTape(r.tapes, j, lib, name) <==> IsTape(db.tapes, j, lib, name);
  }

  lemma ApplyKeepsUnique(db: Db, online: int, offline: int, p: Pair)
    requires UniqueNames(db.tapes) && Objection(db, online, offline, p).None?
    ensures UniqueNames(ApplyPair(db, online, offline, p).value.tapes)
  {
    ReadyApplies(db, online, offline, p);
    var r := ApplyPair(db, online, offline, p).value;
    var id := IdOf(db, online, offline, p);
    forall i, j | i in r.tapes && j in r.tapes && r.tapes[i].library == r.tapes[j].library
        && r.tapes[i].name == r.tapes[j].name
      ensures i == j
    {
      assert i == id && j != id ==> IsTape(db.tapes, j, online, p.name);
      assert j == id && i != id ==> IsTape(db.tapes, i, online, p.name);
    }
  }

  /** Applying one ready pair leaves another, of different name and slot, ready. */
  lemma ReadySurvives(db: Db, online: int, offline: int, p: Pair, q: Pair)
    requires UniqueNames(db.tapes) && p.name != q.name && p.slot != q.slot
    requires Objection(db, online, offline, p).None? && Objection(db, online, offline, q).None?
    ensures var r := ApplyPair(db, online, offline, p);
            && r.Ok? && Objection(r.value, online, offline, q).None?
            && IdOf(r.value, online, offline, q) == IdOf(db, online, offline, q) != IdOf(db, online, offline, p)
  {
    ReadyApplies(db, online, offline, p);
    var r, id := ApplyPair(db, online, offline, p).value, IdOf(db, online, offline, p);
    var row := TapeRow(online, p.name, None, Some(p.slot));
    OtherNamesUntouched(db, r, id, row, Home(q, online, offline), q.name);
    OtherNamesUntouched(db, r, id, row, online, q.name);
    assert forall k, j :: DriveHolds(r, k, j) <==> DriveHolds(db, k, j);
  }

  /**
   * Once the validation loop has accepted distinct pairs, no check in the apply loop can fail,
   * offline and online sources mixed, and the outcome is the row-by-row one.
   */
  lemma {:induction false} AcceptedBatchApplies(db: Db, online: int, offline: int, pairs: seq<Pair>)
    requires UniqueNames(db.tapes) && DistinctPairs(pairs) && AllReady(db, online, offline, pairs)
    ensures ApplyAll(db, online, offline, pairs).Ok?
    ensures IsAssigned(db, online, offline, pairs, ApplyAll(db, online, offline, pairs).value)
    ensures UniqueNames(ApplyAll(db, online, offline, pairs).value.tapes)
  {
    hide Objection, UniqueNames, IdOf, ApplyPair, IsAssigned;
    if pairs == [] {
      NothingAssigned(db, online, offline);
    } else {
      var init, p := pairs[..|pairs| - 1], pairs[|pairs| - 1];
      AcceptedBatchApplies(db, online, offline, init);
      LastStaysReady(db, online, offline, init, p);
      DistinctIds(db, online, offline, init, p);
      var mid := ApplyAll(db, online, offline, init).value;
      ReadyApplies(mid, online, offline, p);
      ApplyKeepsUnique(mid, online, offline, p);
      assert pairs == init + [p];
      OneMoreAssigned(db, online, offline, init, p, mid, ApplyPair(mid, online, offline, p).value);
    }
  }

  ghost predicate DistinctFrom(pairs: seq<Pair>, p: Pair) {
    forall i :: 0 <= i < |pairs| ==> pairs[i].slot != p.slot && pairs[i].name != p.name
  }

  /** A ready pair stays ready while others, of different names and slots, are applied. */
  lemma {:induction false} LastStaysReady(db: Db, online: int, offline: int, pairs: seq<Pair>, p: Pair)
    requires UniqueNames(db.tapes) && DistinctPairs(pairs) && AllReady(db, online, offline, pairs)
    requires DistinctFrom(pairs, p) && Objection(db, online, offline, p).None?
    requires ApplyAll(db, online, offline, pairs).Ok?
    ensures var mid := ApplyAll(db, online, offline, pairs).value;
            && UniqueNames(mid.tapes) && Objection(mid, online, offline, p).None?
            && IdOf(mid, online, offline, p) == IdOf(db, online, offline, p)
  {
    hide Objection, UniqueNames, IdOf, ApplyPair;
    if pairs != [] {
      var init, last := pairs[..|pairs| - 1], pairs[|pairs| - 1];
      LastStaysReady(db, online, offline, init, p);
      LastStaysReady(db, online, offline, init, last);
      var mid := ApplyAll(db, online, offline, init).value;
      ReadySurvives(mid, online, offline, last, p);
      ApplyKeepsUnique(mid, online, offline, last);
    }
  }

  lemma DistinctIds(db: Db, online: int, offline: int, pairs: seq<Pair>, p: Pair)
    requires AllReady(db, online, offline, pairs) && DistinctFrom(pairs, p) && Objection(db, online, offline, p).None?
    ensures forall i :: 0 <= i < |pairs| ==> IdOf(db, online, offline, pairs[i]) != IdOf(db, online, offline, p)
  {
    forall i | 0 <= i < |pairs| ensures IdOf(db, online, offline, pairs[i]) != IdOf(db, online, offline, p) {
      assert db.tapes[IdOf(db, online, offline, pairs[i])].name == pairs[i].name;
      assert db.tapes[IdOf(db, online, offline, p)].name == p.name;
    }
  }

  lemma ReadyAreTapes(db: Db, online: int, offline: int, pairs: seq<Pair>)
    requires AllReady(db, online, offline, pairs)
    ensures forall i :: 0 <= i < |pairs| ==> IdOf(db, online, offline, pairs[i]) in db.tapes
  {
  }

  lemma NothingAssigned(db: Db, online: int, offline: int)
    ensures IsAssigned(db, online, offline, [], db)
  {
  }

  lemma OneMoreTapeAssigned(db: Db, online: int, offline: int, init: seq<Pair>, p: Pair, tapes: map<int, TapeRow>)
    requires AllReady(db, online, offline, init + [p]) && AllReady(db, online, offline, init)
    requires Objection(db, online, offline, p).None? && TapesAssigned(db, online, offline, init, tapes)
    requires IdOf(db, online, offline, p) in db.tapes
    requires forall i :: 0 <= i < |init| ==> IdOf(db, online, offline, init[i]) != IdOf(db, online, offline, p)
    ensures TapesAssigned(db, online, offline, init + [p],
                          tapes[IdOf(db, online, offline, p) := TapeRow(online, p.name, None, Some(p.slot))])
  {
    hide Objection, IdOf;
    var n, pairs := |init|, init + [p];
    assert pairs[n] == p && forall i :: 0 <= i < n ==> pairs[i] == init[i];
    forall j | j in db.tapes && (forall i :: 0 <= i < |pairs| ==> j != IdOf(db, online, offline, pairs[i]))
      ensures j != IdOf(db, online, offline, p) && tapes[j] == db.tapes[j]
    {
      assert j != IdOf(db, online, offline, pairs[n]);
      assert forall i :: 0 <= i < n ==> IdOf(db, online, offline, init[i]) == IdOf(db, online, offline, pairs[i]);
    }
  }

  lemma OneMoreSlotAssigned(db: Db, online: int, offline: int, init: seq<Pair>, p: Pair, slots: map<Key, SlotRow>)
    requires AllReady(db, online, offline, init + [p]) && AllReady(db, online, offline, init) && DistinctFrom(init, p)
    requires Objection(db, online, offline, p).None? && SlotsAssigned(db, online, offline, init, slots)
    ensures SlotsAssigned(db, online, offline, init + [p],
                          SetSlot(slots, (online, p.slot), Some(IdOf(db, online, offline, p))))
  {
    hide Objection, IdOf;
    var n, pairs := |init|, init + [p];
    assert pairs[n] == p && forall i :: 0 <= i < n ==> pairs[i] == init[i];
    assert (online, p.slot) in db.slots ==> slots[(online, p.slot)] == db.slots[(online, p.slot)];
    forall k | k in db.slots && (forall i :: 0 <= i < |pairs| ==> k != (online, pairs[i].slot))
      ensures k != (online, p.slot) && slots[k] == db.slots[k]
    {
      assert k != (online, pairs[n].slot);
      assert forall i :: 0 <= i < n ==> init[i].slot == pairs[i].slot;
    }
  }

  lemma OneMoreAssigned(db: Db, online: int, offline: int, init: seq<Pair>, p: Pair, mid: Db, r: Db)
    requires AllReady(db, online, offline, init + [p]) && AllReady(db, online, offline, init) && DistinctFrom(init, p)
    requires Objection(db, online, offline, p).None? && IsAssigned(db, online, offline, init, mid)
    requires var id := IdOf(db, online, offline, p);
             && r.tapes == mid.tapes[id := TapeRow(online, p.name, None, Some(p.slot))]
             && r.slots == SetSlot(mid.slots, (online, p.slot), Some(id)) && r.drives == mid.drives
                && r.shelves == mid.shelves
    requires forall i :: 0 <= i < |init| ==> IdOf(db, online, offline, init[i]) != IdOf(db, online, offline, p)
    ensures IsAssigned(db, online, offline, init + [p], r)
  {
    hide Objection, IdOf, TapesAssigned, SlotsAssigned, SetSlot;
    ReadyAreTapes(db, online, offline, [p]);
    assert [p][0] == p;
    OneMoreTapeAssigned(db, online, offline, init, p, mid.tapes);
    OneMoreSlotAssigned(db, online, offline, init, p, mid.slots);
  }

  ghost predicate SlotRowsExist(db: Db, online: int, pairs: seq<Pair>) {
    forall i :: 0 <= i < |pairs| ==> (online, pairs[i].slot) in db.slots
  }

  lemma PairMoves(db: Db, online: int, offline: int, p: Pair)
    requires WellPlaced(db) && Objection(db, online, offline, p).None? && (online, p.slot) in db.slots
    ensures ApplyPair(db, online, offline, p).Ok? && WellPlaced(ApplyPair(db, online, offline, p).value)
  {
    ReadyApplies(db, online, offline, p);
    if p.fromOffline {
      ImportMoves(db, online, offline, p.name, p.slot);
    } else {
      AssignMoves(db, online, p.name, p.slot);
    }
  }

  lemma {:induction false} BatchKeepsWellPlaced(db: Db, online: int, offline: int, pairs: seq<Pair>)
    requires WellPlaced(db) && DistinctPairs(pairs) && AllReady(db, online, offline, pairs)
             && SlotRowsExist(db, online, pairs)
    ensures ApplyAll(db, online, offline, pairs).Ok? && WellPlaced(ApplyAll(db, online, offline, pairs).value)
  {
    hide Objection, ApplyPair, IdOf, WellPlaced, UniqueNames;
    WellPlacedIsUnique(db);
    if pairs != [] {
      var init, p := pairs[..|pairs| - 1], pairs[|pairs| - 1];
      BatchKeepsWellPlaced(db, online, offline, init);
      AcceptedBatchApplies(db, online, offline, init);
      LastStaysReady(db, online, offline, init, p);
      PairMoves(ApplyAll(db, online, offline, init).value, online, offline, p);
    }
  }

  /** A tape no pair names is where it was. */
  lemma UnlistedStays(db: Db, online: int, offline: int, pairs: seq<Pair>, r: Db, id: int)
    requires WellPlaced(db) && WellPlaced(r) && AllReady(db, online, offline, pairs)
             && IsAssigned(db, online, offline, pairs, r)
    requires id in db.tapes && forall i :: 0 <= i < |pairs| ==> id != IdOf(db, online, offline, pairs[i])
    ensures id in r.tapes && Where(r)[id] == Where(db)[id]
  {
    hide Objection, IdOf, WellPlaced, SlotsAssigned;
    assert forall k :: DriveHolds(r, k, id) <==> DriveHolds(db, k, id);
    SamePlace(db, r, id);
  }

  /** A listed tape is in its slot, whether or not the slot has a row. */
  lemma ListedIsInSlot(db: Db, online: int, offline: int, pairs: seq<Pair>, r: Db, i: nat)
    requires AllReady(db, online, offline, pairs) && IsAssigned(db, online, offline, pairs, r) && i < |pairs|
    ensures var id := IdOf(db, online, offline, pairs[i]);
            && id in db.tapes && id in r.tapes && Where(r)[id] == (online, AtSlot(pairs[i].slot))
            && ((online, pairs[i].slot) !in db.slots ==> !Anchored(r, id))
  {
    hide Objection, IdOf;
    assert IdOf(db, online, offline, pairs[i]) in r.tapes;
  }

  /**
   * An accepted batch leaves every tape well placed exactly when all its slots have rows; then
   * the listed tapes are in their slots and every other tape is where it was.
   */
  lemma BatchPlacesIff(db: Db, online: int, offline: int, pairs: seq<Pair>)
    requires WellPlaced(db) && DistinctPairs(pairs) && AllReady(db, online, offline, pairs)
    ensures var final := ApplyAll(db, online, offline, pairs);
            && final.Ok? && (WellPlaced(final.value) <==> SlotRowsExist(db, online, pairs))
            && (WellPlaced(final.value) ==>
                  && Where(final.value).Keys == Where(db).Keys
                  && (forall i :: 0 <= i < |pairs| ==>
                        IdOf(db, online, offline, pairs[i]) in db.tapes
                        && Where(final.value)[IdOf(db, online, offline, pairs[i])] == (online, AtSlot(pairs[i].slot)))
                  && (forall id ::
                     id in db.tapes && (forall i :: 0 <= i < |pairs| ==> id != IdOf(db, online, offline, pairs[i])) ==>
                     Where(final.value)[id] == Where(db)[id]))
  {
    hide Objection, IdOf, UniqueNames, Anchored, ApplyAll, PlaceOf, SlotsAssigned;
    WellPlacedIsUnique(db);
    AcceptedBatchApplies(db, online, offline, pairs);
    var r := ApplyAll(db, online, offline, pairs).value;
    forall i | 0 <= i < |pairs|
      ensures var id := IdOf(db, online, offline, pairs[i]);
              id in db.tapes && id in r.tapes && Where(r)[id] == (online, AtSlot(pairs[i].slot))
    {
      ListedIsInSlot(db, online, offline, pairs, r, i);
    }
    if SlotRowsExist(db, online, pairs) {
      BatchKeepsWellPlaced(db, online, offline, pairs);
      forall id | id in db.tapes && (forall i :: 0 <= i < |pairs| ==> id != IdOf(db, online, offline, pairs[i]))
        ensures Where(r)[id] == Where(db)[id]
      {
        UnlistedStays(db, online, offline, pairs, r, id);
      }
    } else {
      var i :| 0 <= i < |pairs| && (online, pairs[i].slot) !in db.slots;
      ListedIsInSlot(db, online, offline, pairs, r, i);
    }
  }
}
