/** Moving a list of tapes to an offline shelf: each tape commits on its own, and the first refusal ends the loop. */
module OfflineMove {
  import opened Common
  import opened Catalog
  import opened CatalogOps
  import opened CatalogGrants
  import opened CatalogStore
  import opened Migration

  /** All listed tapes, one after the other. */
  ghost function MoveAll(db: Db, lib: int, offline: int, names: seq<string>, shelf: int): Outcome {
    if names == [] then Ok(db)
    else
      var before := MoveAll(db, lib, offline, names[..|names| - 1], shelf);
      if before.Err? then before else MoveOffline(before.value, lib, offline, names[|names| - 1], shelf)
  }

  /** Moving one tape leaves every other as movable, or not, as it was. */
  lemma OthersMoveAlike(db: Db, lib: int, offline: int, name: string, other: string, shelf: int)
    requires WellPlaced(db) && name != other && MoveOffline(db, lib, offline, name, shelf).Ok?
    ensures var r := MoveOffline(db, lib, offline, name, shelf).value;
            && TapeId(r, lib, other) == TapeId(db, lib, other)
            && (MoveOffline(r, lib, offline, other, shelf).Ok? <==> MoveOffline(db, lib, offline, other, shelf).Ok?)
  {
    hide WellPlaced;
    var r := MoveOffline(db, lib, offline, name, shelf).value;
    WellPlacedIsUnique(db);
    MoveOfflineMoves(db, lib, offline, name, shelf);
    WellPlacedIsUnique(r);
    OtherIsTapeAlike(db, r, TapeId(db, lib, name).value, lib, other);
    OtherIsTapeAlike(db, r, TapeId(db, lib, name).value, offline, other);
    assert forall k, j :: DriveHolds(r, k, j) <==> DriveHolds(db, k, j);
  }

  lemma OtherIsTapeAlike(db: Db, r: Db, id: int, lib: int, other: string)
    requires UniqueNames(db.tapes) && UniqueNames(r.tapes) && r.tapes.Keys == db.tapes.Keys && id in db.tapes
    requires forall j :: j in db.tapes && j != id ==> r.tapes[j] == db.tapes[j]
    requires r.tapes[id].name == db.tapes[id].name != other
    ensures TapeId(r, lib, other) == TapeId(db, lib, other)
  {
    assert forall j :: IsTape(r.tapes, j, lib, other) <==> IsTape(db.tapes, j, lib, other);
  }

  /** `w` with the listed tapes of library `lib` on the offline shelf. */
  ghost predicate Offline(db: Db, lib: int, offline: int, names: seq<string>, shelf: int, w: map<int, (int, Place)>) {
    && w.Keys == Where(db).Keys
    && forall id :: id in db.tapes ==>
         w[id] == if db.tapes[id].library == lib && db.tapes[id].name in names then (offline, AtShelf(shelf))
             else Where(db)[id]
  }

  /**
   * All listed tapes can be moved one after the other exactly when each could be at the start; then
   * each is on the offline shelf, no other tape has moved, and the others are as movable as before.
   */
  lemma {:induction false} AllMoveIff(db: Db, lib: int, offline: int, names: seq<string>, shelf: int)
    requires WellPlaced(db) && Distinct(names)
    ensures MoveAll(db, lib, offline, names, shelf).Ok? <==>
            forall n :: n in names ==> MoveOffline(db, lib, offline, n, shelf).Ok?
    ensures MoveAll(db, lib, offline, names, shelf).Ok? ==>
              var r := MoveAll(db, lib, offline, names, shelf).value;
              && WellPlaced(r) && SameFrame(r, db) && Offline(db, lib, offline, names, shelf, Where(r))
              && forall n :: n !in names ==>
                   TapeId(r, lib, n) == TapeId(db, lib, n)
                   && (MoveOffline(r, lib, offline, n, shelf).Ok? <==> MoveOffline(db, lib, offline, n, shelf).Ok?)
  {
    hide WellPlaced, MoveOffline, Where, TapeId, SameFrame, Offline;
    if names == [] {
      NothingOffline(db, lib, offline, shelf);
    } else {
      var init, last := names[..|names| - 1], names[|names| - 1];
      assert names == init + [last];
      AllMoveIff(db, lib, offline, init, shelf);
      if MoveAll(db, lib, offline, init, shelf).Ok? {
        var mid := MoveAll(db, lib, offline, init, shelf).value;
        if MoveOffline(mid, lib, offline, last, shelf).Ok? {
          MoveOfflineMoves(mid, lib, offline, last, shelf);
          OneMoreOffline(db, mid, lib, offline, init, last, shelf);
          forall n | n !in names
            ensures var r := MoveOffline(mid, lib, offline, last, shelf).value;
                    TapeId(r, lib, n) == TapeId(db, lib, n)
                    && (MoveOffline(r, lib, offline, n, shelf).Ok? <==> MoveOffline(db, lib, offline, n, shelf).Ok?)
          {
            OthersMoveAlike(mid, lib, offline, last, n, shelf);
          }
        }
      }
    }
  }

  /** All move exactly when each may leave on its own, as names, shelf and drives tell. */
  lemma AllMoveWhenFreeIff(db: Db, lib: int, offline: int, names: seq<string>, shelf: int)
    requires WellPlaced(db) && Distinct(names)
    ensures MoveAll(db, lib, offline, names, shelf).Ok? <==>
            forall n :: n in names ==> MayLeave(db, lib, offline, n, shelf)
  {
    hide WellPlaced, MoveOffline, InDrive, Known;
    AllMoveIff(db, lib, offline, names, shelf);
    forall n | n in names
      ensures MoveOffline(db, lib, offline, n, shelf).Ok? <==> MayLeave(db, lib, offline, n, shelf)
    {
      GrantedIffPermitted(db, OpMoveOffline(lib, offline, n, shelf));
    }
  }

  /** The library has the tape, in no drive, and the offline library has the shelf and no tape of that name. */
  ghost predicate MayLeave(db: Db, lib: int, offline: int, name: string, shelf: int) {
    Known(db, lib, name) && !InDrive(db, lib, name) && HasShelf(db, offline, shelf) && !Known(db, offline, name)
  }

  lemma NothingOffline(db: Db, lib: int, offline: int, shelf: int)
    ensures Offline(db, lib, offline, [], shelf, Where(db)) && SameFrame(db, db)
  {
    hide PlaceOf;
  }

  lemma OneMoreOffline(db: Db, mid: Db, lib: int, offline: int, init: seq<string>, last: string, shelf: int)
    requires WellPlaced(db) && SameFrame(mid, db) && Offline(db, lib, offline, init, shelf, Where(mid)) && last !in init
    requires MoveOffline(mid, lib, offline, last, shelf).Ok? && TapeId(mid, lib, last) == TapeId(db, lib, last)
    requires var r := MoveOffline(mid, lib, offline, last, shelf).value;
             Moved(mid, r, TapeId(mid, lib, last).value, offline, AtShelf(shelf))
    ensures var r := MoveOffline(mid, lib, offline, last, shelf).value;
            WellPlaced(r) && SameFrame(r, db) && Offline(db, lib, offline, init + [last], shelf, Where(r))
  {
    hide PlaceOf, Where, MoveOffline, WellPlaced;
    var r := MoveOffline(mid, lib, offline, last, shelf).value;
    assert TapeId(mid, lib, last).Some? by { MovedIsTape(mid, lib, offline, last, shelf); }
    OnlyTapeOfItsName(db, lib, last, TapeId(db, lib, last).value);
    WhereKeys(r);
    WhereKeys(db);
  }

  lemma MovedIsTape(db: Db, lib: int, offline: int, name: string, shelf: int)
    requires MoveOffline(db, lib, offline, name, shelf).Ok?
    ensures TapeId(db, lib, name).Some?
  {
  }

  /**
   * `move_tapes_to_offline_shelf`. The list is refused as such when it is empty or names a tape twice;
   * otherwise the first `n` tapes are moved and the next, if there is one, refuses. From a well-placed
   * catalog that is the first one that could not be moved at the start.
   */
  method MoveTapesOffline(store: Database, lib: int, offline: int, names: seq<string>, shelf: int)
    returns (r: Reply, ghost n: nat)
    requires store.Valid()
    modifies store
    ensures store.Valid()
    ensures r == Err(InvalidBatch) <==> names == [] || !Distinct(names)
    ensures r == Err(InvalidBatch) ==> store.State() == old(store.State())
    ensures r != Err(InvalidBatch) ==>
              && n <= |names| && (r.Ok? <==> n == |names|)
              && MoveAll(old(store.State()), lib, offline, names[..n], shelf) == Ok(store.State())
              && (n < |names| ==> MoveOffline(store.State(), lib, offline, names[n], shelf) == Err(r.error))
    ensures r != Err(InvalidBatch) && old(WellPlaced(store.State())) ==>
              && WellPlaced(store.State())
              && (forall i :: 0 <= i < n ==> MoveOffline(old(store.State()), lib, offline, names[i], shelf).Ok?)
              && (n < |names| ==> MoveOffline(old(store.State()), lib, offline, names[n], shelf).Err?)
              && Offline(old(store.State()), lib, offline, names[..n], shelf, Where(store.State()))
  {
    hide MoveOffline, WellPlaced, Where, Offline, TapeId, SameFrame;
    n := 0;
    if names == [] { return Err(InvalidBatch), 0; }
    var seen := {};
    for i := 0 to |names|
      invariant seen == (set j | 0 <= j < i :: names[j]) && Distinct(names[..i])
    {
      if names[i] in seen {
        assert !Distinct(names) by {
          var j :| 0 <= j < i && names[j] == names[i];
        }
        return Err(InvalidBatch), 0;
      }
      seen := seen + {names[i]};
    }
    assert names[..|names|] == names;
    ghost var db := store.State();
    for i := 0 to |names|
      invariant store.Valid() && MoveAll(db, lib, offline, names[..i], shelf) == Ok(store.State())
    {
      assert names[..i + 1][..i] == names[..i];
      ghost var mid := store.State();
      if WellPlaced(db) { AllMoveIff(db, lib, offline, names[..i], shelf); }
      r := store.MoveTapeOffline(lib, offline, names[i], shelf);
      if r.Err? {
        MoveErrors(mid, lib, offline, names[i], shelf);
        return r, i;
      }
    }
    if WellPlaced(db) { AllMoveIff(db, lib, offline, names, shelf); }
    return Ok(Unit), |names|;
  }

  lemma MoveErrors(db: Db, lib: int, offline: int, name: string, shelf: int)
    ensures MoveOffline(db, lib, offline, name, shelf) != Err(InvalidBatch)
  {
  }
}
