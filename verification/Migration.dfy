/** Shelf-to-shelf migration: one transaction over a list of tapes, dropped at the first that may not move. */
module Migration {
  import opened Common
  import opened Catalog
  import opened CatalogOps
  import opened CatalogGrants
  import opened CatalogStore

  /** The transaction's loop; the first refusal ends it. */
  ghost function MigrateAll(db: Db, lib: int, names: seq<string>, from: int, to: int): Outcome {
    if names == [] then Ok(db)
    else
      var before := MigrateAll(db, lib, names[..|names| - 1], from, to);
      if before.Err? then before else Migrate(before.value, lib, names[|names| - 1], from, to)
  }

  predicate Distinct(names: seq<string>) { forall i, j :: 0 <= i < j < |names| ==> names[i] != names[j] }

  /** Migrating one tape leaves every other as migratable, or not, as it was. */
  lemma OthersMigrateAlike(db: Db, lib: int, name: string, other: string, from: int, to: int)
    requires WellPlaced(db) && name != other && Migrate(db, lib, name, from, to).Ok?
    ensures var r := Migrate(db, lib, name, from, to).value;
            && TapeId(r, lib, other) == TapeId(db, lib, other)
            && (Migrate(r, lib, other, from, to).Ok? <==> Migrate(db, lib, other, from, to).Ok?)
  {
    var r := Migrate(db, lib, name, from, to).value;
    var id := TapeId(db, lib, name).value;
    assert forall j :: IsTape(r.tapes, j, lib, other) <==> IsTape(db.tapes, j, lib, other);
    MigrateMoves(db, lib, name, from, to);
    if TapeId(db, lib, other).Some? {
      assert TapeId(db, lib, other).value != id;
      assert forall k, j :: DriveHolds(r, k, j) <==> DriveHolds(db, k, j);
    }
  }

  /** `w` with the listed tapes of the library on shelf `to`. */
  ghost predicate Shelved(db: Db, lib: int, names: seq<string>, to: int, w: map<int, (int, Place)>) {
    && w.Keys == Where(db).Keys
    && forall id :: id in db.tapes ==>
         w[id] == if db.tapes[id].library == lib && db.tapes[id].name in names then (lib, AtShelf(to))
             else Where(db)[id]
  }

  /**
   * The transaction commits exactly when each listed tape could be migrated on its own at the start,
   * and then every listed tape is on the target shelf and no other tape has moved.
   */
  lemma {:induction false} MigrationCommitsIff(db: Db, lib: int, names: seq<string>, from: int, to: int)
    requires WellPlaced(db) && Distinct(names)
    ensures MigrateAll(db, lib, names, from, to).Ok? <==> forall n :: n in names ==> Migrate(db, lib, n, from, to).Ok?
    ensures MigrateAll(db, lib, names, from, to).Ok? ==>
              var r := MigrateAll(db, lib, names, from, to).value;
              && WellPlaced(r) && SameFrame(r, db) && Shelved(db, lib, names, to, Where(r))
              && forall n :: n !in names ==> TapeId(r, lib, n) == TapeId(db, lib, n)
                                             && (Migrate(r, lib, n, from, to).Ok? <==>
                                                Migrate(db, lib, n, from, to).Ok?)
  {
    hide WellPlaced, Migrate, Where, TapeId, SameFrame, Shelved;
    if names == [] {
      NothingShelved(db, lib, to);
    } else {
      var init, last := names[..|names| - 1], names[|names| - 1];
      assert names == init + [last];
      MigrationCommitsIff(db, lib, init, from, to);
      if MigrateAll(db, lib, init, from, to).Ok? {
        var mid := MigrateAll(db, lib, init, from, to).value;
        if Migrate(mid, lib, last, from, to).Ok? {
          MigrateMoves(mid, lib, last, from, to);
          OneMoreShelved(db, mid, lib, init, last, from, to);
          forall n | n !in names
            ensures var r := Migrate(mid, lib, last, from, to).value;
                    TapeId(r, lib, n) == TapeId(db, lib, n)
                        && (Migrate(r, lib, n, from, to).Ok? <==> Migrate(db, lib, n, from, to).Ok?)
          {
            OthersMigrateAlike(mid, lib, last, n, from, to);
          }
        }
      }
    }
  }

  /** The transaction commits exactly when each listed tape is on shelf `from` and the library has shelf `to`. */
  lemma CommitsWhenAllOnShelfIff(db: Db, lib: int, names: seq<string>, from: int, to: int)
    requires WellPlaced(db) && Distinct(names)
    ensures MigrateAll(db, lib, names, from, to).Ok? <==>
            forall n :: n in names ==> Sits(db, lib, n, AtShelf(from)) && HasShelf(db, lib, to)
  {
    hide WellPlaced, Migrate, Sits;
    MigrationCommitsIff(db, lib, names, from, to);
    forall n | n in names
      ensures Migrate(db, lib, n, from, to).Ok? <==> Sits(db, lib, n, AtShelf(from)) && HasShelf(db, lib, to)
    {
      GrantedIffPermitted(db, OpMigrate(lib, n, from, to));
    }
  }

  lemma NothingShelved(db: Db, lib: int, to: int)
    ensures Shelved(db, lib, [], to, Where(db)) && SameFrame(db, db)
  {
    hide PlaceOf;
  }

  lemma OneMoreShelved(db: Db, mid: Db, lib: int, init: seq<string>, last: string, from: int, to: int)
    requires WellPlaced(db) && SameFrame(mid, db) && Shelved(db, lib, init, to, Where(mid)) && last !in init
    requires Migrate(mid, lib, last, from, to).Ok? && TapeId(mid, lib, last) == TapeId(db, lib, last)
    requires var r := Migrate(mid, lib, last, from, to).value;
             Moved(mid, r, TapeId(mid, lib, last).value, lib, AtShelf(to))
    ensures var r := Migrate(mid, lib, last, from, to).value;
            WellPlaced(r) && SameFrame(r, db) && Shelved(db, lib, init + [last], to, Where(r))
  {
    hide PlaceOf, Where, Migrate, WellPlaced;
    var r := Migrate(mid, lib, last, from, to).value;
    MigratedIsTape(db, mid, lib, last, from, to);
    var id := TapeId(db, lib, last).value;
    OnlyTapeOfItsName(db, lib, last, id);
    WhereKeys(r);
    WhereKeys(db);
  }

  lemma WhereKeys(db: Db)
    ensures Where(db).Keys == db.tapes.Keys
  {
    hide PlaceOf;
  }

  lemma MigratedIsTape(db: Db, mid: Db, lib: int, name: string, from: int, to: int)
    requires Migrate(mid, lib, name, from, to).Ok? && TapeId(mid, lib, name) == TapeId(db, lib, name)
    ensures TapeId(db, lib, name).Some? && IsTape(db.tapes, TapeId(db, lib, name).value, lib, name)
  {
  }

  lemma OnlyTapeOfItsName(db: Db, lib: int, name: string, id: int)
    requires WellPlaced(db) && IsTape(db.tapes, id, lib, name)
    ensures forall j :: j in db.tapes && db.tapes[j].library == lib && db.tapes[j].name == name ==> j == id
  {
  }

  /** One turn of the loop, inside the transaction. */
  method MigrateTape(store: Database, lib: int, name: string, from: int, to: int) returns (r: Reply)
    requires store.Valid()
    modifies store`tapes
    ensures store.Valid() && Performed(old(store.State()), Migrate(old(store.State()), lib, name, from, to),
                                       store.State(), r)
  {
    if from !in store.shelves || store.shelves[from].library != lib || to !in store.shelves
        || store.shelves[to].library != lib {
      return Err(ShelfNotFound);
    }
    var found := store.FindTape(lib, name);
    if found.None? { return Err(TapeNotFound); }
    var id := found.value;
    if store.tapes[id].shelf != Some(from) { return Err(WrongShelf); }
    if store.tapes[id].slot.Some? { return Err(AlreadyInSlot); }
    var inDrive := store.TapeInDriveOf(lib, id);
    if inDrive { return Err(TapeInDrive); }
    store.UpdateShelfAndSlot(id, Some(to), None);
    return Ok(Unit);
  }

  /** `migrate_tapes_between_shelves`; a refused tape drops the transaction. */
  method MigrateTapes(store: Database, lib: int, names: seq<string>, from: int, to: int) returns (r: Reply)
    requires store.Valid()
    modifies store`tapes
    ensures store.Valid()
    ensures r == Err(InvalidBatch) <==> names == [] || from == to || !Distinct(names)
    ensures r != Err(InvalidBatch) ==>
              Performed(old(store.State()), MigrateAll(old(store.State()), lib, names, from, to), store.State(), r)
  {
    hide Migrate;
    if names == [] || from == to { return Err(InvalidBatch); }
    var seen := {};
    for i := 0 to |names|
      invariant seen == (set j | 0 <= j < i :: names[j]) && Distinct(names[..i])
    {
      if names[i] in seen {
        assert !Distinct(names) by {
          var j :| 0 <= j < i && names[j] == names[i];
        }
        return Err(InvalidBatch);
      }
      seen := seen + {names[i]};
    }
    assert names[..|names|] == names;
    ghost var db := store.State();
    var before := store.tapes;
    for i := 0 to |names|
      invariant store.Valid() && MigrateAll(db, lib, names[..i], from, to) == Ok(store.State())
    {
      assert names[..i + 1][..i] == names[..i];
      r := MigrateTape(store, lib, names[i], from, to);
      if r.Err? {
        MigrationErrors(db, lib, names, i + 1, from, to);
        store.tapes := before;
        return;
      }
    }
    return Ok(Unit);
  }

  /** An error of the loop stays the outcome, and is none of the argument errors. */
  lemma {:induction false} MigrationErrors(db: Db, lib: int, names: seq<string>, n: nat, from: int, to: int)
    requires n <= |names| && MigrateAll(db, lib, names[..n], from, to).Err?
    ensures MigrateAll(db, lib, names, from, to) == MigrateAll(db, lib, names[..n], from, to)
    ensures MigrateAll(db, lib, names, from, to).error != InvalidBatch
    decreases |names|
  {
    if n == |names| {
      assert names[..n] == names;
      assert names != [];
      var init := names[..|names| - 1];
      if MigrateAll(db, lib, init, from, to).Err? {
        assert init[..|init|] == init;
        MigrationErrors(db, lib, init, |init|, from, to);
      }
    } else {
      var init := names[..|names| - 1];
      assert init[..n] == names[..n];
      MigrationErrors(db, lib, init, n, from, to);
    }
  }
}
