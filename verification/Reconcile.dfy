/**
 * Kernel and catalog reconciliation: the catalog read as an inventory, its differences from the
 * kernel's, and the rewrite of the catalog to the kernel's inventory.
 */
module Reconcile {
  import opened Common
  import opened Elements
  import opened Catalog

  type Inventory = map<string, MediumLocation>

  // ---------------------------------------------------------------- the catalog as an inventory

  /** The row of a location exists and is of its kind. */
  predicate RowExists(db: Db, lib: int, loc: MediumLocation) {
    match loc
    case DataSlot(s) => (lib, s) in db.slots && !db.slots[(lib, s)].importExport
    case MailSlot(m) => (lib, m) in db.slots && db.slots[(lib, m)].importExport
    case Drive(d) => (lib, d) in db.drives
  }

  function Occupant(db: Db, lib: int, loc: MediumLocation): Option<int> {
    if !RowExists(db, lib, loc) then None
    else match loc
      case DataSlot(s) => db.slots[(lib, s)].tape
      case MailSlot(m) => db.slots[(lib, m)].tape
      case Drive(d) => db.drives[(lib, d)]
  }

  predicate HoldsName(db: Db, lib: int, loc: MediumLocation, name: string) {
    var id := Occupant(db, lib, loc);
    id.Some? && id.value in db.tapes && db.tapes[id.value].name == name
  }

  ghost predicate IsInventory(db: Db, lib: int, m: Inventory) {
    && (forall loc, name :: HoldsName(db, lib, loc, name) ==> name in m && m[name] == loc)
    && (forall name :: name in m ==> HoldsName(db, lib, m[name], name))
  }

  ghost predicate Ambiguous(db: Db, lib: int) {
    exists name, l1, l2 :: l1 != l2 && HoldsName(db, lib, l1, name) && HoldsName(db, lib, l2, name)
  }

  // ---------------------------------------------------------------- differences

  function Get(m: Inventory, name: string): Option<MediumLocation> { if name in m then Some(m[name]) else None }

  datatype DriftItem = DriftItem(tape: string, db: Option<MediumLocation>, kernel: Option<MediumLocation>)

  predicate IsDrift(db: Inventory, kernel: Inventory, d: DriftItem) {
    d.db == Get(db, d.tape) && d.kernel == Get(kernel, d.tape) && d.db != d.kernel
  }

  /** `drifts_safe_for_pull` */
  predicate SafeForPull(drifts: seq<DriftItem>) {
    forall d :: d in drifts ==> d.db.Some? && d.kernel.Some? && d.db != d.kernel
  }

  // ---------------------------------------------------------------- the rewrite, update by update

  function ClearLibrary(db: Db, lib: int): Db {
    db.(slots := map k | k in db.slots :: if k.0 == lib then db.slots[k].(tape := None) else db.slots[k],
        drives := map k | k in db.drives :: if k.0 == lib then None else db.drives[k])
  }

  /** One turn of the loop of `apply_kernel_to_db`; a tape the catalog does not know is skipped. */
  ghost function PullOne(db: Db, lib: int, name: string, loc: MediumLocation): Db {
    var found := TapeId(db, lib, name);
    if found.None? then db
    else
      var id := found.value;
      match loc
      case DataSlot(s) =>
        db.(slots := SetSlot(db.slots, (lib, s), Some(id)), tapes := SetPlace(db.tapes, id, lib, None, Some(s)))
      case MailSlot(s) =>
        db.(slots := SetSlot(db.slots, (lib, s), Some(id)), tapes := SetPlace(db.tapes, id, lib, None, Some(s)))
      case Drive(d) =>
        db.(drives := SetDrive(db.drives, (lib, d), Some(id)), tapes := SetPlace(db.tapes, id, lib, None, None))
  }

  /** The loop, taking the names in the order the hash map yields them. */
  ghost function PullAll(db: Db, lib: int, kernel: Inventory, order: seq<string>): Db
    requires forall n :: n in order ==> n in kernel
  {
    if order == [] then db
    else
      var name := order[|order| - 1];
      PullOne(PullAll(db, lib, kernel, order[..|order| - 1]), lib, name, kernel[name])
  }

  ghost predicate InSlotOf(db: Db, lib: int, id: int) { exists k: Key :: SlotHolds(db, k, id) && k.0 == lib }

  ghost predicate HeldIn(db: Db, lib: int, id: int) { InSlotOf(db, lib, id) || InDriveOf(db, lib, id) }

  /** The closing UPDATE: an unshelved tape in no slot or drive row loses its slot hint. */
  ghost function DropHints(db: Db, lib: int): Db {
    db.(tapes := map id | id in db.tapes ::
          if db.tapes[id].library == lib && db.tapes[id].shelf == None && !HeldIn(db, lib, id)
          then db.tapes[id].(slot := None) else db.tapes[id])
  }

  ghost function Pull(db: Db, lib: int, kernel: Inventory, order: seq<string>): Db
    requires forall n :: n in order ==> n in kernel
  {
    DropHints(PullAll(ClearLibrary(db, lib), lib, kernel, order), lib)
  }

  /** `order` lists each name of the kernel's map once. */
  ghost predicate IsOrder(order: seq<string>, kernel: Inventory) {
    && (forall n :: n in order <==> n in kernel)
    && (forall i, j :: 0 <= i < j < |order| ==> order[i] != order[j])
  }

  // ---------------------------------------------------------------- what any pull keeps

  /**
   * `d` may arise from `db` during a pull: rows and identities as before, and in `lib` only kernel
   * tapes in elements.
   */
  ghost predicate Arises(db: Db, lib: int, kernel: Inventory, d: Db) {
    && SameFrame(d, db)
    && (forall id :: id in db.tapes ==> d.tapes[id].library == db.tapes[id].library)
    && (forall k: Key, id :: k.0 == lib && (SlotHolds(d, k, id) || DriveHolds(d, k, id)) ==>
          id in db.tapes && db.tapes[id].library == lib && db.tapes[id].name in kernel)
  }

  lemma SameIds(db: Db, d: Db, lib: int, name: string)
    requires UniqueNames(db.tapes) && d.tapes.Keys == db.tapes.Keys
    requires forall id :: id in db.tapes ==>
             d.tapes[id].library == db.tapes[id].library && d.tapes[id].name == db.tapes[id].name
    ensures UniqueNames(d.tapes) && TapeId(d, lib, name) == TapeId(db, lib, name)
  {
    assert forall id :: IsTape(d.tapes, id, lib, name) <==> IsTape(db.tapes, id, lib, name);
  }

  lemma ClearArises(db: Db, lib: int, kernel: Inventory)
    ensures Arises(db, lib, kernel, ClearLibrary(db, lib))
  {
  }

  /** One turn keeps the frame and the libraries, and an element holds what it held or the turn's tape. */
  lemma PullOneKeeps(d: Db, lib: int, name: string, loc: MediumLocation)
    ensures var r := PullOne(d, lib, name, loc);
            && SameFrame(r, d)
            && (forall id :: id in d.tapes ==>
                  r.tapes[id].library == if TapeId(d, lib, name) == Some(id) then lib else d.tapes[id].library)
            && (forall k, id :: SlotHolds(r, k, id) ==> SlotHolds(d, k, id) || TapeId(d, lib, name) == Some(id))
            && (forall k, id :: DriveHolds(r, k, id) ==> DriveHolds(d, k, id) || TapeId(d, lib, name) == Some(id))
  {
  }

  lemma PullOneArises(db: Db, lib: int, kernel: Inventory, d: Db, name: string)
    requires UniqueNames(db.tapes) && Arises(db, lib, kernel, d) && name in kernel
    ensures Arises(db, lib, kernel, PullOne(d, lib, name, kernel[name]))
  {
    hide PullOne, SlotHolds, DriveHolds, UniqueNames;
    SameIds(db, d, lib, name);
    PullOneKeeps(d, lib, name, kernel[name]);
  }

  lemma {:induction false} PullArises(db: Db, lib: int, kernel: Inventory, order: seq<string>)
    requires UniqueNames(db.tapes) && forall n :: n in order ==> n in kernel
    ensures Arises(db, lib, kernel, PullAll(ClearLibrary(db, lib), lib, kernel, order))
  {
    hide Arises, ClearLibrary, PullOne, UniqueNames;
    if order == [] {
      ClearArises(db, lib, kernel);
    } else {
      var init := order[..|order| - 1];
      PullArises(db, lib, kernel, init);
      PullOneArises(db, lib, kernel, PullAll(ClearLibrary(db, lib), lib, kernel, init), order[|order| - 1]);
    }
  }

  lemma DropHintsArises(db: Db, lib: int, kernel: Inventory, d: Db)
    requires Arises(db, lib, kernel, d)
    ensures Arises(db, lib, kernel, DropHints(d, lib))
  {
    var r := DropHints(d, lib);
    assert forall k, id :: SlotHolds(r, k, id) <==> SlotHolds(d, k, id);
    assert forall k, id :: DriveHolds(r, k, id) <==> DriveHolds(d, k, id);
  }

  // ---------------------------------------------------------------- when the rewrite is exact

  ghost predicate Injective(m: Inventory) {
    forall a, b :: a in m && b in m && m[a] == m[b] ==> a == b
  }

  /** What the caller can check beforehand: known tapes, existing rows of the right kind, one tape per element. */
  ghost predicate Pullable(db: Db, lib: int, m: Inventory) {
    && (forall n :: n in m ==> TapeId(db, lib, n).Some? && RowExists(db, lib, m[n]))
    && Injective(m)
  }

  lemma ExactOnlyIfPullable(db: Db, lib: int, kernel: Inventory, d: Db)
    requires UniqueNames(db.tapes) && Arises(db, lib, kernel, d) && IsInventory(d, lib, kernel)
    ensures Pullable(db, lib, kernel)
  {
    forall n | n in kernel ensures TapeId(db, lib, n).Some? && RowExists(db, lib, kernel[n]) {
      HeldIsKnown(db, lib, kernel, d, kernel[n], n);
    }
    forall a, b | a in kernel && b in kernel && kernel[a] == kernel[b] ensures a == b {
      assert HoldsName(d, lib, kernel[a], a) && HoldsName(d, lib, kernel[b], b);
    }
  }

  lemma HeldIsKnown(db: Db, lib: int, kernel: Inventory, d: Db, loc: MediumLocation, name: string)
    requires UniqueNames(db.tapes) && Arises(db, lib, kernel, d) && HoldsName(d, lib, loc, name)
    ensures TapeId(db, lib, name).Some? && RowExists(db, lib, loc) && name in kernel
  {
    var id := Occupant(d, lib, loc).value;
    match loc {
      case DataSlot(s) => assert SlotHolds(d, (lib, s), id);
      case MailSlot(s) => assert SlotHolds(d, (lib, s), id);
      case Drive(dr) => assert DriveHolds(d, (lib, dr), id);
    }
    assert IsTape(db.tapes, id, lib, name);
  }

  function SlotColumn(loc: MediumLocation): Option<int> {
    match loc
    case DataSlot(s) => Some(s)
    case MailSlot(s) => Some(s)
    case Drive(_) => None
  }

  function SlotLocation(row: SlotRow, s: int): MediumLocation { if row.importExport then MailSlot(s) else DataSlot(s) }

  /** The tape `m` puts at `loc`. */
  ghost function Holder(db: Db, lib: int, m: Inventory, loc: MediumLocation): Option<int> {
    if exists n :: n in m && m[n] == loc then var n :| n in m && m[n] == loc; TapeId(db, lib, n) else None
  }

  ghost predicate ListedIn(db: Db, lib: int, m: Inventory, id: int)
    requires id in db.tapes
  {
    db.tapes[id].library == lib && db.tapes[id].name in m
  }

  /** The catalog rewritten to `m`, in one stroke and in no order. */
  ghost function Rewritten(db: Db, lib: int, m: Inventory): Db {
    db.(tapes := map id | id in db.tapes ::
          if ListedIn(db, lib, m, id) then TapeRow(lib, db.tapes[id].name, None, SlotColumn(m[db.tapes[id].name]))
          else db.tapes[id],
        slots := map k | k in db.slots ::
          if k.0 == lib then db.slots[k].(tape := Holder(db, lib, m, SlotLocation(db.slots[k], k.1))) else db.slots[k],
        drives := map k | k in db.drives :: if k.0 == lib then Holder(db, lib, m, Drive(k.1)) else db.drives[k])
  }

  lemma RewrittenToNothing(db: Db, lib: int)
    ensures Rewritten(db, lib, map[]) == ClearLibrary(db, lib)
  {
  }

  lemma HolderStep(db: Db, lib: int, m: Inventory, name: string, loc: MediumLocation, at: MediumLocation)
    requires name !in m && Injective(m[name := loc])
    ensures Holder(db, lib, m[name := loc], at) == if at == loc then TapeId(db, lib, name) else Holder(db, lib, m, at)
  {
    var m' := m[name := loc];
    assert m'[name] == loc;
    if at == loc {
      var n :| n in m' && m'[n] == at;
      assert n == name;
    } else if exists n :: n in m && m[n] == at {
      var n :| n in m && m[n] == at;
      assert m'[n] == at;
      assert forall o :: o in m' && m'[o] == at ==> o == n;
      assert forall o :: o in m && m[o] == at ==> m'[o] == at;
    }
  }

  lemma RewriteStepSlots(db: Db, lib: int, m: Inventory, name: string, loc: MediumLocation, slots: map<Key, SlotRow>)
    requires name !in m && Pullable(db, lib, m[name := loc])
    requires slots == if loc.Drive? then Rewritten(db, lib, m).slots
                      else SetSlot(Rewritten(db, lib, m).slots, (lib, SlotColumn(loc).value), TapeId(db, lib, name))
    ensures slots == Rewritten(db, lib, m[name := loc]).slots
  {
    hide Holder;
    var m' := m[name := loc];
    assert m'[name] == loc;
    forall k | k in db.slots ensures slots[k] == Rewritten(db, lib, m').slots[k] {
      HolderStep(db, lib, m, name, loc, SlotLocation(db.slots[k], k.1));
    }
  }

  lemma RewriteStepDrives(db: Db, lib: int, m: Inventory, name: string, loc: MediumLocation,
                          drives: map<Key, Option<int>>)
    requires name !in m && Pullable(db, lib, m[name := loc])
    requires drives == if loc.Drive? then SetDrive(Rewritten(db, lib, m).drives, (lib, loc.drive),
                                                   TapeId(db, lib, name))
                       else Rewritten(db, lib, m).drives
    ensures drives == Rewritten(db, lib, m[name := loc]).drives
  {
    hide Holder;
    forall k | k in db.drives ensures drives[k] == Rewritten(db, lib, m[name := loc]).drives[k] {
      HolderStep(db, lib, m, name, loc, Drive(k.1));
    }
  }

  lemma RewriteStepTapes(db: Db, lib: int, m: Inventory, name: string, loc: MediumLocation, id: int)
    requires UniqueNames(db.tapes) && IsTape(db.tapes, id, lib, name)
    ensures SetPlace(Rewritten(db, lib, m).tapes, id, lib, None, SlotColumn(loc))
            == Rewritten(db, lib, m[name := loc]).tapes
  {
    hide Holder;
    var tapes, tapes' := Rewritten(db, lib, m).tapes, Rewritten(db, lib, m[name := loc]).tapes;
    forall j | j in db.tapes ensures SetPlace(tapes, id, lib, None, SlotColumn(loc))[j] == tapes'[j] {
      assert j != id && db.tapes[j].library == lib ==> db.tapes[j].name != name;
    }
  }

  lemma RewriteStep(db: Db, lib: int, m: Inventory, name: string, loc: MediumLocation)
    requires UniqueNames(db.tapes) && name !in m && Pullable(db, lib, m[name := loc])
    ensures PullOne(Rewritten(db, lib, m), lib, name, loc) == Rewritten(db, lib, m[name := loc])
  {
    var d := Rewritten(db, lib, m);
    RewrittenKeepsIds(db, lib, m, name);
    assert name in m[name := loc];
    var r := PullOne(d, lib, name, loc);
    RewriteStepFinish(db, lib, m, name, loc, r);
  }

  lemma RewrittenKeepsIds(db: Db, lib: int, m: Inventory, name: string)
    requires UniqueNames(db.tapes)
    ensures TapeId(Rewritten(db, lib, m), lib, name) == TapeId(db, lib, name)
  {
    hide Holder;
    SameIds(db, Rewritten(db, lib, m), lib, name);
  }

  lemma RewriteStepFinish(db: Db, lib: int, m: Inventory, name: string, loc: MediumLocation, r: Db)
    requires UniqueNames(db.tapes) && name !in m && Pullable(db, lib, m[name := loc]) && TapeId(db, lib, name).Some?
    requires TapeId(Rewritten(db, lib, m), lib, name) == TapeId(db, lib, name)
    requires r == PullOne(Rewritten(db, lib, m), lib, name, loc)
    ensures r == Rewritten(db, lib, m[name := loc])
  {
    hide Rewritten, SetSlot, SetDrive, SetPlace, UniqueNames, Pullable;
    RewriteStepSlots(db, lib, m, name, loc, r.slots);
    RewriteStepDrives(db, lib, m, name, loc, r.drives);
    RewriteStepTapes(db, lib, m, name, loc, TapeId(db, lib, name).value);
    assert r.shelves == Rewritten(db, lib, m[name := loc]).shelves by {
      RewrittenKeepsShelves(db, lib, m);
      RewrittenKeepsShelves(db, lib, m[name := loc]);
    }
  }

  lemma RewrittenKeepsShelves(db: Db, lib: int, m: Inventory)
    ensures Rewritten(db, lib, m).shelves == db.shelves
  {
  }

  function Restrict(kernel: Inventory, order: seq<string>): Inventory
    requires forall n :: n in order ==> n in kernel
  {
    map n | n in order :: kernel[n]
  }

  lemma {:induction false} PullAllRewrites(db: Db, lib: int, kernel: Inventory, order: seq<string>)
    requires UniqueNames(db.tapes) && Pullable(db, lib, kernel) && forall n :: n in order ==> n in kernel
    requires forall i, j :: 0 <= i < j < |order| ==> order[i] != order[j]
    ensures PullAll(ClearLibrary(db, lib), lib, kernel, order) == Rewritten(db, lib, Restrict(kernel, order))
  {
    hide Rewritten, ClearLibrary, PullOne, UniqueNames, Pullable, Restrict;
    if order == [] {
      RewrittenToNothing(db, lib);
      RestrictNothing(kernel);
    } else {
      var init, name := order[..|order| - 1], order[|order| - 1];
      PullAllRewrites(db, lib, kernel, init);
      var m := Restrict(kernel, init);
      RestrictSnoc(kernel, init, name);
      assert init + [name] == order;
      RestrictPullable(db, lib, kernel, order);
      RewriteStep(db, lib, m, name, kernel[name]);
    }
  }

  lemma RestrictNothing(kernel: Inventory)
    ensures Restrict(kernel, []) == map[]
  {
  }

  lemma RestrictSnoc(kernel: Inventory, order: seq<string>, name: string)
    requires name in kernel && name !in order && forall n :: n in order ==> n in kernel
    ensures Restrict(kernel, order + [name]) == Restrict(kernel, order)[name := kernel[name]]
    ensures name !in Restrict(kernel, order)
  {
  }

  lemma RestrictPullable(db: Db, lib: int, kernel: Inventory, order: seq<string>)
    requires Pullable(db, lib, kernel) && forall n :: n in order ==> n in kernel
    ensures Pullable(db, lib, Restrict(kernel, order))
  {
  }

  lemma PullRewrites(db: Db, lib: int, kernel: Inventory, order: seq<string>)
    requires UniqueNames(db.tapes) && Pullable(db, lib, kernel) && IsOrder(order, kernel)
    ensures Pull(db, lib, kernel, order) == DropHints(Rewritten(db, lib, kernel), lib)
  {
    hide Rewritten, ClearLibrary, PullAll, DropHints, UniqueNames, Pullable;
    PullAllRewrites(db, lib, kernel, order);
    assert Restrict(kernel, order) == kernel;
  }

  lemma RewrittenIsInventory(db: Db, lib: int, kernel: Inventory)
    requires UniqueNames(db.tapes) && Pullable(db, lib, kernel)
    ensures IsInventory(DropHints(Rewritten(db, lib, kernel), lib), lib, kernel)
  {
    var r := DropHints(Rewritten(db, lib, kernel), lib);
    forall loc, name ensures HoldsName(r, lib, loc, name) <==> name in kernel && kernel[name] == loc {
      RewrittenHolds(db, lib, kernel, loc, name);
    }
  }

  lemma RewrittenOccupant(db: Db, lib: int, kernel: Inventory, loc: MediumLocation)
    ensures var r := DropHints(Rewritten(db, lib, kernel), lib);
            && Occupant(r, lib, loc) == (if RowExists(db, lib, loc) then Holder(db, lib, kernel, loc) else None)
            && forall id :: id in db.tapes ==> id in r.tapes && r.tapes[id].name == db.tapes[id].name
  {
    hide Holder;
  }

  lemma RewrittenHolds(db: Db, lib: int, kernel: Inventory, loc: MediumLocation, name: string)
    requires UniqueNames(db.tapes) && Pullable(db, lib, kernel)
    ensures HoldsName(DropHints(Rewritten(db, lib, kernel), lib), lib, loc, name) <==>
            name in kernel && kernel[name] == loc
  {
    hide Rewritten, DropHints, Occupant;
    RewrittenOccupant(db, lib, kernel, loc);
    if exists n :: n in kernel && kernel[n] == loc {
      var n :| n in kernel && kernel[n] == loc;
      assert forall o :: o in kernel && kernel[o] == loc ==> o == n;
      assert IsTape(db.tapes, TapeId(db, lib, n).value, lib, n);
    }
  }

  /**
   * In whatever order the hash map is walked, the pulled catalog's inventory is the kernel's map
   * exactly when the map names known tapes, existing rows of the right kind, and no element twice.
   */
  lemma PullIsExactIff(db: Db, lib: int, kernel: Inventory, order: seq<string>)
    requires UniqueNames(db.tapes) && IsOrder(order, kernel)
    ensures IsInventory(Pull(db, lib, kernel, order), lib, kernel) <==> Pullable(db, lib, kernel)
  {
    if Pullable(db, lib, kernel) {
      PullRewrites(db, lib, kernel, order);
      RewrittenIsInventory(db, lib, kernel);
    }
    if IsInventory(Pull(db, lib, kernel, order), lib, kernel) {
      PullArises(db, lib, kernel, order);
      DropHintsArises(db, lib, kernel, PullAll(ClearLibrary(db, lib), lib, kernel, order));
      ExactOnlyIfPullable(db, lib, kernel, Pull(db, lib, kernel, order));
    }
  }
}
