/**
 * Runs of the catalog in which its own operations, pulls from the kernel, sync-db and imports of
 * image files follow one another in any order.
 */
module CatalogRuns {
  import opened Common
  import opened Elements
  import opened Catalog
  import opened CatalogOps
  import opened Reconcile
  import opened PullPlacement
  import opened CatalogHints
  import opened AutoAlign

  /** `order` is the one the pull's hash map was walked in. */
  datatype Event =
    | Operation(op: Op)
    | PullKernel(lib: int, kernel: Inventory, order: seq<string>)
    | SyncHints(lib: int, kernel: Inventory)
    | ImportsFile(id: int, lib: int, name: string, slot: int)

  ghost function After(db: Db, e: Event): Db {
    match e
    case Operation(op) => Apply(db, op)
    case PullKernel(lib, kernel, order) => if IsOrder(order, kernel) then Pull(db, lib, kernel, order) else db
    case SyncHints(lib, kernel) => Mirrored(db, lib, kernel, kernel.Keys)
    case ImportsFile(id, lib, name, slot) =>
      var r := ImportFile(db, id, lib, name, slot); if r.Ok? then r.value else db
  }

  /** What can be seen beforehand of an event that will leave every tape in one place. */
  ghost predicate Harmless(db: Db, e: Event) {
    match e
    case Operation(op) => Attempt(db, op).Err? || TargetRowExists(db, op)
    case PullKernel(lib, kernel, order) => IsOrder(order, kernel) ==>
        Placeable(db, lib, kernel) && NoneLeftOut(db, lib, kernel)
    case SyncHints(lib, kernel) => HintsAgree(db, lib, kernel)
    case ImportsFile(id, lib, name, slot) => ImportFile(db, id, lib, name, slot).Err? || ImportFits(db, lib, name, slot)
  }

  lemma EventKeepsWellPlacedIff(db: Db, e: Event)
    requires WellPlaced(db)
    ensures WellPlaced(After(db, e)) <==> Harmless(db, e)
  {
    hide WellPlaced, Apply, Attempt, TargetRowExists, Pull, IsOrder, Placeable, NoneLeftOut, Mirrored,
         HintsAgree, ImportFile, ImportFits;
    match e
    case Operation(op) => StepKeepsWellPlacedIff(db, op);
    case PullKernel(lib, kernel, order) => if IsOrder(order, kernel) { PullKeepsWellPlacedIff(db, lib, kernel, order); }
    case SyncHints(lib, kernel) => MirrorKeepsWellPlacedIff(db, lib, kernel);
    case ImportsFile(id, lib, name, slot) =>
      if ImportFile(db, id, lib, name, slot).Ok? { ImportFileKeepsWellPlacedIff(db, id, lib, name, slot); }
  }

  ghost function AfterAll(db: Db, es: seq<Event>): Db {
    if es == [] then db else After(AfterAll(db, es[..|es| - 1]), es[|es| - 1])
  }

  ghost predicate AllHarmless(db: Db, es: seq<Event>) {
    es == [] || (AllHarmless(db, es[..|es| - 1]) && Harmless(AfterAll(db, es[..|es| - 1]), es[|es| - 1]))
  }

  /** Over every run of harmless events, pulls included, each tape stays in exactly one place. */
  lemma {:induction false} EventsKeepWellPlaced(db: Db, es: seq<Event>)
    requires WellPlaced(db) && AllHarmless(db, es)
    ensures WellPlaced(AfterAll(db, es))
  {
    hide WellPlaced, Harmless, After;
    if es != [] {
      EventsKeepWellPlaced(db, es[..|es| - 1]);
      EventKeepsWellPlacedIff(AfterAll(db, es[..|es| - 1]), es[|es| - 1]);
    }
  }

  /** The first event that is not harmless is the one that breaks the catalog. */
  lemma FirstHarmBreaks(db: Db, es: seq<Event>, e: Event)
    requires WellPlaced(db) && AllHarmless(db, es) && !Harmless(AfterAll(db, es), e)
    ensures !WellPlaced(AfterAll(db, es + [e]))
  {
    hide WellPlaced, Harmless, After;
    EventsKeepWellPlaced(db, es);
    EventKeepsWellPlacedIff(AfterAll(db, es), e);
    assert (es + [e])[..|es|] == es;
  }

  /** After such a run unloading goes to the first empty data slot, never to a recorded one. */
  lemma UnloadAfterEvents(db: Db, es: seq<Event>, lib: int, drive: int)
    requires WellPlaced(db) && AllHarmless(db, es) && Unload(AfterAll(db, es), lib, drive).Ok?
    ensures var now := AfterAll(db, es);
            IsFirstEmpty(now, lib, false, UnloadTarget(now, lib, DriveTape(now, (lib, drive)).value).value)
  {
    EventsKeepWellPlaced(db, es);
    UnloadTargetIsEmpty(AfterAll(db, es), lib, drive);
  }

  /**
   * A run that loses a tape: it is in drive 0, for the kernel too; sync-db records the drive's address
   * as its slot, and unloading then clears the drive and fills no slot.
   */
  lemma LosingRunExample()
    ensures var kernel := map["T" := FromElement(DRIVE_BASE).value];
            var r := AfterAll(OneLoaded(), [SyncHints(1, kernel), Operation(OpUnload(1, 0))]);
            && WellPlaced(OneLoaded())
            && 7 in r.tapes && r.tapes[7].shelf == None && forall k :: !SlotHolds(r, k, 7) && !DriveHolds(r, k, 7)
  {
    hide WellPlaced, Unload, Mirrored;
    var kernel := map["T" := DataSlot(DRIVE_BASE)];
    var es := [SyncHints(1, kernel), Operation(OpUnload(1, 0))];
    OneLoadedIsWellPlaced();
    SyncThenUnloadLoses(OneLoaded(), 1, kernel, 0, 7);
    assert es[..1][..0] == [] && es[..1] == [SyncHints(1, kernel)];
    assert AfterAll(OneLoaded(), es[..1]) == Mirrored(OneLoaded(), 1, kernel, kernel.Keys);
  }
}
