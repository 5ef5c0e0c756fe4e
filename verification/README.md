# vtladm in Dafny

A verification model of vtladm, a virtual tape library: a kernel module that emulates medium changers
and tape drives, and a management program that keeps a SQLite catalog of tapes, slots, drives and shelves.

The catalog and the kernel each hold their own picture of where every tape is. The model states both
pictures as simple maps (`Media.State` from element address to medium, `Catalog.Where` from tape to
place), gives the code's own arrays, tables and byte buffers as classes and arrays, ties every operation
on those to a function on the simple picture, and proves what the whole system promises about it.

| files | what they model |
|---|---|
| `Elements`, `Changer`, `Inventory` | element addresses; the changer's arrays, MOVE with rollback, place, remove, load, unload; the inventory ioctl and its decoding |
| `ElementStatus`, `ElementStatusBuffer`, `ElementReport`, `ModeSense` | READ ELEMENT STATUS as a wire format with an independent parser, and as in-place encoder and walker; the command byte by byte and what it may expect; its length rules; MODE SENSE pages |
| `Catalog`, `CatalogOps`, `CatalogGrants`, `CatalogStore`, `Batch`, `Migration`, `OfflineMove`, `LibraryRows` | the tables, one place per tape, the operations update by update, what each means and when it is granted, batches, migrations, offline moves, and the rows a library is given and loses |
| `Reconcile`, `PullPlacement`, `AutoAlign`, `CatalogHints` | inventories, drifts, the kernel-to-catalog rewrite in arbitrary map order, evacuation, auto-align and reconcile, sync-db, import of image files |
| `CatalogRuns`, `InStep` | runs of all of these on the catalog; catalog and changer side by side, each command with the ioctl it sends |
| `Decimal`, `InstanceSpec`, `Geometry`, `GeometryDriver`, `HostOrder` | the `vtl_instances` text, its two parsers and its printer; resize with undo, rebuild with rollback; which host serves which library |
| `AutoNames`, `LogRotation`, `TapeIo` | automatic tape names, log retention, tape reading, writing and spacing |

`dafny verify dfyconfig.toml` checks the whole project.

## What the code does not keep

Several promises fail in the code as it stands. The model follows the code; each failure is stated with
the exact condition under which the promise holds.

- `MediumLocation::from_element` documents drive addresses as 1000 and up but tests `< 2000` first, so a
  drive decodes as a data slot. A pull with a loaded drive therefore never matches the catalog and, from a
  well-placed catalog, leaves the loaded tape nowhere (`Elements.DecodeInvertsEncodeIff`,
  `AutoAlign.LoadedDriveDefeatsPull`, `AutoAlign.LoadedTapeIsLostExample`).
- After a pull auto-align reports no remaining drift without looking; that is true exactly when the map
  names known tapes, every decoded location has a row of its kind and none is shared
  (`AutoAlign.AutoAlignLibrary`).
- A pull places the library's tapes exactly when those it lists have element rows to themselves and the
  others only stand on shelves (`PullPlacement.PullPlacesLibraryIff`).
- Sync-db writes `tapes.slot` alone: from a well-placed catalog it does no harm exactly when it changes
  nothing, and a known tape in a drive, or in a mailslot the catalog has it in, is always harmed. Unloading
  then follows the recorded slot to a row that does not exist (`CatalogHints.MirrorKeepsWellPlacedIff`, `CatalogHints.MirrorBreaksMailAndDrives`,
  `CatalogRuns.LosingRunExample`).
- Importing an image file checks neither its slot nor where the tape is
  (`CatalogHints.ImportFileKeepsWellPlacedIff`).
- Load and eject send a mailslot's id to the kernel as a data slot's number, so from a mailslot they never
  stay in step with the changer (`InStep.LoadStaysInStepIff`, `InStep.EjectStaysInStepIff`,
  `InStep.LoadFromMailExample`).
- Evacuation takes one inventory of at most 128 media and does not ask whether that was all. A tape behind
  them that is placed on a shelf stays in the changer, and nothing repairs it
  (`InStep.ShelfPlaceStaysInStepIff`, `InStep.UnseenIsNotRepaired`, `InStep.ShelveUnseenExample`).
- Assign commits before it opens the image: one that does not open, or a name too long for the ioctl, leaves
  the tape in the catalog's slot alone (`InStep.AssignStaysInStepIff`, `InStep.LongNameFallsOut`).
- A refused MOVE sets the `loaded` flag by the kind of its source, which is not always what it was
  (`Media.RefusedMoveRestoresIff`, `Media.RefusedMoveChangesFlagExample`).
- Assign, import and load update a missing row without noticing; they keep the tape placed exactly when
  the row exists (`CatalogOps.StepKeepsWellPlacedIff`, `CatalogOps.MissingRowExample`).
- Mailslot rows share their keys with data slots 100 to 103. A library created with 104 data slots or more
  has no mailslot row, and until one is inserted every eject of it is refused, after any run; with fewer
  an eject can succeed. A library grown past 100 is up to four data slots short (`LibraryRows.NeverEjects`,
  `LibraryRows.EjectSucceedsIff`, `LibraryRows.GrowthReachesIff`).
- The element status buffer holds 255 elements with barcodes; a query for everything never reports a larger
  library in one reply, and the kinds behind the cut are not in it at all
  (`ModeSense.LargeLibraryIsCutShortIff`, `ModeSense.CutShortExample`).
- The command raises short allocation lengths and then fails when the reply does not fit what the initiator
  asked for (`ModeSense.HandleReadElementStatus`, `ModeSense.ReplyAgainstAllocation`,
  `ModeSense.ReplyExceedsAllocationExample`).
- Page 0x00 of MODE SENSE lists page 0x01, which has no answer (`ModeSense.ListedIsAnsweredIff`).
- A descriptor's tag is written 12 bytes past it. The reply stays within its buffer unless its last
  descriptor is full, labelled and ends less than 12 bytes before the buffer does
  (`ElementStatusBuffer.StaysWithinIff`, `ModeSense.TagPastBufferExample`).
- SET_INSTANCES compares with the arrays alone, so after a failed rollback it can succeed with no host
  registered (`Geometry.SetInstancesOutcomes`, `Geometry.SuccessWithoutHostsExample`).
- The text published at load does not parse to the live geometry when the default sizes are used and exceed
  the caps (`Geometry.LoadIsHonestIff`, `Geometry.UnclampedDefaultExample`).
- The index of a library beyond the first eight online ones names another host's segment or none
  (`HostOrder.IndexNamesOwnSegmentIff`, `HostOrder.NinthLibraryExample`); the export index counts empty
  shells and is the kernel's only without one in front (`HostOrder.ExportIndexIsKernelIndexIff`).
- Spacing by a negative count runs forward, and reading past the data written delivers what the image held
  before (`TapeIo.NegativeCountRunsForward`, `TapeIo.WriteRewindRead`, `TapeIo.StaleByteExample`).

## Model

| member | source | states |
|---|---|---|
| Reconcile.PullIsExactIff | vtladm-rc/userspace/src/reconcile.rs:74-145 | in whatever order the hash map is walked, the catalog after the rewrite reads back as exactly the kernel's map if and only if every named tape is known, every location has a row of its kind, and no element is named twice |
| Reconcile.PullAllRewrites | vtladm-rc/userspace/src/reconcile.rs:74-134 | the loop, in any order, equals one order-free rewrite of all slot, drive and tape rows |
| PullPlacement.PullPlacesLibraryIff | vtladm-rc/userspace/src/reconcile.rs:74-145 | from any catalog with unique names and whatever the map and the order it is walked in: after the pull every tape of the library is in exactly one place, columns and rows agreeing, if and only if each of its tapes in the map has an element row to itself and each of the others only stands on a shelf of the library |
| PullPlacement.PullPlacesIff | vtladm-rc/userspace/src/reconcile.rs:74-145 | the same for the whole catalog: the pull leaves every other library as well placed, or not, as it was |
| PullPlacement.WellPlacedByLibrary | vtladm-rc/userspace/src/main.rs:1420-1446 | a catalog with unique names is well placed if and only if each library is |
| PullPlacement.PullKeepsWellPlacedIff | vtladm-rc/userspace/src/reconcile.rs:74-145 | from a well-placed catalog a pull of any map keeps every tape in exactly one place if and only if its tapes have element rows to themselves and it leaves out no unshelved tape of the library |
| PullPlacement.PullMoves | vtladm-rc/userspace/src/reconcile.rs:74-145 | from a well-placed catalog such a pull puts each listed tape where the kernel has it and leaves every other where it was |
| PullPlacement.PulledColumnsAgreeIff | vtladm-rc/userspace/src/reconcile.rs:135-145 | from any catalog with unique names, after a pull of any map, the `slot` and `shelf_id` columns of a tape of the library agree with the slot and drive rows if and only if the map lists it or it was not on a shelf and in a slot at once; lost tapes included |
| PullPlacement.PullIsIdempotent | vtladm-rc/userspace/src/reconcile.rs:74-145 | a second pull of a map whose tapes have rows to themselves, walked in any other order, changes nothing |
| PullPlacement.UnplaceableIsLost | vtladm-rc/userspace/src/reconcile.rs:89-134 | from a well-placed catalog, a known tape whose location has no row ends on no shelf, in no slot and in no drive |
| PullPlacement.SafePullIff | vtladm-rc/userspace/src/reconcile.rs:400-455 | from a well-placed catalog, a pull taken because all drifts are safe makes the catalog equal the kernel if and only if every decoded location has its row and none is shared, and keeps every tape placed if and only if the tapes have element rows to themselves |
| AutoAlign.DbInventory | vtladm-rc/userspace/src/robot_sync.rs:431-490 | the inventory lists every named occupant of the data slots, drives and mailslots at its location; it is refused exactly when a name occurs twice |
| AutoAlign.FindDrifts | vtladm-rc/userspace/src/reconcile.rs:28-49 | the drift list is exactly the names whose two locations differ, in ascending order whatever order the name set is walked in, and empty if and only if the inventories are equal |
| AutoAlign.DriftsAreDifferences | vtladm-rc/userspace/src/reconcile.rs:28-49 | the list made from the two inventories has one item for each name that the catalog rows and the kernel's map do not have at the same location, with these two locations |
| AutoAlign.CountOfDifferences | vtladm-rc/userspace/src/reconcile.rs:28-49 | its length is the number of names whose locations differ |
| AutoAlign.ApplyKernelToDb | vtladm-rc/userspace/src/reconcile.rs:74-145 | the tables after the transaction are those of the update-by-update rewrite in the order the map was walked, and the count is that of the names the catalog knows |
| AutoAlign.PullTape | vtladm-rc/userspace/src/reconcile.rs:89-134 | one turn of the loop: the element row, then the tape row; an unknown tape changes nothing |
| AutoAlign.DropStaleHints | vtladm-rc/userspace/src/reconcile.rs:135-142 | the closing UPDATE clears the slot column of exactly the unshelved tapes of the library that no slot or drive row holds |
| AutoAlign.EvacuateTape | vtladm-rc/userspace/src/robot_sync.rs:564-574 | for every changer: the call fails, touching nothing, exactly when a name occurs twice among the first 128 media; otherwise it removes the tape exactly when it is among them, and succeeds either way |
| AutoAlign.EvacuateShelved | vtladm-rc/userspace/src/robot_sync.rs:577-598 | only media named like shelved tapes of the library leave; from a changer with distinct names exactly those among the first 128 media, and the answer is their number; it is refused exactly when a name occurs twice among these 128 |
| AutoAlign.ShelvedStand | vtladm-rc/userspace/src/robot_sync.rs:577-598 | the names it goes by are those of exactly the tapes of the library whose place is a shelf |
| AutoAlign.EvacuateStrangers | vtladm-rc/userspace/src/reconcile.rs:428-434 | only media leave that the drift list gives as unknown to the catalog, and with distinct names the answer is how many left; from a listable changer exactly these leave |
| AutoAlign.Survey | vtladm-rc/userspace/src/reconcile.rs:413-440 | the drift list the command goes on with is one item for each name that catalog and changer, as it then is, have at different locations, with both locations; only media leave that the catalog shelves or does not have in the robot, and with distinct names their number is reported; what stays is then given exactly, and it fails exactly when the catalog lists a name twice or more than 128 media are left once the shelved ones among the first 128 are gone |
| AutoAlign.AutoAlignLibrary | vtladm-rc/userspace/src/reconcile.rs:409-463 | auto-align pulls exactly when allowed to and catalog and kernel have the same tapes in the robot at different places, and otherwise leaves the catalog untouched; without a pull the remaining drifts it reports number the names whose locations still differ; after a pull, from any catalog with unique names, its report of none is true if and only if the map is pullable, and the library is well placed if and only if the listed tapes have rows to themselves and the others only stand on shelves; with distinct names the media it reports as evacuated are as many as left, and the changer keeps exactly what `Survey` says |
| AutoAlign.ReconcileLibrary | vtladm-rc/userspace/src/reconcile.rs:155-244 | the drifts ascend by name and are exactly one for each name that the old catalog, by its element rows, and the kernel's listing do not have at the same location, with these two locations; a dry run changes nothing and lists none exactly when the catalog equals the listed part of the changer; a pull, from any catalog with unique names, makes it equal if and only if the map is pullable and places the library as after auto-align; it fails exactly for the removed push, a name the catalog or the listing has twice, and a pull of a truncated listing |
| AutoAlign.LoadedDriveDefeatsPull | vtladm-rc/userspace/src/robot_sync.rs:112-124 | with a named medium in a drive and no slot row at a drive address, the decoded map never fits a catalog with unique names, so a pull leaves them different; from a well-placed catalog the loaded tape ends nowhere |
| AutoAlign.LoadedTapeIsLostExample | vtladm-rc/userspace/src/robot_sync.rs:112-124 | one tape in drive 0 in both views: it drifts, passes the safety check, and the pull loses it |
| Elements.EncodeInvertsDecode | vtladm-rc/userspace/src/robot_sync.rs:112-132 | re-encoding a decoded element address gives the address back |
| Elements.DecodeInvertsEncodeIff | vtladm-rc/userspace/src/robot_sync.rs:112-132 | decoding an encoded location gives it back exactly when it is no drive; the decoder its comments describe gives every one back |
| Media.Changer.constructor | vtladm-rc/kernel/src/vtl_main.c:952-999 | a new changer is empty and its geometry is the request clamped to the caps |
| Media.Changer.MoveMedium | vtladm-rc/kernel/src/vtl_tape.c:570-704 | MOVE answers with the code of the abstract move and leaves its state: medium moved with its `loaded` flag, or everything as before |
| Media.Changer.TakeOut | vtladm-rc/kernel/src/vtl_tape.c:577-623 | the source half takes out exactly the medium of a valid, occupied source |
| Media.Changer.PutInto | vtladm-rc/kernel/src/vtl_tape.c:625-675 | the destination half fills a valid empty element or says why not and changes nothing |
| Media.Changer.PutBack | vtladm-rc/kernel/src/vtl_tape.c:677-700 | the rollback puts the medium back where it came from |
| Media.Changer.RemoveMedium | vtladm-rc/kernel/src/vtl_tape.c:706-766 | removal empties exactly the named element and lowers the flag of a drive's medium |
| Media.Changer.TapeUnload | vtladm-rc/kernel/src/vtl_tape.c:375-397 | unloading a drive takes its medium out of the changer |
| Media.Changer.SlotPlace | vtladm-rc/kernel/src/vtl_tape.c:227-244 | placing fills the slot unless another medium is in it; it does not look elsewhere for the medium |
| Media.Changer.LoadSlotToDrive | vtladm-rc/kernel/src/vtl_tape.c:246-284 | load-from-slot: code, elements and flags of the abstract load; if a barcode is given, the medium that was in the slot under the requested name, or the opened one, has it afterwards, cut to 15 bytes, and every other medium the one it had; a granted load leaves it on the drive's medium |
| Media.Changer.FillSlot | vtladm-rc/kernel/src/vtl_tape.c:257-281 | the first half of load: the slot holds the named medium, is filled with the opened one, or the call is refused; the exact barcode of every medium afterwards |
| Media.Changer.UnloadDriveToSlot | vtladm-rc/kernel/src/vtl_tape.c:286-294 | unload to a slot is the abstract move from the drive |
| Media.SetBarcode | vtladm-rc/kernel/src/vtl_tape.c:214-225 | a barcode is cut to 15 bytes; an empty one leaves the old |
| Media.MoveConservesMedia | vtladm-rc/kernel/src/vtl_tape.c:570-704 | every MOVE, granted or refused, keeps the multiset of media |
| Media.MoveAnswers | vtladm-rc/kernel/src/vtl_tape.c:570-704 | when MOVE is granted, which refusal it gives for which source and destination addresses, and which elements hold what afterwards |
| Media.StepConservesMedia | vtladm-rc/kernel/src/vtl_tape.c:227-294 | over all operations a medium's multiplicity changes only by placing or opening it and by removing it |
| Media.RefusedMoveRestoresIff | vtladm-rc/kernel/src/vtl_tape.c:677-700 | in every changer a refused MOVE moves nothing, and restores the flags if and only if the source is a data slot or empty or its medium's flag says whether the source is a drive |
| Media.RefusedMoveRestores | vtladm-rc/kernel/src/vtl_tape.c:677-700 | so in a changer without doubly held media and stale flags a refused MOVE leaves the exact prior state |
| Media.RefusedMoveChangesFlagExample | vtladm-rc/kernel/src/vtl_tape.c:677-700 | a loaded tape placed a second time and moved from there to a mailslot: a refused MOVE from the drive raises its flag again |
| Media.RefusedLoadTouchesOneSlot | vtladm-rc/kernel/src/vtl_tape.c:246-284 | in every changer a refused load changes no flag and no element but the named slot, and that only by filling it with the opened medium |
| Media.LoadIsGrantedIff | vtladm-rc/kernel/src/vtl_tape.c:246-284 | a load is granted exactly within the geometry, for an empty drive, and with the slot's medium under the requested name or with one opened by name for an empty slot |
| Media.GrantedLoadLoads | vtladm-rc/kernel/src/vtl_tape.c:246-284 | the drive then holds that medium, the slot none, and all other elements what they held |
| Media.UnloadIsGrantedIff | vtladm-rc/kernel/src/vtl_tape.c:286-294 | an unload is granted exactly from a loaded drive to an empty data slot, and moves that medium alone |
| Media.RemoveAnswers | vtladm-rc/kernel/src/vtl_tape.c:706-766 | which addresses a removal refuses with which code; a granted one empties that element alone |
| Media.PlaceAnswers | vtladm-rc/kernel/src/vtl_tape.c:227-244 | which slots a placing refuses with which code; a granted one fills that slot alone |
| Media.StepKeepsHealthyIff | vtladm-rc/kernel/src/vtl_tape.c:227-244 | one operation keeps every medium in at most one element with an honest `loaded` flag if and only if it brings in no medium held elsewhere |
| Media.RunKeepsHealthy | vtladm-rc/kernel/src/vtl_tape.c:227-766 | so over every run of such operations |
| Inventory.CollectInventory | vtladm-rc/kernel/src/vtl_tape.c:1025-1082 | the items are the first `max_items` occupied elements in address order with their names; truncated holds exactly when more exist |
| Inventory.CountOfFirstOccupied | vtladm-rc/kernel/src/vtl_tape.c:1025-1082 | a list that is not truncated holds every occupied element once |
| Inventory.DecodeItems | vtladm-rc/userspace/src/robot_sync.rs:381-420 | the decoding maps each named item to its location and is refused exactly when two items share a name |
| Inventory.KernelSnapshot | vtladm-rc/userspace/src/robot_sync.rs:381-420 | for every changer the snapshot is its first 128 media decoded, it exists exactly when their names are distinct, and it says whether there are more |
| Inventory.ListedIsSeen | vtladm-rc/kernel/src/vtl_tape.c:1048-1076 | an element is listed exactly when fewer than 128 occupied ones stand before it |
| Inventory.DecodedUnique | vtladm-rc/userspace/src/robot_sync.rs:381-420 | a changer has one decoding |
| Inventory.ReencodingGivesTheOccupied | vtladm-rc/userspace/src/robot_sync.rs:112-132 | with named, distinctly named media re-encoding the map gives back exactly the occupied addresses |
| ElementStatus.ParseInvertsPages | vtladm-rc/kernel/src/vtl_tape.c:773-927 | an initiator's parser reads back every element of every page, in order, with address, full bit and space-padded barcode |
| ElementStatus.ReplyIsPrefix | vtladm-rc/kernel/src/vtl_tape.c:981-1023 | what fits decodes to a prefix of the wanted elements, slots then drives then mailslots, and to all of them when three headers and their descriptors fit |
| ElementStatus.CutShortLeavesNothing | vtladm-rc/kernel/src/vtl_tape.c:830-927 | once one kind is cut short the kinds behind it get nothing |
| ElementStatusBuffer.WriteDescriptor | vtladm-rc/kernel/src/vtl_tape.c:773-796 | the descriptor written in place is the wire descriptor; behind it a full labelled element dirties exactly 12 bytes, any other none, and nothing else changes |
| ElementStatusBuffer.AppendElement | vtladm-rc/kernel/src/vtl_tape.c:850-909 | one turn of a descriptor loop appends the element if wanted and if it fits, and otherwise stops |
| ElementStatusBuffer.AppendPage | vtladm-rc/kernel/src/vtl_tape.c:830-927 | one page is header and body of exactly the wanted elements that fit |
| ElementStatusBuffer.WriteHeader | vtladm-rc/kernel/src/vtl_tape.c:912-926 | the header put in front of a written body completes the page |
| ElementStatusBuffer.CountDescriptors | vtladm-rc/kernel/src/vtl_tape.c:933-966 | the walker terminates on the encoder's output and finds its descriptor count and first address |
| ElementStatusBuffer.WalkPage | vtladm-rc/kernel/src/vtl_tape.c:944-964 | its inner loop counts exactly the descriptors of one page |
| ElementStatusBuffer.WriteDataHeader | vtladm-rc/kernel/src/vtl_tape.c:968-979 | the data header carries first address, count and page bytes |
| ElementStatusBuffer.ReadElementStatus | vtladm-rc/kernel/src/vtl_tape.c:981-1023 | for every geometry, occupancy, filter, range, barcode flag and length of at least 8: the bytes decode to a prefix of what was asked, all of it when it fits, and the header describes what they decode to; behind them exactly the bytes of the last tag's overhang change; shorter requests are refused untouched |
| ElementStatusBuffer.StaysWithinIff | vtladm-rc/kernel/src/vtl_tape.c:789-794 | a reply that fits its room is written within it, unless its last descriptor is full, labelled and ends less than 12 bytes before the room does |
| ModeSense.HandleReadElementStatus | vtladm-rc/kernel/src/vtl_scsi.c:898-970 | said by the bytes of the command block: every element in the reply is of the kind and in the address range asked for, is as it is in the changer, and stands there once, in ascending order, with none asked for left out before it; all asked for are there if and only if the bytes needed fit the working length; the command fails exactly when the reply is longer than the initiator's buffer, and the residual is what it leaves of the allocation length |
| ElementReport.CommandReadsBack | vtladm-rc/kernel/src/vtl_scsi.c:872-895 | 6-, 10- and 12-byte command blocks built from barcode bit, type, start, count and length read back as these, barcodes being added from 32 bytes on |
| ElementReport.WantedPrefixReports | vtladm-rc/kernel/src/vtl_tape.c:830-927 | the selection, cut off anywhere, has only elements whose kind and address the bytes of the command ask for, each once, in order and as it is, without a gap, and all of them exactly when nothing is cut off |
| ElementReport.TagIsReported | vtladm-rc/kernel/src/vtl_tape.c:773-796 | in a complete reply with tags a labelled medium in an element asked for shows its barcode padded to 20 bytes with spaces |
| ElementReport.DriveRangeExample | vtladm-rc/kernel/src/vtl_scsi.c:885-895 | the block for two elements from address 1000 gets the two drives of a library and none of its slots |
| ModeSense.LoadedDriveShowsTag | vtladm-rc/kernel/src/vtl_tape.c:246-284 | after a load granted with a barcode, a complete reply with tags that asks for the drive shows that barcode there |
| ModeSense.WorkLen | vtladm-rc/kernel/src/vtl_scsi.c:915-932 | the working length is the allocation length between 4096 and 8192, 8192 for none or more, and for less it is 4096 with barcodes or from 10 command bytes on, and otherwise the length itself but 8 at least |
| ModeSense.ReplyFills | vtladm-rc/kernel/src/vtl_tape.c:981-1023 | a reply has its full length when that fits, and otherwise fills the working length to less than a descriptor |
| ModeSense.ReplyAgainstAllocation | vtladm-rc/kernel/src/vtl_scsi.c:915-932 | a reply never exceeds an allocation length the command took as it is; when it raised it, a full reply exceeds it exactly when its length does, and a cut one whenever at least the length of a descriptor was added |
| ModeSense.ReplyExceedsAllocationExample | vtladm-rc/kernel/src/vtl_scsi.c:915-932 | everything with barcodes into 100 bytes: the smallest library answers with 224 |
| ModeSense.CompleteIff | vtladm-rc/kernel/src/vtl_tape.c:981-1023 | for any filter and range the reply holds everything asked for exactly when the length reaches the pages up to the last kind of which anything is asked |
| ModeSense.NeededForAll | vtladm-rc/kernel/src/vtl_tape.c:981-1023 | for a query for everything that is the data header, a page header for each kind there is, and all descriptors |
| ModeSense.LargeLibraryIsCutShortIff | vtladm-rc/kernel/src/vtl_scsi.c:898-970 | with barcodes and the full buffer the reply is complete if and only if the library has at most 255 elements |
| ModeSense.CutShortExample | vtladm-rc/kernel/src/vtl_scsi.c:898-970 | 250 data slots, two drives and four mailslots, asked for with barcodes and the largest length, are not reported in full |
| ModeSense.TagPastBufferExample | vtladm-rc/kernel/src/vtl_scsi.c:898-970 | with 250 data slots, five or more drives and the fifth loaded with a labelled tape, the reply to a query for everything fills the 8192 bytes and the last tag ends at 8196 |
| ModeSense.ModeSenseFill | vtladm-rc/kernel/src/vtl_scsi.c:417-532 | in the 6- and 10-byte forms the mode data length announced is the length returned, the pages are those asked for, and there is no block descriptor |
| ModeSense.PagesDescribeThemselves | vtladm-rc/kernel/src/vtl_scsi.c:430-510 | each page begins with its own code and counts the bytes behind its length byte; page 0x3F is the two pages with parameters; no other code has a page |
| ModeSense.ListedIsAnsweredIff | vtladm-rc/kernel/src/vtl_scsi.c:430-440 | of the pages that page 0x00 lists each has an answer except 0x01, and 0x3F is the only other one that has |
| ModeSense.PutAssignment | vtladm-rc/kernel/src/vtl_scsi.c:448-464 | page 0x1D written field by field is the Element Address Assignment page |
| ModeSense.RangesAreDisjoint | vtladm-rc/kernel/src/vtl_scsi.c:448-464 | the three advertised ranges are disjoint |
| ModeSense.AddressSpacesAgree | vtladm-rc/kernel/src/vtl_scsi.c:448-464 | an address is advertised exactly when MOVE does not reject it as invalid and exactly when a complete element status lists it |
| Catalog.WhereDetermines | vtladm-rc/userspace/src/main.rs:1420-1446 | the three tables and the places of the tapes determine each other: equal frames and places mean equal rows |
| CatalogOps.AssignMoves | vtladm-rc/userspace/src/main.rs:709-764 | assign puts the shelved tape into the slot and moves nothing else, if and only if the slot has a row |
| CatalogOps.ImportMoves | vtladm-rc/userspace/src/main.rs:855-947 | import from offline storage likewise, into the online library |
| CatalogOps.LoadMoves | vtladm-rc/userspace/src/main.rs:4273-4324 | load moves the slot's tape to the drive and nothing else, if and only if the drive has a row |
| CatalogOps.UnloadMoves | vtladm-rc/userspace/src/main.rs:4366-4429 | unload moves the drive's tape to the first empty data slot and nothing else |
| CatalogOps.UnloadTargetIsEmpty | vtladm-rc/userspace/src/main.rs:4388-4412 | in a well-placed catalog the recorded-slot branch is never taken and the target slot is empty |
| CatalogOps.EjectMoves | vtladm-rc/userspace/src/main.rs:4459-4508 | eject moves the slot's tape to the first empty mailslot |
| CatalogOps.ShelfPlaceMoves | vtladm-rc/userspace/src/main.rs:5303-5347 | shelf-place moves the tape to the shelf |
| CatalogOps.MigrateMoves | vtladm-rc/userspace/src/main.rs:1199-1226 | shelf migration moves the tape, which was on the source shelf, to the target shelf |
| CatalogOps.MoveOfflineMoves | vtladm-rc/userspace/src/main.rs:595-707 | an offline move takes the tape to the offline library's shelf |
| CatalogOps.CreateAdds | vtladm-rc/userspace/src/main.rs:3203-3273 | a created tape appears on its shelf under its name and nothing else moves |
| CatalogOps.DeleteRemoves | vtladm-rc/userspace/src/main.rs:3826-3868 | a deleted tape disappears, nothing else moves and every row stays |
| CatalogOps.DeleteShelfKeeps | vtladm-rc/userspace/src/main.rs:3984-4021 | deleting a shelf takes that shelf alone and moves no tape |
| CatalogOps.DeleteLibraryRemoves | vtladm-rc/userspace/src/main.rs:4058-4095 | deleting a library removes exactly its tapes, element rows and shelves |
| CatalogOps.AddRowsKeeps | vtladm-rc/userspace/src/main.rs:4647-4689 | a new row is added, moves no tape and changes no other row |
| CatalogGrants.GrantedIffPermitted | vtladm-rc/userspace/src/main.rs:4273-4538 | in a well-placed catalog each of the fourteen operations is granted exactly when names, rows and the places of the tapes permit it, and the error of a refused one is true; a migration for one is granted exactly for a tape on the source shelf when the library has the target shelf |
| CatalogOps.StepKeepsWellPlacedIff | vtladm-rc/userspace/src/main.rs:4273-4538 | an operation keeps every tape in exactly one place, columns and rows agreeing, if and only if it is refused or its target row exists |
| CatalogOps.MissingRowExample | vtladm-rc/userspace/src/main.rs:709-764 | assigning a shelved tape to a slot without a row is granted and leaves it in a slot that does not hold it |
| CatalogOps.RunKeepsWellPlaced | vtladm-rc/userspace/src/main.rs:4273-4538 | over every run of the fourteen operations whose target rows exist |
| CatalogOps.UnloadAfterAnyRun | vtladm-rc/userspace/src/main.rs:4388-4412 | after any such run unload never overwrites an occupied slot nor follows a recorded one |
| CatalogHints.MirrorKernelHints | vtladm-rc/userspace/src/reconcile.rs:534-560 | sync-db is refused exactly when one snapshot does not list the changer; otherwise each tape of the library has the slot column the decoded snapshot gives it, and nothing else changes |
| CatalogHints.MirrorHints | vtladm-rc/userspace/src/reconcile.rs:541-559 | its transaction, in whatever order the map is walked: row by row, a tape of the library that the map has in a data slot is off its shelf and in that slot, any other keeps its shelf and has no slot, and the answer is the number of known names in data slots |
| CatalogHints.MirrorKeepsWellPlacedIff | vtladm-rc/userspace/src/reconcile.rs:534-560 | from a well-placed catalog sync-db keeps every tape in one place if and only if it changes nothing |
| CatalogHints.MirrorBreaksMailAndDrives | vtladm-rc/userspace/src/reconcile.rs:534-560 | so it breaks a well-placed catalog without slot rows at drive addresses whenever a tape it knows is in a drive, or in a mailslot and by the catalog in a slot row |
| CatalogHints.SyncThenUnloadLoses | vtladm-rc/userspace/src/main.rs:4388-4429 | a loaded tape that sync-db gave the drive's address as its slot is lost by the next unload: it follows the recorded slot, which has no row |
| CatalogHints.ImportFileKeepsWellPlacedIff | vtladm-rc/userspace/src/main.rs:4882-4960 | importing an image keeps every tape in one place if and only if the slot row exists and is the tape's already, or is empty while the tape is new or on a shelf |
| CatalogHints.ImportFileOutcome | vtladm-rc/userspace/src/main.rs:4882-4960 | from a well-placed catalog an image is taken in exactly when its name is the library's already, or is no library's and the row id is free; where it fits its tape is then in the slot and every other tape where it was |
| CatalogHints.ImportImage | vtladm-rc/userspace/src/main.rs:4882-4960 | the tables of the import as it updates them: a known name of the library is taken over unchecked, one of another library refused |
| CatalogRuns.EventKeepsWellPlacedIff | vtladm-rc/userspace/src/reconcile.rs:74-145 | an operation, a pull of any map, a sync-db or an import of an image keeps every tape in exactly one place if and only if its condition, seen beforehand, holds |
| CatalogRuns.EventsKeepWellPlaced | vtladm-rc/userspace/src/reconcile.rs:74-145 | so over every run of such events, pulls included |
| CatalogRuns.FirstHarmBreaks | vtladm-rc/userspace/src/reconcile.rs:534-560 | and the first event whose condition fails breaks the catalog |
| CatalogRuns.UnloadAfterEvents | vtladm-rc/userspace/src/main.rs:4388-4412 | after such a run unload still goes to the first empty data slot |
| CatalogRuns.LosingRunExample | vtladm-rc/userspace/src/main.rs:4388-4429 | a tape in drive 0 for both sides, then sync-db, then unload: the tape is on no shelf, in no slot and in no drive |
| InStep.InStepIsInventory | vtladm-rc/userspace/src/reconcile.rs:28-49 | catalog and changer having the same tape at every location, addresses decoded as documented, is the catalog having the decoded changer as its inventory |
| InStep.LoadStaysInStepIff | vtladm-rc/userspace/src/main.rs:4273-4350 | load, with its ioctl succeeding or not, leaves catalog and changer in step if and only if the tape comes from a data slot and both have the drive; a mailslot's id is sent as a data slot |
| InStep.AssignStaysInStepIff | vtladm-rc/userspace/src/main.rs:5366-5387 | assign, its ioctl sent or not and the image opening or not, stays in step if and only if the slot has a data-slot row and the tape is placed, or it has no row and nothing is placed |
| InStep.LongNameFallsOut | vtladm-rc/userspace/src/robot_sync.rs:168-178 | assigning a tape with a name of more than 63 bytes to a slot with a row is granted by the catalog and never stays in step |
| InStep.UnloadStaysInStepIff | vtladm-rc/userspace/src/main.rs:4366-4443 | from a well-placed catalog unload stays in step if and only if the first empty data slot is one the changer has |
| InStep.EjectStaysInStepIff | vtladm-rc/userspace/src/main.rs:4459-4525 | eject stays in step if and only if the tape comes from a data slot and the chosen mailslot is one the changer has |
| InStep.ShelfPlaceStaysInStepIff | vtladm-rc/userspace/src/main.rs:5303-5356 | from a well-placed catalog placing on a shelf, with the evacuation behind it as coded, stays in step if and only if the changer does not have the tape or has it among its first 128 media |
| InStep.UnseenIsNotRepaired | vtladm-rc/userspace/src/reconcile.rs:467-487 | otherwise the medium stays: the changer holds more than 128 media, which refuses the rest of auto-align, and no shelved tape is among those listed |
| InStep.InStepKeepsAll | vtladm-rc/userspace/src/reconcile.rs:409-440 | in step with a well-placed catalog, evacuation and auto-align find nothing to take out of the changer |
| InStep.ShelveUnseenExample | vtladm-rc/userspace/src/main.rs:5303-5356 | the last of 129 tapes in data slots: shelving it is granted and leaves it on the shelf for the catalog and in its slot for the changer |
| InStep.CommandStaysInStepIff | vtladm-rc/userspace/src/main.rs:4273-4525 | from a well-placed catalog any command it grants leaves the two in step if and only if both can carry it out |
| InStep.RunStaysInStep | vtladm-rc/userspace/src/main.rs:4273-4525 | over every run of commands that are refused or that both sides can carry out, shelf-place with its 128 media included, both stay in step and every tape in one place |
| InStep.LoadFromMailExample | vtladm-rc/userspace/src/main.rs:4338-4345 | a tape in mailslot 100 of both sides: the load is granted and leaves it in the drive for the catalog and in the mailslot for the changer |
| OfflineMove.MoveTapesOffline | vtladm-rc/userspace/src/main.rs:595-707 | the list is refused exactly when empty or with a repeated name; otherwise the tapes in front of the first that refuses are moved, from a well-placed catalog the first that could not be moved at the start, and no other tape has moved |
| OfflineMove.AllMoveIff | vtladm-rc/userspace/src/main.rs:619-698 | all listed tapes move if and only if each could be moved on its own at the start |
| OfflineMove.AllMoveWhenFreeIff | vtladm-rc/userspace/src/main.rs:619-698 | all listed tapes move if and only if each is known, in no drive, and of a name the offline library, which has the shelf, lacks |
| CatalogStore.Database.AssignTape | vtladm-rc/userspace/src/main.rs:709-764 | checks and updates of assign: the tables are those of the specification, a refusal changes nothing |
| CatalogStore.Database.LoadTape | vtladm-rc/userspace/src/main.rs:4273-4324 | the same for load |
| CatalogStore.Database.UnloadTape | vtladm-rc/userspace/src/main.rs:4366-4429 | the same for unload, with the slot it reports |
| CatalogStore.Database.EjectTape | vtladm-rc/userspace/src/main.rs:4459-4508 | the same for eject |
| CatalogStore.Database.PlaceOnShelf | vtladm-rc/userspace/src/main.rs:5303-5347 | the same for shelf-place |
| CatalogStore.Database.ImportTape | vtladm-rc/userspace/src/main.rs:855-947 | the same for import |
| CatalogStore.Database.MoveTapeOffline | vtladm-rc/userspace/src/main.rs:619-698 | the same for one turn of the offline move |
| CatalogStore.Database.DeleteTape | vtladm-rc/userspace/src/main.rs:3826-3868 | the same for tape deletion |
| CatalogStore.Database.CreateTape | vtladm-rc/userspace/src/main.rs:3203-3273 | the same for creation with a row id in use nowhere |
| CatalogStore.Database.RemoveShelf | vtladm-rc/userspace/src/main.rs:3984-4021 | the same for shelf deletion |
| CatalogStore.Database.RemoveLibrary | vtladm-rc/userspace/src/main.rs:4058-4095 | the transaction of the deletion removes exactly the rows of the library |
| CatalogStore.Database.FindEmptySlot | vtladm-rc/userspace/src/main.rs:4400-4411 | the query finds the empty slot of lowest id, or none exactly when there is none |
| CatalogStore.Database.ValidatePair | vtladm-rc/userspace/src/main.rs:786-852 | the validation reports exactly the objection of the specification |
| CatalogStore.Database.ValidateBatch | vtladm-rc/userspace/src/main.rs:967-1022 | the loop accepts exactly non-empty lists, for another library than the offline one, of distinct slots and names, no longer than the empty data slots, every pair of which validates; a defect of the list itself is one error, and otherwise the objection to the first pair that does not validate is reported |
| CatalogStore.Database.AssignBatch | vtladm-rc/userspace/src/main.rs:967-1065 | the batch assigns every pair exactly when it is accepted, and otherwise changes nothing: no apply step can fail |
| Batch.AcceptedBatchApplies | vtladm-rc/userspace/src/main.rs:967-1065 | for every accepted batch, online and offline sources mixed, no check of the apply loop fails, and row by row each tape has its slot and all else is unchanged |
| Batch.ReadySurvives | vtladm-rc/userspace/src/main.rs:1024-1037 | applying one validated pair leaves every other of different name and slot valid |
| Batch.ReadyIffPermitted | vtladm-rc/userspace/src/main.rs:786-852 | in a well-placed catalog a pair validates if and only if names and places permit its assign or import, and the objection to it is true |
| Batch.BatchPlacesIff | vtladm-rc/userspace/src/main.rs:967-1065 | the batch leaves every tape well placed if and only if all its slots have rows; then listed tapes are in their slots and all others where they were |
| Migration.MigrationCommitsIff | vtladm-rc/userspace/src/main.rs:1169-1236 | the transaction commits if and only if each listed tape could be migrated on its own at the start; then exactly they are on the target shelf |
| Migration.CommitsWhenAllOnShelfIff | vtladm-rc/userspace/src/main.rs:1199-1226 | that is, if and only if each listed tape is on the source shelf and the library has the target shelf |
| Migration.MigrateTapes | vtladm-rc/userspace/src/main.rs:1169-1236 | argument errors are exactly an empty list, equal shelves and a repeated name; a refused tape drops the whole transaction |
| LibraryRows.CreateRows | vtladm-rc/userspace/src/main.rs:5135-5154 | a new library gets its drive and data-slot rows, and mailslot rows only at ids the data slots leave free |
| LibraryRows.CreateRowsMovesNothing | vtladm-rc/userspace/src/main.rs:5135-5154 | creating them moves no tape |
| LibraryRows.FreshDrives | vtladm-rc/userspace/src/main.rs:5135-5154 | a created library counts the drives it was created with |
| LibraryRows.FreshCount | vtladm-rc/userspace/src/main.rs:5135-5154 | and the data slots |
| LibraryRows.MailslotRowIff | vtladm-rc/userspace/src/main.rs:5149-5154 | mailslot `i` is a mailslot row if and only if the data slots end before id 100 + i |
| LibraryRows.NoMailslotRowIff | vtladm-rc/userspace/src/main.rs:5135-5154 | a library is created without a mailslot row if and only if it has 104 data slots or more |
| LibraryRows.NeverEjects | vtladm-rc/userspace/src/main.rs:4481-4491 | a library without a mailslot row refuses every eject after any run of operations that inserts none |
| LibraryRows.EjectSucceedsIff | vtladm-rc/userspace/src/main.rs:4459-4508 | a tape created, assigned to slot 0 of a new library and ejected is granted the eject if and only if the library has fewer than 104 data slots |
| LibraryRows.GrowSlots | vtladm-rc/userspace/src/main.rs:4675-4688 | growing inserts rows from the present count of data slots up to the new one |
| LibraryRows.GrowthReachesIff | vtladm-rc/userspace/src/main.rs:4675-4688 | a library so grown has the configured number of data slots if and only if the new ids stay below 100 or no mailslot row was in the way; it is at most four short |
| LibraryRows.GrowingAgainChangesNothing | vtladm-rc/userspace/src/main.rs:4675-4688 | asking again changes nothing |
| LibraryRows.DeleteNamedLibrary | vtladm-rc/userspace/src/main.rs:4025-4095 | deletion is granted exactly for a known library other than the offline one when more than one online library is left or it is the empty legacy default; it removes exactly that library, a refusal changes nothing and names its reason, and the last online library stays |
| InstanceSpec.ParseSpecTokens | vtladm-rc/kernel/src/vtl_main.c:184-238 | the loop with its output arrays accepts exactly the texts of 1 to 8 non-blank fields that `sscanf` reads, and stores their clamped sizes |
| InstanceSpec.PrintLive | vtladm-rc/kernel/src/vtl_main.c:249-267 | the loop prints exactly the joined sizes; neither a cut nor the early return ever happens |
| InstanceSpec.PrintSpecFits | vtladm-rc/kernel/src/vtl_main.c:249-267 | the text of up to eight hosts with any 32-bit counts fits the 384-byte buffer |
| InstanceSpec.ParseInvertsPrint | vtladm-rc/kernel/src/vtl_main.c:184-267 | for any 32-bit counts the parser inverts the printer up to clamping |
| InstanceSpec.ParseInvertsPrintIff | vtladm-rc/kernel/src/vtl_main.c:184-267 | a printed geometry parses to itself exactly when it is within the caps |
| InstanceSpec.PrintedFieldsAre | vtladm-rc/kernel/src/vtl_main.c:249-267 | the printed text has one field a host: its drives, an `x`, its slots |
| InstanceSpec.FieldReads | vtladm-rc/kernel/src/vtl_main.c:184-238 | a field with white space before either number, numbers of any size, and anything but a digit behind them is read, drives first, as the two wrapped to 32 bits and clamped |
| InstanceSpec.SpecTextExample | vtladm-rc/kernel/src/vtl_main.c:184-267 | `2x24,1x256` is two drives and 24 slots, then one drive and 256 slots, and `20x0` is read as eight drives and one slot |
| InstanceSpec.PrintedParseIsStable | vtladm-rc/kernel/src/vtl_main.c:184-267 | parse, print, parse equals parse for every accepted text |
| InstanceSpec.ParsersAgreeOnPrinted | vtladm-rc/userspace/src/main.rs:1527-1564 | on printed text kernel and management program read the same hosts, and the segment count is theirs |
| InstanceSpec.ParsersDisagreeExample | vtladm-rc/userspace/src/main.rs:1549-1564 | on other text they may part: a field the kernel refuses is passed over |
| Geometry.LoadIsHonestIff | vtladm-rc/kernel/src/vtl_main.c:498-509 | the text published at load parses to the live geometry if and only if the default sizes, when used, are within the caps |
| Geometry.LoadOutcome | vtladm-rc/kernel/src/vtl_main.c:1252-1299 | the module loads exactly when its parameter is empty or parses and every device can be added, and then has empty hosts of those sizes and publishes their text |
| Geometry.UnclampedDefaultExample | vtladm-rc/kernel/src/vtl_main.c:498-509 | a default of 20 drives is registered as 20 and published as a text that parses to 8 |
| Geometry.SetInstancesOutcomes | vtladm-rc/kernel/src/vtl_main.c:818-923 | past its refusals SET_INSTANCES ends in success, -EIO with the previous geometry registered, or -ENODEV with no host; success means the requested geometry is registered if and only if something was registered before or a rebuild took place |
| Geometry.SetInstancesIsRefusedIff | vtladm-rc/kernel/src/vtl_main.c:824-869 | for every state and request SET_INSTANCES is refused exactly when the change is not allowed, the text does not parse, or the driver is busy with another geometry; a refusal leaves everything |
| Geometry.BusyKeepsHosts | vtladm-rc/kernel/src/vtl_main.c:859-869 | a busy driver keeps every host registered with its size and media, whatever is asked |
| Geometry.RebuildOutcome | vtladm-rc/kernel/src/vtl_main.c:871-917 | a rebuild ends with the requested hosts if all their devices can be added, else with the former ones if theirs can, else with none; in each case the hosts are empty, and the published text is the requested, the former or none |
| Geometry.SuccessWithoutHostsExample | vtladm-rc/kernel/src/vtl_main.c:512-526 | two failed table allocations leave a state in which asking for the old geometry succeeds with no host registered |
| Geometry.ResizeMovesNoMedia | vtladm-rc/kernel/src/vtl_main.c:748-816 | a resize, granted or refused, leaves every host its media |
| Geometry.ResizeIsGrantedIff | vtladm-rc/kernel/src/vtl_main.c:748-816 | RESIZE_GEOMETRY is granted exactly when the text parses to as many hosts as there are and names their sizes or leaves no medium of any host at a slot or drive beyond; then every host has the size it names, its media, and a published text that means it, and otherwise nothing has changed |
| Geometry.UndoAnswers | vtladm-rc/kernel/src/vtl_main.c:790-793 | undoing a host already resized is never refused |
| Geometry.NextAnswers | vtladm-rc/kernel/src/vtl_main.c:785-800 | the next host answers as it would have at the start |
| Geometry.RunKeepsHonest | vtladm-rc/kernel/src/vtl_main.c:240-300 | over every run of resizes, rebuilds and changer operations, failures and rollbacks included, a published text parses to exactly the live hosts and no medium lies outside its host's geometry |
| GeometryDriver.PrepareShrink | vtladm-rc/kernel/src/vtl_main.c:667-695 | a shrink is refused exactly when a medium lies beyond the new geometry |
| GeometryDriver.Host.Resize | vtladm-rc/kernel/src/vtl_main.c:713-737 | one host takes the new size, `max_lun` with it, keeping its media, or is unchanged |
| GeometryDriver.Driver.ResizeHost | vtladm-rc/kernel/src/vtl_main.c:697-746 | one host of the list resized and recorded, all others untouched; the error codes are those of the code |
| GeometryDriver.Driver.ResizeAll | vtladm-rc/kernel/src/vtl_main.c:785-804 | the loop with its undo is all-or-nothing across hosts: it succeeds if and only if every host exists and can hold its media, and otherwise every host, array and medium is as before |
| GeometryDriver.Driver.ResizeBack | vtladm-rc/kernel/src/vtl_main.c:790-793 | the undo loop restores the exact state before the first resize |
| GeometryDriver.Driver.ApplyResizeOnly | vtladm-rc/kernel/src/vtl_main.c:748-816 | RESIZE_GEOMETRY in full: argument errors, the unchanged shortcut, the loop, and the published text |
| GeometryDriver.Driver.MatchesLive | vtladm-rc/kernel/src/vtl_main.c:512-526 | the comparison answers whether the sizes are the live ones and at least one |
| GeometryDriver.Driver.Publish | vtladm-rc/kernel/src/vtl_main.c:240-246 | an empty text is not published; a long one is cut at the buffer |
| GeometryDriver.Driver.PublishLive | vtladm-rc/kernel/src/vtl_main.c:249-267 | publishes the printed live geometry, or nothing without hosts |
| GeometryDriver.Driver.UnregisterAll | vtladm-rc/kernel/src/vtl_main.c:619-644 | all hosts go; the count is cleared only if the device table existed |
| GeometryDriver.Driver.RegisterAll | vtladm-rc/kernel/src/vtl_main.c:528-578 | either every device is registered with its host or none is; a failure of the table alone leaves the count |
| GeometryDriver.Driver.AddDevice | vtladm-rc/kernel/src/vtl_main.c:1122-1206 | a probe with a valid geometry makes an empty host, an invalid one makes none |
| GeometryDriver.Driver.RollbackGeometry | vtladm-rc/kernel/src/vtl_main.c:444-465 | the saved geometry is registered and its text published again, or nothing is published |
| GeometryDriver.Driver.ApplyInstancesSpec | vtladm-rc/kernel/src/vtl_main.c:818-923 | SET_INSTANCES in full, registration failing at any point, refines the specification; while busy it leaves every host object, size, medium and array |
| GeometryDriver.LoadModule | vtladm-rc/kernel/src/vtl_main.c:1252-1299 | module load registers and publishes the initial geometry, or fails |
| HostOrder.BuildKernelSpec | vtladm-rc/userspace/src/main.rs:1836-1896 | the text has, for both the kernel's parser and its fields, one host for each library with drive or data-slot rows among the first eight online ones, in order: as many drives and slots as the catalog has rows, at least one and at most 8 and 256, for counts below 2^31; it fails exactly without such a library |
| HostOrder.OnlineIds | vtladm-rc/userspace/src/robot_sync.rs:245-278 | the ids of the libraries with rows, in order, each at its rank |
| HostOrder.InstanceIndex | vtladm-rc/userspace/src/robot_sync.rs:281-294 | the index is the number of earlier libraries with drive or data-slot rows, and missing exactly when the library is unknown or has none |
| HostOrder.IndexNamesOwnSegmentIff | vtladm-rc/userspace/src/robot_sync.rs:281-294 | the index names a host of the library's own counted and capped size, shells skipped, if and only if the library is among the first eight online ids; otherwise it names no host of the catalog's |
| HostOrder.CreatedIsItsOwnHost | vtladm-rc/userspace/src/main.rs:1867-1884 | a library created within the caps, `N` drives by `M` slots, gets the host `NxM` |
| HostOrder.ExportIndex | vtladm-rc/userspace/src/main.rs:1816-1833 | the export index is the library's position among the online ones, and missing exactly for an unknown id |
| HostOrder.ExportIndexIsKernelIndexIff | vtladm-rc/userspace/src/main.rs:1816-1833 | it is the kernel's index if and only if no empty shell stands before the library |
| HostOrder.NinthLibraryExample | vtladm-rc/userspace/src/robot_sync.rs:281-294 | a ninth library behind an empty shell gets the index of an idle host |
| HostOrder.BuildPaddedSpec | vtladm-rc/userspace/src/main.rs:1582-1606 | the text is the catalog's hosts, then the kernel's own sizes, then full-size ones, and is refused exactly without a host of the catalog's |
| HostOrder.PaddedHosts | vtladm-rc/userspace/src/main.rs:1582-1606 | it has exactly n hosts for both parsers; those of the catalog come first, each of its library's own size, and the idle ones keep theirs or are 8 drives by 256 slots |
| HostOrder.PaddedIsFixedPoint | vtladm-rc/userspace/src/main.rs:1582-1606 | once the kernel has taken it over, padding again changes nothing |
| AutoNames.MaxSuffix | vtladm-rc/userspace/src/main.rs:1097-1118 | the largest number behind the prefix that fits 64 bits, or zero |
| AutoNames.AllocatedAreNew | vtladm-rc/userspace/src/main.rs:1120-1130 | the allocated names are pairwise distinct and absent from the library, whatever it holds, while the numbers fit 64 bits |
| AutoNames.NextBatchContinues | vtladm-rc/userspace/src/main.rs:1133-1166 | after a batch the largest number is the last allocated one, so batches never meet |
| AutoNames.BatchHasOneLength | vtladm-rc/userspace/src/main.rs:1120-1130 | the names of a batch are equally long |
| AutoNames.AllocatedIs | vtladm-rc/userspace/src/main.rs:1120-1130 | the name at `i` is the prefix and `start + i`, zero-padded to the digits of the batch's last number and to two at least |
| AutoNames.AllocatedExample | vtladm-rc/userspace/src/main.rs:1120-1130 | 8 to 10 become T08, T09, T10, and 99 to 100 become T099, T100 |
| Decimal.PaddedReadsBack | vtladm-rc/userspace/src/main.rs:1120-1130 | a zero-padded numeral reads back as its number |
| LogRotation.LogDir.MaybeRotate | vtladm-rc/userspace/src/main.rs:2667-2701 | the removals and renames shift every file up by one, gaps included, exactly when the line would exceed the limit |
| LogRotation.LogDir.AppendLine | vtladm-rc/userspace/src/main.rs:2703-2715 | one append is the rotation if due and the line at the end of the current file |
| LogRotation.AppendDropsOldestOnly | vtladm-rc/userspace/src/main.rs:2667-2715 | an append drops nothing or exactly the oldest file |
| LogRotation.AppendIs | vtladm-rc/userspace/src/main.rs:2667-2715 | a line goes to the current file while its text stays within the limit, or within 4096 bytes if that is more; otherwise each file moves up by one and the line starts a new one |
| LogRotation.RetainedIsSuffix | vtladm-rc/userspace/src/main.rs:2667-2715 | over every run the retained lines, oldest file first, are a suffix of all lines ever there |
| LogRotation.FilesStayBounded | vtladm-rc/userspace/src/main.rs:2667-2715 | over every run no file exceeds both the largest limit and a single line |
| TapeIo.Drive.Read | vtladm-rc/kernel/src/vtl_tape.c:399-447 | codes, bytes delivered and new state of a read, an empty drive and short and failed transfers included |
| TapeIo.Drive.Write | vtladm-rc/kernel/src/vtl_tape.c:449-490 | codes and new state of a write, an empty drive and failed transfers included |
| TapeIo.Drive.Space | vtladm-rc/kernel/src/vtl_tape.c:492-532 | spacing with its unsigned 32-bit product and its clamps, and the refusal of an empty drive |
| TapeIo.Drive.WriteFilemarks | vtladm-rc/kernel/src/vtl_tape.c:534-550 | filemarks only raise the flag; an empty or protected drive refuses |
| TapeIo.Drive.Rewind | vtladm-rc/kernel/src/vtl_tape.c:552-568 | rewind clears position and flag; an empty drive refuses |
| TapeIo.StepKeepsBounds | vtladm-rc/kernel/src/vtl_tape.c:399-568 | every command keeps the position within the capacity and `used` within it |
| TapeIo.GrantedWrite | vtladm-rc/kernel/src/vtl_tape.c:449-490 | a granted write puts as much of the data as tape and file take at the position, moves behind it, raises `used` to there, and leaves every byte before and behind |
| TapeIo.RefusedWrite | vtladm-rc/kernel/src/vtl_tape.c:449-490 | a write without medium, on a protected one, or that the file system fails is refused with its code and changes nothing |
| TapeIo.ReadAtFilemark | vtladm-rc/kernel/src/vtl_tape.c:399-447 | at a filemark one read delivers nothing, stays, and takes the mark away |
| TapeIo.ReadElsewhere | vtladm-rc/kernel/src/vtl_tape.c:399-447 | elsewhere a read delivers the bytes of the image from the position, as many as asked for, or up to the end of tape or file, and moves behind them |
| TapeIo.SpaceCodes | vtladm-rc/kernel/src/vtl_tape.c:492-532 | the five codes of SPACE: blocks forward and back within the tape, to its end, to its start, a filemark; any other does nothing |
| TapeIo.Run | vtladm-rc/kernel/src/vtl_tape.c:399-568 | so over every run, whatever the capacity |
| TapeIo.WriteRewindRead | vtladm-rc/kernel/src/vtl_tape.c:399-568 | any writes from the start, a rewind and any reads deliver the old image with the data, cut at the capacity, over it, as far as asked; that is exactly the data if and only if no more is asked for than was written, or the tape or the old image ends no later than the data |
| TapeIo.StaleByteExample | vtladm-rc/kernel/src/vtl_tape.c:399-568 | one byte written over an old image of two, and two read: the old second byte follows |
| TapeIo.WritesFromStart | vtladm-rc/kernel/src/vtl_tape.c:449-490 | chunked writes from the start leave exactly the old image overwritten by their concatenation, cut at the capacity |
| TapeIo.ReadsFromStart | vtladm-rc/kernel/src/vtl_tape.c:399-447 | chunked reads from the start deliver one stretch of the image |
| TapeIo.SpaceBackUndoesIff | vtladm-rc/kernel/src/vtl_tape.c:492-532 | spacing back undoes spacing forward exactly from the start or when the forward move was not cut |
| TapeIo.NegativeCountRunsForward | vtladm-rc/kernel/src/vtl_tape.c:503-506 | a negative count spaces forward, its product being unsigned |

## Left out

- Database.CreateTape: name validation, quota, image file and shelf-name lookup are outside; the row id is a parameter that no row uses.
- MoveTapesOffline: the shelf is already looked up, so a missing one is found at the first tape; moving the image files and creating the offline library are outside.
- Database.ImportTape: the image file is taken to move with the row; the later kernel placement is outside.
- HandleReadElementStatus: the buffer has 12 bytes more than the code's, so that the overhang `StaysWithinIff` describes has somewhere to go; the initiator's buffer is its length, and what a failed copy leaves in it is outside.
- AutoAlignLibrary: ioctls succeed; the fallback of `evacuate_element` to other mailslots is not modelled, since removing an element of the snapshot cannot fail.
- EvacuateTape: log output is outside.
- ApplyInstancesSpec: waiting for bringup, quiescing and the tuning of heavy geometries are outside; registration outcomes are parameters.
- LoadModule: workqueues, sysfs and the misc device, whose failures undo the load, are outside.
- Migrate: shelf names are already looked up; the missing source or target shelf is one error.
- ImportImage: name validation, quota and copying the image file are outside; the row id is a parameter that no row uses.
- MirrorKernelHints: one library; the loop over the online libraries and the configuration switches are outside.
- DeleteNamedLibrary: deleting the image files, configuration rows and the kernel's geometry afterwards is outside.
- RunStaysInStep: the auto-align that may follow each command takes nothing out in step (`InStepKeepsAll`); what it does out of step is left to `AutoAlignLibrary`. The changer is the library's own, which `IndexNamesOwnSegmentIff` says when; a barcode too long for the ioctl is taken as one that fits, the program makes none.
- Locks are taken as making each operation one atomic step; scheduling, delays, RCU and reference counts are not modelled.
- The query for the ids of online libraries: host order takes them, ascending, as a parameter; the rows it counts are the catalog's.
- SQLite itself: tables are maps, a transaction is one method, foreign keys and cascades are not modelled.
- Methods on the catalog end at their commit; `InStep` joins them with the ioctl they send.
- The tape table of the kernel (`vtl_tape_create`, lookup by name, release) and `vtl_changer_clear_media`: opening an image by name is a parameter of load.
- `vtl_changer_exchange_medium`, which always answers "not supported".
- SCSI command dispatch, sense data, INQUIRY and personalities, MODE SENSE of tape drives, MODE SELECT.
- The `at_bot` and `at_end` flags, filemark positions and access statistics of tapes: the code does not keep the flags in step with the position.
- Refused calls during module unload, module parameters other than the geometry, and the decision when to reload the module.
- `parse_size`, `format_size`, tags, search, quotas, configuration files, the web server, authentication, targetcli and sysfs scanning.
