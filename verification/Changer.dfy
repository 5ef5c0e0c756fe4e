/**
 * The kernel's medium changer. `State` is the simple truth: a map from element address to
 * the medium in it. The class `Changer` keeps the same truth in three fixed arrays and moves
 * media by hand, with a rollback when the destination refuses.
 */
module Media {
  import opened Common
  import opened Elements

  /** What fits a `char[64]`, bytes up to a terminating zero, and what fits a `char[16]`. */
  type Name = s: string | |s| <= 63
  type CString = s: seq<u8> | 0 !in s
  type Barcode = s: CString | |s| <= 15

  class Tape {
    const name: Name
    var barcode: Barcode
    var loaded: bool

    constructor (name: Name)
      ensures this.name == name && barcode == [] && !loaded
    {
      this.name, barcode, loaded := name, [], false;
    }
  }

  datatype Geometry = Geometry(drives: int, slots: int, mailslots: int)

  predicate IsDriveAddress(a: int) { DRIVE_BASE <= a < IE_BASE }

  predicate IsMailAddress(a: int) { IE_BASE <= a }

  predicate IsAddress(g: Geometry, a: int) {
    0 <= a < g.slots || DRIVE_BASE <= a < DRIVE_BASE + g.drives || IE_BASE <= a < IE_BASE + g.mailslots
  }

  /** `loaded` is the set of media whose `loaded` flag is up. */
  datatype State = State(geom: Geometry, contents: map<int, Tape>, loaded: set<Tape>)

  ghost predicate InGeometry(s: State) {
    && 1 <= s.geom.drives <= MAX_DRIVES && 1 <= s.geom.slots <= MAX_SLOTS
    && 0 <= s.geom.mailslots <= MAX_MAILSLOTS
    && forall a :: a in s.contents ==> IsAddress(s.geom, a)
  }

  ghost function MoveCode(s: State, src: int, dst: int): int {
    if !IsAddress(s.geom, src) then EINVAL
    else if src !in s.contents then ENODEV
    else if !IsAddress(s.geom, dst) then EINVAL
    else if dst != src && dst in s.contents then EBUSY
    else OK
  }

  /** The flag update of taking `t` out of, or of putting it back into, an element. */
  ghost function WithFlag(loaded: set<Tape>, t: Tape, up: bool): set<Tape> {
    if up then loaded + {t} else loaded - {t}
  }

  /** `t` put into the element at `a`; a data slot leaves its flag as it is. */
  ghost function Put(s: State, a: int, t: Tape): State {
    State(s.geom, s.contents[a := t],
          if IsDriveAddress(a) || IsMailAddress(a) then WithFlag(s.loaded, t, IsDriveAddress(a)) else s.loaded)
  }

  ghost function MoveTo(s: State, src: int, dst: int): State {
    var code := MoveCode(s, src, dst);
    if code == OK then
      var t := s.contents[src];
      State(s.geom, (s.contents - {src})[dst := t],
            if IsDriveAddress(dst) || IsMailAddress(dst) || IsDriveAddress(src)
            then WithFlag(s.loaded, t, IsDriveAddress(dst)) else s.loaded)
    else if src in s.contents && (IsDriveAddress(src) || IsMailAddress(src)) then
      s.(loaded := WithFlag(s.loaded, s.contents[src], IsDriveAddress(src)))
    else s
  }

  ghost function RemoveCode(s: State, elem: int): int {
    if !IsAddress(s.geom, elem) then EINVAL else if elem !in s.contents then ENODEV else OK
  }

  ghost function RemoveFrom(s: State, elem: int): State {
    if RemoveCode(s, elem) != OK then s
    else State(s.geom, s.contents - {elem},
               if IsDriveAddress(elem) then s.loaded - {s.contents[elem]} else s.loaded)
  }

  ghost function PlaceCode(s: State, slot: int, t: Tape): int {
    if slot < 0 || slot >= s.geom.slots then EINVAL
    else if slot in s.contents && s.contents[slot] != t then EBUSY
    else OK
  }

  ghost function PlaceIn(s: State, slot: int, t: Tape): State {
    if PlaceCode(s, slot, t) != OK then s else s.(contents := s.contents[slot := t])
  }

  /** What opening a tape image by name yields: the one tape of that name, or an error code. */
  datatype Opening = Opened(tape: Tape) | NotOpened(code: Errno)

  predicate LoadInRange(s: State, slot: int, drive: int) {
    0 <= slot < s.geom.slots && 0 <= drive < s.geom.drives
  }

  /** LOAD with an empty slot first opens the named image and places it there. */
  ghost predicate LoadOpens(s: State, slot: int, drive: int, name: string, opening: Opening) {
    LoadInRange(s, slot, drive) && slot !in s.contents && name != "" && opening.Opened?
  }

  /** The medium a LOAD is about: the one in the slot, if the name admits it, or the one opened for an empty slot. */
  ghost predicate Chosen(s: State, slot: int, name: string, opening: Opening, t: Tape) {
    if slot in s.contents then s.contents[slot] == t && (name == "" || t.name == name)
    else name != "" && opening == Opened(t)
  }

  /** It gets the barcode even when the move behind it is refused. */
  ghost predicate Labelled(s: State, slot: int, drive: int, name: string, opening: Opening, t: Tape) {
    LoadInRange(s, slot, drive) && Chosen(s, slot, name, opening, t)
  }

  ghost function LoadCode(s: State, slot: int, drive: int, name: string, opening: Opening): int {
    if !LoadInRange(s, slot, drive) then EINVAL
    else if slot in s.contents && name != "" && s.contents[slot].name != name then EBUSY
    else if slot in s.contents then MoveCode(s, slot, DRIVE_BASE + drive)
    else if name == "" then ENODEV
    else if opening.NotOpened? then opening.code
    else MoveCode(PlaceIn(s, slot, opening.tape), slot, DRIVE_BASE + drive)
  }

  ghost function LoadFromSlot(s: State, slot: int, drive: int, name: string, opening: Opening): State {
    if LoadOpens(s, slot, drive, name, opening) then
      MoveTo(PlaceIn(s, slot, opening.tape), slot, DRIVE_BASE + drive)
    else if LoadInRange(s, slot, drive) && slot in s.contents && (name == "" || s.contents[slot].name == name) then
      MoveTo(s, slot, DRIVE_BASE + drive)
    else s
  }

  ghost function UnloadCode(s: State, drive: int, slot: int): int {
    if !LoadInRange(s, slot, drive) then EINVAL else MoveCode(s, DRIVE_BASE + drive, slot)
  }

  ghost function UnloadToSlot(s: State, drive: int, slot: int): State {
    if !LoadInRange(s, slot, drive) then s else MoveTo(s, DRIVE_BASE + drive, slot)
  }

  /** The changer operations reachable through ioctls and SCSI commands. */
  datatype Op =
    | Move(src: int, dst: int)
    | Remove(elem: int)
    | Place(slot: int, tape: Tape)
    | Load(slot: int, drive: int, name: string, opening: Opening)
    | Unload(drive: int, slot: int)

  ghost function Step(s: State, op: Op): State {
    match op
    case Move(src, dst) => MoveTo(s, src, dst)
    case Remove(elem) => RemoveFrom(s, elem)
    case Place(slot, tape) => PlaceIn(s, slot, tape)
    case Load(slot, drive, name, opening) => LoadFromSlot(s, slot, drive, name, opening)
    case Unload(drive, slot) => UnloadToSlot(s, drive, slot)
  }

  ghost function Run(s: State, ops: seq<Op>): State {
    if ops == [] then s else Step(Run(s, ops[..|ops| - 1]), ops[|ops| - 1])
  }

  // ---------------------------------------------------------------- conservation

  /** How many elements hold `t`: the multiplicity of `t` among the media. */
  ghost function Copies(contents: map<int, Tape>, t: Tape): nat {
    |set a | a in contents && contents[a] == t|
  }

  lemma CopiesAfterTaking(contents: map<int, Tape>, a: int, t: Tape)
    requires a in contents
    ensures Copies(contents - {a}, t) == Copies(contents, t) - (if contents[a] == t then 1 else 0)
  {
    var before := set b | b in contents && contents[b] == t;
    var after := set b | b in contents - {a} && (contents - {a})[b] == t;
    assert after == before - {a};
  }

  lemma CopiesAfterPutting(contents: map<int, Tape>, a: int, u: Tape, t: Tape)
    requires a !in contents
    ensures Copies(contents[a := u], t) == Copies(contents, t) + (if u == t then 1 else 0)
  {
    var before := set b | b in contents && contents[b] == t;
    var contents' := contents[a := u];
    var after := set b | b in contents' && contents'[b] == t;
    assert after == if u == t then before + {a} else before;
  }

  /** Moving, unloading, or failing to, keeps the multiset of media. */
  lemma MoveConservesMedia(s: State, src: int, dst: int, t: Tape)
    ensures Copies(MoveTo(s, src, dst).contents, t) == Copies(s.contents, t)
  {
    if MoveCode(s, src, dst) == OK {
      CopiesAfterTaking(s.contents, src, t);
      CopiesAfterPutting(s.contents - {src}, dst, s.contents[src], t);
    }
  }

  /** What each operation adds to the multiplicity of `t`. */
  ghost function Gain(s: State, op: Op, t: Tape): int {
    match op
    case Move(_, _) => 0
    case Unload(_, _) => 0
    case Remove(elem) => if RemoveCode(s, elem) == OK && s.contents[elem] == t then -1 else 0
    case Place(slot, u) => if PlaceCode(s, slot, u) == OK && slot !in s.contents && u == t then 1 else 0
    case Load(slot, drive, name, opening) =>
      if LoadOpens(s, slot, drive, name, opening) && opening.tape == t then 1 else 0
  }

  /** Media enter only by placing or opening one and leave only by removal. */
  lemma StepConservesMedia(s: State, op: Op, t: Tape)
    ensures Copies(Step(s, op).contents, t) == Copies(s.contents, t) + Gain(s, op, t)
  {
    match op
    case Move(src, dst) => MoveConservesMedia(s, src, dst, t);
    case Unload(drive, slot) => MoveConservesMedia(s, DRIVE_BASE + drive, slot, t);
    case Remove(elem) =>
      if RemoveCode(s, elem) == OK { CopiesAfterTaking(s.contents, elem, t); }
    case Place(slot, u) =>
      if slot in s.contents && s.contents[slot] == u {
        assert s.contents[slot := u] == s.contents;
      } else if slot !in s.contents {
        CopiesAfterPutting(s.contents, slot, u, t);
      }
    case Load(slot, drive, name, opening) =>
      if LoadOpens(s, slot, drive, name, opening) {
        CopiesAfterPutting(s.contents, slot, opening.tape, t);
        MoveConservesMedia(PlaceIn(s, slot, opening.tape), slot, DRIVE_BASE + drive, t);
      } else {
        MoveConservesMedia(s, slot, DRIVE_BASE + drive, t);
      }
  }

  // ---------------------------------------------------------------- one place per medium

  ghost predicate AtMostOnce(contents: map<int, Tape>) {
    forall a, b :: a in contents && b in contents && contents[a] == contents[b] ==> a == b
  }

  ghost predicate HeldAt(s: State, a: int, t: Tape) { a in s.contents && s.contents[a] == t }

  ghost predicate Held(s: State, t: Tape) { exists a :: HeldAt(s, a, t) }

  ghost function InDrives(contents: map<int, Tape>): set<Tape> {
    set a | a in contents && IsDriveAddress(a) :: contents[a]
  }

  /** Every medium is in at most one element, and its `loaded` flag is up exactly when that is a drive. */
  ghost predicate Healthy(s: State) {
    && InGeometry(s)
    && AtMostOnce(s.contents)
    && s.loaded == InDrives(s.contents)
  }

  /** The one thing callers must see to: a medium that enters is not somewhere else already. */
  ghost predicate Admissible(s: State, op: Op) {
    match op
    case Place(slot, t) => PlaceCode(s, slot, t) == OK && slot !in s.contents ==> !Held(s, t)
    case Load(slot, drive, name, opening) =>
      LoadOpens(s, slot, drive, name, opening) ==> !Held(s, opening.tape)
    case _ => true
  }

  /**
   * Whatever the changer holds: a refused MOVE moves nothing, and leaves the flags as they were exactly
   * when the source is a data slot or empty, or its medium's flag says whether the source is a drive.
   */
  lemma RefusedMoveRestoresIff(s: State, src: int, dst: int)
    requires MoveCode(s, src, dst) != OK
    ensures var r := MoveTo(s, src, dst);
            && r.contents == s.contents && r.geom == s.geom
            && (r == s <==> || src !in s.contents || !(IsDriveAddress(src) || IsMailAddress(src))
                            || (s.contents[src] in s.loaded <==> IsDriveAddress(src)))
  {
  }

  /** In a healthy changer a refused MOVE leaves everything, flags included, exactly as it was. */
  lemma RefusedMoveRestores(s: State, src: int, dst: int)
    requires Healthy(s) && MoveCode(s, src, dst) != OK
    ensures MoveTo(s, src, dst) == s
  {
    RefusedMoveRestoresIff(s, src, dst);
    if src in s.contents {
      var t := s.contents[src];
      assert HeldAt(s, src, t);
      assert t in s.loaded <==> IsDriveAddress(src);
    }
  }

  /** One tape in slot 0 loaded, placed a second time in slot 1, and moved from there to a mailslot. */
  function PlacedTwice(t: Tape): seq<Op> {
    [Load(0, 0, "", NotOpened(EINVAL)), Place(1, t), Move(1, IE_BASE)]
  }

  /** The tape is still in drive 0 with its flag lowered; a MOVE from there, refused, raises it. */
  lemma RefusedMoveChangesFlagExample(t: Tape)
    ensures var s := Run(State(Geometry(1, 2, 4), map[0 := t], {}), PlacedTwice(t));
            && MoveCode(s, DRIVE_BASE, IE_BASE) == EBUSY && MoveTo(s, DRIVE_BASE, IE_BASE) != s
  {
    var start, ops := State(Geometry(1, 2, 4), map[0 := t], {}), PlacedTwice(t);
    var s1 := State(start.geom, map[DRIVE_BASE := t], {t});
    var s2 := State(start.geom, map[DRIVE_BASE := t, 1 := t], {t});
    var s3 := State(start.geom, map[DRIVE_BASE := t, IE_BASE := t], {});
    assert ops[..1][..0] == [] && ops[..2][..1] == ops[..1] && ops[..3] == ops && ops[..3][..2] == ops[..2];
    assert Run(start, ops[..1]) == Step(start, ops[0]) == s1;
    assert Run(start, ops[..2]) == Step(s1, ops[1]) == s2;
    assert Run(start, ops) == Step(s2, ops[2]) == s3;
  }

  lemma MoveKeepsHealthy(s: State, src: int, dst: int)
    requires Healthy(s)
    ensures Healthy(MoveTo(s, src, dst))
  {
    if MoveCode(s, src, dst) != OK {
      RefusedMoveRestores(s, src, dst);
    } else {
      var s', t := MoveTo(s, src, dst), s.contents[src];
      assert HeldAt(s, src, t) && HeldAt(s', dst, t);
      assert t in s.loaded <==> IsDriveAddress(src);
      assert s'.loaded == InDrives(s'.contents);
    }
  }

  lemma PlaceKeepsHealthyExceptAway(s: State, slot: int, t: Tape)
    requires Healthy(s) && !Held(s, t) && PlaceCode(s, slot, t) == OK
    ensures Healthy(PlaceIn(s, slot, t))
  {
    var s' := PlaceIn(s, slot, t);
    assert slot in s.contents ==> HeldAt(s, slot, t);
    assert InDrives(s'.contents) == InDrives(s.contents);
    forall a, b | a in s'.contents && b in s'.contents && s'.contents[a] == s'.contents[b] ensures a == b {
      assert a != slot ==> HeldAt(s, a, s'.contents[a]);
      assert b != slot ==> HeldAt(s, b, s'.contents[b]);
    }
  }

  /** One step keeps the changer healthy exactly when it brings in no medium held elsewhere. */
  lemma StepKeepsHealthyIff(s: State, op: Op)
    requires Healthy(s)
    ensures Healthy(Step(s, op)) <==> Admissible(s, op)
  {
    match op
    case Move(src, dst) => MoveKeepsHealthy(s, src, dst);
    case Unload(drive, slot) => MoveKeepsHealthy(s, DRIVE_BASE + drive, slot);
    case Remove(elem) => RemoveKeepsHealthy(s, elem);
    case Place(slot, t) => PlaceKeepsHealthyIff(s, slot, t);
    case Load(slot, drive, name, opening) =>
      if LoadOpens(s, slot, drive, name, opening) {
        var t, mid := opening.tape, PlaceIn(s, slot, opening.tape);
        if !Held(s, t) {
          PlaceKeepsHealthyExceptAway(s, slot, t);
          MoveKeepsHealthy(mid, slot, DRIVE_BASE + drive);
        } else {
          var a :| HeldAt(s, a, t);
          var after := MoveTo(mid, slot, DRIVE_BASE + drive);
          var b := if MoveCode(mid, slot, DRIVE_BASE + drive) == OK then DRIVE_BASE + drive else slot;
          assert HeldAt(after, a, t) && HeldAt(after, b, t) && a != b;
        }
      } else {
        MoveKeepsHealthy(s, slot, DRIVE_BASE + drive);
      }
  }

  lemma RemoveKeepsHealthy(s: State, elem: int)
    requires Healthy(s)
    ensures Healthy(RemoveFrom(s, elem))
  {
    if RemoveCode(s, elem) == OK {
      var s', t := RemoveFrom(s, elem), s.contents[elem];
      assert HeldAt(s, elem, t);
      assert t in s.loaded <==> IsDriveAddress(elem);
      assert s'.loaded == InDrives(s'.contents);
    }
  }

  lemma PlaceKeepsHealthyIff(s: State, slot: int, t: Tape)
    requires Healthy(s)
    ensures Healthy(PlaceIn(s, slot, t)) <==> (PlaceCode(s, slot, t) == OK && slot !in s.contents ==> !Held(s, t))
  {
    var s' := PlaceIn(s, slot, t);
    if PlaceCode(s, slot, t) == OK {
      if slot in s.contents {
        assert s'.contents == s.contents;
      } else if Held(s, t) {
        var a :| HeldAt(s, a, t);
        assert HeldAt(s', a, t) && HeldAt(s', slot, t) && a != slot;
      } else {
        PlaceKeepsHealthyExceptAway(s, slot, t);
      }
    }
  }

  /** Every step of the run is admissible where it is taken. */
  ghost predicate AdmissibleRun(s: State, ops: seq<Op>) {
    ops == [] || (AdmissibleRun(s, ops[..|ops| - 1]) && Admissible(Run(s, ops[..|ops| - 1]), ops[|ops| - 1]))
  }

  /** Over every admissible run no medium is ever in two elements and no `loaded` flag is stale. */
  lemma {:induction false} RunKeepsHealthy(s: State, ops: seq<Op>)
    requires Healthy(s) && AdmissibleRun(s, ops)
    ensures Healthy(Run(s, ops))
  {
    if ops != [] {
      RunKeepsHealthy(s, ops[..|ops| - 1]);
      StepKeepsHealthyIff(Run(s, ops[..|ops| - 1]), ops[|ops| - 1]);
    }
  }

  // ---------------------------------------------------------------- the arrays

  datatype Slot = Slot(occupied: bool, tape: Tape?)

  const EMPTY := Slot(false, null)

  class Changer {
    const slots: array<Slot>
    const mailslots: array<Slot>
    const drives: array<Tape?>
    var numSlots: int
    var numDrives: int
    var numMailslots: int

    constructor (drives: int, slots: int)
      ensures Valid() && fresh(this.slots) && fresh(mailslots) && fresh(this.drives)
      ensures numDrives == Clamp(drives, 1, MAX_DRIVES) && numSlots == Clamp(slots, 1, MAX_SLOTS)
      ensures Contents() == map[]
    {
      numDrives := Clamp(drives, 1, MAX_DRIVES);
      numSlots := Clamp(slots, 1, MAX_SLOTS);
      numMailslots := MAX_MAILSLOTS;
      this.slots := new Slot[MAX_SLOTS](_ => EMPTY);
      mailslots := new Slot[MAX_MAILSLOTS](_ => EMPTY);
      this.drives := new Tape?[MAX_DRIVES](_ => null);
    }

    /** Both marks of a slot agree, and every element beyond the configured geometry is empty. */
    ghost predicate Valid()
      reads this, slots, mailslots, drives
    {
      && slots.Length == MAX_SLOTS && mailslots.Length == MAX_MAILSLOTS && drives.Length == MAX_DRIVES
      && slots != mailslots
      && 1 <= numSlots <= MAX_SLOTS && 1 <= numDrives <= MAX_DRIVES && numMailslots == MAX_MAILSLOTS
      && (forall i :: 0 <= i < MAX_SLOTS ==> (slots[i].occupied <==> slots[i].tape != null))
      && (forall i :: 0 <= i < MAX_MAILSLOTS ==> (mailslots[i].occupied <==> mailslots[i].tape != null))
      && (forall i :: numSlots <= i < MAX_SLOTS ==> slots[i] == EMPTY)
      && (forall i :: numDrives <= i < MAX_DRIVES ==> drives[i] == null)
    }

    ghost function TapeAt(a: int): Tape?
      requires slots.Length == MAX_SLOTS && mailslots.Length == MAX_MAILSLOTS && drives.Length == MAX_DRIVES
      reads slots, mailslots, drives
    {
      if 0 <= a < MAX_SLOTS then slots[a].tape
      else if DRIVE_BASE <= a < DRIVE_BASE + MAX_DRIVES then drives[a - DRIVE_BASE]
      else if IE_BASE <= a < IE_BASE + MAX_MAILSLOTS then mailslots[a - IE_BASE].tape
      else null
    }

    ghost function Contents(): (m: map<int, Tape>)
      requires Valid()
      reads this, slots, mailslots, drives
    {
      map a | 0 <= a < IE_BASE + MAX_MAILSLOTS && TapeAt(a) != null :: (var t: Tape := TapeAt(a); t)
    }

    function Geom(): Geometry
      reads this
    {
      Geometry(numDrives, numSlots, numMailslots)
    }

    /** The abstract state, with the `loaded` flags of the media in `known`. */
    ghost function Abs(known: set<Tape>): State
      requires Valid()
      reads this, slots, mailslots, drives, known
    {
      State(Geom(), Contents(), set t | t in known && t.loaded)
    }

    /** First half of `vtl_changer_move_medium`: take the medium out of the source element. */
    method TakeOut(src: int, ghost known: set<Tape>) returns (ret: int, t: Tape?)
      requires Valid() && Contents().Values <= known
      modifies slots, mailslots, drives, known`loaded
      ensures Valid()
      ensures ret == RemoveCode(old(Abs(known)), src)
      ensures Abs(known) == RemoveFrom(old(Abs(known)), src)
      ensures ret == OK ==> t != null && t == old(Contents())[src] && t in known
    {
      t := null;
      if src < DRIVE_BASE {
        if src < 0 || src >= numSlots { return EINVAL, null; }
        if !slots[src].occupied || slots[src].tape == null { return ENODEV, null; }
        t := slots[src].tape;
        slots[src] := EMPTY;
      } else if src < IE_BASE {
        var di := src - DRIVE_BASE;
        if di < 0 || di >= numDrives { return EINVAL, null; }
        if drives[di] == null { return ENODEV, null; }
        t := drives[di];
        assert src in Contents() && Contents()[src] == t;
        drives[di] := null;
        t.loaded := false;
      } else if src < IE_BASE + numMailslots {
        var mi := src - IE_BASE;
        if !mailslots[mi].occupied || mailslots[mi].tape == null { return ENODEV, null; }
        t := mailslots[mi].tape;
        mailslots[mi] := EMPTY;
      } else {
        return EINVAL, null;
      }
      assert src in old(Contents()) && old(Contents())[src] == t;
      assert Contents() == old(Contents()) - {src};
      ret := OK;
    }

    /** Second half: put `t` into the destination element, or say why not. */
    method PutInto(dst: int, t: Tape, ghost known: set<Tape>) returns (ret: int)
      requires Valid() && t in known
      modifies slots, mailslots, drives, t`loaded
      ensures Valid()
      ensures ret == if !IsAddress(Geom(), dst) then EINVAL else if dst in old(Contents()) then EBUSY else OK
      ensures Abs(known) == if ret == OK then Put(old(Abs(known)), dst, t) else old(Abs(known))
    {
      if dst < DRIVE_BASE {
        if dst < 0 || dst >= numSlots { return EINVAL; }
        if slots[dst].occupied { return EBUSY; }
        slots[dst] := Slot(true, t);
      } else if dst < IE_BASE {
        var di := dst - DRIVE_BASE;
        if di < 0 || di >= numDrives { return EINVAL; }
        if drives[di] != null { return EBUSY; }
        drives[di] := t;
        t.loaded := true;
      } else if dst < IE_BASE + numMailslots {
        var mi := dst - IE_BASE;
        if mailslots[mi].occupied { return EBUSY; }
        mailslots[mi] := Slot(true, t);
        t.loaded := false;
      } else {
        return EINVAL;
      }
      assert Contents() == old(Contents())[dst := t];
      ret := OK;
    }

    /** The `rollback` label: put `t` back into the element it came from. */
    method PutBack(src: int, t: Tape, ghost known: set<Tape>)
      requires Valid() && IsAddress(Geom(), src) && src !in Contents() && t in known
      modifies slots, mailslots, drives, t`loaded
      ensures Valid()
      ensures Abs(known) == Put(old(Abs(known)), src, t)
    {
      if 0 <= src < DRIVE_BASE && src < numSlots {
        slots[src] := Slot(true, t);
      } else if DRIVE_BASE <= src < IE_BASE {
        drives[src - DRIVE_BASE] := t;
        t.loaded := true;
      } else {
        mailslots[src - IE_BASE] := Slot(true, t);
        t.loaded := false;
      }
      assert Contents() == old(Contents())[src := t];
    }

    /** `vtl_changer_move_medium` */
    method MoveMedium(src: int, dst: int, ghost known: set<Tape>) returns (ret: int)
      requires Valid() && Contents().Values <= known
      modifies slots, mailslots, drives, known`loaded
      ensures Valid() && Contents().Values <= known
      ensures ret == MoveCode(old(Abs(known)), src, dst)
      ensures Abs(known) == MoveTo(old(Abs(known)), src, dst)
    {
      var taken;
      ret, taken := TakeOut(src, known);
      if ret != OK { return; }
      var t: Tape := taken;
      ret := PutInto(dst, t, known);
      if ret != OK {
        PutBack(src, t, known);
      }
    }

    /** `vtl_changer_remove_medium` */
    method RemoveMedium(elem: int, ghost known: set<Tape>) returns (ret: int)
      requires Valid() && Contents().Values <= known
      modifies slots, mailslots, drives, known`loaded
      ensures Valid() && Contents().Values <= known
      ensures ret == RemoveCode(old(Abs(known)), elem)
      ensures Abs(known) == RemoveFrom(old(Abs(known)), elem)
    {
      if elem < DRIVE_BASE {
        if elem < 0 || elem >= numSlots { return EINVAL; }
        if !slots[elem].occupied || slots[elem].tape == null { return ENODEV; }
        slots[elem] := EMPTY;
      } else if elem < IE_BASE {
        var di := elem - DRIVE_BASE;
        if di < 0 || di >= numDrives { return EINVAL; }
        if drives[di] == null { return ENODEV; }
        assert elem in Contents() && Contents()[elem] == drives[di];
        drives[di].loaded := false;
        drives[di] := null;
      } else if elem < IE_BASE + numMailslots {
        var mi := elem - IE_BASE;
        if !mailslots[mi].occupied || mailslots[mi].tape == null { return ENODEV; }
        mailslots[mi] := EMPTY;
      } else {
        return EINVAL;
      }
      assert Contents() == old(Contents()) - {elem};
      return OK;
    }

    /** `vtl_tape_unload`: the medium leaves the drive and, with it, the changer. */
    method TapeUnload(drive: int, ghost known: set<Tape>) returns (ret: int)
      requires Valid() && Contents().Values <= known && 0 <= drive < numDrives
      modifies drives, known`loaded
      ensures Valid() && Contents().Values <= known
      ensures ret == RemoveCode(old(Abs(known)), DRIVE_BASE + drive)
      ensures Abs(known) == RemoveFrom(old(Abs(known)), DRIVE_BASE + drive)
    {
      if drives[drive] == null { return ENODEV; }
      var t: Tape := drives[drive];
      assert DRIVE_BASE + drive in Contents() && Contents()[DRIVE_BASE + drive] == t;
      drives[drive] := null;
      t.loaded := false;
      assert Contents() == old(Contents()) - {DRIVE_BASE + drive};
      return OK;
    }

    /** `vtl_changer_slot_place` */
    method SlotPlace(slot: int, tape: Tape, ghost known: set<Tape>) returns (ret: int)
      requires Valid() && Contents().Values <= known && tape in known
      modifies slots
      ensures Valid() && Contents().Values <= known
      ensures ret == PlaceCode(old(Abs(known)), slot, tape)
      ensures Abs(known) == PlaceIn(old(Abs(known)), slot, tape)
    {
      if slot < 0 || slot >= numSlots { return EINVAL; }
      if slots[slot].occupied && slots[slot].tape != tape { return EBUSY; }
      slots[slot] := Slot(true, tape);
      assert Contents() == old(Contents())[slot := tape];
      return OK;
    }

    /** `vtl_changer_load_slot_to_drive`; `opening` is what `vtl_tape_open_existing(name)` would return. */
    method LoadSlotToDrive(slot: int, drive: int, name: string, barcode: CString, opening: Opening,
                           ghost known: set<Tape>)
      returns (ret: int)
      requires Valid() && Contents().Values <= known
      requires opening.Opened? ==> opening.tape in known
      modifies slots, mailslots, drives, known
      ensures Valid() && Contents().Values <= known
      ensures ret == LoadCode(old(Abs(known)), slot, drive, name, opening)
      ensures Abs(known) == LoadFromSlot(old(Abs(known)), slot, drive, name, opening)
      ensures forall t :: t in known ==>
                t.barcode == if barcode != [] && Labelled(old(Abs(known)), slot, drive, name, opening, t)
                             then CutBarcode(barcode) else old(t.barcode)
      ensures ret == OK && barcode != [] ==>
                && DRIVE_BASE + drive in Contents()
                && Contents()[DRIVE_BASE + drive].barcode == if |barcode| <= 15 then barcode else barcode[..15]
    {
      if slot < 0 || slot >= numSlots || drive < 0 || drive >= numDrives { return EINVAL; }
      ret := FillSlot(slot, name, barcode, opening, known);
      if ret == OK {
        ret := MoveMedium(slot, DRIVE_BASE + drive, known);
      }
    }

    /** The first half of LOAD: the slot holds the named medium, or is made to. */
    method FillSlot(slot: int, name: string, barcode: CString, opening: Opening, ghost known: set<Tape>)
      returns (ret: int)
      requires Valid() && Contents().Values <= known && 0 <= slot < numSlots
      requires opening.Opened? ==> opening.tape in known
      modifies slots, known`barcode
      ensures Valid() && Contents().Values <= known
      ensures var s := old(Abs(known));
              ret == (if slot in s.contents then if name != "" && s.contents[slot].name != name then EBUSY else OK
                      else if name == "" then ENODEV else if opening.Opened? then OK else opening.code)
      ensures Abs(known) == (if slot !in old(Contents()) && name != "" && opening.Opened?
                             then PlaceIn(old(Abs(known)), slot, opening.tape) else old(Abs(known)))
      ensures forall t :: t in known ==>
                t.barcode == if barcode != [] && Chosen(old(Abs(known)), slot, name, opening, t)
                             then CutBarcode(barcode) else old(t.barcode)
    {
      ret := OK;
      if slots[slot].occupied && slots[slot].tape != null {
        var t: Tape := slots[slot].tape;
        assert slot in Contents() && Contents()[slot] == t;
        if name != "" && t.name != name { return EBUSY; }
        SetBarcode(t, barcode);
      } else {
        assert slot !in Contents();
        if name == "" { return ENODEV; }
        if opening.NotOpened? { return opening.code; }
        SetBarcode(opening.tape, barcode);
        ret := SlotPlace(slot, opening.tape, known);
      }
    }

    /** `vtl_changer_unload_drive_to_slot` */
    method UnloadDriveToSlot(drive: int, slot: int, ghost known: set<Tape>) returns (ret: int)
      requires Valid() && Contents().Values <= known
      modifies slots, mailslots, drives, known`loaded
      ensures Valid() && Contents().Values <= known
      ensures ret == UnloadCode(old(Abs(known)), drive, slot)
      ensures Abs(known) == UnloadToSlot(old(Abs(known)), drive, slot)
    {
      if drive < 0 || drive >= numDrives { return EINVAL; }
      if slot < 0 || slot >= numSlots { return EINVAL; }
      ret := MoveMedium(DRIVE_BASE + drive, slot, known);
    }
  }

  function CutBarcode(barcode: CString): (b: Barcode)
    ensures b <= barcode && (|barcode| <= 15 ==> b == barcode) && (|barcode| > 15 ==> |b| == 15)
  {
    if |barcode| <= 15 then barcode else barcode[..15]
  }

  /** `vtl_tape_set_barcode`: an empty barcode leaves the old one. */
  method SetBarcode(tape: Tape, barcode: CString)
    modifies tape`barcode
    ensures tape.barcode == if barcode == [] then old(tape.barcode) else CutBarcode(barcode)
  {
    if barcode == [] { return; }
    tape.barcode := CutBarcode(barcode);
  }

  /** The elements by address, as the SCSI page gives them. */
  predicate IsElement(g: Geometry, a: int) {
    || (a >= 0 && a < g.slots)
    || (a >= 1000 && a < 1000 + g.drives)
    || (a >= 2000 && a < 2000 + g.mailslots)
  }

  /** When MOVE is granted, why it is refused, and where the media are then. */
  lemma MoveAnswers(s: State, src: int, dst: int)
    ensures var code, r := MoveCode(s, src, dst), MoveTo(s, src, dst);
            && (code == EINVAL <==> !IsElement(s.geom, src) || (src in s.contents && !IsElement(s.geom, dst)))
            && (code == ENODEV <==> IsElement(s.geom, src) && src !in s.contents)
            && (code == EBUSY <==> && IsElement(s.geom, src) && IsElement(s.geom, dst) && src in s.contents
                                   && dst in s.contents && dst != src)
            && (code == OK || code == EINVAL || code == ENODEV || code == EBUSY)
            && (code == OK ==> && (forall a :: a in r.contents <==> a == dst || (a in s.contents && a != src))
                               && (forall a :: a in r.contents ==>
                                     r.contents[a] == if a == dst then s.contents[src] else s.contents[a]))
            && (code != OK ==> r.contents == s.contents)
  {
  }

  /** A granted LOAD puts into the drive the medium of the slot, or the opened one, and never one of another name. */
  lemma GrantedLoadLoads(s: State, slot: int, drive: int, name: string, opening: Opening)
    requires InGeometry(s) && LoadCode(s, slot, drive, name, opening) == OK
    ensures var r, d := LoadFromSlot(s, slot, drive, name, opening), 1000 + drive;
            && d in r.contents && d !in s.contents && slot !in r.contents
            && (slot in s.contents ==> r.contents[d] == s.contents[slot] && (name != "" ==> r.contents[d].name == name))
            && (slot !in s.contents ==> name != "" && opening == Opened(r.contents[d]))
            && forall a :: a != d && a != slot ==>
                 (a in r.contents <==> a in s.contents) && (a in s.contents ==> r.contents[a] == s.contents[a])
  {
  }

  /** A LOAD is refused exactly outside the geometry, for another medium, without one, or for a drive in use. */
  lemma LoadIsGrantedIff(s: State, slot: int, drive: int, name: string, opening: Opening)
    requires InGeometry(s)
    ensures LoadCode(s, slot, drive, name, opening) == OK <==>
            && 0 <= slot < s.geom.slots && 0 <= drive < s.geom.drives && 1000 + drive !in s.contents
            && if slot in s.contents then name == "" || s.contents[slot].name == name else name != "" && opening.Opened?
  {
  }

  /** `r` holds what `s` does but for the elements `a` and `b`. */
  ghost predicate SameBut(s: State, r: State, a: int, b: int) {
    && r.geom == s.geom
    && forall c :: c != a && c != b ==>
         (c in r.contents <==> c in s.contents) && (c in s.contents ==> r.contents[c] == s.contents[c])
  }

  /** When removal is granted, why it is refused, and the one element it changes. */
  lemma RemoveAnswers(s: State, elem: int)
    ensures var code, r := RemoveCode(s, elem), RemoveFrom(s, elem);
            && (code == -22 <==> !IsElement(s.geom, elem))
            && (code == -19 <==> IsElement(s.geom, elem) && elem !in s.contents)
            && (code in {0, -22, -19} && (code != 0 ==> r == s))
            && (code == 0 ==> elem !in r.contents && SameBut(s, r, elem, elem))
  {
  }

  /** The same for placing; a slot that holds the medium already may be filled with it again. */
  lemma PlaceAnswers(s: State, slot: int, t: Tape)
    ensures var code, r := PlaceCode(s, slot, t), PlaceIn(s, slot, t);
            && (code == -22 <==> !(0 <= slot < s.geom.slots))
            && (code == -16 <==> 0 <= slot < s.geom.slots && slot in s.contents && s.contents[slot] != t)
            && (code in {0, -22, -16} && (code != 0 ==> r == s))
            && (code == 0 ==> slot in r.contents && r.contents[slot] == t && SameBut(s, r, slot, slot))
  {
  }

  /** An unload is granted exactly from a loaded drive to an empty data slot, and moves that medium alone. */
  lemma UnloadIsGrantedIff(s: State, drive: int, slot: int)
    requires InGeometry(s)
    ensures var code, r := UnloadCode(s, drive, slot), UnloadToSlot(s, drive, slot);
            && (code == 0 <==> && 0 <= drive < s.geom.drives && 0 <= slot < s.geom.slots
                               && 1000 + drive in s.contents && slot !in s.contents)
            && (code == 0 ==> && slot in r.contents && r.contents[slot] == s.contents[1000 + drive]
                              && 1000 + drive !in r.contents && SameBut(s, r, slot, 1000 + drive))
            && (code != 0 ==> r.contents == s.contents)
  {
  }

  /**
   * Whatever the changer holds: a refused LOAD changes no element except the named slot, and that only
   * by filling it with the opened medium, and no flag.
   */
  lemma RefusedLoadTouchesOneSlot(s: State, slot: int, drive: int, name: string, opening: Opening)
    requires InGeometry(s) && LoadCode(s, slot, drive, name, opening) != OK
    ensures LoadFromSlot(s, slot, drive, name, opening)
         == if LoadOpens(s, slot, drive, name, opening) then PlaceIn(s, slot, opening.tape) else s
  {
  }
}
