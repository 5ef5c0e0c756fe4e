/**
 * Geometry control in the kernel module, as a machine on values: which hosts are registered, their
 * sizes and media, and the published `vtl_instances` text. Operations are atomic under the
 * reconfiguration mutex; memory and device-model outcomes are parameters.
 */
module Geometry {
  import opened Common
  import opened Elements
  import opened Media
  import opened InstanceSpec

  /** A text that fits the ioctl's and the driver's buffer with its terminating zero. */
  type SpecText = s: string | |s| < SPEC_MAX

  datatype HostView = HostView(size: HostSize, maxLun: int, contents: map<int, Tape>)

  /**
   * `live` is `vtl_inst_drives/slots[..vtl_ninstances]`, `published` is `vtl_instances` (empty for
   * NULL), `registered` says the platform devices exist, and `hosts` holds those that were probed.
   */
  datatype Hardware = Hardware(live: seq<HostSize>, published: string, registered: bool, hosts: map<int, HostView>)

  function GeometryOf(z: HostSize): Media.Geometry { Media.Geometry(z.drives, z.slots, MAX_MAILSLOTS) }

  ghost predicate MediaFit(contents: map<int, Tape>, z: HostSize) {
    forall a :: a in contents ==> IsAddress(GeometryOf(z), a)
  }

  /** Probed hosts have the size the arrays say, and no medium lies beyond it. */
  ghost predicate Consistent(s: Hardware) {
    && |s.live| <= MAX_HOSTS && FitsInt32(s.live)
    && (!s.registered ==> s.hosts == map[])
    && forall i :: i in s.hosts ==>
         && 0 <= i < |s.live| && InRange(s.live[i]) && s.hosts[i].size == s.live[i]
         && s.hosts[i].maxLun == s.live[i].drives + 1 && MediaFit(s.hosts[i].contents, s.live[i])
  }

  /** The live geometry is within the caps, and a published text parses to exactly it. */
  ghost predicate Honest(s: Hardware) {
    && (s.live != [] ==> IsLayout(s.live))
    && |s.published| < SPEC_MAX
    && (s.published != "" ==> Parse(s.published) == Some(s.live))
  }

  // ---------------------------------------------------------------- RESIZE_GEOMETRY

  ghost function Resized(h: HostView, z: HostSize): HostView { HostView(z, z.drives + 1, h.contents) }

  /** The hosts brought to the sizes `g`, media and all else untouched. */
  ghost function Reshape(s: Hardware, g: seq<HostSize>): Hardware {
    s.(live := g, hosts := map i | i in s.hosts && 0 <= i < |g| :: Resized(s.hosts[i], g[i]))
  }

  ghost function ResizeCode(s: Hardware, i: int, z: HostSize): int {
    if i !in s.hosts then ENODEV else if MediaFit(s.hosts[i].contents, z) then OK else EBUSY
  }

  /** Every host exists and can hold its media at its new size. */
  ghost predicate AllAccept(s: Hardware, g: seq<HostSize>) {
    forall i :: 0 <= i < |g| ==> ResizeCode(s, i, g[i]) == OK
  }

  ghost function ResizeGeometryCode(s: Hardware, spec: SpecText): int {
    var g := Parse(spec);
    if g.None? || |g.value| != |s.live| then EINVAL
    else if g.value == s.live || AllAccept(s, g.value) then OK
    else EIO
  }

  /** All hosts, or none. */
  ghost function ResizeGeometry(s: Hardware, spec: SpecText): Hardware {
    if ResizeGeometryCode(s, spec) != OK then s
    else
      var g := Parse(spec).value;
      if g == s.live then s.(published := spec) else Reshape(s, g).(published := PrintSpec(g))
  }

  lemma ReshapeToLive(s: Hardware)
    requires Consistent(s)
    ensures Reshape(s, s.live) == s
  {
    assert forall i :: i in s.hosts ==> Resized(s.hosts[i], s.live[i]) == s.hosts[i];
  }

  /** The live sizes with those of hosts `lo..hi-1` taken from `g`: where a resize and its undo pass through. */
  function Mix(live: seq<HostSize>, g: seq<HostSize>, lo: nat, hi: nat): (m: seq<HostSize>)
    requires |g| == |live| && lo <= hi <= |g|
    ensures |m| == |live| && forall k :: 0 <= k < |m| ==> m[k] == if lo <= k < hi then g[k] else live[k]
  {
    live[..lo] + g[lo..hi] + live[hi..]
  }

  ghost predicate AcceptedUpTo(s: Hardware, g: seq<HostSize>, n: nat)
    requires n <= |g|
  {
    forall k :: 0 <= k < n ==> InRange(g[k]) && ResizeCode(s, k, g[k]) == OK
  }

  lemma MixIsConsistent(s: Hardware, g: seq<HostSize>, lo: nat, hi: nat)
    requires Consistent(s) && |g| == |s.live| && lo <= hi <= |g| && AcceptedUpTo(s, g, hi)
    ensures Consistent(Reshape(s, Mix(s.live, g, lo, hi)))
  {
    hide IsAddress, MediaFit;
    assert forall k :: 0 <= k < hi ==> InRange(g[k]) && ResizeCode(s, k, g[k]) == OK;
  }

  /** One host after another: from a mix, changing host `i` to `z` reshapes to the mix with that entry changed. */
  lemma ReshapeOne(s: Hardware, m: seq<HostSize>, i: nat, z: HostSize)
    requires |m| == |s.live| && i < |m| && i in s.hosts && forall j :: j in s.hosts ==> 0 <= j < |m|
    ensures var r := Reshape(s, m);
            i in r.hosts && r.(live := m[i := z], hosts := r.hosts[i := Resized(r.hosts[i], z)])
                == Reshape(s, m[i := z])
  {
    var r, r' := Reshape(s, m), Reshape(s, m[i := z]);
    forall j | j in r'.hosts ensures r'.hosts[j] == r.hosts[i := Resized(r.hosts[i], z)][j] {
    }
  }

  /** The next host of a resize answers as it would have at the start. */
  lemma NextAnswers(s: Hardware, g: seq<HostSize>, i: nat)
    requires Consistent(s) && |g| == |s.live| && i < |g| && AcceptedUpTo(s, g, i) && InRange(g[i])
    ensures var r := Reshape(s, Mix(s.live, g, 0, i));
            && Consistent(r) && ResizeCode(r, i, g[i]) == ResizeCode(s, i, g[i])
            && (ResizeCode(s, i, g[i]) == OK ==>
                  && i in r.hosts && AcceptedUpTo(s, g, i + 1)
                  && r.(live := r.live[i := g[i]], hosts := r.hosts[i := Resized(r.hosts[i], g[i])])
                     == Reshape(s, Mix(s.live, g, 0, i + 1)))
  {
    hide Consistent, MediaFit;
    MixIsConsistent(s, g, 0, i);
    HostsAreListed(s);
    assert Mix(s.live, g, 0, i)[i := g[i]] == Mix(s.live, g, 0, i + 1);
    if i in s.hosts { ReshapeOne(s, Mix(s.live, g, 0, i), i, g[i]); }
  }

  /** Undoing host `j` is accepted: its media were within the old size all along. */
  lemma UndoAnswers(s: Hardware, g: seq<HostSize>, j: nat, n: nat)
    requires Consistent(s) && |g| == |s.live| && j < n <= |g| && AcceptedUpTo(s, g, n)
    ensures var r := Reshape(s, Mix(s.live, g, j, n));
            && Consistent(r) && InRange(s.live[j]) && ResizeCode(r, j, s.live[j]) == OK
            && r.(live := r.live[j := s.live[j]], hosts := r.hosts[j := Resized(r.hosts[j], s.live[j])])
               == Reshape(s, Mix(s.live, g, j + 1, n))
  {
    hide Consistent, MediaFit;
    MixIsConsistent(s, g, j, n);
    HostsAreListed(s);
    assert ResizeCode(s, j, g[j]) == OK;
    assert Mix(s.live, g, j, n)[j := s.live[j]] == Mix(s.live, g, j + 1, n);
    ReshapeOne(s, Mix(s.live, g, j, n), j, s.live[j]);
  }

  lemma HostsAreListed(s: Hardware)
    requires Consistent(s)
    ensures forall i :: i in s.hosts ==>
            0 <= i < |s.live| && InRange(s.live[i]) && MediaFit(s.hosts[i].contents, s.live[i])
    ensures forall i :: i in s.hosts ==> s.hosts[i].size == s.live[i] && s.hosts[i].maxLun == s.live[i].drives + 1
  {
  }

  /** A resize, granted or refused, leaves every host its media. */
  lemma ResizeMovesNoMedia(s: Hardware, spec: SpecText)
    requires Consistent(s)
    ensures var r := ResizeGeometry(s, spec);
            r.hosts.Keys == s.hosts.Keys && forall i :: i in s.hosts ==> r.hosts[i].contents == s.hosts[i].contents
  {
    hide Parse, PrintSpec, ResizeGeometryCode;
    if ResizeGeometryCode(s, spec) == OK {
      ResizeCodeFacts(s, spec);
    }
  }

  /** Every medium of the host is at a data slot or drive that `z` has, or at a mailslot. */
  ghost predicate NothingBeyond(h: HostView, z: HostSize) {
    forall a :: a in h.contents ==> (a < 1000 ==> a < z.slots) && (1000 <= a < 2000 ==> a < 1000 + z.drives)
  }

  /** Every host is there, with no medium outside its size in `g`. */
  ghost predicate NoneBeyond(s: Hardware, g: seq<HostSize>) {
    forall i :: 0 <= i < |g| ==> i in s.hosts && NothingBeyond(s.hosts[i], g[i])
  }

  /** Each host takes its new size and keeps its media. */
  ghost predicate SizesTaken(s: Hardware, g: seq<HostSize>, r: Hardware) {
    && r.live == g && r.registered == s.registered && r.hosts.Keys == s.hosts.Keys
    && forall i :: i in r.hosts ==>
         && 0 <= i < |g| && r.hosts[i].size == g[i] && r.hosts[i].maxLun == g[i].drives + 1
         && r.hosts[i].contents == s.hosts[i].contents
  }

  /**
   * RESIZE_GEOMETRY is granted exactly when the text parses to as many hosts as there are, and names
   * their sizes or leaves no medium of any host outside. Granted, every host has the size it names and
   * the published text means it; refused, nothing has changed.
   */
  lemma ResizeIsGrantedIff(s: Hardware, spec: SpecText)
    requires Consistent(s)
    ensures var g, code, r := Parse(spec), ResizeGeometryCode(s, spec), ResizeGeometry(s, spec);
            && (code == 0 <==>
                  (g.Some? && |g.value| == |s.live| && (g.value == s.live || NoneBeyond(s, g.value))))
            && (code == -22 <==> g.None? || |g.value| != |s.live|)
            && (code != 0 ==> code in {-22, -5} && r == s)
            && (code == 0 ==> SizesTaken(s, g.value, r) && Parse(r.published) == g)
            && (code == 0 ==> r.published == if g.value == s.live then spec else PrintSpec(g.value))
  {
    hide Parse, PrintSpec, AllAccept;
    if Parse(spec).Some? && |Parse(spec).value| == |s.live| {
      AcceptedIsInside(s, Parse(spec).value);
      ParsedIsLayout(spec);
      ParseInvertsPrintIff(Parse(spec).value);
      PrintSpecFits(Parse(spec).value);
    }
  }

  lemma AcceptedIsInside(s: Hardware, g: seq<HostSize>)
    requires Consistent(s) && |g| == |s.live| && IsLayout(g)
    ensures AllAccept(s, g) <==> NoneBeyond(s, g)
  {
    hide Consistent, MediaFit, NothingBeyond;
    HostsAreListed(s);
    forall i | 0 <= i < |g| && i in s.hosts
      ensures MediaFit(s.hosts[i].contents, g[i]) <==> NothingBeyond(s.hosts[i], g[i])
    {
      FitIsInside(s.hosts[i], s.live[i], g[i]);
    }
    assert forall i :: 0 <= i < |g| ==>
      (ResizeCode(s, i, g[i]) == OK <==> i in s.hosts && NothingBeyond(s.hosts[i], g[i]));
  }

  lemma FitIsInside(h: HostView, was: HostSize, z: HostSize)
    requires InRange(was) && InRange(z) && MediaFit(h.contents, was)
    ensures MediaFit(h.contents, z) <==> NothingBeyond(h, z)
  {
  }

  // ---------------------------------------------------------------- registration and SET_INSTANCES

  /**
   * How registering goes: whether the device table is allocated, how many devices are added before
   * one fails, and which added devices their probe leaves without a host.
   */
  datatype Registration = Registration(table: bool, added: nat, unprobed: set<int>, error: Errno)

  predicate Registers(r: Registration, n: nat) { n > 0 && r.table && r.added >= n }

  function FreshHost(z: HostSize): HostView { HostView(z, z.drives + 1, map[]) }

  ghost function FreshHosts(g: seq<HostSize>, unprobed: set<int>): map<int, HostView> {
    map i | 0 <= i < |g| && i !in unprobed && InRange(g[i]) :: FreshHost(g[i])
  }

  /** `vtl_register_all_pdevs` with `g` in the arrays; only a failure past the table clears the count. */
  ghost function Register(g: seq<HostSize>, published: string, r: Registration): Hardware {
    if Registers(r, |g|) then Hardware(g, published, true, FreshHosts(g, r.unprobed))
    else Hardware(if r.table then [] else g, published, false, map[])
  }

  ghost function RegisterCode(g: seq<HostSize>, r: Registration): int {
    if g == [] then EINVAL else if Registers(r, |g|) then OK else if r.table then r.error else ENOMEM
  }

  function Unregister(s: Hardware): Hardware {
    Hardware(if s.registered then [] else s.live, s.published, false, map[])
  }

  /** The previous geometry registered again; when that fails too, nothing is published any more. */
  ghost function Rollback(prev: Hardware, r: Registration): Hardware {
    if Registers(r, |prev.live|)
    then Register(prev.live, if prev.published != "" then prev.published else PrintSpec(prev.live), r)
    else Register(prev.live, "", r)
  }

  /** A SET_INSTANCES request: the text, the settings that may refuse it, and how registering goes. */
  datatype Request = Request(spec: SpecText, allowed: bool, busy: bool, first: Registration, second: Registration)

  ghost predicate PastRefusals(s: Hardware, q: Request) {
    q.allowed && Parse(q.spec).Some? && (q.busy ==> Parse(q.spec).value == s.live)
  }

  ghost function SetInstancesCode(s: Hardware, q: Request): int {
    var g := Parse(q.spec);
    if !q.allowed then EBUSY
    else if g.None? then EINVAL
    else if g.value == s.live then OK
    else if q.busy then EBUSY
    else if Registers(q.first, |g.value|) then OK
    else if s.live != [] && Registers(q.second, |s.live|) then EIO
    else ENODEV
  }

  ghost function SetInstances(s: Hardware, q: Request): Hardware {
    if !PastRefusals(s, q) then s
    else
      var g := Parse(q.spec).value;
      if g == s.live then s.(published := q.spec)
      else if Registers(q.first, |g|) then Register(g, q.spec, q.first)
      else if s.live == [] then Register(g, s.published, q.first)
      else Rollback(s, q.second)
  }

  /** What "geometry `g` is registered" means: the devices exist, one per entry, and the arrays say so. */
  ghost predicate RegisteredAs(s: Hardware, g: seq<HostSize>) { s.registered && s.live == g }

  /**
   * Past its refusal checks SET_INSTANCES ends in one of three states. Success means the requested
   * geometry is registered exactly when something was registered before or a rebuild took place:
   * the shortcut for an unchanged geometry looks at the arrays only.
   */
  lemma SetInstancesOutcomes(s: Hardware, q: Request)
    requires Consistent(s) && PastRefusals(s, q)
    ensures var code, r := SetInstancesCode(s, q), SetInstances(s, q);
            && (code == OK || code == EIO || code == ENODEV)
            && (code == OK ==> r.live == Parse(q.spec).value && r.published == q.spec)
            && (code == OK ==> (RegisteredAs(r, Parse(q.spec).value) <==>
               s.registered || Parse(q.spec).value != s.live))
            && (code == EIO ==> RegisteredAs(r, s.live))
            && (code == ENODEV ==> !r.registered && r.hosts == map[])
  {
  }

  /**
   * A text that is not the live geometry is refused exactly when the change is not allowed, the text
   * does not parse, or the driver is busy; a refusal leaves everything.
   */
  lemma SetInstancesIsRefusedIff(s: Hardware, q: Request)
    ensures SetInstancesCode(s, q) == -16 <==>
            !q.allowed || (q.busy && Parse(q.spec).Some? && Parse(q.spec).value != s.live)
    ensures SetInstancesCode(s, q) == -22 <==> q.allowed && Parse(q.spec).None?
    ensures SetInstancesCode(s, q) in {-16, -22} ==> SetInstances(s, q) == s
    ensures SetInstancesCode(s, q) !in {-16, -22} ==> SetInstancesCode(s, q) in {0, -5, -19}
  {
    hide Parse;
  }

  /** A busy driver keeps its hosts, their sizes and media, whatever is asked; at most the text changes. */
  lemma BusyKeepsHosts(s: Hardware, q: Request)
    requires q.busy
    ensures var r := SetInstances(s, q);
            && r.hosts == s.hosts && r.live == s.live && r.registered == s.registered
            && (r.published == s.published || (SetInstancesCode(s, q) == 0 && r.published == q.spec))
  {
    hide Parse;
  }

  /** Host `i` is there if its probe made it, with the size `g[i]` and no medium, and no other host is. */
  ghost predicate EmptyHosts(s: Hardware, g: seq<HostSize>, unprobed: set<int>) {
    && s.registered && s.live == g
    && (forall i :: i in s.hosts <==> 0 <= i < |g| && i !in unprobed && InRange(g[i]))
    && (forall i :: i in s.hosts ==>
          && s.hosts[i].size == g[i] && s.hosts[i].maxLun == g[i].drives + 1 && s.hosts[i].contents == map[])
  }

  predicate AllAdded(g: seq<HostSize>, r: Registration) { r.table && r.added >= |g| }

  /**
   * A rebuild, started exactly when no shortcut and no refusal applies. It ends with the requested
   * hosts, with the former ones, or with none, as the devices can be added; in each case no medium is left.
   */
  lemma RebuildOutcome(s: Hardware, q: Request)
    requires Consistent(s) && q.allowed && !q.busy && Parse(q.spec).Some? && Parse(q.spec).value != s.live
    ensures var g, code, r := Parse(q.spec).value, SetInstancesCode(s, q), SetInstances(s, q);
            && (code == 0 <==> AllAdded(g, q.first))
            && (code == -5 <==> !AllAdded(g, q.first) && s.live != [] && AllAdded(s.live, q.second))
            && (code == 0 ==> EmptyHosts(r, g, q.first.unprobed) && r.published == q.spec)
            && (code == -5 ==> EmptyHosts(r, s.live, q.second.unprobed))
            && (code == -5 ==> r.published == if s.published != "" then s.published else PrintSpec(s.live))
            && (code != 0 && code != -5 ==> code == -19 && !r.registered && r.hosts == map[])
            && (code == -19 && s.live != [] ==> r.published == "")
  {
    hide Parse, PrintSpec;
    assert Parse(q.spec).value != [] by { ParsedIsLayout(q.spec); }
  }

  lemma ParsedIsLayout(spec: SpecText)
    ensures Parse(spec).Some? ==> IsLayout(Parse(spec).value)
  {
  }

  /** A text that parses to one host of `z`. */
  function OneHost(z: HostSize): (t: SpecText)
    requires InRange(z)
    ensures Parse(t) == Some([z]) && t != ""
  {
    ParseInvertsPrintIff([z]);
    PrintSpecFits([z]);
    PrintedIsNotEmpty([z]);
    PrintSpec([z])
  }

  /** Two failed table allocations leave the old geometry in the arrays; asking for it then succeeds with no host. */
  lemma SuccessWithoutHostsExample(s: Hardware, r: Registration)
    requires Consistent(s) && s.live == [HostSize(1, 1)] && !r.table
    ensures var s1 := SetInstances(s, Request(OneHost(HostSize(1, 2)), true, false, r, r));
            var q := Request(OneHost(HostSize(1, 1)), true, false, r, r);
            SetInstancesCode(s1, q) == OK && !SetInstances(s1, q).registered && s1.live == s.live
  {
    hide Parse, PrintSpec;
    assert [HostSize(1, 2)][0] != s.live[0];
  }

  // ---------------------------------------------------------------- module load

  /** `vtl_parse_instances_into`: without a parameter, one host of the default size, unclamped. */
  function InitialGeometry(param: SpecText, default: HostSize): Option<seq<HostSize>> {
    if param == "" then Some([default]) else Parse(param)
  }

  ghost function Loaded(param: SpecText, default: HostSize, r: Registration): Option<Hardware> {
    var g := InitialGeometry(param, default);
    if g.None? || !Registers(r, |g.value|) then None
    else Some(Register(g.value, PrintSpec(g.value), r))
  }

  /** The text published at load parses to the live geometry exactly when the defaults, if used, are within the caps. */
  lemma LoadIsHonestIff(param: SpecText, default: HostSize, r: Registration)
    requires IsInt32(default.drives) && IsInt32(default.slots) && Loaded(param, default, r).Some?
    ensures var s := Loaded(param, default, r).value;
            Consistent(s) && (Honest(s) <==> param != "" || InRange(default))
  {
    hide Parse, PrintSpec;
    var g := InitialGeometry(param, default).value;
    ParseInvertsPrintIff(g);
    PrintSpecFits(g);
    PrintedIsNotEmpty(g);
    if param == "" {
      assert g[0] == default;
    }
  }

  /**
   * The module loads exactly when its parameter is empty or parses and every device can be added; it
   * then has empty hosts of the sizes named, or one of the default size, and their text published.
   */
  lemma LoadOutcome(param: SpecText, default: HostSize, r: Registration)
    ensures var g, s := if param == "" then Some([default]) else Parse(param), Loaded(param, default, r);
            && (s.Some? <==> g.Some? && AllAdded(g.value, r))
            && (s.Some? ==> EmptyHosts(s.value, g.value, r.unprobed) && s.value.published == PrintSpec(g.value))
  {
    hide Parse, PrintSpec;
    ParsedIsLayout(param);
  }

  /** Loaded without a parameter and with a default of 20 drives, the module publishes a text for 8. */
  lemma UnclampedDefaultExample(r: Registration)
    requires Registers(r, 1)
    ensures var s := Loaded("", HostSize(20, 10), r);
            s.Some? && s.value.live == [HostSize(20, 10)] && !Honest(s.value)
  {
    hide Honest, PrintSpec;
    LoadIsHonestIff("", HostSize(20, 10), r);
  }

  lemma PrintedIsNotEmpty(g: seq<HostSize>)
    requires g != []
    ensures PrintSpec(g) != ""
  {
    PrintedStartsPlainly(g[0]);
  }

  // ---------------------------------------------------------------- every run

  datatype Op =
    | OpResize(spec: SpecText)
    | OpSet(request: Request)
    | OpMedia(host: int, op: Media.Op, loaded: set<Tape>)

  /** A changer operation on one host; `loaded` is what the `loaded` flags are at that time. */
  ghost function Handle(h: HostView, op: Media.Op, loaded: set<Tape>): HostView {
    h.(contents := Media.Step(State(GeometryOf(h.size), h.contents, loaded), op).contents)
  }

  ghost function Step(s: Hardware, op: Op): Hardware {
    match op
    case OpResize(spec) => ResizeGeometry(s, spec)
    case OpSet(q) => SetInstances(s, q)
    case OpMedia(i, m, loaded) => if i in s.hosts then s.(hosts := s.hosts[i := Handle(s.hosts[i], m, loaded)]) else s
  }

  ghost function Run(s: Hardware, ops: seq<Op>): Hardware {
    if ops == [] then s else Step(Run(s, ops[..|ops| - 1]), ops[|ops| - 1])
  }

  lemma MediaStaysInside(s: State, op: Media.Op)
    requires forall a :: a in s.contents ==> IsAddress(s.geom, a)
    ensures forall a :: a in Media.Step(s, op).contents ==> IsAddress(s.geom, a)
  {
  }

  lemma ResizeKeeps(s: Hardware, spec: SpecText)
    requires Consistent(s) && Honest(s)
    ensures Consistent(ResizeGeometry(s, spec)) && Honest(ResizeGeometry(s, spec))
  {
    hide Parse, PrintSpec, ResizeGeometryCode, IsAddress;
    if ResizeGeometryCode(s, spec) == OK {
      ResizeCodeFacts(s, spec);
      var g := Parse(spec).value;
      ParseInvertsPrintIff(g);
      PrintSpecFits(g);
    }
  }

  lemma ResizeCodeFacts(s: Hardware, spec: SpecText)
    requires ResizeGeometryCode(s, spec) == OK
    ensures Parse(spec).Some? && |Parse(spec).value| == |s.live|
    ensures Parse(spec).value == s.live || AllAccept(s, Parse(spec).value)
  {
    hide Parse, AllAccept;
  }

  lemma SetKeeps(s: Hardware, q: Request)
    requires Consistent(s) && Honest(s)
    ensures Consistent(SetInstances(s, q)) && Honest(SetInstances(s, q))
  {
    hide Parse, PrintSpec;
    if s.live != [] {
      ParseInvertsPrintIff(s.live);
      PrintSpecFits(s.live);
    }
  }

  /**
   * Over every run of geometry and changer operations, failed resizes and rollbacks included, a
   * published text parses to the live host count and sizes, and no medium lies outside its host.
   */
  lemma {:induction false} RunKeepsHonest(s: Hardware, ops: seq<Op>)
    requires Consistent(s) && Honest(s)
    ensures Consistent(Run(s, ops)) && Honest(Run(s, ops))
  {
    hide Consistent, Honest, ResizeGeometry, SetInstances;
    if ops != [] {
      var before, op := Run(s, ops[..|ops| - 1]), ops[|ops| - 1];
      RunKeepsHonest(s, ops[..|ops| - 1]);
      match op
      case OpResize(spec) => ResizeKeeps(before, spec);
      case OpSet(q) => SetKeeps(before, q);
      case OpMedia(i, m, loaded) => HandleKeeps(before, i, m, loaded);
    }
  }

  lemma HandleKeeps(s: Hardware, i: int, op: Media.Op, loaded: set<Tape>)
    requires Consistent(s) && Honest(s)
    ensures Consistent(Step(s, OpMedia(i, op, loaded))) && Honest(Step(s, OpMedia(i, op, loaded)))
  {
    hide Media.Step, Parse, IsAddress, InRange;
    if i in s.hosts {
      MediaStaysInside(State(GeometryOf(s.hosts[i].size), s.hosts[i].contents, loaded), op);
    }
  }
}
