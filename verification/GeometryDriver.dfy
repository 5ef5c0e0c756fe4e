/** The driver's own state for geometry control, and the loops that work on it with undo and rollback. */
module GeometryDriver {
  import opened Common
  import opened Elements
  import opened Media
  import opened InstanceSpec
  import opened Geometry

  /** `vtl_changer_prepare_shrink`: media in the drives and slots about to go refuse the shrink. */
  method PrepareShrink(ch: Changer, newDrives: int, newSlots: int) returns (ret: int)
    requires ch.Valid() && InRange(HostSize(newDrives, newSlots))
    ensures ret == if MediaFit(ch.Contents(), HostSize(newDrives, newSlots)) then OK else EBUSY
  {
    var i := newDrives;
    while i < ch.numDrives
      invariant newDrives <= i && forall j :: newDrives <= j < i && j < ch.numDrives ==> ch.drives[j] == null
    {
      if ch.drives[i] != null {
        assert DRIVE_BASE + i in ch.Contents();
        return EBUSY;
      }
      i := i + 1;
    }
    i := newSlots;
    while i < ch.numSlots
      invariant newSlots <= i && forall j :: newSlots <= j < i && j < ch.numSlots ==> !ch.slots[j].occupied
    {
      if ch.slots[i].occupied {
        assert i in ch.Contents();
        return EBUSY;
      }
      i := i + 1;
    }
    forall a | a in ch.Contents() ensures IsAddress(GeometryOf(HostSize(newDrives, newSlots)), a) {
    }
    return OK;
  }

  class Host {
    const changer: Changer
    var maxLun: int

    /** `vtl_probe` with a valid geometry. */
    constructor (z: HostSize)
      requires InRange(z)
      ensures fresh(changer) && fresh(changer.slots) && fresh(changer.mailslots) && fresh(changer.drives)
      ensures changer.Valid() && View() == FreshHost(z)
    {
      changer := new Changer(z.drives, z.slots);
      maxLun := z.drives + 1;
    }

    ghost function View(): HostView
      requires changer.Valid()
      reads this, changer, changer.slots, changer.mailslots, changer.drives
    {
      HostView(HostSize(changer.numDrives, changer.numSlots), maxLun, changer.Contents())
    }

    ghost function Parts(): set<object> {
      {this, changer, changer.slots, changer.mailslots, changer.drives}
    }

    /** The changing part of `vtl_resize_host_geometry`. */
    method Resize(z: HostSize) returns (ret: int)
      requires changer.Valid() && InRange(z)
      requires MediaFit(View().contents, View().size) && View().maxLun == View().size.drives + 1
      modifies this, changer
      ensures changer.Valid()
      ensures ret == if MediaFit(old(View()).contents, z) then OK else EBUSY
      ensures View() == if ret == OK then Resized(old(View()), z) else old(View())
    {
      if z == HostSize(changer.numDrives, changer.numSlots) { return OK; }
      ret := OK;
      if z.drives < changer.numDrives || z.slots < changer.numSlots {
        ret := PrepareShrink(changer, z.drives, z.slots);
        if ret != OK { return; }
      }
      ghost var before := changer.Contents();
      forall i | z.slots <= i < MAX_SLOTS ensures changer.slots[i] == EMPTY {
        assert i !in before;
      }
      forall i | z.drives <= i < MAX_DRIVES ensures changer.drives[i] == null {
        assert DRIVE_BASE + i !in before;
      }
      changer.numDrives, changer.numSlots := z.drives, z.slots;
      maxLun := z.drives + 1;
      assert changer.Contents() == before;
    }
  }

  /** The parsed sizes, in arrays of the caller's own. */
  method ParseToSizes(spec: string) returns (ret: int, g: seq<HostSize>)
    ensures ret == if Parse(spec).Some? then OK else EINVAL
    ensures ret == OK ==> g == Parse(spec).value
  {
    hide Parse, Stored;
    var drives, slots := new int[MAX_HOSTS], new int[MAX_HOSTS];
    var ninst;
    ret, ninst := ParseSpecTokens(spec, drives, slots);
    g := Stored(drives, slots, ninst);
  }

  class Driver {
    var ninstances: int
    const instDrives: array<int>
    const instSlots: array<int>
    var published: string
    /** `vtl_pdev_tab` is not NULL. */
    var registered: bool
    /** The probed hosts by platform-device id. */
    const hosts: array<Host?>

    ghost function HostParts(): set<object>
      reads hosts
    {
      set i, o | 0 <= i < hosts.Length && hosts[i] != null && o in hosts[i].Parts() :: o
    }

    ghost predicate HostsValid()
      reads hosts, HostParts()
    {
      && hosts.Length == MAX_HOSTS
      && (forall i :: 0 <= i < MAX_HOSTS && hosts[i] != null ==> Sound(i))
      && (forall i, j :: 0 <= i < j < MAX_HOSTS && hosts[i] != null && hosts[j] != null ==>
            hosts[i] != hosts[j] && hosts[i].changer != hosts[j].changer)
    }

    ghost predicate Sound(i: int)
      requires 0 <= i < hosts.Length && hosts[i] != null
      reads hosts, hosts[i].Parts()
    {
      hosts[i].changer.Valid()
    }

    ghost function HostViews(): map<int, HostView>
      requires HostsValid()
      reads hosts, HostParts()
    {
      map i | 0 <= i < MAX_HOSTS && hosts[i] != null && Sound(i) :: ViewAt(i)
    }

    ghost function ViewAt(i: int): HostView
      requires 0 <= i < hosts.Length && hosts[i] != null && Sound(i)
      reads hosts, hosts[i].Parts()
    {
      hosts[i].View()
    }

    ghost predicate Valid()
      reads this, instDrives, instSlots, hosts, HostParts()
    {
      && instDrives.Length == instSlots.Length == MAX_HOSTS && instDrives != instSlots
      && 0 <= ninstances <= MAX_HOSTS && hosts.Length == MAX_HOSTS && |published| < SPEC_MAX
      && {this, instDrives, instSlots, hosts} !! HostParts()
      && (var own: set<object> := {this, instDrives, instSlots}; hosts !in own)
      && HostsValid()
    }

    ghost function Abs(): Hardware
      requires Valid()
      reads this, instDrives, instSlots, hosts, HostParts()
    {
      Hardware(Stored(instDrives, instSlots, ninstances), published, registered, HostViews())
    }

    /** The host found by `vtl_host_by_instance` resized; the others are other objects. */
    method ResizeProbed(i: nat, z: HostSize) returns (ret: int)
      requires HostsValid() && i < MAX_HOSTS && hosts[i] != null && InRange(z)
      requires var v := hosts[i].View(); MediaFit(v.contents, v.size) && v.maxLun == v.size.drives + 1
      modifies HostParts()
      ensures HostsValid() && HostParts() == old(HostParts())
      ensures i in old(HostViews()) && ret == if MediaFit(old(HostViews())[i].contents, z) then OK else EBUSY
      ensures HostViews() == if ret == OK then old(HostViews())[i := Resized(old(HostViews())[i], z)]
              else old(HostViews())
    {
      hide MediaFit, Resized, InRange, Sound, ViewAt, HostParts, HostsValid, HostViews;
      ghost var before := HostViews();
      HostAt(i);
      AllHosts();
      ret := ResizeFramed(i, z);
      AllHosts();
      forall j ensures j in HostViews() <==> j in before {
      }
      forall j | j in before && j != i ensures HostViews()[j] == before[j] {
        assert HostViews()[j] == ViewAt(j);
        assert before[j] == old(ViewAt(j));
      }
      SameButOne(before, HostViews(), i);
    }

    lemma AllHosts()
      requires HostsValid()
      ensures hosts.Length == MAX_HOSTS
      ensures forall j :: j in HostViews() <==> 0 <= j < MAX_HOSTS && hosts[j] != null
      ensures forall j :: 0 <= j < MAX_HOSTS && hosts[j] != null ==>
              Sound(j) && HostViews()[j] == hosts[j].View() == ViewAt(j)
    {
    }

    method ResizeFramed(i: nat, z: HostSize) returns (ret: int)
      requires HostsValid() && i < MAX_HOSTS && hosts[i] != null && InRange(z)
      requires var v := ViewAt(i); MediaFit(v.contents, v.size) && v.maxLun == v.size.drives + 1
      modifies HostParts()
      ensures HostsValid() && HostParts() == old(HostParts())
      ensures forall j :: 0 <= j < MAX_HOSTS ==> hosts[j] == old(hosts[j])
      ensures ret == if MediaFit(old(ViewAt(i)).contents, z) then OK else EBUSY
      ensures ViewAt(i) == if ret == OK then Resized(old(ViewAt(i)), z) else old(ViewAt(i))
      ensures forall j :: 0 <= j < MAX_HOSTS && j != i && hosts[j] != null ==> ViewAt(j) == old(ViewAt(j))
    {
      PartsApart(i);
      hide MediaFit, Resized, IsAddress, InRange, Sound, ViewAt, HostParts, Host.Parts;
      ret := ResizeSound(i, z);
    }

    lemma PartsApart(i: nat)
      requires HostsValid() && i < MAX_HOSTS && hosts[i] != null
      ensures hosts[i] in HostParts() && hosts[i].changer in HostParts() && {hosts} !! {hosts[i], hosts[i].changer}
      ensures forall j :: 0 <= j < MAX_HOSTS && j != i && hosts[j] != null ==>
                {hosts[i], hosts[i].changer} !! hosts[j].Parts()
    {
      assert hosts[i].Parts() <= HostParts();
    }

    method ResizeSound(i: nat, z: HostSize) returns (ret: int)
      requires i < hosts.Length && hosts[i] != null && Sound(i) && InRange(z)
      requires var v := ViewAt(i); MediaFit(v.contents, v.size) && v.maxLun == v.size.drives + 1
      modifies hosts[i], hosts[i].changer
      ensures Sound(i)
      ensures ret == if MediaFit(old(ViewAt(i)).contents, z) then OK else EBUSY
      ensures ViewAt(i) == if ret == OK then Resized(old(ViewAt(i)), z) else old(ViewAt(i))
    {
      hide Changer.Valid, Changer.Contents, MediaFit, Resized, Host.View, IsAddress, InRange;
      ret := hosts[i].Resize(z);
    }

    /** `vtl_resize_host_geometry` */
    method ResizeHost(i: int, drives: int, slots: int) returns (ret: int)
      requires Valid() && Consistent(Abs())
      modifies instDrives, instSlots, HostParts()
      ensures Valid() && HostParts() == old(HostParts())
      ensures var s, z := old(Abs()), Clamped(HostSize(drives, slots));
              && ret == (if i < 0 || i >= MAX_HOSTS then EINVAL else ResizeCode(s, i, z))
              && (ret != OK ==> Abs() == s)
              && (ret == OK ==>
                    i < |s.live| && Abs() == s.(live := s.live[i := z], hosts := s.hosts[i := Resized(s.hosts[i], z)]))
    {
      hide Consistent, MediaFit, Resized, Stored, HostsValid, HostViews, HostParts, InRange;
      ClampedIsInRange(HostSize(drives, slots));
      if i < 0 || i >= MAX_HOSTS { return EINVAL; }
      var z := Clamped(HostSize(drives, slots));
      HostAt(i);
      if hosts[i] == null { return ENODEV; }
      HostsAreListed(Abs());
      ret := ResizeProbed(i, z);
      if ret == OK && i < ninstances {
        StoreSize(i, z);
      }
    }

    lemma HostAt(i: nat)
      requires HostsValid() && i < MAX_HOSTS
      ensures i < hosts.Length && (i in HostViews() <==> hosts[i] != null)
      ensures hosts[i] != null ==> Sound(i) && HostViews()[i] == hosts[i].View() == ViewAt(i)
    {
    }

    /** The size of host `i` recorded in the instance arrays. */
    method StoreSize(i: nat, z: HostSize)
      requires Valid() && i < ninstances
      modifies instDrives, instSlots
      ensures Valid() && HostParts() == old(HostParts()) && HostViews() == old(HostViews())
      ensures Stored(instDrives, instSlots, ninstances) == old(Stored(instDrives, instSlots, ninstances))[i := z]
    {
      hide Stored, HostsValid, HostViews;
      instDrives[i], instSlots[i] := z.drives, z.slots;
    }

    /** The loop of RESIZE_GEOMETRY: host after host, and back again from the first that refuses. */
    method ResizeAll(g: seq<HostSize>, saved: seq<HostSize>) returns (ret: int)
      requires Valid() && Consistent(Abs()) && forall i :: 0 <= i < |g| ==> InRange(g[i])
      requires saved == Abs().live && |g| == |saved| <= MAX_HOSTS
      modifies instDrives, instSlots, HostParts()
      ensures Valid() && HostParts() == old(HostParts())
      ensures ret == if AllAccept(old(Abs()), g) then OK else EIO
      ensures Abs() == if ret == OK then Reshape(old(Abs()), g) else old(Abs())
    {
      hide Consistent, ResizeCode, Reshape, Valid, Abs, HostParts, Clamped, InRange, Mix;
      ghost var s := Abs();
      ReshapeToLive(s);
      assert Mix(s.live, g, 0, 0) == s.live;
      for i := 0 to |g|
        invariant Valid() && HostParts() == old(HostParts())
        invariant Abs() == Reshape(s, Mix(s.live, g, 0, i)) && AcceptedUpTo(s, g, i)
      {
        NextAnswers(s, g, i);
        InRangeIsClamped(g[i]);
        ret := ResizeHost(i, g[i].drives, g[i].slots);
        if ret != OK {
          ResizeBack(s, g, i, saved);
          return EIO;
        }
      }
      assert Mix(s.live, g, 0, |g|) == g;
      ret := OK;
    }

    /** The undo loop: hosts `0..n-1` get the saved sizes back, and none of them can refuse. */
    method ResizeBack(ghost s: Hardware, ghost g: seq<HostSize>, n: nat, saved: seq<HostSize>)
      requires Valid() && n <= |g| == |s.live| <= MAX_HOSTS && Consistent(s) && saved == s.live
      requires AcceptedUpTo(s, g, n) && Abs() == Reshape(s, Mix(s.live, g, 0, n))
      modifies instDrives, instSlots, HostParts()
      ensures Valid() && HostParts() == old(HostParts())
      ensures Abs() == s
    {
      hide Consistent, ResizeCode, Reshape, Valid, Abs, HostParts, Clamped, InRange, Mix, AcceptedUpTo;
      for j := 0 to n
        invariant Valid() && HostParts() == old(HostParts())
        invariant Abs() == Reshape(s, Mix(s.live, g, j, n))
      {
        UndoAnswers(s, g, j, n);
        InRangeIsClamped(saved[j]);
        var ret := ResizeHost(j, saved[j].drives, saved[j].slots);
      }
      assert Mix(s.live, g, n, n) == s.live;
      ReshapeToLive(s);
    }

    // -------------------------------------------------------------- publishing

    /** `vtl_publish_instances_spec`, the copy cut at the buffer's end. */
    method Publish(spec: string)
      requires Valid()
      modifies this`published
      ensures Valid() && HostParts() == old(HostParts())
      ensures Abs() == if spec == "" then old(Abs())
                       else old(Abs()).(published := if |spec| < SPEC_MAX then spec else spec[..SPEC_MAX - 1])
    {
      hide HostsValid, HostViews, Stored;
      if spec == "" { return; }
      published := if |spec| < SPEC_MAX then spec else spec[..SPEC_MAX - 1];
    }

    /** `vtl_publish_live_instances_spec` */
    method PublishLive()
      requires Valid() && FitsInt32(Abs().live)
      modifies this`published
      ensures Valid() && HostParts() == old(HostParts())
      ensures Abs() == if old(Abs()).live == [] then old(Abs()) else old(Abs()).(published := PrintSpec(Abs().live))
    {
      hide HostsValid, HostViews, PrintSpec, Stored;
      var text := PrintLive(instDrives, instSlots, ninstances);
      if text.Some? {
        PrintSpecFits(Abs().live);
        PrintedIsNotEmpty(Abs().live);
        Publish(text.value);
      }
    }

    /** The text parsed, the driver untouched. */
    method ParseText(spec: string) returns (ret: int, g: seq<HostSize>)
      requires Valid()
      ensures Valid() && HostParts() == old(HostParts()) && Abs() == old(Abs())
      ensures ret == if Parse(spec).Some? then OK else EINVAL
      ensures ret == OK ==> g == Parse(spec).value
    {
      hide HostsValid, HostViews, Parse, Stored;
      ret, g := ParseToSizes(spec);
    }

    /** `vtl_spec_matches_live` */
    method MatchesLive(g: seq<HostSize>) returns (r: bool)
      requires Valid()
      ensures Valid() && HostParts() == old(HostParts()) && Abs() == old(Abs())
      ensures r <==> g != [] && g == Abs().live
    {
      if |g| != ninstances || |g| <= 0 { return false; }
      for i := 0 to |g|
        invariant forall k :: 0 <= k < i ==> g[k] == HostSize(instDrives[k], instSlots[k])
      {
        if instDrives[i] != g[i].drives || instSlots[i] != g[i].slots {
          assert Abs().live[i] != g[i];
          return false;
        }
      }
      return true;
    }

    lemma LiveCount()
      requires Valid()
      ensures instDrives.Length == instSlots.Length == hosts.Length == MAX_HOSTS
      ensures |Abs().live| == ninstances <= MAX_HOSTS && Abs().live == Stored(instDrives, instSlots, ninstances)
      ensures Abs().registered == registered && Abs().published == published
    {
    }

    /** `vtl_apply_geom_resize_only`: all hosts take the new sizes, or every one is as it was. */
    method ApplyResizeOnly(spec: SpecText) returns (ret: int)
      requires Valid() && Consistent(Abs())
      modifies this`published, instDrives, instSlots, HostParts()
      ensures Valid() && HostParts() == old(HostParts())
      ensures ret == ResizeGeometryCode(old(Abs()), spec)
      ensures Abs() == ResizeGeometry(old(Abs()), spec)
    {
      hide Valid, HostParts, Abs, PrintSpec, Parse, Consistent, AllAccept, InRange, Reshape;
      if spec == "" {
        EmptyIsRefused();
        return EINVAL;
      }
      var g;
      ret, g := ParseText(spec);
      if ret != OK { return; }
      LiveCount();
      if |g| != ninstances || ninstances <= 0 { return EINVAL; }
      var matches := MatchesLive(g);
      if matches {
        Publish(spec);
        return OK;
      }
      ret := ResizeAll(g, Stored(instDrives, instSlots, ninstances));
      if ret == OK {
        ReshapedTo(old(Abs()), g);
        Publish(spec);
        PublishLive();
      }
    }

    // -------------------------------------------------------------- registering

    ghost predicate NoHosts()
      requires hosts.Length == MAX_HOSTS
      reads hosts
    {
      forall i :: 0 <= i < MAX_HOSTS ==> hosts[i] == null
    }

    lemma NoHostsNoViews()
      requires hosts.Length == MAX_HOSTS
      ensures NoHosts() ==> HostParts() == {} && HostsValid() && HostViews() == map[]
      ensures HostsValid() && HostViews() == map[] ==> NoHosts()
    {
      if HostsValid() && HostViews() == map[] {
        forall i | 0 <= i < MAX_HOSTS ensures hosts[i] == null {
          assert i !in HostViews();
        }
      }
    }

    /** `vtl_unregister_all_hosts`: without a device table there is nothing to unregister, and the count stays. */
    method UnregisterAll()
      requires Valid() && (!registered ==> NoHosts())
      modifies this, hosts
      ensures Valid() && NoHosts() && HostParts() == {}
      ensures Abs() == Unregister(old(Abs()))
    {
      hide Stored;
      if registered {
        for j := 0 to MAX_HOSTS
          invariant forall k :: 0 <= k < j ==> hosts[k] == null
          modifies hosts
        {
          hosts[j] := null;
        }
        registered := false;
        ninstances := 0;
        assert Stored(instDrives, instSlots, 0) == [];
      }
      NoHostsNoViews();
    }

    /** `vtl_register_all_pdevs`; the first failing device takes all of them down again. */
    method RegisterAll(r: Registration) returns (ret: int)
      requires Valid() && NoHosts() && !registered
      modifies this, hosts
      ensures Valid() && fresh(HostParts())
      ensures ret == RegisterCode(old(Abs()).live, r)
      ensures Abs() == Register(old(Abs()).live, old(published), r)
      ensures ret != OK ==> NoHosts() && !registered
    {
      NoHostsNoViews();
      LiveCount();
      hide FreshHosts, HostsValid, HostViews, Stored, Valid, Abs, HostParts;
      if ninstances <= 0 || ninstances > MAX_HOSTS { return EINVAL; }
      if !r.table { return ENOMEM; }
      StartDevices(Abs().live, r.unprobed);
      var all := AddDevices(r);
      if !all {
        LiveCount();
        UnregisterAll();
        return r.error;
      }
      ret := OK;
    }

    /** The loop over the devices, up to the first that cannot be added. */
    method AddDevices(r: Registration) returns (all: bool)
      requires Valid() && NoHosts() && registered && HostParts() == {}
               && Abs().hosts == FreshHosts(Abs().live[..0], r.unprobed)
      modifies hosts
      ensures Valid() && fresh(HostParts())
      ensures all <==> r.added >= ninstances
      ensures all ==> Abs() == old(Abs()).(hosts := FreshHosts(old(Abs()).live, r.unprobed))
      ensures !all ==> Abs().(hosts := map[]) == old(Abs()).(hosts := map[])
    {
      LiveCount();
      hide FreshHosts, HostsValid, HostViews, Stored, Valid, Abs, HostParts;
      ghost var s := Abs();
      ghost var made: set<object> := {};
      for i := 0 to ninstances
        invariant Valid() && fresh(made) && HostParts() <= made && i <= r.added
        invariant forall k :: i <= k < MAX_HOSTS ==> hosts[k] == null
        invariant Abs() == s.(hosts := FreshHosts(s.live[..i], r.unprobed))
      {
        LiveCount();
        if i >= r.added { return false; }
        NextDevice(s.live, i, r.unprobed);
        ghost var more := AddDevice(i, HostSize(instDrives[i], instSlots[i]), r.unprobed);
        made := made + more;
      }
      assert s.live[..ninstances] == s.live;
      all := true;
    }

    /** The device table allocated, no device in it yet. */
    method StartDevices(ghost live: seq<HostSize>, ghost unprobed: set<int>)
      requires Valid() && NoHosts() && live == Abs().live
      modifies this`registered
      ensures Valid() && NoHosts() && HostParts() == {} && registered
      ensures Abs() == Hardware(live, old(published), true, FreshHosts(live[..0], unprobed))
    {
      registered := true;
      NoHostsNoViews();
    }

    /** One platform device added: its probe, when it succeeds, makes the host. */
    method AddDevice(i: nat, z: HostSize, unprobed: set<int>) returns (ghost made: set<object>)
      requires Valid() && i < MAX_HOSTS && hosts[i] == null
      modifies hosts
      ensures Valid() && fresh(made) && HostParts() <= old(HostParts()) + made
      ensures forall k :: 0 <= k < MAX_HOSTS && k != i ==> hosts[k] == old(hosts[k])
      ensures Abs() == if i in unprobed || !InRange(z) then old(Abs())
                       else old(Abs()).(hosts := old(Abs()).hosts[i := FreshHost(z)])
    {
      made := {};
      if i in unprobed || !(1 <= z.drives <= MAX_DRIVES) || !(1 <= z.slots <= MAX_SLOTS) { return; }
      hide Valid, Abs, HostParts, Host.Parts, Changer.Valid, Host.View, FreshHost;
      var h := NewHost(z);
      PutHost(i, h);
      made := h.Parts();
    }

    /** `vtl_probe`: a host that shares nothing with those in the list. */
    method NewHost(z: HostSize) returns (h: Host)
      requires Valid() && InRange(z)
      ensures Valid() && Abs() == old(Abs()) && HostParts() == old(HostParts())
      ensures h.changer.Valid() && h.View() == FreshHost(z)
      ensures fresh(h.Parts()) && h.Parts() !! HostParts() && h.Parts() !! {this, instDrives, instSlots, hosts}
    {
      hide Changer.Valid, Host.View, HostsValid, HostViews, InRange, Stored, FreshHost;
      h := new Host(z);
    }

    /** A new host in the list: its objects are its own. */
    method PutHost(i: nat, h: Host)
      requires Valid() && i < MAX_HOSTS && hosts[i] == null && h.changer.Valid()
      requires h.Parts() !! HostParts() && h.Parts() !! {this, instDrives, instSlots, hosts}
      modifies hosts
      ensures Valid() && HostParts() <= old(HostParts()) + h.Parts()
      ensures forall k :: 0 <= k < MAX_HOSTS && k != i ==> hosts[k] == old(hosts[k])
      ensures Abs() == old(Abs()).(hosts := old(Abs()).hosts[i := h.View()])
    {
      hide Changer.Valid, Host.View, Host.Parts, Stored;
      ghost var parts := HostParts();
      assert forall k :: 0 <= k < MAX_HOSTS && hosts[k] != null ==> hosts[k].Parts() <= parts;
      PartsOf(h);
      hosts[i] := h;
      forall o | o in HostParts() ensures o in parts + h.Parts() {
        var k :| 0 <= k < MAX_HOSTS && hosts[k] != null && o in hosts[k].Parts();
      }
    }

    lemma PartsOf(h: Host)
      requires HostsValid() && h.Parts() !! HostParts()
      ensures h in h.Parts() && h.changer in h.Parts()
      ensures forall k :: 0 <= k < MAX_HOSTS && hosts[k] != null ==> hosts[k] != h && hosts[k].changer != h.changer
    {
      forall k | 0 <= k < MAX_HOSTS && hosts[k] != null ensures hosts[k] != h && hosts[k].changer != h.changer {
        assert hosts[k].Parts() <= HostParts();
      }
    }

    // -------------------------------------------------------------- SET_INSTANCES

    /** The instance arrays and count overwritten. */
    method SetLive(g: seq<HostSize>)
      requires Valid() && NoHosts() && |g| <= MAX_HOSTS
      modifies this`ninstances, instDrives, instSlots
      ensures Valid() && NoHosts() && Abs() == old(Abs()).(live := g)
    {
      hide HostsValid, HostViews;
      for i := 0 to |g|
        invariant forall k :: 0 <= k < i ==> HostSize(instDrives[k], instSlots[k]) == g[k]
        modifies instDrives, instSlots
      {
        instDrives[i], instSlots[i] := g[i].drives, g[i].slots;
      }
      ninstances := |g|;
      NoHostsNoViews();
      assert Stored(instDrives, instSlots, ninstances) == g;
    }

    /** The module parameter cleared. */
    method Unpublish()
      requires Valid()
      modifies this`published
      ensures Valid() && HostParts() == old(HostParts()) && Abs() == old(Abs()).(published := "")
    {
      hide HostsValid, HostViews, Stored;
      published := "";
    }

    /** `vtl_rollback_geometry` */
    method RollbackGeometry(saved: seq<HostSize>, savedSpec: SpecText, r: Registration) returns (ret: int)
      requires Valid() && NoHosts() && !registered && |saved| <= MAX_HOSTS && FitsInt32(saved)
      modifies this, hosts, instDrives, instSlots
      ensures Valid() && fresh(HostParts())
      ensures ret == RegisterCode(saved, r)
      ensures Abs() == Rollback(Hardware(saved, savedSpec, true, map[]), r)
    {
      hide FreshHosts, HostsValid, HostViews, Stored, HostParts, PrintSpec, FitsInt32;
      SetLive(saved);
      ret := RegisterAll(r);
      if ret < 0 {
        Unpublish();
        return;
      }
      if savedSpec != "" {
        Publish(savedSpec);
      } else {
        PublishLive();
      }
    }

    /** `vtl_apply_instances_spec_now` */
    method ApplyInstancesSpec(q: Request) returns (ret: int)
      requires Valid() && Consistent(Abs())
      modifies this, hosts, instDrives, instSlots
      ensures Valid()
      ensures ret == SetInstancesCode(old(Abs()), q)
      ensures Abs() == SetInstances(old(Abs()), q)
      ensures q.busy ==> hosts[..] == old(hosts[..]) && Abs().(published := "") == old(Abs()).(published := "")
    {
      hide FreshHosts, HostsValid, HostViews, Stored, HostParts, PrintSpec, FitsInt32, Parse;
      NoHostsNoViews();
      if !q.allowed { return EBUSY; }
      var g;
      ret, g := ParseText(q.spec);
      if ret != OK { return; }
      EmptyIsRefused();
      var matches := MatchesLive(g);
      if matches {
        Publish(q.spec);
        return OK;
      }
      var saved, savedSpec := Stored(instDrives, instSlots, ninstances), published;
      if q.busy { return EBUSY; }
      ret := Rebuild(q, g, saved, savedSpec);
    }

    /** The rebuild itself: down with the old hosts, up with the new, or back to the saved geometry. */
    method Rebuild(q: Request, g: seq<HostSize>, saved: seq<HostSize>, savedSpec: SpecText) returns (ret: int)
      requires Valid() && (!registered ==> NoHosts()) && 1 <= |g| <= MAX_HOSTS
      requires saved == Abs().live && FitsInt32(saved) && savedSpec == published && q.spec != ""
      modifies this, hosts, instDrives, instSlots
      ensures Valid()
      ensures ret == if Registers(q.first, |g|) then OK
                     else if saved != [] && Registers(q.second, |saved|) then EIO else ENODEV
      ensures Abs() == if Registers(q.first, |g|) then Register(g, q.spec, q.first)
                       else if saved == [] then Register(g, savedSpec, q.first)
                       else Rollback(Hardware(saved, savedSpec, true, map[]), q.second)
    {
      hide FreshHosts, HostsValid, HostViews, Stored, HostParts, PrintSpec, FitsInt32, Parse;
      LiveCount();
      UnregisterAll();
      SetLive(g);
      ret := RegisterAll(q.first);
      if ret < 0 {
        UnregisterAll();
        if |saved| > 0 {
          var again := RollbackGeometry(saved, savedSpec, q.second);
          return if again == OK then EIO else ENODEV;
        }
        return ENODEV;
      }
      Publish(q.spec);
    }

    constructor (param: SpecText)
      ensures Valid() && NoHosts() && Abs() == Hardware([], param, false, map[])
      ensures fresh(hosts) && fresh(instDrives) && fresh(instSlots)
    {
      ninstances, registered, published := 0, false, param;
      instDrives := new int[MAX_HOSTS];
      instSlots := new int[MAX_HOSTS];
      hosts := new Host?[MAX_HOSTS](_ => null);
      new;
      NoHostsNoViews();
    }
  }

  /** `vtl_init`: the initial geometry, registered and published. */
  method LoadModule(param: SpecText, default: HostSize, r: Registration) returns (driver: Driver?)
    requires IsInt32(default.drives) && IsInt32(default.slots)
    ensures driver != null <==> Loaded(param, default, r).Some?
    ensures driver != null ==> driver.Valid() && driver.Abs() == Loaded(param, default, r).value
  {
    hide FreshHosts, Driver.HostsValid, Driver.HostViews, Stored, Driver.HostParts, PrintSpec, Parse;
    var d := new Driver(param);
    var g := [default];
    if param != "" {
      var ret;
      ret, g := d.ParseText(param);
      if ret != OK { return null; }
    }
    d.SetLive(g);
    var ret := d.RegisterAll(r);
    if ret != OK { return null; }
    LayoutFits(g, default);
    d.PublishLive();
    return d;
  }

  lemma LayoutFits(g: seq<HostSize>, default: HostSize)
    requires g == [default] || IsLayout(g)
    requires IsInt32(default.drives) && IsInt32(default.slots)
    ensures FitsInt32(g)
  {
  }

  lemma NextDevice(live: seq<HostSize>, i: nat, unprobed: set<int>)
    requires i < |live|
    ensures FreshHosts(live[..i + 1], unprobed)
         == if i in unprobed || !InRange(live[i]) then FreshHosts(live[..i], unprobed)
            else FreshHosts(live[..i], unprobed)[i := FreshHost(live[i])]
  {
  }

  lemma ReshapedTo(s: Hardware, g: seq<HostSize>)
    requires IsLayout(g)
    ensures Reshape(s, g).live == g && FitsInt32(g)
  {
  }

  lemma ClampedIsInRange(z: HostSize)
    ensures InRange(Clamped(z))
  {
  }

  lemma InRangeIsClamped(z: HostSize)
    requires InRange(z)
    ensures Clamped(HostSize(z.drives, z.slots)) == z
  {
  }

  lemma SameButOne(before: map<int, HostView>, after: map<int, HostView>, i: int)
    requires after.Keys == before.Keys && i in before
    requires forall j :: j in before && j != i ==> after[j] == before[j]
    ensures after == before[i := after[i]]
  {
  }
}
