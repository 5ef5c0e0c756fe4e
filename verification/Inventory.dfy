/** GET_INVENTORY: the kernel's list of occupied elements and the map userspace makes of it. */
module Inventory {
  import opened Common
  import opened Elements
  import opened Media

  const MAX_ITEMS := 128

  ghost function Below(contents: map<int, Tape>, bound: int): set<int> {
    set a | a in contents && a < bound
  }

  /** `elements` ascends through occupied addresses and, up to `bound`, leaves out only what did not fit. */
  ghost predicate FirstOccupied(contents: map<int, Tape>, elements: seq<int>, maxItems: int, bound: int) {
    && (forall k :: 0 <= k < |elements| ==> elements[k] in contents && elements[k] < bound)
    && (forall j, k :: 0 <= j < k < |elements| ==> elements[j] < elements[k])
    && |elements| <= maxItems
    && (forall a :: a in contents && a < bound && a !in elements ==>
          |elements| == maxItems && forall k :: 0 <= k < |elements| ==> elements[k] < a)
  }

  lemma BelowStep(contents: map<int, Tape>, a: int)
    ensures |Below(contents, a + 1)| == |Below(contents, a)| + (if a in contents then 1 else 0)
  {
    assert Below(contents, a + 1) == Below(contents, a) + (if a in contents then {a} else {});
  }

  /** A bound may pass over addresses nothing occupies. */
  lemma BelowSkips(contents: map<int, Tape>, a: int, b: int)
    requires a <= b && forall c :: c in contents ==> c < a || b <= c
    ensures Below(contents, a) == Below(contents, b)
  {
  }

  lemma FirstOccupiedStep(contents: map<int, Tape>, elements: seq<int>, maxItems: int, bound: int)
    requires FirstOccupied(contents, elements, maxItems, bound) && |elements| < maxItems
    ensures bound in contents ==> FirstOccupied(contents, elements + [bound], maxItems, bound + 1)
    ensures bound !in contents ==> FirstOccupied(contents, elements, maxItems, bound + 1)
  {
    assert forall a :: a in elements + [bound] <==> a in elements || a == bound;
  }

  lemma FirstOccupiedSkips(contents: map<int, Tape>, elements: seq<int>, maxItems: int, from: int, to: int)
    requires FirstOccupied(contents, elements, maxItems, from) && from <= to
    requires |elements| == maxItems || forall a :: a in contents ==> a < from || to <= a
    ensures FirstOccupied(contents, elements, maxItems, to)
  {
  }

  /** First pass of `vtl_changer_collect_inventory`: count the occupied elements. */
  method CountOccupied(ch: Changer) returns (total: int)
    requires ch.Valid()
    ensures total == |ch.Contents()|
  {
    ghost var contents := ch.Contents();
    total := 0;
    for i := 0 to ch.numSlots
      invariant total == |Below(contents, i)|
    {
      BelowStep(contents, i);
      if ch.slots[i].occupied && ch.slots[i].tape != null { total := total + 1; }
    }
    BelowSkips(contents, ch.numSlots, DRIVE_BASE);
    for i := 0 to ch.numDrives
      invariant total == |Below(contents, DRIVE_BASE + i)|
    {
      BelowStep(contents, DRIVE_BASE + i);
      if ch.drives[i] != null { total := total + 1; }
    }
    BelowSkips(contents, DRIVE_BASE + ch.numDrives, IE_BASE);
    for i := 0 to ch.numMailslots
      invariant total == |Below(contents, IE_BASE + i)|
    {
      BelowStep(contents, IE_BASE + i);
      if ch.mailslots[i].occupied && ch.mailslots[i].tape != null { total := total + 1; }
    }
    assert Below(contents, IE_BASE + MAX_MAILSLOTS) == contents.Keys;
    assert |contents.Keys| == |contents|;
  }

  /** The items listed so far, with their names. */
  ghost predicate Listing(contents: map<int, Tape>, elements: seq<int>, names: seq<Name>, maxItems: int, bound: int) {
    && |names| == |elements|
    && FirstOccupied(contents, elements, maxItems, bound)
    && forall k :: 0 <= k < |names| ==> names[k] == contents[elements[k]].name
  }

  /** One more element looked at: listed when occupied. */
  method ListElement(ghost contents: map<int, Tape>, elements: seq<int>, names: seq<Name>, maxItems: int,
                     element: int, tape: Tape?)
    returns (es: seq<int>, ns: seq<Name>)
    requires Listing(contents, elements, names, maxItems, element) && |elements| < maxItems
    requires (tape != null <==> element in contents) && (tape != null ==> contents[element] == tape)
    ensures Listing(contents, es, ns, maxItems, element + 1)
  {
    es, ns := elements, names;
    FirstOccupiedStep(contents, elements, maxItems, element);
    if tape != null {
      es, ns := elements + [element], names + [tape.name];
    }
  }

  /** The data slots of the second pass. */
  method ListSlots(ch: Changer, elements: seq<int>, names: seq<Name>, maxItems: int)
    returns (es: seq<int>, ns: seq<Name>)
    requires ch.Valid() && Listing(ch.Contents(), elements, names, maxItems, 0)
    ensures Listing(ch.Contents(), es, ns, maxItems, DRIVE_BASE)
  {
    ghost var contents := ch.Contents();
    es, ns := elements, names;
    var i := 0;
    while i < ch.numSlots && |es| < maxItems
      invariant 0 <= i <= ch.numSlots && Listing(contents, es, ns, maxItems, i)
    {
      es, ns := ListElement(contents, es, ns, maxItems, i, if ch.slots[i].occupied then ch.slots[i].tape else null);
      i := i + 1;
    }
    FirstOccupiedSkips(contents, es, maxItems, i, DRIVE_BASE);
  }

  /** The drives of the second pass. */
  method ListDrives(ch: Changer, elements: seq<int>, names: seq<Name>, maxItems: int)
    returns (es: seq<int>, ns: seq<Name>)
    requires ch.Valid() && Listing(ch.Contents(), elements, names, maxItems, DRIVE_BASE)
    ensures Listing(ch.Contents(), es, ns, maxItems, IE_BASE)
  {
    ghost var contents := ch.Contents();
    es, ns := elements, names;
    var i := 0;
    while i < ch.numDrives && |es| < maxItems
      invariant 0 <= i <= ch.numDrives && Listing(contents, es, ns, maxItems, DRIVE_BASE + i)
    {
      es, ns := ListElement(contents, es, ns, maxItems, DRIVE_BASE + i, ch.drives[i]);
      i := i + 1;
    }
    FirstOccupiedSkips(contents, es, maxItems, DRIVE_BASE + i, IE_BASE);
  }

  /** The mailslots of the second pass. */
  method ListMailslots(ch: Changer, elements: seq<int>, names: seq<Name>, maxItems: int)
    returns (es: seq<int>, ns: seq<Name>)
    requires ch.Valid() && Listing(ch.Contents(), elements, names, maxItems, IE_BASE)
    ensures Listing(ch.Contents(), es, ns, maxItems, IE_BASE + MAX_MAILSLOTS)
  {
    ghost var contents := ch.Contents();
    es, ns := elements, names;
    var i := 0;
    while i < ch.numMailslots && |es| < maxItems
      invariant 0 <= i <= ch.numMailslots && Listing(contents, es, ns, maxItems, IE_BASE + i)
    {
      es, ns := ListElement(contents, es, ns, maxItems, IE_BASE + i,
                            if ch.mailslots[i].occupied then ch.mailslots[i].tape else null);
      i := i + 1;
    }
    FirstOccupiedSkips(contents, es, maxItems, IE_BASE + i, IE_BASE + MAX_MAILSLOTS);
  }

  /** `vtl_changer_collect_inventory`; its output arrays are the returned sequences. */
  method CollectInventory(ch: Changer, maxItems: int)
    returns (ret: int, elements: seq<int>, names: seq<Name>, truncated: bool)
    requires ch.Valid()
    ensures ret == if maxItems <= 0 then EINVAL else OK
    ensures ret == OK ==> truncated == (|ch.Contents()| > maxItems)
    ensures ret == OK ==> Listing(ch.Contents(), elements, names, maxItems, IE_BASE + MAX_MAILSLOTS)
  {
    if maxItems <= 0 { return EINVAL, [], [], false; }
    var total := CountOccupied(ch);
    elements, names := ListSlots(ch, [], [], maxItems);
    elements, names := ListDrives(ch, elements, names, maxItems);
    elements, names := ListMailslots(ch, elements, names, maxItems);
    return OK, elements, names, total > maxItems;
  }

  /** The listed elements number `min(occupied, maxItems)`; when they are all, each occupied one is listed once. */
  lemma CountOfFirstOccupied(contents: map<int, Tape>, elements: seq<int>, maxItems: int, bound: int)
    requires FirstOccupied(contents, elements, maxItems, bound) && forall a :: a in contents ==> a < bound
    ensures |elements| == if |contents| > maxItems then maxItems else |contents|
    ensures |contents| <= maxItems ==> forall a :: a in contents ==> a in elements
  {
    var listed := set k | 0 <= k < |elements| :: elements[k];
    SetOfAscending(elements);
    assert listed <= contents.Keys;
    SubsetSize(listed, contents.Keys);
    if |elements| < maxItems {
      forall a | a in contents ensures a in listed {
        var k :| 0 <= k < |elements| && elements[k] == a;
      }
      assert listed == contents.Keys;
    } else if |contents| <= maxItems {
      assert |listed| == |contents.Keys|;
      EqualSize(listed, contents.Keys);
    }
  }

  lemma SetOfAscending(s: seq<int>)
    requires forall j, k :: 0 <= j < k < |s| ==> s[j] < s[k]
    ensures |set k | 0 <= k < |s| :: s[k]| == |s|
  {
    if s != [] {
      var t := s[..|s| - 1];
      SetOfAscending(t);
      var all, init := set k | 0 <= k < |s| :: s[k], set k | 0 <= k < |t| :: t[k];
      forall x | x in all ensures x in init + {s[|s| - 1]} {
        var k :| 0 <= k < |s| && s[k] == x;
        assert k < |t| ==> t[k] == x;
      }
      assert all == init + {s[|s| - 1]};
    }
  }

  lemma SubsetSize<T>(a: set<T>, b: set<T>)
    requires a <= b
    ensures |a| <= |b|
  {
    assert b == a + (b - a);
  }

  lemma EqualSize<T>(a: set<T>, b: set<T>)
    requires a <= b && |a| == |b|
    ensures a == b
  {
    assert b == a + (b - a);
    assert |b - a| == 0;
  }

  /** The part of the contents that one inventory lists: the first `MAX_ITEMS` occupied elements. */
  ghost function Seen(contents: map<int, Tape>): map<int, Tape> {
    map a | a in contents && |Below(contents, a)| < MAX_ITEMS :: contents[a]
  }

  /** Of an ascending list that leaves out nothing in front of its end, item `k` has `k` occupied elements below it. */
  lemma BelowListed(contents: map<int, Tape>, elements: seq<int>, maxItems: int, bound: int, k: nat)
    requires FirstOccupied(contents, elements, maxItems, bound) && k < |elements|
    ensures |Below(contents, elements[k])| == k
  {
    var init := elements[..k];
    SetOfAscending(init);
    var listed := set i | 0 <= i < |init| :: init[i];
    forall a ensures a in Below(contents, elements[k]) <==> a in listed {
      if a in Below(contents, elements[k]) {
        var i :| 0 <= i < |elements| && elements[i] == a;
        assert i < k && init[i] == a;
      }
    }
    assert Below(contents, elements[k]) == listed;
  }

  /** A full inventory lists exactly the elements that are seen. */
  lemma ListedIsSeen(contents: map<int, Tape>, elements: seq<int>, bound: int)
    requires FirstOccupied(contents, elements, MAX_ITEMS, bound) && forall a :: a in contents ==> a < bound
    ensures forall a :: a in elements <==> a in Seen(contents)
  {
    forall a ensures a in elements <==> a in Seen(contents) {
      if a in elements {
        var k :| 0 <= k < |elements| && elements[k] == a;
        BelowListed(contents, elements, MAX_ITEMS, bound, k);
      } else if a in contents {
        SetOfAscending(elements);
        var listed := set k | 0 <= k < |elements| :: elements[k];
        SubsetSize(listed, Below(contents, a));
      }
    }
  }

  /** Up to `MAX_ITEMS` media everything is seen. */
  lemma AllSeen(contents: map<int, Tape>)
    requires |contents| <= MAX_ITEMS
    ensures Seen(contents) == contents
  {
    forall a | a in contents ensures |Below(contents, a)| < MAX_ITEMS {
      SubsetSize(Below(contents, a) + {a}, contents.Keys);
      assert |contents.Keys| == |contents|;
    }
  }

  datatype Snapshot = Snapshot(locations: map<string, MediumLocation>, truncated: bool)

  datatype SnapshotError = DuplicateName

  ghost predicate Listed(elements: seq<int>, names: seq<Name>, k: int, name: string, loc: MediumLocation)
    requires |elements| == |names|
  {
    0 <= k < |elements| && names[k] == name && name != "" && FromElement(elements[k]) == Some(loc)
  }

  /** `kernel_inventory_snapshot`: the decoding of the ioctl's items, refused when two share a name. */
  method DecodeItems(elements: seq<int>, names: seq<Name>, truncated: bool) returns (r: Result<Snapshot, SnapshotError>)
    requires |elements| == |names|
    ensures r.Ok? ==> r.value.truncated == truncated
    ensures Decodes(elements, names, r)
  {
    var locations: map<string, MediumLocation> := map[];
    for i := 0 to |elements|
      invariant forall k, name, loc :: k < i && Listed(elements, names, k, name, loc) ==>
                  name in locations && locations[name] == loc
      invariant forall name :: name in locations ==>
                exists k :: k < i && Listed(elements, names, k, name, locations[name])
      invariant !exists j, k, name, l1, l2 ::
                  j < k < i && Listed(elements, names, j, name, l1) && Listed(elements, names, k, name, l2)
    {
      if names[i] != "" {
        var loc := FromElement(elements[i]);
        if loc.Some? {
          assert Listed(elements, names, i, names[i], loc.value);
          if names[i] in locations {
            return Err(DuplicateName);
          }
          ghost var before := locations;
          locations := locations[names[i] := loc.value];
          forall name | name in locations
            ensures exists k :: k < i + 1 && Listed(elements, names, k, name, locations[name])
          {
            if name in before {
              var k :| k < i && Listed(elements, names, k, name, before[name]);
              assert k < i + 1 && Listed(elements, names, k, name, locations[name]);
            } else {
              assert i < i + 1 && Listed(elements, names, i, name, locations[name]);
            }
          }
        }
      }
    }
    return Ok(Snapshot(locations, truncated));
  }

  ghost predicate DistinctNames(contents: map<int, Tape>) {
    forall a, b :: a in contents && b in contents && contents[a].name != "" && contents[a].name == contents[b].name ==>
      a == b
  }

  /** `locations` is the whole of the changer's contents, decoded as written. */
  ghost predicate IsDecoded(contents: map<int, Tape>, locations: map<string, MediumLocation>) {
    && (forall a :: a in contents && contents[a].name != "" ==>
          contents[a].name in locations && FromElement(a) == Some(locations[contents[a].name]))
    && (forall name :: name in locations ==> exists a :: a in contents && contents[a].name == name && name != "")
  }

  /** Every location stands for an occupied element, that of the medium so named. */
  ghost predicate DecodesSome(contents: map<int, Tape>, locations: map<string, MediumLocation>) {
    forall name :: name in locations ==>
      name != "" && ToElement(locations[name]) in contents && contents[ToElement(locations[name])].name == name
  }

  lemma ListedDecodes(contents: map<int, Tape>, elements: seq<int>, names: seq<Name>,
                      r: Result<Snapshot, SnapshotError>)
    requires |elements| == |names| && Decodes(elements, names, r) && r.Ok?
    requires forall k :: 0 <= k < |elements| ==> elements[k] in contents && names[k] == contents[elements[k]].name
    ensures DecodesSome(contents, r.value.locations)
  {
    forall name | name in r.value.locations
      ensures var a := ToElement(r.value.locations[name]); name != "" && a in contents && contents[a].name == name
    {
      var k :| Listed(elements, names, k, name, r.value.locations[name]);
      EncodeInvertsDecode(elements[k]);
    }
  }

  /** A changer has one decoding. */
  lemma DecodedUnique(contents: map<int, Tape>, l1: map<string, MediumLocation>, l2: map<string, MediumLocation>)
    requires IsDecoded(contents, l1) && IsDecoded(contents, l2)
    ensures l1 == l2
  {
    forall name | name in l1 ensures name in l2 && l1[name] == l2[name] {
      var a :| a in contents && contents[a].name == name && name != "";
    }
    forall name | name in l2 ensures name in l1 {
      var a :| a in contents && contents[a].name == name && name != "";
    }
  }

  lemma ContentsAddresses(ch: Changer)
    requires ch.Valid()
    ensures forall a :: a in ch.Contents() ==> 0 <= a < IE_BASE + MAX_MAILSLOTS
  {
  }

  /**
   * The ioctl and its decoding together: the snapshot is the seen part of the changer, and exists
   * exactly when no name occurs twice in it.
   */
  method KernelSnapshot(ch: Changer) returns (r: Result<Snapshot, SnapshotError>)
    requires ch.Valid()
    ensures r.Ok? <==> DistinctNames(Seen(ch.Contents()))
    ensures r.Ok? ==> r.value.truncated == (|ch.Contents()| > MAX_ITEMS)
    ensures r.Ok? ==> IsDecoded(Seen(ch.Contents()), r.value.locations)
    ensures r.Ok? ==> DecodesSome(ch.Contents(), r.value.locations)
    ensures |ch.Contents()| <= MAX_ITEMS ==> Seen(ch.Contents()) == ch.Contents()
  {
    hide IsDecoded, DistinctNames, DecodesSome, Decodes, Changer.Valid, Changer.Contents;
    var ret, elements, names, truncated := CollectInventory(ch, MAX_ITEMS);
    ghost var contents := ch.Contents();
    ContentsAddresses(ch);
    ListedIsSeen(contents, elements, IE_BASE + MAX_MAILSLOTS);
    r := DecodeItems(elements, names, truncated);
    if r.Ok? { ListedDecodes(contents, elements, names, r); }
    DecodedWhole(Seen(contents), elements, names, r);
    if |contents| <= MAX_ITEMS { AllSeen(contents); }
  }

  ghost predicate Decodes(elements: seq<int>, names: seq<Name>, r: Result<Snapshot, SnapshotError>)
    requires |elements| == |names|
  {
    && (r.Ok? ==> forall k, name, loc :: Listed(elements, names, k, name, loc) ==>
          name in r.value.locations && r.value.locations[name] == loc)
    && (r.Ok? ==> forall name :: name in r.value.locations ==>
          exists k :: Listed(elements, names, k, name, r.value.locations[name]))
    && (r.Err? <==> exists j, k, name, l1, l2 ::
          j < k && Listed(elements, names, j, name, l1) && Listed(elements, names, k, name, l2))
  }

  /** Decoding a list of every occupied element, each once, decodes the changer. */
  lemma DecodedWhole(contents: map<int, Tape>, elements: seq<int>, names: seq<Name>, r: Result<Snapshot, SnapshotError>)
    requires |elements| == |names| && Decodes(elements, names, r)
    requires forall k :: 0 <= k < |elements| ==>
               elements[k] in contents && 0 <= elements[k] && names[k] == contents[elements[k]].name
    requires forall j, k :: 0 <= j < k < |elements| ==> elements[j] < elements[k]
    requires forall a :: a in contents ==> a in elements
    ensures r.Ok? ==> IsDecoded(contents, r.value.locations)
    ensures r.Ok? <==> DistinctNames(contents)
  {
    forall k | 0 <= k < |elements| && names[k] != ""
      ensures Listed(elements, names, k, names[k], FromElement(elements[k]).value)
    {
    }
    if r.Err? {
      var j, k, name, l1, l2 :|
        j < k && Listed(elements, names, j, name, l1) && Listed(elements, names, k, name, l2);
      assert contents[elements[j]].name == contents[elements[k]].name;
    } else {
      forall a, b | a in contents && b in contents && contents[a].name != "" && contents[a].name == contents[b].name
        ensures a == b
      {
        var j, k :| 0 <= j < |elements| && 0 <= k < |elements| && elements[j] == a && elements[k] == b;
        assert Listed(elements, names, j, names[j], FromElement(a).value);
        assert Listed(elements, names, k, names[j], FromElement(b).value);
      }
    }
  }

  /** With named, distinctly named media, re-encoding the decoded map gives exactly the occupied addresses. */
  lemma ReencodingGivesTheOccupied(contents: map<int, Tape>, locations: map<string, MediumLocation>)
    requires IsDecoded(contents, locations) && DistinctNames(contents)
    requires forall a :: a in contents ==> contents[a].name != "" && 0 <= a
    ensures (set name | name in locations :: ToElement(locations[name])) == contents.Keys
    ensures forall a :: a in contents ==> ToElement(locations[contents[a].name]) == a
    ensures forall n, m :: n in locations && m in locations && locations[n] == locations[m] ==> n == m
  {
    forall name | name in locations
      ensures exists a :: a in contents && contents[a].name == name && ToElement(locations[name]) == a
    {
      var a :| a in contents && contents[a].name == name;
      EncodeInvertsDecode(a);
    }
    forall a | a in contents ensures ToElement(locations[contents[a].name]) == a {
      EncodeInvertsDecode(a);
    }
  }
}
