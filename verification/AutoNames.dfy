/** Automatic tape names: a prefix and a zero-padded number behind the largest one in use. */
module AutoNames {
  import opened Common
  import opened Decimal

  const U64_MAX := 0xFFFF_FFFF_FFFF_FFFF

  /** The number behind the prefix, if the name is such a name and its number fits `u64`. */
  function Suffix(prefix: string, name: string): Option<nat> {
    if prefix <= name && |name| > |prefix| && AllDigits(name[|prefix|..]) && Value(name[|prefix|..]) <= U64_MAX
    then Some(Value(name[|prefix|..])) else None
  }

  /** `m` is the largest number among the names, or zero without any. */
  ghost predicate IsLargestSuffix(prefix: string, names: set<string>, m: nat) {
    && (forall name :: name in names && Suffix(prefix, name).Some? ==> Suffix(prefix, name).value <= m)
    && (m == 0 || exists name :: name in names && Suffix(prefix, name) == Some(m))
  }

  /** `max_auto_tape_suffix_for_library`, over the rows in any order. */
  method MaxSuffix(prefix: string, rows: seq<string>) returns (m: nat)
    ensures m <= U64_MAX && IsLargestSuffix(prefix, (set name | name in rows), m)
  {
    m := 0;
    for i := 0 to |rows|
      invariant m <= U64_MAX
      invariant forall k :: 0 <= k < i && Suffix(prefix, rows[k]).Some? ==> Suffix(prefix, rows[k]).value <= m
      invariant m == 0 || exists k :: 0 <= k < i && Suffix(prefix, rows[k]) == Some(m)
    {
      var n := Suffix(prefix, rows[i]);
      if n.Some? && n.value > m {
        m := n.value;
      }
    }
  }

  /** `allocate_auto_tape_names`; numbers past `u64` are the caller's to avoid. */
  function Allocate(prefix: string, start: nat, count: nat): (names: seq<string>)
    requires count > 0 ==> start + count - 1 <= U64_MAX
    ensures |names| == count
  {
    if count == 0 then []
    else
      var digits := |Print(start + count - 1)|;
      var width := if digits < 2 then 2 else digits;
      seq(count, i requires 0 <= i < count => prefix + PrintPadded(start + i, width))
  }

  lemma SuffixOfAllocated(prefix: string, start: nat, count: nat, i: nat)
    requires i < count && start + count - 1 <= U64_MAX
    ensures Suffix(prefix, Allocate(prefix, start, count)[i]) == Some(start + i)
  {
    var digits := |Print(start + count - 1)|;
    var width := if digits < 2 then 2 else digits;
    PaddedReadsBack(start + i, width);
    assert Allocate(prefix, start, count)[i][|prefix|..] == PrintPadded(start + i, width);
  }

  /** New names are pairwise distinct and none of them exists, whatever the library holds. */
  lemma AllocatedAreNew(prefix: string, names: set<string>, m: nat, count: nat)
    requires IsLargestSuffix(prefix, names, m) && m + count <= U64_MAX
    ensures var batch := Allocate(prefix, m + 1, count);
            && (forall i :: 0 <= i < count ==> batch[i] !in names)
            && (forall i, j :: 0 <= i < j < count ==> batch[i] != batch[j])
  {
    hide Allocate;
    var batch := Allocate(prefix, m + 1, count);
    forall i | 0 <= i < count ensures batch[i] !in names {
      SuffixOfAllocated(prefix, m + 1, count, i);
    }
    forall i, j | 0 <= i < j < count ensures batch[i] != batch[j] {
      SuffixOfAllocated(prefix, m + 1, count, i);
      SuffixOfAllocated(prefix, m + 1, count, j);
    }
  }

  /** The next batch starts where this one ended, so batches never meet. */
  lemma NextBatchContinues(prefix: string, names: set<string>, m: nat, count: nat)
    requires IsLargestSuffix(prefix, names, m) && m + count <= U64_MAX && count > 0
    ensures var batch := Allocate(prefix, m + 1, count);
            IsLargestSuffix(prefix, names + (set name | name in batch), m + count)
  {
    hide Allocate;
    var batch := Allocate(prefix, m + 1, count);
    forall name | name in batch ensures Suffix(prefix, name).Some? && Suffix(prefix, name).value <= m + count {
      var i :| 0 <= i < count && batch[i] == name;
      SuffixOfAllocated(prefix, m + 1, count, i);
    }
    SuffixOfAllocated(prefix, m + 1, count, count - 1);
    assert batch[count - 1] in names + (set name | name in batch);
  }

  /** The names of a batch are equally long, so their text order is their number order. */
  lemma BatchHasOneLength(prefix: string, start: nat, count: nat, i: nat)
    requires i < count && start + count - 1 <= U64_MAX
    ensures var batch := Allocate(prefix, start, count); |batch[i]| == |batch[count - 1]|
  {
    hide Print, PrintPadded, Allocate;
    var digits := |Print(start + count - 1)|;
    var width := if digits < 2 then 2 else digits;
    LongerIsLarger(start + i, start + count - 1);
    PaddedLength(start + i, width);
    PaddedLength(start + count - 1, width);
    AllocatedAt(prefix, start, count, i);
    AllocatedAt(prefix, start, count, count - 1);
  }

  lemma AllocatedAt(prefix: string, start: nat, count: nat, i: nat)
    requires i < count && start + count - 1 <= U64_MAX
    ensures var digits := |Print(start + count - 1)|;
            Allocate(prefix, start, count)[i] == prefix + PrintPadded(start + i, if digits < 2 then 2 else digits)
  {
    hide Print, PrintPadded;
  }

  /**
   * The name at `i` is the prefix and the number `start + i`, zero-padded to as many digits as the last
   * number of the batch has, and to two at least.
   */
  lemma AllocatedIs(prefix: string, start: nat, count: nat, i: nat, k: nat)
    requires i < count && start + count - 1 <= U64_MAX && 2 <= k
    ensures var name := Allocate(prefix, start, count)[i];
            && prefix <= name && AllDigits(name[|prefix|..]) && Value(name[|prefix|..]) == start + i
            && |name| - |prefix| >= 2 && (|name| - |prefix| <= k <==> start + count - 1 < Pow10(k))
  {
    hide Print, PrintPadded, Allocate, Pow10;
    var last := start + count - 1;
    var digits := |Print(last)|;
    var width := if digits < 2 then 2 else digits;
    var name := Allocate(prefix, start, count)[i];
    AllocatedAt(prefix, start, count, i);
    assert name[|prefix|..] == PrintPadded(start + i, width);
    PaddedReadsBack(start + i, width);
    LongerIsLarger(start + i, last);
    PaddedLength(start + i, width);
    PrintLength(last, k);
  }

  /** From the tenth on two digits do, and the hundredth makes the batch three digits wide. */
  lemma AllocatedExample()
    ensures Allocate("T", 8, 3) == ["T08", "T09", "T10"]
    ensures Allocate("T", 99, 2) == ["T099", "T100"]
    ensures Suffix("T", "T010") == Some(10)
  {
    hide Print, PrintPadded;
    Numerals();
    PaddedNumerals();
    var a, b := Allocate("T", 8, 3), Allocate("T", 99, 2);
    assert a[0] == "T" + PrintPadded(8, 2) && a[1] == "T" + PrintPadded(9, 2) && a[2] == "T" + PrintPadded(10, 2);
    assert b[0] == "T" + PrintPadded(99, 3) && b[1] == "T" + PrintPadded(100, 3);
    assert "T" + "08" == "T08" && "T" + "09" == "T09" && "T" + "10" == "T10";
    assert "T" + "099" == "T099" && "T" + "100" == "T100";
    assert "T010"[1..] == "010" && Value("010") == 10 by {
      assert "010"[..2] == "01" && "01"[..1] == "0" && "0"[..0] == "";
    }
  }

  lemma Numerals()
    ensures Print(8) == "8" && Print(9) == "9" && Print(10) == "10" && Print(99) == "99" && Print(100) == "100"
  {
  }

  lemma PaddedNumerals()
    ensures PrintPadded(8, 2) == "08" && PrintPadded(9, 2) == "09" && PrintPadded(10, 2) == "10"
    ensures PrintPadded(99, 3) == "099" && PrintPadded(100, 3) == "100"
  {
    hide Print;
    Numerals();
    assert Zeros(1) == "0" && Zeros(0) == "";
  }
}
