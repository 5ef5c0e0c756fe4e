/**
 * The text of `vtl_instances`, `NxM,NxM,...`: the kernel's printer and its parser built on
 * `strsep` and `sscanf`, and the more lenient parser of the management program.
 */
module InstanceSpec {
  import opened Common
  import opened Decimal
  import opened Elements

  const MAX_HOSTS := 8
  const SPEC_MAX := 384

  datatype HostSize = HostSize(drives: int, slots: int)

  function Clamped(z: HostSize): (r: HostSize)
    ensures r.drives == if z.drives < 1 then 1 else if z.drives > 8 then 8 else z.drives
    ensures r.slots == if z.slots < 1 then 1 else if z.slots > 256 then 256 else z.slots
  {
    HostSize(Clamp(z.drives, 1, MAX_DRIVES), Clamp(z.slots, 1, MAX_SLOTS))
  }

  predicate InRange(z: HostSize) { 1 <= z.drives <= MAX_DRIVES && 1 <= z.slots <= MAX_SLOTS }

  predicate IsLayout(g: seq<HostSize>) { 1 <= |g| <= MAX_HOSTS && forall i :: 0 <= i < |g| ==> InRange(g[i]) }

  predicate IsInt32(n: int) { -0x8000_0000 <= n < 0x8000_0000 }

  /** Truncation to a 32-bit signed integer. */
  function Int32(n: int): (r: int)
    ensures IsInt32(r) && (IsInt32(n) ==> r == n) && (n - r) % 0x1_0000_0000 == 0
  {
    var m := n % 0x1_0000_0000;
    if m < 0x8000_0000 then m else m - 0x1_0000_0000
  }

  // ---------------------------------------------------------------- strings

  /** The index of the first `c`, or the length. */
  function Until(s: string, c: char): (k: nat)
    ensures k <= |s| && (k < |s| ==> s[k] == c) && forall i :: 0 <= i < k ==> s[i] != c
  {
    if s == [] || s[0] == c then 0 else 1 + Until(s[1..], c)
  }

  lemma UntilIs(s: string, c: char, k: nat)
    requires k < |s| && s[k] == c && forall i :: 0 <= i < k ==> s[i] != c
    ensures Until(s, c) == k
  {
  }

  /** The comma-separated fields, by `strsep` or by `split`. */
  function Fields(s: string): (r: seq<string>)
    ensures r != []
  {
    var k := Until(s, ',');
    if k == |s| then [s] else [s[..k]] + Fields(s[k + 1..])
  }

  function Join(parts: seq<string>): string {
    if parts == [] then "" else if |parts| == 1 then parts[0] else parts[0] + "," + Join(parts[1..])
  }

  lemma {:induction false} JoinSnoc(parts: seq<string>, p: string)
    ensures Join(parts + [p]) == if parts == [] then p else Join(parts) + "," + p
  {
    if |parts| > 0 {
      assert (parts + [p])[1..] == parts[1..] + [p];
      JoinSnoc(parts[1..], p);
      if |parts| > 1 {
        assert Join(parts) == parts[0] + "," + Join(parts[1..]);
      }
    }
  }

  lemma {:induction false} FieldsOfJoin(parts: seq<string>)
    requires parts != [] && forall i :: 0 <= i < |parts| ==> ',' !in parts[i]
    ensures Fields(Join(parts)) == parts
  {
    var s := Join(parts);
    if |parts| > 1 {
      UntilIs(s, ',', |parts[0]|);
      assert s[..|parts[0]|] == parts[0];
      assert s[|parts[0]| + 1..] == Join(parts[1..]);
      FieldsOfJoin(parts[1..]);
    }
  }

  lemma {:induction false} JoinLength(parts: seq<string>, k: nat)
    requires forall i :: 0 <= i < |parts| ==> |parts[i]| <= k
    ensures |Join(parts)| <= (k + 1) * |parts|
  {
    if |parts| > 1 {
      JoinLength(parts[1..], k);
      assert (k + 1) * |parts| == (k + 1) + (k + 1) * |parts[1..]|;
    }
  }

  // ---------------------------------------------------------------- sscanf

  /** The kernel's `isspace`. */
  predicate IsSpace(c: char) { c == ' ' || '\t' <= c <= '\r' || c == 0xA0 as char }

  function SkipSpaces(s: string): string { if s != [] && IsSpace(s[0]) then SkipSpaces(s[1..]) else s }

  function LeadingDigits(s: string): (k: nat)
    ensures k <= |s| && AllDigits(s[..k]) && (k < |s| ==> !IsDigit(s[k]))
  {
    if s == [] || !IsDigit(s[0]) then 0 else 1 + LeadingDigits(s[1..])
  }

  datatype Scanned = Scanned(value: int, rest: string)

  /** One `%d` of `sscanf`: white space, an optional minus, digits; the value wraps to 32 bits. */
  function ScanInt(s: string): Option<Scanned> {
    var t := SkipSpaces(s);
    var u := if t != [] && t[0] == '-' then t[1..] else t;
    var k := LeadingDigits(u);
    if k == 0 then None
    else
      var v: int := Value(u[..k]);
      Some(Scanned(Int32(if t[0] == '-' then -v else v), u[k..]))
  }

  /** `sscanf(tok, "%dx%d", ...) == 2`, what follows being ignored, and the clamping after it. */
  function ScanSize(tok: string): Option<HostSize> {
    var d := ScanInt(tok);
    if d.None? || d.value.rest == [] || d.value.rest[0] != 'x' then None
    else
      var s := ScanInt(d.value.rest[1..]);
      if s.None? then None else Some(Clamped(HostSize(d.value.value, s.value.value)))
  }

  function SkipBlanks(s: string): string { if s != [] && (s[0] == ' ' || s[0] == '\t') then SkipBlanks(s[1..]) else s }

  /** The fields that are not blank, their leading blanks gone. */
  function Tokens(fields: seq<string>): seq<string> {
    if fields == [] then []
    else
      var init, tok := Tokens(fields[..|fields| - 1]), SkipBlanks(fields[|fields| - 1]);
      if tok == [] then init else init + [tok]
  }

  predicate AllScan(toks: seq<string>) { forall i :: 0 <= i < |toks| ==> ScanSize(toks[i]).Some? }

  function Sizes(toks: seq<string>): (g: seq<HostSize>)
    requires AllScan(toks)
    ensures |g| == |toks| && forall i :: 0 <= i < |g| ==> Some(g[i]) == ScanSize(toks[i])
    ensures forall i :: 0 <= i < |g| ==> InRange(g[i])
  {
    seq(|toks|, i requires 0 <= i < |toks| => ScanSize(toks[i]).value)
  }

  /** What `vtl_parse_spec_tokens` accepts, and as what. */
  function Parse(spec: string): (r: Option<seq<HostSize>>)
    ensures r.Some? ==> IsLayout(r.value)
  {
    var toks := Tokens(Fields(spec));
    if AllScan(toks) && 1 <= |toks| <= MAX_HOSTS then Some(Sizes(toks)) else None
  }

  // ---------------------------------------------------------------- the kernel parser, field by field

  lemma TokensSnoc(fields: seq<string>, f: string)
    ensures Tokens(fields + [f]) == if SkipBlanks(f) == [] then Tokens(fields) else Tokens(fields) + [SkipBlanks(f)]
  {
    assert (fields + [f])[..|fields|] == fields;
  }

  lemma {:induction false} TokensOfPrefix(fields: seq<string>, n: nat)
    requires n <= |fields|
    ensures Tokens(fields[..n]) <= Tokens(fields)
    decreases |fields|
  {
    if n < |fields| {
      TokensOfPrefix(fields[..|fields| - 1], n);
      assert fields[..|fields| - 1][..n] == fields[..n];
    } else {
      assert fields[..n] == fields;
    }
  }

  /** A field that does not scan, or one too many, refuses the whole text. */
  lemma BadFieldRefuses(spec: string, n: nat)
    requires n <= |Fields(spec)|
    requires !AllScan(Tokens(Fields(spec)[..n])) || |Tokens(Fields(spec)[..n])| > MAX_HOSTS
    ensures Parse(spec).None?
  {
    TokensOfPrefix(Fields(spec), n);
    var few, all := Tokens(Fields(spec)[..n]), Tokens(Fields(spec));
    if !AllScan(few) {
      var i :| 0 <= i < |few| && ScanSize(few[i]).None?;
      assert ScanSize(all[i]).None?;
    }
  }

  /** The geometry in the first `n` entries of the two arrays. */
  function Stored(drives: array<int>, slots: array<int>, n: nat): (g: seq<HostSize>)
    requires n <= drives.Length && n <= slots.Length
    reads drives, slots
    ensures |g| == n && forall i :: 0 <= i < n ==> g[i] == HostSize(drives[i], slots[i])
  {
    if n == 0 then [] else Stored(drives, slots, n - 1) + [HostSize(drives[n - 1], slots[n - 1])]
  }

  lemma NoTokens()
    ensures Tokens([]) == [] && AllScan([])
  {
  }

  /** The tokens of one more field. */
  lemma OneMoreField(fields: seq<string>, k: nat)
    requires k < |fields|
    ensures var init, tok := Tokens(fields[..k]), SkipBlanks(fields[k]);
            Tokens(fields[..k + 1]) == if tok == [] then init else init + [tok]
  {
    assert fields[..k + 1] == fields[..k] + [fields[k]];
    TokensSnoc(fields[..k], fields[k]);
  }

  lemma OneMoreSize(toks: seq<string>, tok: string)
    requires AllScan(toks)
    ensures AllScan(toks + [tok]) <==> ScanSize(tok).Some?
    ensures AllScan(toks + [tok]) ==> Sizes(toks + [tok]) == Sizes(toks) + [ScanSize(tok).value]
  {
    hide ScanSize;
    assert (toks + [tok])[|toks|] == tok;
  }

  /** The output arrays' next entries filled in. */
  method Store(drives: array<int>, slots: array<int>, n: nat, z: HostSize)
    requires n < drives.Length && n < slots.Length && drives != slots
    modifies drives, slots
    ensures Stored(drives, slots, n + 1) == old(Stored(drives, slots, n)) + [z]
  {
    drives[n], slots[n] := z.drives, z.slots;
    assert Stored(drives, slots, n) == old(Stored(drives, slots, n));
  }

  /** `vtl_parse_spec_tokens`; on refusal the output arrays hold no meaning. */
  method ParseSpecTokens(spec: string, drives: array<int>, slots: array<int>) returns (ret: int, ninst: nat)
    requires drives.Length == slots.Length == MAX_HOSTS && drives != slots
    modifies drives, slots
    ensures ret == if Parse(spec).Some? then OK else EINVAL
    ensures ninst <= MAX_HOSTS && (ret == OK ==> Stored(drives, slots, ninst) == Parse(spec).value)
  {
    hide ScanSize, SkipBlanks, Tokens, Parse, AllScan, Sizes, Stored, Fields;
    ninst := 0;
    if spec == [] {
      EmptyIsRefused();
      return EINVAL, 0;
    }
    var fields := Fields(spec);
    assert fields[..0] == [];
    NoTokens();
    for k := 0 to |fields|
      invariant ninst <= MAX_HOSTS && AllScan(Tokens(fields[..k]))
      invariant Stored(drives, slots, ninst) == Sizes(Tokens(fields[..k]))
    {
      var tok := SkipBlanks(fields[k]);
      OneMoreField(fields, k);
      if tok == [] { continue; }
      OneMoreSize(Tokens(fields[..k]), tok);
      var z := ScanSize(tok);
      if z.None? || ninst >= MAX_HOSTS {
        BadFieldRefuses(spec, k + 1);
        return EINVAL, 0;
      }
      Store(drives, slots, ninst, z.value);
      ninst := ninst + 1;
    }
    assert fields[..|fields|] == fields;
    ParseByTokens(spec);
    ret := if ninst == 0 then EINVAL else OK;
  }

  lemma EmptyIsRefused()
    ensures Parse("").None?
  {
    assert Fields("") == [""] && Fields("")[..0] == [];
  }

  lemma ParseByTokens(spec: string)
    requires AllScan(Tokens(Fields(spec)))
    ensures var toks := Tokens(Fields(spec));
            Parse(spec) == if 1 <= |toks| <= MAX_HOSTS then Some(Sizes(toks)) else None
  {
  }

  // ---------------------------------------------------------------- the printer

  function PrintInt(n: int): string { if n < 0 then "-" + Print(-n) else Print(n) }

  function PrintSize(z: HostSize): string { PrintInt(z.drives) + "x" + PrintInt(z.slots) }

  function PrintParts(g: seq<HostSize>): seq<string> { seq(|g|, i requires 0 <= i < |g| => PrintSize(g[i])) }

  function PrintSpec(g: seq<HostSize>): string { Join(PrintParts(g)) }

  predicate FitsInt32(g: seq<HostSize>) {
    forall i :: 0 <= i < |g| ==> IsInt32(g[i].drives) && IsInt32(g[i].slots)
  }

  lemma PrintIntLength(n: int)
    requires IsInt32(n)
    ensures |PrintInt(n)| <= 11
  {
    assert Pow10(10) == 10_000_000_000;
    if n < 0 { PrintLength(-n, 10); } else { PrintLength(n, 10); }
  }

  lemma PrintSizeLength(z: HostSize)
    requires IsInt32(z.drives) && IsInt32(z.slots)
    ensures |PrintSize(z)| <= 23
  {
    PrintIntLength(z.drives);
    PrintIntLength(z.slots);
  }

  /** The text of up to eight hosts fits the buffer with its terminating zero. */
  lemma PrintSpecFits(g: seq<HostSize>)
    requires FitsInt32(g) && |g| <= MAX_HOSTS
    ensures |PrintSpec(g)| <= 192 < SPEC_MAX
  {
    forall i | 0 <= i < |g| ensures |PrintParts(g)[i]| <= 23 {
      PrintSizeLength(g[i]);
    }
    JoinLength(PrintParts(g), 23);
  }

  lemma PrintedStartsPlainly(z: HostSize)
    ensures var s := PrintSize(z); s != [] && (s[0] == '-' || IsDigit(s[0]))
  {
  }

  lemma PrintNone()
    ensures PrintSpec([]) == ""
  {
  }

  lemma PrintSnoc(g: seq<HostSize>, z: HostSize)
    ensures PrintSpec(g + [z]) == PrintSpec(g) + ((if g != [] then "," else "") + PrintSize(z))
  {
    hide PrintSize;
    assert PrintParts(g + [z]) == PrintParts(g) + [PrintSize(z)];
    JoinSnoc(PrintParts(g), PrintSize(z));
    if g != [] {
      assert PrintSpec(g) + "," + PrintSize(z) == PrintSpec(g) + ("," + PrintSize(z));
    }
  }

  /** What `scnprintf` puts of `piece` into a buffer of `room` bytes, the terminating zero aside. */
  function Scnprintf(piece: string, room: int): string {
    if |piece| < room then piece else if room > 0 then piece[..room - 1] else ""
  }

  /** One turn of the printer's loop, when the text so far is that of the hosts before `i`. */
  lemma OneMoreHost(g: seq<HostSize>, i: nat)
    requires FitsInt32(g) && i < |g| <= MAX_HOSTS
    ensures var piece := (if i > 0 then "," else "") + PrintSize(g[i]);
            && piece != [] && PrintSpec(g[..i]) + piece == PrintSpec(g[..i + 1])
            && |PrintSpec(g[..i])| + |piece| < SPEC_MAX
  {
    hide PrintSize, PrintSpec;
    PrintSnoc(g[..i], g[i]);
    assert g[..i + 1] == g[..i] + [g[i]];
    PrintSpecFits(g[..i + 1]);
    PrintedStartsPlainly(g[i]);
  }

  /**
   * The loop of `vtl_publish_live_instances_spec`: each `scnprintf` cuts at the buffer's end, and a
   * cut gives up the publication. Neither happens.
   */
  method PrintLive(drives: array<int>, slots: array<int>, ninst: nat) returns (r: Option<string>)
    requires drives.Length == slots.Length == MAX_HOSTS && ninst <= MAX_HOSTS
    requires FitsInt32(Stored(drives, slots, ninst))
    ensures r == if ninst == 0 then None else Some(PrintSpec(Stored(drives, slots, ninst)))
  {
    if ninst == 0 { return None; }
    hide PrintSize, PrintSpec, FitsInt32, Stored;
    ghost var g := Stored(drives, slots, ninst);
    var buf := "";
    PrintNone();
    assert g[..0] == [];
    for i := 0 to ninst
      invariant buf == PrintSpec(g[..i])
    {
      OneMoreHost(g, i);
      var piece := (if i > 0 then "," else "") + PrintSize(HostSize(drives[i], slots[i]));
      var written := Scnprintf(piece, SPEC_MAX - |buf|);
      if |written| <= 0 || |buf| + |written| >= SPEC_MAX { return None; }
      buf := buf + written;
    }
    assert g[..ninst] == g;
    return Some(buf);
  }

  // ---------------------------------------------------------------- round trips

  lemma LeadingDigitsIs(s: string, k: nat)
    requires k <= |s| && AllDigits(s[..k]) && (k < |s| ==> !IsDigit(s[k]))
    ensures LeadingDigits(s) == k
  {
    var j := LeadingDigits(s);
    assert forall i :: 0 <= i < k ==> s[i] == s[..k][i];
    assert forall i :: 0 <= i < j ==> s[i] == s[..j][i];
  }

  lemma FirstIsDigit(s: string)
    requires AllDigits(s) && s != []
    ensures IsDigit(s[0])
  {
  }

  predicate AllSpaces(s: string) { forall i :: 0 <= i < |s| ==> IsSpace(s[i]) }

  lemma {:induction false} SkipsSpaces(w: string, s: string)
    requires AllSpaces(w) && s != [] && !IsSpace(s[0])
    ensures SkipSpaces(w + s) == s
  {
    hide IsSpace;
    if w == [] {
      assert w + s == s;
    } else {
      assert (w + s)[1..] == w[1..] + s;
      SkipsSpaces(w[1..], s);
    }
  }

  lemma ScanPrintedBehind(w: string, n: int, t: string)
    requires AllSpaces(w) && (t != [] ==> !IsDigit(t[0]))
    ensures ScanInt(w + PrintInt(n) + t) == Some(Scanned(Int32(n), t))
  {
    hide Print, Value, LeadingDigits, AllDigits, AllSpaces, Int32;
    var digits := Print(if n < 0 then -n else n);
    PrintReadsBack(if n < 0 then -n else n);
    FirstIsDigit(digits);
    var s := PrintInt(n) + t;
    assert w + PrintInt(n) + t == w + s;
    SkipsSpaces(w, s);
    var u := if s[0] == '-' then s[1..] else s;
    assert u == digits + t;
    assert u[..|digits|] == digits && u[|digits|..] == t;
    LeadingDigitsIs(u, |digits|);
  }

  lemma ScanPrinted(n: int, t: string)
    requires IsInt32(n) && (t != [] ==> !IsDigit(t[0]))
    ensures ScanInt(PrintInt(n) + t) == Some(Scanned(n, t))
  {
    hide PrintInt, ScanInt, IsSpace, IsDigit;
    ScanPrintedBehind([], n, t);
    assert [] + PrintInt(n) + t == PrintInt(n) + t;
  }

  /**
   * A field may have white space before either number, which may be of any size and wraps to 32 bits,
   * and anything but a digit behind the second: it is read all the same, drives first, and clamped.
   */
  lemma FieldReads(w: string, d: int, v: string, n: int, t: string)
    requires AllSpaces(w) && AllSpaces(v) && (t != [] ==> !IsDigit(t[0]))
    ensures ScanSize(w + PrintInt(d) + ("x" + (v + PrintInt(n) + t))) == Some(Clamped(HostSize(Int32(d), Int32(n))))
  {
    hide Int32, PrintInt, ScanInt, AllSpaces;
    var behind := v + PrintInt(n) + t;
    ScanPrintedBehind(w, d, "x" + behind);
    assert ("x" + behind)[1..] == behind;
    ScanPrintedBehind(v, n, t);
  }

  lemma ScanPrintedSize(z: HostSize)
    requires IsInt32(z.drives) && IsInt32(z.slots)
    ensures ScanSize(PrintSize(z)) == Some(Clamped(z))
  {
    var s, tail := PrintSize(z), "x" + PrintInt(z.slots);
    assert s == PrintInt(z.drives) + tail;
    ScanPrinted(z.drives, tail);
    assert tail[1..] == PrintInt(z.slots) + [];
    ScanPrinted(z.slots, []);
  }

  lemma {:induction false} TokensOfPlain(fields: seq<string>)
    requires forall i :: 0 <= i < |fields| ==> fields[i] != [] && fields[i][0] != ' ' && fields[i][0] != '\t'
    ensures Tokens(fields) == fields
  {
    if fields != [] {
      TokensOfPlain(fields[..|fields| - 1]);
    }
  }

  lemma PrintedHasNoComma(z: HostSize)
    ensures ',' !in PrintSize(z)
  {
    assert ',' !in PrintInt(z.drives) && ',' !in PrintInt(z.slots) by {
      assert forall s: string :: AllDigits(s) ==> ',' !in s;
    }
  }

  lemma PrintedFields(g: seq<HostSize>)
    requires g != []
    ensures Fields(PrintSpec(g)) == PrintParts(g)
  {
    forall i | 0 <= i < |g| ensures ',' !in PrintParts(g)[i] {
      PrintedHasNoComma(g[i]);
    }
    FieldsOfJoin(PrintParts(g));
  }

  /** The parser inverts the printer up to clamping, for all 32-bit drive and slot counts. */
  lemma ParseInvertsPrint(g: seq<HostSize>)
    requires FitsInt32(g) && 1 <= |g| <= MAX_HOSTS
    ensures Parse(PrintSpec(g)) == Some(seq(|g|, i requires 0 <= i < |g| => Clamped(g[i])))
  {
    hide ScanSize, PrintSize, PrintSpec, Fields;
    PrintedFields(g);
    var parts := PrintParts(g);
    forall i | 0 <= i < |g| ensures parts[i] != [] && parts[i][0] != ' ' && parts[i][0] != '\t' {
      PrintedStartsPlainly(g[i]);
    }
    TokensOfPlain(parts);
    forall i | 0 <= i < |g| ensures ScanSize(parts[i]) == Some(Clamped(g[i])) {
      ScanPrintedSize(g[i]);
    }
    assert Sizes(parts) == seq(|g|, i requires 0 <= i < |g| => Clamped(g[i]));
  }

  /** A printed geometry parses to itself exactly when it is within the caps. */
  lemma ParseInvertsPrintIff(g: seq<HostSize>)
    requires FitsInt32(g) && 1 <= |g| <= MAX_HOSTS
    ensures Parse(PrintSpec(g)) == Some(g) <==> IsLayout(g)
  {
    hide Parse, PrintSpec;
    ParseInvertsPrint(g);
    var clamped := seq(|g|, i requires 0 <= i < |g| => Clamped(g[i]));
    if IsLayout(g) {
      assert clamped == g;
    }
  }

  /** The printed text has one field a host: its drives, an `x`, its slots. */
  lemma PrintedFieldsAre(g: seq<HostSize>, i: nat)
    requires IsLayout(g) && i < |g|
    ensures var f := Fields(PrintSpec(g));
            |f| == |g| && f[i] == Print(g[i].drives) + "x" + Print(g[i].slots)
  {
    hide Fields, PrintSpec;
    PrintedFields(g);
  }

  lemma Numerals()
    ensures Print(24) == "24" && Print(256) == "256" && Print(20) == "20"
    ensures Print(0) == "0" && Print(1) == "1" && Print(2) == "2"
  {
  }

  /** Two hosts in the text, drives first, and a size outside the caps cut to them. */
  lemma SpecTextExample()
    ensures PrintSpec([HostSize(2, 24), HostSize(1, 256)]) == "2x24,1x256"
    ensures Parse("2x24,1x256") == Some([HostSize(2, 24), HostSize(1, 256)])
    ensures Parse("20x0") == Some([HostSize(8, 1)])
  {
    hide Parse, Fields, Tokens, AllScan, Sizes, Print;
    var g, z := [HostSize(2, 24), HostSize(1, 256)], [HostSize(20, 0)];
    Numerals();
    assert PrintSize(g[0]) == "2x24" && PrintSize(g[1]) == "1x256" && PrintSize(z[0]) == "20x0";
    assert PrintParts(g) == ["2x24", "1x256"] && PrintParts(g)[1..] == ["1x256"];
    assert PrintSpec(g) == "2x24,1x256";
    ParseInvertsPrintIff(g);
    assert PrintParts(z) == ["20x0"] && PrintSpec(z) == "20x0";
    ParseInvertsPrint(z);
    assert seq(|z|, i requires 0 <= i < |z| => Clamped(z[i])) == [HostSize(8, 1)];
  }

  /** What the parser accepts, printed and parsed again, is the same geometry. */
  lemma PrintedParseIsStable(spec: string)
    requires Parse(spec).Some?
    ensures Parse(PrintSpec(Parse(spec).value)) == Parse(spec)
  {
    hide Parse, PrintSpec;
    ParseInvertsPrintIff(Parse(spec).value);
  }

  // ---------------------------------------------------------------- the management program's parser

  /** Unicode `White_Space`, which `str::trim` strips. */
  predicate IsWhite(c: char) {
    var n := c as int;
    || 9 <= n <= 13 || n == 32 || n == 0x85 || n == 0xA0 || n == 0x1680 || 0x2000 <= n <= 0x200A
    || n == 0x2028 || n == 0x2029 || n == 0x202F || n == 0x205F || n == 0x3000
  }

  function Trim(s: string): string
    decreases |s|
  {
    if s == [] then s
    else if IsWhite(s[0]) then Trim(s[1..])
    else if IsWhite(s[|s| - 1]) then Trim(s[..|s| - 1])
    else s
  }

  /** `str::parse::<i32>` */
  function ParseI32(s: string): Option<int> {
    var digits := if s != [] && (s[0] == '-' || s[0] == '+') then s[1..] else s;
    if digits == [] || !AllDigits(digits) then None
    else
      var v: int := Value(digits);
      var n := if s[0] == '-' then -v else v;
      if IsInt32(n) then Some(n) else None
  }

  function Segment(tok: string): Option<HostSize> {
    var t := Trim(tok);
    var k := Until(t, 'x');
    if k == |t| then None
    else
      var d, s := ParseI32(Trim(t[..k])), ParseI32(Trim(t[k + 1..]));
      if d.None? || s.None? then None else Some(Clamped(HostSize(d.value, s.value)))
  }

  function KeepSome(found: seq<Option<HostSize>>): seq<HostSize> {
    if found == [] then []
    else (if found[0].Some? then [found[0].value] else []) + KeepSome(found[1..])
  }

  /** `parse_vtl_instances_segments`: fields it cannot read are passed over. */
  function Segments(spec: string): seq<HostSize> {
    var f := Fields(spec);
    KeepSome(seq(|f|, i requires 0 <= i < |f| => Segment(f[i])))
  }

  /** `count_vtl_instances_segments` */
  function CountSegments(spec: string): nat {
    var f := Fields(spec);
    |set i | 0 <= i < |f| && Trim(f[i]) != []|
  }

  lemma {:induction false} KeepSomeAll(found: seq<Option<HostSize>>, g: seq<HostSize>)
    requires |found| == |g| && forall i :: 0 <= i < |g| ==> found[i] == Some(g[i])
    ensures KeepSome(found) == g
  {
    if g != [] {
      KeepSomeAll(found[1..], g[1..]);
    }
  }

  lemma TrimPlain(s: string)
    requires s != [] && !IsWhite(s[0]) && !IsWhite(s[|s| - 1])
    ensures Trim(s) == s
  {
  }

  lemma PrintIntIsPlain(n: int)
    ensures var s := PrintInt(n); 'x' !in s && s != [] && !IsWhite(s[0]) && !IsWhite(s[|s| - 1])
  {
    hide Print;
    var digits := Print(if n < 0 then -n else n);
    assert forall i :: 0 <= i < |digits| ==> IsDigit(digits[i]);
    assert PrintInt(n)[|PrintInt(n)| - 1] == digits[|digits| - 1];
  }

  lemma ParseI32Printed(n: int)
    requires IsInt32(n)
    ensures ParseI32(Trim(PrintInt(n))) == Some(n)
  {
    hide Print, Value, Trim;
    var digits := Print(if n < 0 then -n else n);
    var s := PrintInt(n);
    PrintReadsBack(if n < 0 then -n else n);
    PrintIntIsPlain(n);
    TrimPlain(s);
    assert IsDigit(digits[0]);
    assert (if s[0] == '-' then s[1..] else s) == digits;
  }

  lemma SegmentPrinted(z: HostSize)
    requires IsInt32(z.drives) && IsInt32(z.slots)
    ensures Segment(PrintSize(z)) == Some(Clamped(z)) && Trim(PrintSize(z)) != []
  {
    hide PrintInt, Trim, ParseI32, IsWhite, Until;
    var s, k := PrintSize(z), |PrintInt(z.drives)|;
    ParseI32Printed(z.drives);
    ParseI32Printed(z.slots);
    PrintIntIsPlain(z.drives);
    PrintIntIsPlain(z.slots);
    assert s[0] == PrintInt(z.drives)[0] && s[|s| - 1] == PrintInt(z.slots)[|PrintInt(z.slots)| - 1];
    TrimPlain(s);
    UntilIs(s, 'x', k);
    assert s[..k] == PrintInt(z.drives) && s[k + 1..] == PrintInt(z.slots);
  }

  /** On printed text both parsers read the same hosts, and the count is theirs. */
  lemma ParsersAgreeOnPrinted(g: seq<HostSize>)
    requires IsLayout(g)
    ensures Parse(PrintSpec(g)) == Some(g) && Segments(PrintSpec(g)) == g && CountSegments(PrintSpec(g)) == |g|
  {
    hide PrintSize, PrintSpec, Parse, Segment, Trim, Fields;
    ParseInvertsPrintIff(g);
    PrintedFields(g);
    var parts := PrintParts(g);
    forall i | 0 <= i < |g| ensures Segment(parts[i]) == Some(g[i]) && Trim(parts[i]) != [] {
      SegmentPrinted(g[i]);
    }
    KeepSomeAll(seq(|parts|, i requires 0 <= i < |parts| => Segment(parts[i])), g);
    var all := set i | 0 <= i < |parts| && Trim(parts[i]) != [];
    assert all == set i {:trigger parts[i]} | 0 <= i < |parts|;
    RangeSize(all, |parts|);
  }

  lemma {:induction false} RangeSize(s: set<int>, n: nat)
    requires forall i :: i in s <==> 0 <= i < n
    ensures |s| == n
  {
    if n > 0 {
      RangeSize(s - {n - 1}, n - 1);
    } else {
      assert forall i :: i !in s;
    }
  }

  lemma BareX()
    ensures ScanSize("z").None? && Segment("z").None? && SkipBlanks("z") == "z"
  {
    assert LeadingDigits("z") == 0;
  }

  lemma OneByOne()
    ensures Segment("1x1") == Some(HostSize(1, 1))
  {
    assert PrintSize(HostSize(1, 1)) == "1x1";
    SegmentPrinted(HostSize(1, 1));
  }

  /** On other text they may part: the kernel refuses what the management program passes over. */
  lemma ParsersDisagreeExample()
    ensures Parse("1x1,z").None? && Segments("1x1,z") == [HostSize(1, 1)]
  {
    hide ScanSize, SkipBlanks, Segment, Trim;
    var parts := ["1x1", "z"];
    assert parts[1..] == ["z"];
    assert Join(parts) == "1x1,z";
    FieldsOfJoin(parts);
    BareX();
    OneByOne();
    assert Tokens(parts)[|Tokens(parts)| - 1] == "z";
    var found := seq(|parts|, i requires 0 <= i < |parts| => Segment(parts[i]));
    assert found == [Some(HostSize(1, 1)), None];
    assert found[1..] == [None] && KeepSome(found[1..][1..]) == [];
    assert KeepSome(found[1..]) == [];
    assert !AllScan(Tokens(parts));
  }
}
