/** The management program's log: one current file and five rotated ones behind it. */
module LogRotation {
  import opened Common

  const LOG_ROTATE_DEPTH := 5
  const U64_MAX := 0xFFFF_FFFF_FFFF_FFFF

  type Line = string

  /** Bytes of a line with its newline, and of a file. */
  function LineLen(line: Line): nat { |line| + 1 }

  function Size(file: seq<Line>): nat { if file == [] then 0 else Size(file[..|file| - 1]) + LineLen(file[|file| - 1]) }

  /** The files by rotation number, 0 being the current one; a file may be missing. */
  type Files = f: seq<Option<seq<Line>>> | |f| == LOG_ROTATE_DEPTH + 1 witness seq(LOG_ROTATE_DEPTH + 1, _ => None)

  function Lines(file: Option<seq<Line>>): seq<Line> { if file.Some? then file.value else [] }

  /** The files from `n` down to the current one, oldest line first. */
  function Concat(f: Files, n: nat): seq<Line>
    requires n <= LOG_ROTATE_DEPTH
  {
    if n == 0 then Lines(f[0]) else Lines(f[n]) + Concat(f, n - 1)
  }

  function Retained(f: Files): seq<Line> { Concat(f, LOG_ROTATE_DEPTH) }

  function SaturatingAdd(a: nat, b: nat): nat { if a + b > U64_MAX then U64_MAX else a + b }

  predicate NeedsRotation(f: Files, lineLen: nat, limit: nat) {
    f[0].Some? && SaturatingAdd(Size(f[0].value), lineLen) > (if limit < 4096 then 4096 else limit)
  }

  /** Every file one number up, the oldest gone. */
  function Rotated(f: Files): Files { [None] + f[..LOG_ROTATE_DEPTH] }

  function Append(f: Files, line: Line, limit: nat): Files {
    var g := if NeedsRotation(f, LineLen(line), limit) then Rotated(f) else f;
    g[0 := Some(Lines(g[0]) + [line])]
  }

  class LogDir {
    const files: array<Option<seq<Line>>>

    ghost predicate Valid()
      reads this
    {
      files.Length == LOG_ROTATE_DEPTH + 1
    }

    ghost function Contents(): Files
      requires Valid()
      reads this, files
    {
      files[..]
    }

    constructor ()
      ensures Valid() && fresh(files) && Contents() == seq(LOG_ROTATE_DEPTH + 1, _ => None)
    {
      files := new Option<seq<Line>>[LOG_ROTATE_DEPTH + 1](_ => None);
    }

    /** `maybe_rotate_log_file`: remove the oldest, rename from the oldest to the newest. */
    method MaybeRotate(lineLen: nat, limit: nat)
      requires Valid()
      modifies files
      ensures Contents() == if NeedsRotation(old(Contents()), lineLen, limit) then Rotated(old(Contents()))
              else old(Contents())
    {
      var maxBytes := if limit < 4096 then 4096 else limit;
      if files[0].None? { return; }
      if SaturatingAdd(Size(files[0].value), lineLen) <= maxBytes { return; }
      ghost var before := Contents();
      files[LOG_ROTATE_DEPTH] := None;
      var i := LOG_ROTATE_DEPTH - 1;
      while i >= 1
        invariant 0 <= i < LOG_ROTATE_DEPTH
        invariant forall k :: 0 <= k <= i ==> files[k] == before[k]
        invariant files[i + 1] == None
        invariant forall k :: i + 1 < k <= LOG_ROTATE_DEPTH ==> files[k] == before[k - 1]
      {
        if files[i].Some? {
          files[i + 1] := files[i];
          files[i] := None;
        }
        i := i - 1;
      }
      files[1] := files[0];
      files[0] := None;
      assert Contents() == Rotated(before);
    }

    /** `try_append_log_line_in` */
    method AppendLine(line: Line, limit: nat)
      requires Valid()
      modifies files
      ensures Contents() == Append(old(Contents()), line, limit)
    {
      MaybeRotate(LineLen(line), limit);
      ghost var g := Contents();
      files[0] := Some((if files[0].Some? then files[0].value else []) + [line]);
      assert Contents() == g[0 := Some(Lines(g[0]) + [line])];
    }
  }

  // ---------------------------------------------------------------- retention over every run

  predicate IsSuffix<T(==)>(a: seq<T>, b: seq<T>) { |a| <= |b| && b[|b| - |a|..] == a }

  lemma {:induction false} ConcatRotated(f: Files, n: nat)
    requires 1 <= n <= LOG_ROTATE_DEPTH
    ensures Concat(Rotated(f), n) == Concat(f, n - 1)
  {
    if n > 1 { ConcatRotated(f, n - 1); }
    else { assert Concat(Rotated(f), 0) == []; }
  }

  lemma {:induction false} ConcatAppended(f: Files, line: Line, n: nat)
    requires n <= LOG_ROTATE_DEPTH
    ensures Concat(f[0 := Some(Lines(f[0]) + [line])], n) == Concat(f, n) + [line]
  {
    if n > 0 {
      ConcatAppended(f, line, n - 1);
      assert (Lines(f[n]) + Concat(f, n - 1)) + [line] == Lines(f[n]) + (Concat(f, n - 1) + [line]);
    }
  }

  /** One append drops nothing, or exactly the oldest file, and puts the line last. */
  lemma AppendDropsOldestOnly(f: Files, line: Line, limit: nat)
    ensures Lines(f[LOG_ROTATE_DEPTH]) + Concat(f, LOG_ROTATE_DEPTH - 1) == Retained(f)
    ensures Retained(Append(f, line, limit)) ==
              (if NeedsRotation(f, LineLen(line), limit) then Concat(f, LOG_ROTATE_DEPTH - 1) else Retained(f)) + [line]
  {
    ConcatRotated(f, LOG_ROTATE_DEPTH);
    ConcatAppended(if NeedsRotation(f, LineLen(line), limit) then Rotated(f) else f, line, LOG_ROTATE_DEPTH);
  }

  /** The text of a file: its lines, each with a newline. */
  function Text(file: seq<Line>): string {
    if file == [] then "" else Text(file[..|file| - 1]) + file[|file| - 1] + "\n"
  }

  lemma {:induction false} SizeIsText(file: seq<Line>)
    ensures Size(file) == |Text(file)|
  {
    if file != [] { SizeIsText(file[..|file| - 1]); }
  }

  /**
   * The line goes to the current file while the file stays within the limit with it, or within 4096
   * bytes if the limit is lower; otherwise each file moves up by one and the line starts a new one.
   */
  lemma AppendIs(f: Files, line: Line, limit: nat)
    requires limit < 0xFFFF_FFFF_FFFF_FFFF
    ensures var r, most := Append(f, line, limit), if limit < 4096 then 4096 else limit;
            if f[0].None? || |Text(f[0].value)| + |line| + 1 <= most
            then r[0] == Some((if f[0].Some? then f[0].value else []) + [line])
                 && forall i :: 1 <= i <= 5 ==> r[i] == f[i]
            else r[0] == Some([line]) && forall i :: 1 <= i <= 5 ==> r[i] == f[i - 1]
  {
    if f[0].Some? { SizeIsText(f[0].value); }
    assert [] + [line] == [line];
  }

  /** What is appended, and the limit in force then. */
  datatype Entry = Entry(line: Line, limit: nat)

  function Run(f: Files, entries: seq<Entry>): Files {
    if entries == [] then f
    else
      var e := entries[|entries| - 1];
      Append(Run(f, entries[..|entries| - 1]), e.line, e.limit)
  }

  function Written(entries: seq<Entry>): seq<Line> {
    if entries == [] then [] else Written(entries[..|entries| - 1]) + [entries[|entries| - 1].line]
  }

  /** Over every run the retained lines are the last ones of all that was ever there, in order. */
  lemma {:induction false} RetainedIsSuffix(f: Files, entries: seq<Entry>)
    ensures IsSuffix(Retained(Run(f, entries)), Retained(f) + Written(entries))
  {
    hide Append, Retained, Concat;
    if entries == [] {
      assert Retained(f) + [] == Retained(f);
    } else {
      var init, e := entries[..|entries| - 1], entries[|entries| - 1];
      RetainedIsSuffix(f, init);
      var g := Run(f, init);
      AppendDropsOldestOnly(g, e.line, e.limit);
      var all := Retained(f) + Written(init);
      assert Retained(f) + Written(entries) == all + [e.line];
      SuffixStep(Retained(Append(g, e.line, e.limit)),
                 if NeedsRotation(g, LineLen(e.line), e.limit) then Concat(g, LOG_ROTATE_DEPTH - 1) else Retained(g),
                 Retained(g), all, e.line);
    }
  }

  lemma SuffixStep(r: seq<Line>, kept: seq<Line>, before: seq<Line>, all: seq<Line>, line: Line)
    requires IsSuffix(before, all) && IsSuffix(kept, before) && r == kept + [line]
    ensures IsSuffix(r, all + [line])
  {
    var b := all + [line];
    forall i | 0 <= i < |r| ensures b[|b| - |r| + i] == r[i] {
      if i < |kept| {
        assert kept[i] == before[|before| - |kept| + i];
        assert before[|before| - |kept| + i] == all[|all| - |before| + (|before| - |kept| + i)];
      }
    }
    assert b[|b| - |r|..] == r;
  }

  // ---------------------------------------------------------------- file sizes

  /** No larger than the bound, unless one line alone is. */
  predicate Bounded(file: Option<seq<Line>>, bound: nat) {
    file.Some? ==> Size(file.value) <= bound || |file.value| == 1
  }

  lemma AppendKeepsBound(f: Files, line: Line, limit: nat, bound: nat)
    requires limit <= bound && 4096 <= bound < U64_MAX
    requires forall i :: 0 <= i < |f| ==> Bounded(f[i], bound)
    ensures forall i :: 0 <= i < |f| ==> Bounded(Append(f, line, limit)[i], bound)
  {
    var g := if NeedsRotation(f, LineLen(line), limit) then Rotated(f) else f;
    var file := Lines(g[0]) + [line];
    assert file[..|file| - 1] == Lines(g[0]);
    assert Size(file) == Size(Lines(g[0])) + LineLen(line);
  }

  /** Over every run no file outgrows both the largest limit in force and a single line. */
  lemma {:induction false} FilesStayBounded(f: Files, entries: seq<Entry>, bound: nat)
    requires 4096 <= bound < U64_MAX && forall e :: e in entries ==> e.limit <= bound
    requires forall i :: 0 <= i < |f| ==> Bounded(f[i], bound)
    ensures forall i :: 0 <= i < |f| ==> Bounded(Run(f, entries)[i], bound)
  {
    hide Append, Bounded;
    if entries != [] {
      FilesStayBounded(f, entries[..|entries| - 1], bound);
      var e := entries[|entries| - 1];
      AppendKeepsBound(Run(f, entries[..|entries| - 1]), e.line, e.limit, bound);
    }
  }
}
