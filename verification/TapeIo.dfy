/**
 * Tape I/O of the kernel's drives: a position over an image file of bytes. `Deck` is the loaded
 * drive and its medium as values; the class keeps the same in fields.
 */
module TapeIo {
  import opened Common

  const EROFS := -30
  const MAX_TAPE_SIZE := 10 * 1024 * 1024 * 1024 * 1024

  type u32 = x: int | 0 <= x < 0x1_0000_0000

  /**
   * `mounted` says the drive has a medium; without one the other fields say nothing. `capacity` is 0
   * for an image opened by name; `image` is the whole file.
   */
  datatype Deck = Deck(mounted: bool, position: int, capacity: nat, used: nat, image: seq<u8>, atFilemark: bool,
                       protected: bool, blockSize: u32)

  ghost predicate InBounds(d: Deck) {
    0 <= d.position <= d.capacity <= MAX_TAPE_SIZE && d.used <= d.capacity
  }

  function Min(a: int, b: int): int { if a < b then a else b }

  /** The bytes of the file from `pos`, at most `len` of them. */
  function FileRead(image: seq<u8>, pos: nat, len: nat): seq<u8> {
    if pos >= |image| then [] else image[pos..Min(pos + len, |image|)]
  }

  /** The file with `data` at `pos`, a hole before it read as zeros. */
  function FileWrite(image: seq<u8>, pos: nat, data: seq<u8>): (r: seq<u8>)
    ensures data != [] ==> |r| == (if pos + |data| > |image| then pos + |data| else |image|)
    ensures data != [] ==> r[pos..pos + |data|] == data
    ensures pos <= |image| ==> pos <= |r| && r[..pos] == image[..pos]
  {
    if data == [] then image
    else
      var base := if pos > |image| then image + seq(pos - |image|, _ => 0) else image;
      base[..pos] + data + (if pos + |data| < |base| then base[pos + |data|..] else [])
  }

  // ---------------------------------------------------------------- the commands

  /** How the file system answers: an error, or success up to so many bytes. */
  datatype Transfer = Failed | UpTo(n: nat)

  function ReadCode(io: Transfer, d: Deck): int {
    if !d.mounted then ENODEV else if d.atFilemark || d.position >= d.capacity || io.UpTo? then OK else EIO
  }

  /** What a read of `len` bytes delivers. */
  function Delivered(d: Deck, len: u32, io: Transfer): seq<u8> {
    if !d.mounted || d.atFilemark || d.position < 0 || d.position >= d.capacity || io.Failed? then []
    else FileRead(d.image, d.position, Min(Min(len, d.capacity - d.position), io.n))
  }

  function ReadStep(d: Deck, len: u32, io: Transfer): Deck {
    if !d.mounted then d else d.(atFilemark := false, position := d.position + |Delivered(d, len, io)|)
  }

  /** What of `data` reaches the medium. */
  function Accepted(d: Deck, data: seq<u8>, io: Transfer): seq<u8> {
    if d.protected || io.Failed? || d.position < 0 || d.position > d.capacity then []
    else data[..Min(Min(|data|, d.capacity - d.position), io.n)]
  }

  function WriteCode(d: Deck, io: Transfer): int {
    if !d.mounted then ENODEV else if d.protected then EROFS else if io.Failed? then EIO else OK
  }

  function WriteStep(d: Deck, data: seq<u8>, io: Transfer): Deck
    requires d.position >= 0
  {
    if WriteCode(d, io) != OK then d
    else
      var a := Accepted(d, data, io);
      var end := d.position + |a|;
      d.(image := FileWrite(d.image, d.position, a), position := end, used := if end > d.used then end else d.used,
         atFilemark := false)
  }

  /** `count * block_size` in unsigned 32-bit arithmetic, `count` being an `int`. */
  function Span(d: Deck, count: int): u32 { count * d.blockSize % 0x1_0000_0000 }

  function SpaceStep(d: Deck, code: int, count: int): Deck {
    var p := if code == 0 then d.position + Span(d, count) else if code == 1 then d.position - Span(d, count)
             else if code == 2 then d.capacity else if code == 3 then 0 else d.position;
    var q := if p < 0 then 0 else p;
    if !d.mounted then d
    else d.(position := if q > d.capacity then d.capacity else q, atFilemark := d.atFilemark || code == 4)
  }

  function MarkStep(d: Deck): Deck { if !d.mounted || d.protected then d else d.(atFilemark := true) }

  function RewindStep(d: Deck): Deck { if d.mounted then d.(position := 0, atFilemark := false) else d }

  // ---------------------------------------------------------------- every run

  datatype Op =
    | OpRead(len: u32, io: Transfer)
    | OpWrite(data: seq<u8>, io: Transfer)
    | OpSpace(code: int, count: int)
    | OpFilemarks
    | OpRewind

  function Step(d: Deck, op: Op): Deck
    requires d.position >= 0
  {
    match op
    case OpRead(len, io) => ReadStep(d, len, io)
    case OpWrite(data, io) => WriteStep(d, data, io)
    case OpSpace(code, count) => SpaceStep(d, code, count)
    case OpFilemarks => MarkStep(d)
    case OpRewind => RewindStep(d)
  }

  lemma StepKeepsBounds(d: Deck, op: Op)
    requires InBounds(d)
    ensures InBounds(Step(d, op)) && Step(d, op).capacity == d.capacity
  {
    hide FileWrite;
  }

  /** Over every run, short and failed transfers included, no subtraction from the capacity goes negative. */
  ghost function Run(d: Deck, ops: seq<Op>): (r: Deck)
    requires InBounds(d)
    ensures InBounds(r) && r.capacity == d.capacity
  {
    if ops == [] then d
    else
      var before := Run(d, ops[..|ops| - 1]);
      StepKeepsBounds(before, ops[|ops| - 1]);
      Step(before, ops[|ops| - 1])
  }

  // ---------------------------------------------------------------- writing and reading back

  /** Full transfers of one chunk after another. */
  function WriteAll(d: Deck, chunks: seq<seq<u8>>): Deck
    requires d.position >= 0
    ensures WriteAll(d, chunks).position >= 0
  {
    if chunks == [] then d
    else
      var before := WriteAll(d, chunks[..|chunks| - 1]);
      WriteStep(before, chunks[|chunks| - 1], UpTo(|chunks[|chunks| - 1]|))
  }

  function Joined(chunks: seq<seq<u8>>): seq<u8> {
    if chunks == [] then [] else Joined(chunks[..|chunks| - 1]) + chunks[|chunks| - 1]
  }

  function Cut(data: seq<u8>, n: nat): seq<u8> { if |data| > n then data[..n] else data }

  /** The file with its start overwritten by `data`. */
  function Overwritten(data: seq<u8>, image: seq<u8>): seq<u8> {
    data + (if |data| < |image| then image[|data|..] else [])
  }

  /** Writes from the start overwrite the start of the image by the data, cut at the capacity. */
  lemma {:induction false} WritesFromStart(d: Deck, chunks: seq<seq<u8>>)
    requires InBounds(d) && d.position == 0 && d.mounted && !d.protected
    ensures var r, data := WriteAll(d, chunks), Cut(Joined(chunks), d.capacity);
            && InBounds(r) && r.mounted && !r.protected && r.capacity == d.capacity
            && r.position == |data| <= r.used && r.image == Overwritten(data, d.image)
  {
    if chunks != [] {
      var init, last := chunks[..|chunks| - 1], chunks[|chunks| - 1];
      WritesFromStart(d, init);
      var before := WriteAll(d, init);
      StepKeepsBounds(before, OpWrite(last, UpTo(|last|)));
      OneMoreWrite(before, Joined(init), last, d.image);
    }
  }

  lemma OneMoreWrite(b: Deck, data: seq<u8>, last: seq<u8>, image: seq<u8>)
    requires InBounds(b) && b.mounted && !b.protected
    requires b.position == |Cut(data, b.capacity)| <= b.used && b.image == Overwritten(Cut(data, b.capacity), image)
    ensures var r, all := WriteStep(b, last, UpTo(|last|)), Cut(data + last, b.capacity);
            r.position == |all| <= r.used && r.image == Overwritten(all, image)
  {
    hide FileWrite, Overwritten;
    var c, a := Cut(data, b.capacity), Accepted(b, last, UpTo(|last|));
    assert Cut(data + last, b.capacity) == c + a;
    WriteBehind(c, a, image);
  }

  /** Writing right behind what was written extends it. */
  lemma WriteBehind(c: seq<u8>, a: seq<u8>, image: seq<u8>)
    ensures FileWrite(Overwritten(c, image), |c|, a) == Overwritten(c + a, image)
  {
    var before := Overwritten(c, image);
    assert before[..|c|] == c;
    if a == [] {
      assert c + a == c;
    } else if |c| + |a| < |image| {
      assert before[|c| + |a|..] == image[|c| + |a|..];
    }
  }

  /** Full reads of the given lengths, and what they deliver altogether. */
  function ReadAll(d: Deck, lens: seq<u32>): Deck {
    if lens == [] then d else ReadStep(ReadAll(d, lens[..|lens| - 1]), lens[|lens| - 1], UpTo(lens[|lens| - 1]))
  }

  function DeliveredAll(d: Deck, lens: seq<u32>): seq<u8> {
    if lens == [] then []
    else DeliveredAll(d, lens[..|lens| - 1])
         + Delivered(ReadAll(d, lens[..|lens| - 1]), lens[|lens| - 1], UpTo(lens[|lens| - 1]))
  }

  function Total(lens: seq<u32>): nat { if lens == [] then 0 else Total(lens[..|lens| - 1]) + lens[|lens| - 1] }

  /** Reads from the start deliver the image from its start, to the end of the request, the tape or the file. */
  lemma {:induction false} ReadsFromStart(d: Deck, lens: seq<u32>)
    requires InBounds(d) && d.position == 0 && d.mounted && !d.atFilemark
    ensures var k := Min(Total(lens), Min(d.capacity, |d.image|));
            ReadAll(d, lens) == d.(position := k) && DeliveredAll(d, lens) == d.image[..k]
  {
    hide Delivered, ReadStep;
    if lens != [] {
      var init, last := lens[..|lens| - 1], lens[|lens| - 1];
      ReadsFromStart(d, init);
      var k := Min(Total(init), Min(d.capacity, |d.image|));
      OneMoreRead(d, Total(init), last);
      assert Total(lens) == Total(init) + last;
    }
  }

  lemma OneMoreRead(d: Deck, asked: nat, last: u32)
    requires InBounds(d) && d.mounted && !d.atFilemark
    ensures var end := Min(d.capacity, |d.image|);
            var k, k' := Min(asked, end), Min(asked + last, end);
            var at := d.(position := k);
            && ReadStep(at, last, UpTo(last)) == d.(position := k')
            && d.image[..k] + Delivered(at, last, UpTo(last)) == d.image[..k']
  {
    var end := Min(d.capacity, |d.image|);
    var k, k' := Min(asked, end), Min(asked + last, end);
    assert Delivered(d.(position := k), last, UpTo(last)) == d.image[k..k'];
  }

  /**
   * Any writes from the start, a rewind, any reads: what is delivered is the start of the image with
   * the data, cut at the capacity, over it. It begins with the data as far as was asked for. It is the
   * data exactly when no more is asked for, or when the tape or the old image ends no later than the
   * data does: asking for more delivers what the image held before, there being no end of data.
   */
  lemma WriteRewindRead(d: Deck, chunks: seq<seq<u8>>, lens: seq<u32>)
    requires InBounds(d) && d.position == 0 && d.mounted && !d.protected
    ensures var data, got := Cut(Joined(chunks), d.capacity), DeliveredAll(RewindStep(WriteAll(d, chunks)), lens);
            && got == Cut(Cut(Overwritten(data, d.image), d.capacity), Total(lens))
            && (Total(lens) <= |data| ==> got == data[..Total(lens)])
            && (Total(lens) >= |data| ==> |got| >= |data| && got[..|data|] == data)
            && (got == data <==>
                  Total(lens) == |data| || (Total(lens) > |data| && (|data| == d.capacity || |d.image| <= |data|)))
  {
    hide WriteAll, ReadAll, DeliveredAll, Joined;
    WritesFromStart(d, chunks);
    ReadsFromStart(RewindStep(WriteAll(d, chunks)), lens);
  }

  /** One byte written over an old image of two, and two asked for: the old second byte follows. */
  lemma StaleByteExample()
    ensures var d := Deck(true, 0, 2, 0, [7, 8], false, false, 512);
            InBounds(d) && DeliveredAll(RewindStep(WriteAll(d, [[9]])), [2]) == [9, 8]
  {
    hide WriteAll, DeliveredAll;
    var d := Deck(true, 0, 2, 0, [7, 8], false, false, 512);
    assert |[[9]][..0]| == 0 && Joined([[9]]) == [9];
    assert |[2][..0]| == 0 && Total([2]) == 2;
    WriteRewindRead(d, [[9]], [2]);
  }

  // ---------------------------------------------------------------- spacing

  /** Spacing back undoes spacing forward exactly from the start or when the forward move was not cut at the end. */
  lemma SpaceBackUndoesIff(d: Deck, count: int)
    requires InBounds(d) && d.mounted
    ensures SpaceStep(SpaceStep(d, 0, count), 1, count) == d <==>
            d.position == 0 || d.position + Span(d, count) <= d.capacity
  {
    hide Span;
    SpanByBlockSize(d, SpaceStep(d, 0, count), count);
  }

  lemma SpanByBlockSize(d: Deck, e: Deck, count: int)
    requires e.blockSize == d.blockSize
    ensures Span(e, count) == Span(d, count)
  {
  }

  /** A negative count does not space backwards: the product is unsigned, so the tape runs forward. */
  lemma NegativeCountRunsForward(d: Deck, count: int)
    requires InBounds(d) && d.mounted && d.blockSize > 0 && -0x8000_0000 <= count < 0
             && -count * d.blockSize < 0x1_0000_0000
    ensures SpaceStep(d, 0, count).position
            == Min(d.capacity, d.position + (0x1_0000_0000 + count * d.blockSize)) >= d.position
  {
  }

  // ---------------------------------------------------------------- what each command does

  /** Without a medium every command is refused and changes nothing. */
  lemma NothingMounted(d: Deck, op: Op)
    requires !d.mounted && d.position >= 0
    ensures Step(d, op) == d
  {
  }

  /** A write that is refused or fails changes nothing. */
  lemma RefusedWrite(d: Deck, data: seq<u8>, io: Transfer)
    requires d.position >= 0
    ensures WriteCode(d, io) == (if !d.mounted then -19 else if d.protected then -30 else if io.Failed? then -5 else 0)
    ensures WriteCode(d, io) != 0 ==> WriteStep(d, data, io) == d
  {
  }

  /**
   * A granted write puts as much of the data as the tape and the file take at the position and moves
   * behind it; every byte in front of it and behind it stays.
   */
  lemma GrantedWrite(d: Deck, data: seq<u8>, n: nat)
    requires InBounds(d) && d.mounted && !d.protected
    ensures var r, room := WriteStep(d, data, UpTo(n)), d.capacity - d.position;
            var k := if |data| <= room && |data| <= n then |data| else if room <= n then room else n;
            && r == d.(image := r.image, position := d.position + k, atFilemark := false,
                       used := if d.position + k > d.used then d.position + k else d.used)
            && (k == 0 ==> r.image == d.image)
            && (k > 0 ==> |r.image| == (if d.position + k > |d.image| then d.position + k else |d.image|))
            && (forall i :: 0 <= i < k ==> r.image[d.position + i] == data[i])
            && (forall i :: 0 <= i < d.position && i < |r.image| ==>
                  r.image[i] == if i < |d.image| then d.image[i] else 0)
            && (forall i :: d.position + k <= i < |r.image| ==> r.image[i] == d.image[i])
  {
    hide FileWrite;
    FileWriteBytes(d.image, d.position, Accepted(d, data, UpTo(n)));
  }

  lemma FileWriteBytes(image: seq<u8>, pos: nat, data: seq<u8>)
    ensures var r := FileWrite(image, pos, data);
            && (data == [] ==> r == image)
            && (data != [] ==> |r| == (if pos + |data| > |image| then pos + |data| else |image|))
            && (forall i :: 0 <= i < |data| ==> r[pos + i] == data[i])
            && (forall i :: 0 <= i < pos && i < |r| ==> r[i] == if i < |image| then image[i] else 0)
            && (forall i :: pos + |data| <= i < |r| ==> r[i] == image[i])
  {
  }

  /** At a filemark a read delivers nothing, stays where it is, and takes the mark away. */
  lemma ReadAtFilemark(d: Deck, len: u32, io: Transfer)
    requires d.mounted && d.atFilemark
    ensures ReadCode(io, d) == 0 && Delivered(d, len, io) == [] && ReadStep(d, len, io) == d.(atFilemark := false)
  {
  }

  /** Elsewhere it delivers the bytes from the position and moves behind them, up to the tape's end or the file's. */
  lemma ReadElsewhere(d: Deck, len: u32, n: nat)
    requires InBounds(d) && d.mounted && !d.atFilemark
    ensures var got, room, there := Delivered(d, len, UpTo(n)), d.capacity - d.position, |d.image| - d.position;
            && ReadCode(UpTo(n), d) == 0 && ReadStep(d, len, UpTo(n)) == d.(position := d.position + |got|)
            && |got| <= len && |got| <= room && |got| <= n
            && (|got| == len || |got| == room || |got| == n || (|got| == there || (there < 0 && got == [])))
            && (forall i :: 0 <= i < |got| ==> d.position + i < |d.image| && got[i] == d.image[d.position + i])
  {
  }

  /** A read the file system fails is an error only within the tape, and moves nothing. */
  lemma FailedRead(d: Deck, len: u32)
    requires InBounds(d) && d.mounted && !d.atFilemark
    ensures ReadCode(Failed, d) == (if d.position == d.capacity then 0 else -5) && ReadStep(d, len, Failed) == d
  {
  }

  /** The codes of SPACE: blocks forward and back, to the end, to the start, a filemark, and nothing. */
  lemma SpaceCodes(d: Deck, code: int, count: int)
    requires InBounds(d) && d.mounted && 0 <= count && count * d.blockSize < 0x1_0000_0000
    ensures var r, span := SpaceStep(d, code, count), count * d.blockSize;
            && r == d.(position := r.position, atFilemark := d.atFilemark || code == 4)
            && (code == 0 ==> r.position == if d.position + span <= d.capacity then d.position + span else d.capacity)
            && (code == 1 ==> r.position == if d.position >= span then d.position - span else 0)
            && (code == 2 ==> r.position == d.capacity)
            && (code == 3 ==> r.position == 0)
            && (code !in {0, 1, 2, 3} ==> r.position == d.position)
  {
  }

  /** A filemark is a flag on a tape that may be written, and a rewind clears it and goes to the start. */
  lemma MarkAndRewind(d: Deck)
    requires d.mounted
    ensures MarkStep(d) == if d.protected then d else d.(atFilemark := true)
    ensures RewindStep(d).position == 0 && !RewindStep(d).atFilemark
    ensures RewindStep(d).(position := d.position, atFilemark := d.atFilemark) == d
  {
  }

  // ---------------------------------------------------------------- the fields

  class Drive {
    var mounted: bool
    var position: int
    const capacity: nat
    var used: nat
    var image: seq<u8>
    var atFilemark: bool
    var protected: bool
    var blockSize: u32

    ghost function State(): Deck
      reads this
    {
      Deck(mounted, position, capacity, used, image, atFilemark, protected, blockSize)
    }

    /** A drive with a freshly loaded medium of some capacity, or an empty one. */
    constructor (mounted: bool, capacity: nat, image: seq<u8>, blockSize: u32)
      requires capacity <= MAX_TAPE_SIZE
      ensures InBounds(State()) && State() == Deck(mounted, 0, capacity, 0, image, false, false, blockSize)
    {
      this.mounted := mounted;
      position, this.capacity, used, this.image := 0, capacity, 0, image;
      atFilemark, protected, this.blockSize := false, false, blockSize;
    }

    /** `vtl_tape_read`; at a filemark the flag goes down and nothing is read. */
    method Read(len: u32, io: Transfer) returns (ret: int, data: seq<u8>)
      requires InBounds(State())
      modifies this`position, this`atFilemark
      ensures InBounds(State())
      ensures ret == ReadCode(io, old(State())) && data == Delivered(old(State()), len, io)
      ensures State() == ReadStep(old(State()), len, io)
    {
      if !mounted { return ENODEV, []; }
      if atFilemark {
        atFilemark := false;
        return OK, [];
      }
      if position >= capacity { return OK, []; }
      var n: int := len;
      if position + n > capacity {
        n := capacity - position;
      }
      if io.Failed? { return EIO, []; }
      data := FileRead(image, position, Min(n, io.n));
      position := position + |data|;
      ret := OK;
    }

    /** `vtl_tape_write` */
    method Write(data: seq<u8>, io: Transfer) returns (ret: int)
      requires InBounds(State())
      modifies this`position, this`used, this`image, this`atFilemark
      ensures InBounds(State())
      ensures ret == WriteCode(old(State()), io)
      ensures State() == WriteStep(old(State()), data, io)
    {
      if !mounted { return ENODEV; }
      if protected { return EROFS; }
      var n: int := |data|;
      if position + n > capacity {
        n := capacity - position;
      }
      if io.Failed? { return EIO; }
      var done := data[..Min(n, io.n)];
      image := FileWrite(image, position, done);
      position := position + |done|;
      if position > used {
        used := position;
      }
      atFilemark := false;
      ret := OK;
    }

    /** `vtl_tape_space` */
    method Space(code: int, count: int) returns (ret: int)
      requires InBounds(State())
      modifies this`position, this`atFilemark
      ensures ret == if old(State()).mounted then OK else ENODEV
      ensures InBounds(State()) && State() == SpaceStep(old(State()), code, count)
    {
      if !mounted { return ENODEV; }
      var span := count * blockSize % 0x1_0000_0000;
      if code == 0 {
        position := position + span;
      } else if code == 1 {
        position := position - span;
      } else if code == 2 {
        position := capacity;
      } else if code == 3 {
        position := 0;
      } else if code == 4 {
        atFilemark := true;
      }
      if position < 0 { position := 0; }
      if position > capacity { position := capacity; }
      ret := OK;
    }

    /** `vtl_tape_write_filemarks`: the flag goes up, nothing is written. */
    method WriteFilemarks() returns (ret: int)
      modifies this`atFilemark
      ensures ret == (if !mounted then ENODEV else if protected then EROFS else OK) && State() == MarkStep(old(State()))
    {
      if !mounted { return ENODEV; }
      if protected { return EROFS; }
      atFilemark := true;
      ret := OK;
    }

    /** `vtl_tape_rewind` */
    method Rewind() returns (ret: int)
      modifies this`position, this`atFilemark
      ensures ret == (if mounted then OK else ENODEV) && State() == RewindStep(old(State()))
    {
      if !mounted { return ENODEV; }
      position, atFilemark := 0, false;
      ret := OK;
    }
  }
}
