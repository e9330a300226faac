/** The ring buffer of kernel/ringbuffer.c: one reader and one writer at a time, whose single steps
interleave freely; the semaphore's two operations are atomic (module `SchedLaws`). */
module RingBuffers {
  type Byte = int

  datatype Reader =
    | NotReading
    | Blocked                 // in semaphore_acquire
    | Granted                 // semaphore_acquire has returned or will
    | Loaded(c: Byte)
    | Bumped(c: Byte)         // the head is moved, not yet taken modulo the size

  datatype Writer =
    | NotWriting
    | Stored
    | Advanced
    | Wrapped                 // only semaphore_release is left

  datatype Ring = Ring(
    buffer: seq<Byte>,
    readHead: nat,
    writeHead: nat,
    count: nat,
    reader: Reader,
    writer: Writer,
    /** Every byte ever stored, and every byte ever read out, in order. */
    written: seq<Byte>,
    taken: seq<Byte>)

  datatype Step =
    | Acquire
    | Load
    | BumpRead
    | WrapRead
    | Store(c: Byte)
    | BumpWrite
    | WrapWrite
    | Release

  function Outstanding(r: Ring): int {
    |r.written| - |r.taken|
  }

  /** A step is the next one of the reader or of the writer; a byte is only stored while fewer than
  `size` are outstanding. */
  predicate Enabled(r: Ring, e: Step) {
    match e
    case Acquire => r.reader.NotReading?
    case Load => r.reader.Granted?
    case BumpRead => r.reader.Loaded?
    case WrapRead => r.reader.Bumped?
    case Store(_) => r.writer.NotWriting? && Outstanding(r) < |r.buffer|
    case BumpWrite => r.writer.Stored?
    case WrapWrite => r.writer.Advanced?
    case Release => r.writer.Wrapped?
  }

  ghost function Next(r: Ring, e: Step): Ring
    requires Inv(r) && Enabled(r, e)
  {
    match e
    case Acquire => if r.count > 0 then r.(count := r.count - 1, reader := Granted) else r.(reader := Blocked)
    case Load =>
      InBuffer(r);
      var c := r.buffer[r.readHead];
      r.(reader := Loaded(c), taken := r.taken + [c])
    case BumpRead => r.(readHead := r.readHead + 1, reader := Bumped(r.reader.c))
    case WrapRead => r.(readHead := r.readHead % |r.buffer|, reader := NotReading)
    case Store(c) =>
      InBuffer(r);
      r.(buffer := r.buffer[r.writeHead := c], writer := Stored, written := r.written + [c])
    case BumpWrite => r.(writeHead := r.writeHead + 1, writer := Advanced)
    case WrapWrite => r.(writeHead := r.writeHead % |r.buffer|, writer := Wrapped)
    case Release =>
      if r.reader.Blocked? then r.(reader := Granted, writer := NotWriting)
      else r.(count := r.count + 1, writer := NotWriting)
  }

  // ----- the invariant -----

  /** Where a head stands that has moved `n` times. */
  function Slot(n: nat, size: nat): (s: nat)
    requires size > 0
    ensures s < size
  {
    if n == 0 then 0 else (Slot(n - 1, size) + 1) % size
  }

  /** The distance from one head to another that has moved at most `size` places further. */
  lemma {:induction false} SlotGap(a: nat, b: nat, size: nat)
    requires size > 0 && a <= b <= a + size
    ensures var s, t := Slot(a, size), Slot(b, size);
            (if t < s then size - s + t else t - s) == if b == a + size then 0 else b - a
    decreases b
  {
    if a < b {
      SlotGap(a, b - 1, size);
      ModStep(Slot(b - 1, size), size);
    }
  }

  lemma ModStep(s: nat, size: nat)
    requires s < size
    ensures (s + 1) % size == if s + 1 == size then 0 else s + 1
  {
  }

  predicate ReadHeadOk(r: Ring)
    requires |r.buffer| > 0
  {
    var n := |r.buffer|;
    match r.reader
    case Loaded(_) => |r.taken| > 0 && r.readHead == Slot(|r.taken| - 1, n)
    case Bumped(_) => |r.taken| > 0 && r.readHead == Slot(|r.taken| - 1, n) + 1
    case _ => r.readHead == Slot(|r.taken|, n)
  }

  predicate WriteHeadOk(r: Ring)
    requires |r.buffer| > 0
  {
    var n := |r.buffer|;
    match r.writer
    case Stored => |r.written| > 0 && r.writeHead == Slot(|r.written| - 1, n)
    case Advanced => |r.written| > 0 && r.writeHead == Slot(|r.written| - 1, n) + 1
    case _ => r.writeHead == Slot(|r.written|, n)
  }

  /** The stores whose `semaphore_release` has happened. */
  function Released(r: Ring): int {
    |r.written| - if r.writer.NotWriting? then 0 else 1
  }

  /** Count plus grants is releases: what can be taken has been stored. */
  predicate CountOk(r: Ring) {
    && r.count + |r.taken| + (if r.reader.Granted? then 1 else 0) == Released(r)
    && (r.reader.Blocked? ==> r.count == 0)
  }

  /** The buffer holds what is outstanding. */
  ghost predicate HoldsOutstanding(buffer: seq<Byte>, from: nat, written: seq<Byte>)
    requires |buffer| > 0
  {
    forall k: nat | from <= k < |written| :: buffer[Slot(k, |buffer|)] == written[k]
  }

  ghost predicate Inv(r: Ring) {
    && |r.buffer| > 0 && 0 <= Outstanding(r) <= |r.buffer|
    && r.taken <= r.written
    && ReadHeadOk(r) && WriteHeadOk(r) && CountOk(r)
    && HoldsOutstanding(r.buffer, |r.taken|, r.written)
  }

  /** The heads index the buffer wherever the code uses them. */
  lemma InBuffer(r: Ring)
    requires Inv(r)
    ensures r.reader.Granted? ==> r.readHead < |r.buffer|
    ensures r.writer.NotWriting? ==> r.writeHead < |r.buffer|
  {
  }

  lemma StoreKeeps(r: Ring, c: Byte)
    requires Inv(r) && Enabled(r, Store(c))
    ensures Inv(Next(r, Store(c)))
  {
    var w, n := Next(r, Store(c)), |r.buffer|;
    forall k: nat | |w.taken| <= k < |w.written|
      ensures w.buffer[Slot(k, n)] == w.written[k]
    {
      if k < |r.written| {
        SlotGap(k, |r.written|, n);
      }
    }
  }

  lemma LoadKeeps(r: Ring)
    requires Inv(r) && Enabled(r, Load)
    ensures Inv(Next(r, Load))
  {
    var n := |r.taken|;
    assert r.buffer[Slot(n, |r.buffer|)] == r.written[n];
    assert r.written[..n + 1] == r.written[..n] + [r.written[n]];
  }

  lemma StepKeeps(r: Ring, e: Step)
    requires Inv(r) && Enabled(r, e)
    ensures Inv(Next(r, e))
  {
    hide HoldsOutstanding;
    if e.Store? {
      StoreKeeps(r, e.c);
    } else if e.Load? {
      LoadKeeps(r);
    }
  }

  ghost predicate Legal(r: Ring, es: seq<Step>)
    requires Inv(r)
    decreases |es|
  {
    es == [] || (Enabled(r, es[0]) && (StepKeeps(r, es[0]); Legal(Next(r, es[0]), es[1..])))
  }

  ghost function Run(r: Ring, es: seq<Step>): Ring
    requires Inv(r) && Legal(r, es)
    decreases |es|
  {
    if es == [] then r else StepKeeps(r, es[0]); Run(Next(r, es[0]), es[1..])
  }

  /** `ringbuffer_init` */
  function Init(buffer: seq<Byte>): (r: Ring)
    ensures |buffer| > 0 ==> Inv(r)
  {
    Ring(buffer, 0, 0, 0, NotReading, NotWriting, [], [])
  }

  lemma {:induction false} RunKeeps(r: Ring, es: seq<Step>)
    requires Inv(r) && Legal(r, es)
    ensures Inv(Run(r, es))
    decreases |es|
  {
    hide Inv, Enabled, Next;
    if es != [] {
      StepKeeps(r, es[0]);
      RunKeeps(Next(r, es[0]), es[1..]);
    }
  }

  /** A queue: however reader and writer interleave, the bytes come out in the order in which they were
  written, none twice and none missing, and a byte that is read was stored before. */
  lemma Fifo(buffer: seq<Byte>, es: seq<Step>)
    requires |buffer| > 0 && Legal(Init(buffer), es)
    ensures var w := Run(Init(buffer), es);
            && w.taken <= w.written && |w.taken| <= Released(w)
            && (w.reader.Loaded? || w.reader.Bumped? ==> w.taken != [] && w.reader.c == w.taken[|w.taken| - 1])
  {
    LastRead(Init(buffer), es);
    RunKeeps(Init(buffer), es);
  }

  ghost predicate LastOk(r: Ring) {
    r.reader.Loaded? || r.reader.Bumped? ==> r.taken != [] && r.reader.c == r.taken[|r.taken| - 1]
  }

  lemma {:induction false} LastRead(r: Ring, es: seq<Step>)
    requires Inv(r) && Legal(r, es) && LastOk(r)
    ensures LastOk(Run(r, es))
    decreases |es|
  {
    hide Inv;
    if es != [] {
      StepKeeps(r, es[0]);
      LastRead(Next(r, es[0]), es[1..]);
    }
  }

  // ----- ringbuffer_unread -----

  function Unread(r: Ring): int {
    if r.writeHead < r.readHead then |r.buffer| - r.readHead + r.writeHead else r.writeHead - r.readHead
  }

  /** Between two operations `ringbuffer_unread` is the number of completed writes less that of completed
  reads, exactly as long as the buffer is not full; when it is, the answer is 0. */
  lemma UnreadExactly(r: Ring)
    requires Inv(r) && r.writer.NotWriting? && (r.reader.NotReading? || r.reader.Blocked?)
    ensures Unread(r) == Outstanding(r) <==> Outstanding(r) < |r.buffer|
    ensures Outstanding(r) == |r.buffer| ==> Unread(r) == 0
  {
    hide HoldsOutstanding;
    SlotGap(|r.taken|, |r.written|, |r.buffer|);
  }

  /** Why the writer must keep to `size` bytes: one more store overwrites the byte that is due, so the
  next read is right only if the two happen to be equal. */
  lemma OverrunExactly(r: Ring, c: Byte)
    requires Inv(r) && r.writer.NotWriting? && r.reader.NotReading? && Outstanding(r) == |r.buffer|
    ensures r.writeHead < |r.buffer| && r.readHead < |r.buffer|
    ensures r.buffer[r.writeHead := c][r.readHead] == r.written[|r.taken|] <==> c == r.written[|r.taken|]
  {
    SlotGap(|r.taken|, |r.written|, |r.buffer|);
  }

  // ----- the functions themselves -----

  /** ringbuffer_t and its semaphore's count, when the two functions run one after the other. */
  class RingBuffer {
    var buffer: array<Byte>
    var readHead: nat
    var writeHead: nat
    var count: nat
    ghost var written: seq<Byte>
    ghost var taken: seq<Byte>

    ghost function Abs(): Ring
      reads this, buffer
    {
      Ring(buffer[..], readHead, writeHead, count, NotReading, NotWriting, written, taken)
    }

    ghost predicate Valid()
      reads this, buffer
    {
      Inv(Abs())
    }

    /** The bytes that were written and not yet read. */
    ghost function Contents(): (c: seq<Byte>)
      requires Valid()
      reads this, buffer
      ensures |c| == count
    {
      written[|taken|..]
    }

    /** `ringbuffer_init` */
    constructor (buffer: array<Byte>)
      requires buffer.Length > 0
      ensures Valid() && this.buffer == buffer && Contents() == []
    {
      this.buffer := buffer;
      readHead, writeHead, count := 0, 0, 0;
      written, taken := [], [];
    }

    lemma CountIs()
      requires Valid()
      ensures buffer.Length > 0 && |taken| <= |written| && |written| - |taken| == count
    {
      hide HoldsOutstanding, ReadHeadOk, WriteHeadOk;
    }

    /** `ringbuffer_unread` */
    method Unread() returns (n: nat)
      requires Valid()
      ensures n == if |Contents()| == buffer.Length then 0 else |Contents()|
    {
      UnreadExactly(Abs());
      if writeHead < readHead {
        return buffer.Length - readHead + writeHead;
      } else {
        return writeHead - readHead;
      }
    }

    /** `ringbuffer_read_byte`, when `semaphore_acquire` does not block. */
    method ReadByte() returns (c: Byte)
      requires Valid() && Contents() != []
      modifies this
      ensures Valid() && buffer == old(buffer)
      ensures c == old(Contents()[0]) && Contents() == old(Contents()[1..])
    {
      hide Inv;
      CountIs();
      ghost var r := Abs();
      ReadSteps(r);
      count := count - 1;
      c := buffer[readHead];
      taken := taken + [c];
      readHead := readHead + 1;
      readHead := readHead % buffer.Length;
      assert Abs() == r.(count := count, taken := taken, readHead := readHead);
      CountIs();
    }

    /** `ringbuffer_write_byte`.  A full buffer takes the byte, too: it replaces the one that is due, and the
        count runs ahead of the buffer. */
    method WriteByte(c: Byte)
      requires Valid()
      modifies this, buffer
      ensures buffer == old(buffer) && count == old(count) + 1 && readHead == old(readHead)
      ensures old(|Contents()|) < buffer.Length ==> Valid() && Contents() == old(Contents()) + [c]
      ensures old(|Contents()|) == buffer.Length ==>
                && readHead < buffer.Length && buffer[..] == old(buffer[..])[readHead := c]
                && writeHead == (old(writeHead) + 1) % buffer.Length
    {
      hide Inv;
      CountIs();
      ghost var r := Abs();
      if |r.written| - |r.taken| < buffer.Length { WriteSteps(r, c); } else { FullHeads(r); }
      HeadInside(r);
      buffer[writeHead] := c;
      written := written + [c];
      writeHead := writeHead + 1;
      writeHead := writeHead % buffer.Length;
      count := count + 1;
      assert Abs() == r.(buffer := buffer[..], written := written, writeHead := writeHead, count := count);
      if |r.written| - |r.taken| < buffer.Length { CountIs(); }
    }
  }

  lemma HeadInside(r: Ring)
    requires Inv(r) && r.writer.NotWriting?
    ensures r.writeHead < |r.buffer|
  {
    hide HoldsOutstanding;
  }

  /** The heads of a full buffer meet. */
  lemma FullHeads(r: Ring)
    requires Inv(r) && r.writer.NotWriting? && r.reader.NotReading? && Outstanding(r) >= |r.buffer|
    ensures r.readHead == r.writeHead < |r.buffer|
  {
    hide HoldsOutstanding;
    SlotGap(|r.taken|, |r.written|, |r.buffer|);
  }

  /** The four steps of a read that is not interrupted. */
  lemma ReadSteps(r: Ring)
    requires Inv(r) && r.reader.NotReading? && r.writer.NotWriting? && Outstanding(r) > 0
    ensures r.count > 0 && r.readHead < |r.buffer| && r.buffer[r.readHead] == r.written[|r.taken|]
    ensures var c := r.buffer[r.readHead];
            Inv(r.(count := r.count - 1, taken := r.taken + [c], readHead := (r.readHead + 1) % |r.buffer|))
  {
    hide HoldsOutstanding, ReadHeadOk, WriteHeadOk;
    var r1 := Next(r, Acquire);
    StepKeeps(r, Acquire);
    InBuffer(r1);
    LoadDue(r1);
    var r2 := Next(r1, Load);
    StepKeeps(r1, Load);
    var r3 := Next(r2, BumpRead);
    StepKeeps(r2, BumpRead);
    StepKeeps(r3, WrapRead);
  }

  lemma LoadDue(r: Ring)
    requires Inv(r) && r.reader.Granted?
    ensures |r.taken| < |r.written| && r.readHead < |r.buffer| && r.buffer[r.readHead] == r.written[|r.taken|]
  {
    assert r.buffer[Slot(|r.taken|, |r.buffer|)] == r.written[|r.taken|];
  }

  /** The four steps of a write that is not interrupted. */
  lemma WriteSteps(r: Ring, c: Byte)
    requires Inv(r) && r.reader.NotReading? && r.writer.NotWriting? && Outstanding(r) < |r.buffer|
    ensures r.writeHead < |r.buffer|
    ensures Inv(r.(buffer := r.buffer[r.writeHead := c], written := r.written + [c],
                   writeHead := (r.writeHead + 1) % |r.buffer|, count := r.count + 1))
  {
    hide HoldsOutstanding, ReadHeadOk, WriteHeadOk;
    InBuffer(r);
    var r1 := Next(r, Store(c));
    StepKeeps(r, Store(c));
    var r2 := Next(r1, BumpWrite);
    StepKeeps(r1, BumpWrite);
    var r3 := Next(r2, WrapWrite);
    StepKeeps(r2, WrapWrite);
    StepKeeps(r3, Release);
  }
}
