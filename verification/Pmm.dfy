/** The physical block allocator (kernel/pmm.c): a bitmap of 32-bit words, a set bit marks a used block. */
module Pmm {
  import opened Bits
  import opened Outcomes

  const BLOCK_SIZE: nat := 4096

  const FULL: uint32 := 0xFFFF_FFFF

  // ----- the bitmap as a set of blocks -----

  ghost predicate UsedAt(w: seq<uint32>, b: nat) {
    b < 32 * |w| && Test(w[b / 32], b % 32)
  }

  ghost predicate FreeAt(w: seq<uint32>, b: nat) {
    b < 32 * |w| && !UsedAt(w, b)
  }

  /** Blocks `b .. b + n` exist and are free. */
  ghost predicate Fits(w: seq<uint32>, b: nat, n: nat) {
    b + n <= 32 * |w| && forall k: nat | b <= k < b + n :: FreeAt(w, k)
  }

  /** Some block among `b .. b + n` is used, so nothing of size `n` fits at `b`. */
  ghost predicate Blocked(w: seq<uint32>, b: nat, n: nat) {
    exists k: nat :: b <= k < b + n && UsedAt(w, k)
  }

  ghost predicate AllBlocked(w: seq<uint32>, m: nat, n: nat) {
    forall b: nat | b < m :: Blocked(w, b, n)
  }

  /** The number of free blocks below `m`. */
  ghost function CountFree(w: seq<uint32>, m: nat): nat {
    if m == 0 then 0 else CountFree(w, m - 1) + (if FreeAt(w, m - 1) then 1 else 0)
  }

  /** `v` is `w` with the blocks `b .. b + n` set to `used` and every other block as before. */
  ghost predicate Marked(w: seq<uint32>, v: seq<uint32>, b: nat, n: nat, used: bool) {
    && |v| == |w|
    && forall k: nat | k < 32 * |w| :: UsedAt(v, k) == if b <= k < b + n then used else UsedAt(w, k)
  }

  /** The count is the size of the set of free blocks. */
  lemma {:induction false} CountIsCardinality(w: seq<uint32>, n: nat)
    requires n <= 32 * |w|
    ensures CountFree(w, n) == |set b: nat | b < n && FreeAt(w, b)|
  {
    hide UsedAt;
    var free := set b: nat | b < n && FreeAt(w, b);
    if n == 0 {
      assert free == {};
    } else {
      var before := set b: nat | b < n - 1 && FreeAt(w, b);
      CountIsCardinality(w, n - 1);
      assert free == if FreeAt(w, n - 1) then before + {n - 1} else before;
    }
  }

  // ----- the allocator -----

  class BlockMap {
    const words: array<uint32>

    constructor (nWords: nat)
      ensures words.Length == nWords && fresh(words)
      ensures forall k: nat | k < 32 * nWords :: UsedAt(words[..], k)
    {
      words := new uint32[nWords](_ => FULL);
      new;
      forall k: nat | k < 32 * nWords
        ensures UsedAt(words[..], k)
      {
        FullWord(k % 32);
      }
    }

    method SetBlock(b: nat)
      requires b < 32 * words.Length
      modifies words
      ensures Marked(old(words[..]), words[..], b, 1, true)
    {
      WordBound(b % 32);
      OrBound(words[b / 32], Pow2(b % 32), 32);
      ghost var w := words[..];
      words[b / 32] := Or(words[b / 32], Pow2(b % 32));
      SetMarks(w, words[..], b);
    }

    method UnsetBlock(b: nat)
      requires b < 32 * words.Length
      modifies words
      ensures Marked(old(words[..]), words[..], b, 1, false)
    {
      AndNotBound(words[b / 32], Pow2(b % 32));
      ghost var w := words[..];
      words[b / 32] := AndNot(words[b / 32], Pow2(b % 32));
      UnsetMarks(w, words[..], b);
    }

    method TestBlock(b: nat) returns (used: bool)
      requires b < 32 * words.Length
      ensures used == UsedAt(words[..], b)
    {
      used := And(words[b / 32], Pow2(b % 32)) != 0;
    }

    /** The least free block, 0 when there is none. */
    method FindFirstFree() returns (r: nat)
      ensures forall b: nat | b < r :: UsedAt(words[..], b)
      ensures FreeAt(words[..], r) || (r == 0 && forall b: nat | b < 32 * words.Length :: UsedAt(words[..], b))
    {
      for i := 0 to words.Length
        invariant forall b: nat | b < 32 * i :: UsedAt(words[..], b)
      {
        if words[i] == FULL {
          FullWordUsed(words[..], i);
          continue;
        }
        for j := 0 to 32
          invariant forall b: nat | b < 32 * i + j :: UsedAt(words[..], b)
        {
          if And(words[i], Pow2(j)) == 0 {
            return i * 32 + j;
          }
        }
      }
      r := 0;
    }

    /** The inner loop of the search: the length, up to `n`, of the free run at `start`; it stops when
        the run reaches the end of the map first. */
    method RunLength(start: nat, n: nat) returns (r: Outcome<nat>)
      requires n > 0 && FreeAt(words[..], start)
      ensures r.Stopped? ==> start + n > 32 * words.Length && FreeAt(words[..], 32 * words.Length - 1)
      ensures r.Done? ==> 1 <= r.value <= n && forall k: nat | start <= k < start + r.value :: FreeAt(words[..], k)
      ensures r.Done? && r.value < n ==> UsedAt(words[..], start + r.value)
      ensures r.Done? && r.value == n ==> Fits(words[..], start, n)
    {
      var length: nat := 1;
      while length < n
        invariant 1 <= length <= n && start + length <= 32 * words.Length
        invariant forall k: nat | start <= k < start + length :: FreeAt(words[..], k)
      {
        if start + length >= 32 * words.Length {
          assert FreeAt(words[..], start + length - 1);
          return Stopped;
        }
        var used := TestBlock(start + length);
        if used {
          break;
        }
        length := length + 1;
      }
      return Done(length);
    }

    /** First fit: the scan moves `i` and `j` together past a run that is too short.  The scan runs off
        the map, where the original stops at an assertion, exactly when nothing fits and the last
        block is free. */
    method FindRegion(n: nat) returns (r: Outcome<nat>)
      requires n != 0
      ensures r.Stopped? <==> n > 1 && LastFree(words[..]) && forall b: nat :: !Fits(words[..], b, n)
      ensures r.Done? && r.value != 0 ==>
              Fits(words[..], r.value, n) && forall b: nat | b < r.value :: !Fits(words[..], b, n)
      ensures r.Done? && r.value == 0 ==>
              Fits(words[..], 0, n) || forall b: nat :: !Fits(words[..], b, n)
    {
      hide Test, And, UsedAt, FreeAt, Blocked;
      ghost var w := words[..];
      if n == 1 {
        var b := FindFirstFree();
        SingleBlock(w, b);
        return Done(b);
      }
      var i: nat := 0;
      while i < words.Length
        invariant AllBlocked(w, 32 * i, n)
        decreases words.Length - i
      {
        if words[i] == FULL {
          FullWordBlocks(w, i, n);
          i := i + 1;
          continue;
        }
        var j: nat := 0;
        ghost var i0 := i;
        while j < 32
          invariant i0 <= i < words.Length
          invariant AllBlocked(w, 32 * i + if j < 32 then j else 32, n)
          decreases 32 * words.Length + 64 - (32 * i + j)
        {
          var start: nat := i * 32 + j;
          assert start / 32 == i && start % 32 == j;
          var used := TestBlock(start);
          if used {
            JumpBlocks(w, start, 0, n);
            j := j + 1;
            continue;
          }
          var run := RunLength(start, n);
          if run.Stopped? {
            NothingFitsFrom(w, start, n);
            return Stopped;
          }
          var length := run.value;
          if length == n {
            BlockedMisfits(w, n);
            return Done(start);
          }
          JumpBlocks(w, start, length, n);
          i := i + length / 32;
          j := j + length % 32 + 1;
        }
        i := i + 1;
      }
      BlockedMisfits(w, n);
      AllBlockedToTheEnd(w, n);
      return Done(0);
    }

    /** The physical address of `n` fresh blocks, 0 when the search finds none. */
    method AllocBlocks(n: nat) returns (r: Outcome<nat>)
      requires n != 0
      modifies words
      ensures AllocStep(old(words[..]), n, r, words[..])
    {
      ghost var w := words[..];
      var found := FindRegion(n);
      if found.Stopped? {
        return Stopped;
      }
      var block := found.value;
      if block == 0 {
        return Done(0);
      }
      for i := 0 to n
        invariant Marked(w, words[..], block, i, true)
      {
        SetBlock(block + i);
      }
      return Done(block * BLOCK_SIZE);
    }

    method FreeBlocks(p: nat, n: nat)
      requires n != 0 && p / BLOCK_SIZE + n <= 32 * words.Length
      modifies words
      ensures FreeStep(old(words[..]), p, n, words[..])
    {
      var block := p / BLOCK_SIZE;
      for i := 0 to n
        invariant Marked(old(words[..]), words[..], block, i, false)
      {
        UnsetBlock(block + i);
      }
    }

    method CountFreeBlocks() returns (count: nat)
      ensures count == CountFree(words[..], 32 * words.Length)
      ensures count == |set b: nat | b < 32 * words.Length && FreeAt(words[..], b)|
    {
      CountIsCardinality(words[..], 32 * words.Length);
      count := 0;
      for i := 0 to 32 * words.Length
        invariant count == CountFree(words[..], i)
      {
        var used := TestBlock(i);
        if !used {
          count := count + 1;
        }
      }
    }
  }

  /** What an allocation does: nothing on a zero result, otherwise it takes the first fit. */
  ghost predicate AllocStep(w: seq<uint32>, n: nat, r: Outcome<nat>, v: seq<uint32>) {
    if r.Stopped? then
      v == w && n > 1 && LastFree(w) && forall b: nat :: !Fits(w, b, n)
    else if r.value == 0 then
      v == w && (Fits(w, 0, n) || forall b: nat :: !Fits(w, b, n))
    else
      var b := r.value / BLOCK_SIZE;
      && r.value % BLOCK_SIZE == 0
      && Fits(w, b, n)
      && (forall b': nat | b' < b :: !Fits(w, b', n))
      && Marked(w, v, b, n, true)
  }

  ghost predicate FreeStep(w: seq<uint32>, p: nat, n: nat, v: seq<uint32>) {
    Marked(w, v, p / BLOCK_SIZE, n, false)
  }

  ghost predicate LastFree(w: seq<uint32>) {
    |w| > 0 && FreeAt(w, 32 * |w| - 1)
  }

  lemma SetMarks(w: seq<uint32>, v: seq<uint32>, b: nat)
    requires b < 32 * |w| && |v| == |w|
    requires v[b / 32] == Or(w[b / 32], Pow2(b % 32))
    requires forall i | 0 <= i < |w| && i != b / 32 :: v[i] == w[i]
    ensures Marked(w, v, b, 1, true)
  {
    hide Or, Test, Pow2;
    forall k: nat | k < 32 * |w|
      ensures UsedAt(v, k) == (k == b || UsedAt(w, k))
    {
      OrTest(w[b / 32], b % 32, k % 32);
    }
  }

  lemma UnsetMarks(w: seq<uint32>, v: seq<uint32>, b: nat)
    requires b < 32 * |w| && |v| == |w|
    requires v[b / 32] == AndNot(w[b / 32], Pow2(b % 32))
    requires forall i | 0 <= i < |w| && i != b / 32 :: v[i] == w[i]
    ensures Marked(w, v, b, 1, false)
  {
    hide AndNot, Test, Pow2;
    forall k: nat | k < 32 * |w|
      ensures UsedAt(v, k) == (k != b && UsedAt(w, k))
    {
      AndNotTest(w[b / 32], b % 32, k % 32);
    }
  }

  lemma SingleBlock(w: seq<uint32>, r: nat)
    requires forall b: nat | b < r :: UsedAt(w, b)
    ensures forall b: nat | b < r :: !Fits(w, b, 1)
    ensures FreeAt(w, r) ==> Fits(w, r, 1)
    ensures (forall b: nat | b < 32 * |w| :: UsedAt(w, b)) ==> forall b: nat :: !Fits(w, b, 1)
  {
    hide UsedAt;
    forall b: nat | Fits(w, b, 1)
      ensures FreeAt(w, b)
    {
      assert b <= b < b + 1;
    }
  }

  lemma FullWordBlocks(w: seq<uint32>, i: nat, n: nat)
    requires i < |w| && w[i] == FULL && n > 0
    requires AllBlocked(w, 32 * i, n)
    ensures AllBlocked(w, 32 * i + 32, n)
  {
    FullWordUsed(w, i);
    forall b: nat | 32 * i <= b < 32 * i + 32
      ensures Blocked(w, b, n)
    {
      assert UsedAt(w, b);
    }
  }

  /** A used block at `start + length` rules out every start up to and including itself. */
  lemma JumpBlocks(w: seq<uint32>, start: nat, length: nat, n: nat)
    requires length < n && UsedAt(w, start + length)
    requires AllBlocked(w, start, n)
    ensures AllBlocked(w, start + length + 1, n)
  {
    forall b: nat | start <= b <= start + length
      ensures Blocked(w, b, n)
    {
      assert b <= start + length < b + n;
    }
  }

  lemma BlockedMisfit(w: seq<uint32>, b: nat, n: nat)
    requires Blocked(w, b, n)
    ensures !Fits(w, b, n)
  {
    var k: nat :| b <= k < b + n && UsedAt(w, k);
    assert !FreeAt(w, k);
  }

  lemma BlockedMisfits(w: seq<uint32>, n: nat)
    ensures forall b: nat | Blocked(w, b, n) :: !Fits(w, b, n)
  {
    forall b: nat | Blocked(w, b, n)
      ensures !Fits(w, b, n)
    {
      BlockedMisfit(w, b, n);
    }
  }

  lemma AllBlockedToTheEnd(w: seq<uint32>, n: nat)
    requires AllBlocked(w, 32 * |w|, n)
    ensures !LastFree(w)
  {
    if |w| > 0 {
      assert Blocked(w, 32 * |w| - 1, n);
    }
  }

  /** A free run that reaches the end of the map and is too short: nothing fits from there on. */
  lemma NothingFitsFrom(w: seq<uint32>, start: nat, n: nat)
    requires start < 32 * |w| < start + n
    requires AllBlocked(w, start, n)
    ensures forall b: nat :: !Fits(w, b, n)
  {
    forall b: nat
      ensures !Fits(w, b, n)
    {
      if b < start { BlockedMisfit(w, b, n); }
    }
  }

  lemma FullWord(j: nat)
    requires j < 32
    ensures Test(FULL, j)
  {
    Pow2Values();
    AllOnesTest(32, j);
  }

  lemma WordBound(j: nat)
    requires j < 32
    ensures Pow2(j) < Pow2(32) == 0x1_0000_0000
  {
    Pow2Values();
    Pow2Less(j, 32);
  }

  lemma FullWordUsed(w: seq<uint32>, i: nat)
    requires i < |w| && w[i] == FULL
    ensures forall b: nat | 32 * i <= b < 32 * i + 32 :: UsedAt(w, b)
  {
    forall b: nat | 32 * i <= b < 32 * i + 32
      ensures UsedAt(w, b)
    {
      FullWord(b % 32);
    }
  }

  // ----- allocation and release over whole runs -----

  datatype Extent = Extent(start: nat, len: nat)

  /** The bitmap together with the ranges handed out and not yet given back. */
  datatype Pool = Pool(words: seq<uint32>, live: seq<Extent>)

  datatype Request = Alloc(n: nat, result: Outcome<nat>) | Release(i: nat)

  ghost predicate PoolStep(s: Pool, req: Request, t: Pool) {
    match req
    case Alloc(n, r) =>
      && n != 0 && r.Done?
      && AllocStep(s.words, n, r, t.words)
      && t.live == if r.value == 0 then s.live else s.live + [Extent(r.value / BLOCK_SIZE, n)]
    case Release(i) =>
      && i < |s.live|
      && FreeStep(s.words, s.live[i].start * BLOCK_SIZE, s.live[i].len, t.words)
      && t.live == s.live[..i] + s.live[i + 1..]
  }

  ghost predicate Disjoint(e: Extent, f: Extent) {
    e.start + e.len <= f.start || f.start + f.len <= e.start
  }

  ghost predicate Owned(w: seq<uint32>, e: Extent) {
    forall k: nat | e.start <= k < e.start + e.len :: UsedAt(w, k)
  }

  /** Every live range is non-empty and used in the bitmap, and no two overlap. */
  ghost predicate PoolOk(s: Pool) {
    && (forall i | 0 <= i < |s.live| :: s.live[i].len > 0 && Owned(s.words, s.live[i]))
    && forall i, j | 0 <= i < j < |s.live| :: Disjoint(s.live[i], s.live[j])
  }

  ghost function TotalLive(live: seq<Extent>): nat {
    if live == [] then 0 else TotalLive(live[..|live| - 1]) + live[|live| - 1].len
  }

  ghost function FreeCount(s: Pool): nat {
    CountFree(s.words, 32 * |s.words|)
  }

  ghost predicate PoolRun(states: seq<Pool>, reqs: seq<Request>) {
    && |states| == |reqs| + 1
    && forall i | 0 <= i < |reqs| :: PoolStep(states[i], reqs[i], states[i + 1])
  }

  /** On the map the kernel sets up, where block 0 and the last block are used, the search never stops
      and a zero result means exactly that nothing of that size is free. */
  lemma FirstFitIsComplete(w: seq<uint32>, n: nat, r: Outcome<nat>, v: seq<uint32>)
    requires n != 0 && UsedAt(w, 0) && !LastFree(w)
    requires AllocStep(w, n, r, v)
    ensures r.Done?
    ensures r.value == 0 <==> forall b: nat :: !Fits(w, b, n)
  {
    assert 0 <= 0 < n && UsedAt(w, 0);
    BlockedMisfit(w, 0, n);
  }

  ghost function Overlap(b: nat, n: nat, m: nat): nat {
    if m <= b then 0 else if m <= b + n then m - b else n
  }

  /** Marking a range that was entirely free (used) lowers (raises) the free count by its length. */
  lemma {:induction false} CountMarked(w: seq<uint32>, v: seq<uint32>, b: nat, n: nat, used: bool, m: nat)
    requires Marked(w, v, b, n, used) && b + n <= 32 * |w| && m <= 32 * |w|
    requires forall k: nat | b <= k < b + n :: UsedAt(w, k) != used
    ensures if used then CountFree(v, m) + Overlap(b, n, m) == CountFree(w, m)
            else CountFree(v, m) == CountFree(w, m) + Overlap(b, n, m)
  {
    hide UsedAt;
    if m > 0 {
      CountMarked(w, v, b, n, used, m - 1);
      assert UsedAt(v, m - 1) == if b <= m - 1 < b + n then used else UsedAt(w, m - 1);
    }
  }

  lemma {:induction false} TotalLiveRemove(live: seq<Extent>, i: nat)
    requires i < |live|
    ensures TotalLive(live[..i] + live[i + 1..]) + live[i].len == TotalLive(live)
  {
    var n := |live| - 1;
    if i == n {
      assert live[..i] + live[i + 1..] == live[..n];
    } else {
      TotalLiveRemove(live[..n], i);
      assert (live[..i] + live[i + 1..])[..n - 1] == live[..n][..i] + live[..n][i + 1..];
    }
  }

  lemma AllocKeepsPool(s: Pool, req: Request, t: Pool)
    requires PoolOk(s) && req.Alloc? && PoolStep(s, req, t)
    ensures PoolOk(t) && FreeCount(t) + TotalLive(t.live) == FreeCount(s) + TotalLive(s.live)
  {
    hide UsedAt, CountFree;
    if req.result.value != 0 {
      var e := Extent(req.result.value / BLOCK_SIZE, req.n);
      FitsMisses(s.words, e.start, e.len);
      forall i | 0 <= i < |s.live|
        ensures Owned(t.words, s.live[i]) && Disjoint(s.live[i], e)
      {
        OwnedMissesFit(s.words, s.live[i], e.start, e.len);
        OwnedKept(s.words, t.words, s.live[i], e.start, e.len, true);
      }
      CountMarked(s.words, t.words, e.start, e.len, true, 32 * |s.words|);
      assert t.live[..|s.live|] == s.live;
      assert Owned(t.words, e);
    }
  }

  lemma ReleaseKeepsPool(s: Pool, req: Request, t: Pool)
    requires PoolOk(s) && req.Release? && PoolStep(s, req, t)
    ensures PoolOk(t) && FreeCount(t) + TotalLive(t.live) == FreeCount(s) + TotalLive(s.live)
  {
    hide UsedAt, CountFree;
    var i := req.i;
    var e := s.live[i];
    assert e.start * BLOCK_SIZE / BLOCK_SIZE == e.start;
    OwnedInside(s.words, e);
    CountMarked(s.words, t.words, e.start, e.len, false, 32 * |s.words|);
    TotalLiveRemove(s.live, i);
    forall j | 0 <= j < |s.live| && j != i
      ensures Owned(t.words, s.live[j])
    {
      assert Disjoint(s.live[j], e) || Disjoint(e, s.live[j]);
      OwnedKept(s.words, t.words, s.live[j], e.start, e.len, false);
    }
  }

  lemma FitsMisses(w: seq<uint32>, b: nat, n: nat)
    requires Fits(w, b, n)
    ensures forall k: nat | b <= k < b + n :: !UsedAt(w, k)
  {
    forall k: nat | b <= k < b + n
      ensures !UsedAt(w, k)
    {
      assert FreeAt(w, k);
    }
  }

  lemma OwnedInside(w: seq<uint32>, e: Extent)
    requires Owned(w, e) && e.len > 0
    ensures e.start + e.len <= 32 * |w|
  {
    assert UsedAt(w, e.start + e.len - 1);
  }

  lemma OwnedMissesFit(w: seq<uint32>, e: Extent, b: nat, n: nat)
    requires Owned(w, e) && e.len > 0 && Fits(w, b, n) && n > 0
    ensures Disjoint(e, Extent(b, n))
  {
    hide UsedAt;
    var k := if e.start <= b then b else e.start;
    if !Disjoint(e, Extent(b, n)) {
      assert UsedAt(w, k);
      FitsMisses(w, b, n);
    }
  }

  lemma OwnedKept(w: seq<uint32>, v: seq<uint32>, e: Extent, b: nat, n: nat, used: bool)
    requires Owned(w, e) && e.len > 0 && Marked(w, v, b, n, used)
    requires Disjoint(e, Extent(b, n))
    ensures Owned(v, e)
  {
    hide UsedAt;
    OwnedInside(w, e);
    forall k: nat | e.start <= k < e.start + e.len
      ensures UsedAt(v, k)
    {
      assert UsedAt(w, k);
    }
  }

  /** Over every run of allocations and releases the live ranges stay used and pairwise disjoint, and
      the free count moves by exactly the sizes handed out and given back. */
  lemma {:induction false} PoolRunKeeps(states: seq<Pool>, reqs: seq<Request>)
    requires PoolRun(states, reqs) && PoolOk(states[0])
    ensures PoolOk(states[|reqs|])
    ensures FreeCount(states[|reqs|]) + TotalLive(states[|reqs|].live) ==
            FreeCount(states[0]) + TotalLive(states[0].live)
  {
    hide PoolStep, PoolOk, FreeCount, TotalLive;
    if reqs != [] {
      var n := |reqs| - 1;
      PoolRunKeeps(states[..n + 1], reqs[..n]);
      assert states[..n + 1][0] == states[0] && states[..n + 1][n] == states[n];
      if reqs[n].Alloc? {
        AllocKeepsPool(states[n], reqs[n], states[n + 1]);
      } else {
        ReleaseKeepsPool(states[n], reqs[n], states[n + 1]);
      }
    }
  }
}
