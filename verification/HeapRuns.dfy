/** What the heap guarantees over every run of kmalloc, kfree, krealloc and in-bounds client writes. */
module HeapRuns {
  import opened HeapModel
  import opened Liballoc

  /** One event of a run.  A growing krealloc is the three events `Malloc`, `Write` and `Free`. */
  datatype Event =
    | Malloc(req: nat, supply: nat, p: nat, s: nat, k: nat, j: nat)
    | Free(k: nat, j: nat)
    | Shrink(k: nat, j: nat, size: nat)
    | Write(k: nat, j: nat)

  ghost predicate HeapStep(h: HeapView, e: Event, t: HeapView) {
    match e
    case Malloc(req, supply, p, s, k, j) =>
      && Supplied(h.regions, supply, req + ALIGNMENT + ALIGN_INFO)
      && KmallocStep(h, req, supply, t, p, s, k, j)
    case Free(k, j) => KfreeStep(h, k, j, t)
    case Shrink(k, j, size) => ShrinkStep(h, k, j, size, t)
    case Write(k, j) => WriteStep(h, k, j, t)
  }

  /** The client writes inside the bytes it asked for. */
  ghost predicate WriteStep(h: HeapView, k: nat, j: nat, t: HeapView) {
    && LiveAt(h.regions, k, j)
    && t == h.(mem := t.mem)
    && SameExcept(h.mem, t.mem, UserPtr(h.regions[k].blocks[j].addr),
                  UserPtr(h.regions[k].blocks[j].addr) + h.regions[k].blocks[j].req)
  }

  ghost predicate HeapOk(h: HeapView) {
    RegionsOk(h.regions) && MemOk(h.mem, h.regions) && BestOk(h.best, h.regions)
  }

  ghost predicate HeapRun(states: seq<HeapView>, events: seq<Event>) {
    && |states| == |events| + 1
    && forall i | 0 <= i < |events| :: HeapStep(states[i], events[i], states[i + 1])
  }

  // ----- every step keeps the heap well formed -----

  lemma PlacedKeeps(h: HeapView, k: nat, j: nat, req: nat, t: HeapView, p: nat)
    requires RegionsOk(h.regions) && MemOk(h.mem, h.regions) && Placed(h, k, j, req, t, p)
    ensures RegionsOk(t.regions) && MemOk(t.mem, t.regions)
  {
    hide RegionsOk, MemOk, UserPtr, InsertBlock;
    var b := NewBlock(h.regions[k], j, req);
    InsertSetup(h.regions, k, j, b);
    InsertMemOk(h.mem, h.regions, k, j, b);
  }

  lemma AppendKeeps(h: HeapView, supply: nat, size: nat)
    requires RegionsOk(h.regions) && MemOk(h.mem, h.regions)
    requires supply != 0 && Supplied(h.regions, supply, size)
    ensures RegionsOk(h.regions + [FreshRegion(supply, size)])
    ensures MemOk(h.mem, h.regions + [FreshRegion(supply, size)])
  {
    hide MemOk, RegionOk, FreshRegion, Apart, Supplied;
    FreshRegionOk(h.regions, supply, size);
    MemAppend(h.mem, h.regions, FreshRegion(supply, size));
  }

  lemma MallocKeeps(h: HeapView, e: Event, t: HeapView)
    requires HeapOk(h) && e.Malloc? && HeapStep(h, e, t)
    ensures HeapOk(t)
  {
    hide RegionsOk, MemOk, BestOk, NoGap, Placed, SearchStart, FirstRegion, FirstGap, Supplied, FreshRegion;
    var size := e.req + ALIGNMENT + ALIGN_INFO;
    if NoGap(h.regions, size + HEADER) {
      AppendKeeps(h, e.supply, size);
      PlacedKeeps(h.(regions := h.regions + [FreshRegion(e.supply, size)]), e.k, e.j, e.req, t, e.p);
    } else {
      PlacedKeeps(h, e.k, e.j, e.req, t, e.p);
    }
  }

  lemma FreeKeeps(h: HeapView, e: Event, t: HeapView)
    requires HeapOk(h) && e.Free? && HeapStep(h, e, t)
    ensures HeapOk(t)
  {
    hide RegionsOk, MemOk, BestOk, RegionOk, RemoveBlock, RemoveRegion;
    var (k, j) := (e.k, e.j);
    var b := h.regions[k].blocks[j];
    var q := RemoveBlock(h.regions[k], j);
    LiveBlockOk(h.regions, k, j);
    RemoveRegionOk(h.regions[k], j);
    ReplaceRegionsOk(h.regions, k, q);
    RemoveMemOk(h.mem, t.mem, h.regions, k, j);
    if |h.regions[k].blocks| == 1 {
      RemovedRegionsOk(h.regions[k := q], k);
      DropMemOk(t.mem, h.regions[k := q], k);
      DropAfterRemove(h.regions, k, j);
    }
  }

  lemma ShrinkKeeps(h: HeapView, e: Event, t: HeapView)
    requires HeapOk(h) && e.Shrink? && HeapStep(h, e, t)
    ensures HeapOk(t)
  {
    hide RegionsOk, MemOk, BestOk, RegionOk, SetReq;
    var q := SetReq(h.regions[e.k], e.j, e.size);
    LiveBlockOk(h.regions, e.k, e.j);
    SetReqRegionOk(h.regions[e.k], e.j, e.size);
    ReplaceRegionsOk(h.regions, e.k, q);
    SetReqMemOk(h.mem, h.regions, e.k, e.j, e.size);
    BestKept(h.best, h.regions, e.k, q);
  }

  lemma StepKeeps(h: HeapView, e: Event, t: HeapView)
    requires HeapOk(h) && HeapStep(h, e, t)
    ensures HeapOk(t)
  {
    hide RegionsOk, MemOk, BestOk, UserPtr, KmallocStep, KfreeStep, ShrinkStep;
    match e
    case Malloc(_, _, _, _, _, _) => MallocKeeps(h, e, t);
    case Free(_, _) => FreeKeeps(h, e, t);
    case Shrink(_, _, _) => ShrinkKeeps(h, e, t);
    case Write(k, j) => WriteMemOk(h.mem, t.mem, h.regions, k, j);
  }

  /** After any sequence of events every region is inside its pages and apart from the others, its
      blocks are in address order and disjoint, the best bet is NULL or a linked region, and every
      live block's alignment byte leads back to its header. */
  lemma {:induction false} RunKeeps(states: seq<HeapView>, events: seq<Event>)
    requires HeapRun(states, events) && HeapOk(states[0])
    ensures forall i | 0 <= i < |states| :: HeapOk(states[i])
  {
    hide HeapOk, HeapStep;
    if events != [] {
      var n := |events| - 1;
      RunKeeps(states[..n + 1], events[..n]);
      assert states[..n + 1][n] == states[n];
      StepKeeps(states[n], events[n], states[n + 1]);
      forall i | 0 <= i < |states|
        ensures HeapOk(states[i])
      {
        if i <= n { assert states[..n + 1][i] == states[i]; }
      }
    }
  }

  // ----- what a pointer is good for -----

  /** `UNALIGN` recovers the header of every live pointer, in every reachable state. */
  lemma LivePointersUnalign(h: HeapView, k: nat, j: nat)
    requires HeapOk(h) && LiveAt(h.regions, k, j)
    ensures var b := h.regions[k].blocks[j];
            ALIGN_INFO <= UserPtr(b.addr) <= |h.mem| && HeaderOf(h.mem, UserPtr(b.addr)) == b.addr
  {
    hide RegionsOk, BestOk, UserPtr, AlignByteOk;
    UnalignRecovers(h.mem, h.regions[k].blocks[j]);
  }

  /** The bytes `[p, p + req)` of a live block are 16-byte aligned, inside the block's payload, and
      disjoint from every header and from every other live block. */
  lemma LiveBytesApart(h: HeapView, k: nat, j: nat, m: nat, n: nat)
    requires HeapOk(h) && LiveAt(h.regions, k, j) && LiveAt(h.regions, m, n)
    ensures var b := h.regions[k].blocks[j];
            var c := h.regions[m].blocks[n];
            var p := UserPtr(b.addr);
            && p % ALIGNMENT == 0
            && b.addr + HEADER <= p - ALIGN_INFO && p + b.req <= End(b)
            && (p + b.req <= c.addr || c.addr + HEADER <= p)
            && ((k != m || j != n) ==> p + b.req <= c.addr || End(c) <= p)
            && (p + b.req <= h.regions[m].addr || h.regions[m].addr + HEADER <= p)
  {
    hide RegionsOk, BestOk, UserPtr, MemOk;
    var b := h.regions[k].blocks[j];
    LiveBlockOk(h.regions, k, j);
    LiveBlockOk(h.regions, m, n);
    UserPtrFacts(b.addr);
    if k != m { RegionAddrsDiffer(h.regions, k, m); }
    if k != m || j != n { BlocksApart(h.regions, k, j, m, n); }
  }

  /** A kmalloc adds exactly one live block, the one its pointer belongs to, and keeps all others. */
  lemma MallocAdds(h: HeapView, e: Event, t: HeapView)
    requires HeapOk(h) && e.Malloc? && HeapStep(h, e, t)
    ensures LiveAt(t.regions, e.k, e.j)
    ensures t.regions[e.k].blocks[e.j].req == e.req && e.p == UserPtr(t.regions[e.k].blocks[e.j].addr)
    ensures forall m: nat, n: nat | LiveAt(h.regions, m, n) ::
              var n' := MovedIndex(m, n, e.k, e.j);
              LiveAt(t.regions, m, n') && t.regions[m].blocks[n'] == h.regions[m].blocks[n]
  {
    hide HeapOk, RegionsOk, MemOk, UserPtr, NoGap, FirstRegion, SearchStart, FirstGap, BestOk, GapFits, Supplied;
    MallocKeeps(h, e, t);
    OkRegions(t);
    forall m: nat, n: nat | LiveAt(h.regions, m, n)
      ensures var n' := MovedIndex(m, n, e.k, e.j);
              LiveAt(t.regions, m, n') && t.regions[m].blocks[n'] == h.regions[m].blocks[n]
    {
      GrowLocates(h, m, n, e.req, e.supply, t, e.p, e.s, e.k, e.j);
    }
    var size := e.req + ALIGNMENT + ALIGN_INFO;
    var rs := if NoGap(h.regions, size + HEADER) then h.regions + [FreshRegion(e.supply, size)] else h.regions;
    PlacedAt(HeapView(rs, h.best, h.mem), e.k, e.j, e.req, t, e.p);
  }

  lemma OkRegions(h: HeapView)
    requires HeapOk(h)
    ensures RegionsOk(h.regions)
  {
  }

  // ----- what stays unchanged -----

  ghost predicate Holds(h: HeapView, b: Block) {
    exists k: nat, j: nat :: LiveAt(h.regions, k, j) && h.regions[k].blocks[j] == b
  }

  ghost predicate TargetAt(h: HeapView, k: nat, j: nat, a: nat) {
    LiveAt(h.regions, k, j) && h.regions[k].blocks[j].addr == a
  }

  /** The event frees, shrinks or writes the block at address `a`. */
  ghost predicate Touches(h: HeapView, e: Event, a: nat) {
    match e
    case Malloc(_, _, _, _, _, _) => false
    case Free(k, j) => TargetAt(h, k, j, a)
    case Shrink(k, j, _) => TargetAt(h, k, j, a)
    case Write(k, j) => TargetAt(h, k, j, a)
  }

  ghost predicate SameBytes(mem: seq<nat>, v: seq<nat>, b: Block) {
    |v| == |mem| && forall a | UserPtr(b.addr) <= a < UserPtr(b.addr) + b.req && a < |mem| :: v[a] == mem[a]
  }

  lemma PlacedPreserves(h: HeapView, k: nat, j: nat, req: nat, t: HeapView, p: nat, m: nat, n: nat)
    requires RegionsOk(h.regions) && Placed(h, k, j, req, t, p) && LiveAt(h.regions, m, n)
    ensures SameBytes(h.mem, t.mem, h.regions[m].blocks[n])
  {
    hide RegionsOk, UserPtr, InsertBlock;
    var b := NewBlock(h.regions[k], j, req);
    var c := h.regions[m].blocks[n];
    InsertSetup(h.regions, k, j, b);
    PlacedAt(h, k, j, req, t, p);
    var n' := if m == k && j <= n then n + 1 else n;
    assert t.regions[m].blocks[n'] == c;
    BlocksApart(t.regions, k, j, m, n');
    LiveBlockOk(h.regions, m, n);
    UserPtrFacts(b.addr);
    UserPtrFacts(c.addr);
  }

  lemma MallocPreserves(h: HeapView, e: Event, t: HeapView, m: nat, n: nat)
    requires HeapOk(h) && e.Malloc? && HeapStep(h, e, t) && LiveAt(h.regions, m, n)
    ensures Holds(t, h.regions[m].blocks[n]) && SameBytes(h.mem, t.mem, h.regions[m].blocks[n])
  {
    hide RegionsOk, MemOk, BestOk, NoGap, Placed, SearchStart, FirstRegion, FirstGap, Supplied, FreshRegion, SameBytes;
    MallocAdds(h, e, t);
    assert LiveAt(t.regions, m, MovedIndex(m, n, e.k, e.j));
    var size := e.req + ALIGNMENT + ALIGN_INFO;
    if NoGap(h.regions, size + HEADER) {
      AppendKeeps(h, e.supply, size);
      var h' := h.(regions := h.regions + [FreshRegion(e.supply, size)]);
      assert h'.regions[m] == h.regions[m];
      PlacedPreserves(h', e.k, e.j, e.req, t, e.p, m, n);
    } else {
      PlacedPreserves(h, e.k, e.j, e.req, t, e.p, m, n);
    }
  }

  lemma FreePreserves(h: HeapView, e: Event, t: HeapView, m: nat, n: nat)
    requires HeapOk(h) && e.Free? && HeapStep(h, e, t) && LiveAt(h.regions, m, n)
    requires e.k != m || e.j != n
    ensures Holds(t, h.regions[m].blocks[n]) && SameBytes(h.mem, t.mem, h.regions[m].blocks[n])
  {
    hide RegionsOk, MemOk, BestOk, UserPtr;
    var c := h.regions[m].blocks[n];
    BlocksApart(h.regions, e.k, e.j, m, n);
    LiveBlockOk(h.regions, m, n);
    UserPtrFacts(c.addr);
    var n' := if m == e.k && e.j < n then n - 1 else n;
    var m' := if |h.regions[e.k].blocks| == 1 && e.k < m then m - 1 else m;
    assert LiveAt(t.regions, m', n') && t.regions[m'].blocks[n'] == c;
  }

  lemma WritePreserves(h: HeapView, e: Event, t: HeapView, m: nat, n: nat)
    requires HeapOk(h) && e.Write? && HeapStep(h, e, t) && LiveAt(h.regions, m, n)
    requires e.k != m || e.j != n
    ensures Holds(t, h.regions[m].blocks[n]) && SameBytes(h.mem, t.mem, h.regions[m].blocks[n])
  {
    hide RegionsOk, MemOk, BestOk, UserPtr;
    BlocksApart(h.regions, e.k, e.j, m, n);
    LiveBlockOk(h.regions, m, n);
    LiveBlockOk(h.regions, e.k, e.j);
    UserPtrFacts(h.regions[m].blocks[n].addr);
    UserPtrFacts(h.regions[e.k].blocks[e.j].addr);
    assert LiveAt(t.regions, m, n);
  }

  /** A step keeps every block it does not target, with its record and its bytes. */
  lemma StepPreserves(h: HeapView, e: Event, t: HeapView, b: Block)
    requires HeapOk(h) && HeapStep(h, e, t) && Holds(h, b) && !Touches(h, e, b.addr)
    ensures Holds(t, b) && SameBytes(h.mem, t.mem, b)
  {
    hide HeapOk, HeapStep, SameBytes;
    var m: nat, n: nat :| LiveAt(h.regions, m, n) && h.regions[m].blocks[n] == b;
    match e
    case Malloc(_, _, _, _, _, _) => MallocPreserves(h, e, t, m, n);
    case Free(k, j) => FreePreserves(h, e, t, m, n);
    case Write(k, j) => WritePreserves(h, e, t, m, n);
    case Shrink(k, j, size) => ShrinkPreserves(h, e, t, m, n);
  }

  lemma ShrinkPreserves(h: HeapView, e: Event, t: HeapView, m: nat, n: nat)
    requires e.Shrink? && HeapStep(h, e, t) && LiveAt(h.regions, m, n)
    requires e.k != m || e.j != n
    ensures Holds(t, h.regions[m].blocks[n]) && SameBytes(h.mem, t.mem, h.regions[m].blocks[n])
  {
    assert LiveAt(t.regions, m, n);
  }

  /** Over every run a live block that no event targets stays where it is and keeps its bytes. */
  lemma {:induction false} RunPreserves(states: seq<HeapView>, events: seq<Event>, b: Block)
    requires HeapRun(states, events) && HeapOk(states[0]) && Holds(states[0], b)
    requires forall i | 0 <= i < |events| :: !Touches(states[i], events[i], b.addr)
    ensures Holds(states[|events|], b) && SameBytes(states[0].mem, states[|events|].mem, b)
  {
    hide HeapOk, HeapStep, Holds, Touches;
    if events != [] {
      var n := |events| - 1;
      assert states[..n + 1][0] == states[0] && states[..n + 1][n] == states[n];
      RunPreserves(states[..n + 1], events[..n], b);
      RunKeeps(states, events);
      StepPreserves(states[n], events[n], states[n + 1], b);
    }
  }

  // ----- which blocks there are -----

  /** After a kmalloc the live blocks are those before it and the new one. */
  lemma MallocHolds(h: HeapView, e: Event, t: HeapView, b: Block)
    requires HeapOk(h) && e.Malloc? && HeapStep(h, e, t)
    ensures LiveAt(t.regions, e.k, e.j)
    ensures Holds(t, b) <==> Holds(h, b) || b == t.regions[e.k].blocks[e.j]
    ensures var nb := t.regions[e.k].blocks[e.j];
            e.p == UserPtr(nb.addr) && nb.req == e.req && nb.size == e.req + 32 && !Holds(h, nb)
  {
    hide HeapOk, HeapStep, UserPtr;
    MallocKeeps(h, e, t);
    MallocAdds(h, e, t);
    if Holds(h, b) {
      var m: nat, n: nat :| LiveAt(h.regions, m, n) && h.regions[m].blocks[n] == b;
      assert LiveAt(t.regions, m, MovedIndex(m, n, e.k, e.j));
    }
    assert Holds(t, t.regions[e.k].blocks[e.j]);
    if Holds(t, b) {
      var m: nat, n: nat :| LiveAt(t.regions, m, n) && t.regions[m].blocks[n] == b;
      if m != e.k || n != e.j { OldBlock(h, e, t, m, n); }
    }
    NewIsNew(h, e, t);
    NewSize(h, e, t);
  }

  lemma NewSize(h: HeapView, e: Event, t: HeapView)
    requires e.Malloc? && HeapStep(h, e, t) && LiveAt(t.regions, e.k, e.j)
    ensures t.regions[e.k].blocks[e.j].size == e.req + 32
  {
    hide UserPtr, NoGap, FirstRegion, SearchStart, FirstGap, BestOk, GapFits, Supplied;
    var size := e.req + ALIGNMENT + ALIGN_INFO;
    var rs := if NoGap(h.regions, size + HEADER) then h.regions + [FreshRegion(e.supply, size)] else h.regions;
    PlacedAt(HeapView(rs, h.best, h.mem), e.k, e.j, e.req, t, e.p);
  }

  /** A block that is not the new one was there before. */
  lemma OldBlock(h: HeapView, e: Event, t: HeapView, m: nat, n: nat)
    requires e.Malloc? && HeapStep(h, e, t) && LiveAt(t.regions, m, n) && (m != e.k || n != e.j)
    ensures Holds(h, t.regions[m].blocks[n])
  {
    hide UserPtr, NoGap, FirstRegion, SearchStart, FirstGap, BestOk, GapFits, Supplied;
    var size := e.req + ALIGNMENT + ALIGN_INFO;
    var rs := if NoGap(h.regions, size + HEADER) then h.regions + [FreshRegion(e.supply, size)] else h.regions;
    PlacedAt(HeapView(rs, h.best, h.mem), e.k, e.j, e.req, t, e.p);
    var n' := if m == e.k && n > e.j then n - 1 else n;
    assert LiveAt(rs, m, n') && rs[m].blocks[n'] == t.regions[m].blocks[n];
    assert LiveAt(h.regions, m, n');
  }

  lemma NewIsNew(h: HeapView, e: Event, t: HeapView)
    requires HeapOk(h) && HeapOk(t) && e.Malloc? && HeapStep(h, e, t) && LiveAt(t.regions, e.k, e.j)
    ensures !Holds(h, t.regions[e.k].blocks[e.j])
  {
    hide HeapOk, HeapStep, RegionsOk;
    var nb := t.regions[e.k].blocks[e.j];
    if Holds(h, nb) {
      var m: nat, n: nat :| LiveAt(h.regions, m, n) && h.regions[m].blocks[n] == nb;
      MallocAdds(h, e, t);
      var n' := MovedIndex(m, n, e.k, e.j);
      assert m != e.k || n' != e.j;
      AddrsDiffer(t, m, n', e.k, e.j);
      assert false;
    }
  }

  /** The bytes of gap `j`. */
  function Room(r: Region, j: nat): int
    requires j <= |r.blocks|
  {
    GapEnd(r, j) - GapStart(r, j)
  }

  /** No gap of the region has `need` bytes. */
  ghost predicate Narrow(r: Region, need: nat) {
    forall j: nat | j <= |r.blocks| :: Room(r, j) < need
  }

  lemma NarrowExactly(r: Region, need: nat)
    ensures Narrow(r, need) <==> !HasGap(r, need)
  {
    hide GapStart, GapEnd;
    forall j: nat | j <= |r.blocks|
      ensures GapFits(r, j, need) <==> Room(r, j) >= need
    {
    }
  }

  lemma FirstGapIs(r: Region, j: nat, need: nat)
    requires FirstGap(r, j, need)
    ensures j <= |r.blocks| && Room(r, j) >= need && forall t: nat | t < j :: Room(r, t) < need
  {
    hide GapStart, GapEnd;
    forall t: nat | t < j
      ensures Room(r, t) < need
    {
      assert !GapFits(r, t, need);
    }
  }

  /** Where a kmalloc puts the block, by the free bytes alone.  The search begins at the best bet, if that has
      more than enough of them, else at the first region, goes on in list order and round, and takes the first
      gap that is large enough ... */
  lemma MallocFirstFit(h: HeapView, e: Event, t: HeapView)
    requires HeapOk(h) && e.Malloc? && HeapStep(h, e, t)
    requires exists i | 0 <= i < |h.regions| :: !Narrow(h.regions[i], e.req + 56)
    ensures var rs, need := h.regions, e.req + 56;
            && e.k < |rs| && e.j <= |rs[e.k].blocks| && e.s < |rs|
            && LiveAt(t.regions, e.k, e.j) && t.regions[e.k].blocks[e.j].addr == GapStart(rs[e.k], e.j)
            && Room(rs[e.k], e.j) >= need && (forall j: nat | j < e.j :: Room(rs[e.k], j) < need)
            && forall i: nat | i < |rs| && (if e.k < e.s then e.s <= i || i < e.k else e.s <= i < e.k) ::
                 Narrow(rs[i], need)
    ensures var rs := h.regions;
            if h.best != 0 &&
               exists i | 0 <= i < |rs| :: rs[i].addr == h.best && Size(rs[i]) - Usage(rs[i]) > e.req + 56
            then rs[e.s].addr == h.best else e.s == 0
  {
    hide UserPtr, BestOk, Supplied, RegionsOk, MemOk, Usage, Size, GapStart, GapEnd, HasGap, FirstGap, Narrow, Room,
      GapFits;
    var need := e.req + 56;
    forall i: nat | i < |h.regions|
      ensures Narrow(h.regions[i], need) <==> !HasGap(h.regions[i], need)
    {
      NarrowExactly(h.regions[i], need);
    }
    assert !NoGap(h.regions, need);
    FirstGapIs(h.regions[e.k], e.j, need);
    PlacedAt(h, e.k, e.j, e.req, t, e.p);
    NewAddr(h.regions, e.k, e.j, e.req);
  }

  /** ... and only without any it puts the block at the start of the new pages. */
  lemma MallocGrows(h: HeapView, e: Event, t: HeapView)
    requires HeapOk(h) && e.Malloc? && HeapStep(h, e, t)
    requires forall i | 0 <= i < |h.regions| :: Narrow(h.regions[i], e.req + 56)
    ensures e.supply != 0 && e.k == |h.regions| && e.j == 0 && LiveAt(t.regions, e.k, e.j)
    ensures t.regions[e.k].addr == e.supply && t.regions[e.k].blocks[e.j].addr == e.supply + 24
    ensures t.regions[e.k].pages == PagesFor(e.req + 32)
  {
    hide UserPtr, BestOk, Supplied, RegionsOk, MemOk, Usage, HasGap, Narrow, PagesFor, GapFits;
    var need := e.req + 56;
    forall i: nat | i < |h.regions|
      ensures !HasGap(h.regions[i], need)
    {
      NarrowExactly(h.regions[i], need);
    }
    assert NoGap(h.regions, need);
    var all := h.regions + [FreshRegion(e.supply, e.req + 32)];
    PlacedAt(HeapView(all, h.best, h.mem), e.k, e.j, e.req, t, e.p);
    NewAddr(all, e.k, e.j, e.req);
  }

  lemma NewAddr(rs: seq<Region>, k: nat, j: nat, req: nat)
    requires k < |rs| && j <= |rs[k].blocks|
    ensures NewBlock(rs[k], j, req).addr == GapStart(rs[k], j)
    ensures rs[k].blocks == [] ==> GapStart(rs[k], j) == rs[k].addr + 24
  {
  }

  /** After a kfree they are those before it but for the one freed. */
  lemma FreeHolds(h: HeapView, e: Event, t: HeapView, b: Block)
    requires HeapOk(h) && e.Free? && HeapStep(h, e, t)
    ensures Holds(t, b) <==> Holds(h, b) && b != h.regions[e.k].blocks[e.j]
  {
    hide HeapOk, KfreeStep;
    if Holds(t, b) {
      var m: nat, n: nat :| LiveAt(t.regions, m, n) && t.regions[m].blocks[n] == b;
      HeldBefore(h, e.k, e.j, t, m, n);
    }
    FreedIsLive(h, e.k, e.j, t);
    if Holds(h, b) && b != h.regions[e.k].blocks[e.j] {
      var m: nat, n: nat :| LiveAt(h.regions, m, n) && h.regions[m].blocks[n] == b;
      FreePreserves(h, e, t, m, n);
    }
  }

  lemma FreedIsLive(h: HeapView, k: nat, j: nat, t: HeapView)
    requires KfreeStep(h, k, j, t)
    ensures LiveAt(h.regions, k, j)
  {
  }

  lemma HeldBefore(h: HeapView, k: nat, j: nat, t: HeapView, m: nat, n: nat)
    requires HeapOk(h) && KfreeStep(h, k, j, t) && LiveAt(t.regions, m, n)
    ensures Holds(h, t.regions[m].blocks[n]) && t.regions[m].blocks[n] != h.regions[k].blocks[j]
  {
    hide HeapOk, Zeroed, BestOk;
    var one := |h.regions[k].blocks| == 1;
    var m' := if one && m >= k then m + 1 else m;
    var n' := if !one && m == k && n >= j then n + 1 else n;
    assert LiveAt(h.regions, m', n') && h.regions[m'].blocks[n'] == t.regions[m].blocks[n];
    AddrsDiffer(h, k, j, m', n');
  }

  /** After a shrinking krealloc they are those before it, the one with the new request size. */
  lemma ShrinkHolds(h: HeapView, e: Event, t: HeapView, b: Block)
    requires HeapOk(h) && e.Shrink? && HeapStep(h, e, t)
    ensures var was := h.regions[e.k].blocks[e.j];
            Holds(t, b) <==> (Holds(h, b) && b != was) || b == Block(was.addr, was.size, e.size)
    ensures t.mem == h.mem
  {
    hide HeapOk, RegionsOk, MemOk, BestOk, UserPtr;
    assert LiveAt(t.regions, e.k, e.j);
    if Holds(h, b) && b != h.regions[e.k].blocks[e.j] {
      var m: nat, n: nat :| LiveAt(h.regions, m, n) && h.regions[m].blocks[n] == b;
      assert LiveAt(t.regions, m, n) && t.regions[m].blocks[n] == b;
    }
    if Holds(t, b) {
      var m: nat, n: nat :| LiveAt(t.regions, m, n) && t.regions[m].blocks[n] == b;
      assert LiveAt(h.regions, m, n);
      if m != e.k || n != e.j { AddrsDiffer(h, e.k, e.j, m, n); }
    }
  }

  // ----- a pointer freed twice -----

  /** No live block overlaps `b`, whose region is still linked. */
  ghost predicate Unused(h: HeapView, b: Block) {
    && (exists i :: 0 <= i < |h.regions| && BlockOk(h.regions[i], b))
    && forall m: nat, n: nat | LiveAt(h.regions, m, n) ::
         End(h.regions[m].blocks[n]) <= b.addr || End(b) <= h.regions[m].blocks[n].addr
  }

  ghost predicate Cleared(mem: seq<nat>, b: Block) {
    End(b) <= |mem| && forall a | b.addr + HEADER <= a < End(b) :: mem[a] == 0
  }

  lemma FreeClears(h: HeapView, k: nat, j: nat, t: HeapView)
    requires HeapOk(h) && KfreeStep(h, k, j, t)
    ensures Cleared(t.mem, h.regions[k].blocks[j])
  {
    hide RegionsOk, MemOk, BestOk, RemoveBlock, RemoveRegion;
    LiveBlockOk(h.regions, k, j);
    OkLength(h);
  }

  /** While `b` is not used again no step writes to its bytes. */
  lemma StepKeepsCleared(h: HeapView, e: Event, t: HeapView, b: Block)
    requires HeapOk(h) && HeapStep(h, e, t) && Cleared(h.mem, b)
    requires Unused(if e.Malloc? then t else h, b)
    ensures Cleared(t.mem, b)
  {
    hide RegionsOk, MemOk, BestOk, UserPtr, NoGap, SearchStart, FirstRegion, FirstGap, GapFits, FreshRegion, Supplied,
      RemoveBlock, RemoveRegion, InsertBlock, SetReq;
    match e
    case Malloc(req, supply, p, s, k, j) =>
      var size := req + ALIGNMENT + ALIGN_INFO;
      var rs := if NoGap(h.regions, size + HEADER) then h.regions + [FreshRegion(supply, size)] else h.regions;
      var g := if NoGap(h.regions, size + HEADER) then h.(regions := rs) else h;
      PlacedAt(g, k, j, req, t, p);
      UserPtrFacts(t.regions[k].blocks[j].addr);
    case Free(k, j) =>
    case Shrink(_, _, _) =>
    case Write(k, j) =>
      LiveBlockOk(h.regions, k, j);
      UserPtrFacts(h.regions[k].blocks[j].addr);
  }

  lemma {:induction false} RunKeepsCleared(states: seq<HeapView>, events: seq<Event>, b: Block)
    requires HeapRun(states, events) && HeapOk(states[0]) && Cleared(states[0].mem, b)
    requires forall i | 0 <= i < |states| :: Unused(states[i], b)
    ensures Cleared(states[|events|].mem, b)
  {
    hide HeapOk, HeapStep, Unused, Cleared;
    if events != [] {
      var n := |events| - 1;
      assert states[..n + 1][0] == states[0] && states[..n + 1][n] == states[n];
      RunKeepsCleared(states[..n + 1], events[..n], b);
      RunKeeps(states, events);
      StepKeepsCleared(states[n], events[n], states[n + 1], b);
    }
  }

  /** The cleared information byte leads to the header place below the pointer, inside the block, where no
      live header is and all bytes are 0. */
  lemma ClearedHasNoMagic(h: HeapView, minors: map<nat, Minor>, b: Block)
    requires OnlyLive(minors, h.regions) && Unused(h, b) && Cleared(h.mem, b)
    ensures var p := UserPtr(b.addr);
            && ALIGN_INFO <= p <= |h.mem| && HeaderOf(h.mem, p) == p - HEADER >= 0
            && MagicAt(h.mem, minors, p - HEADER) != MAGIC && Readable(h.regions, minors, p - HEADER)
  {
    hide UserPtr, LiveHead;
    UserPtrFacts(b.addr);
    var a := UserPtr(b.addr) - HEADER;
    if a in minors && minors[a].magic == MAGIC {
      assert LiveHead(h.regions, a);
      HeadOutside(h, b, a);
    }
  }

  lemma HeadOutside(h: HeapView, b: Block, a: nat)
    requires Unused(h, b) && LiveHead(h.regions, a)
    ensures a < b.addr || End(b) <= a
  {
  }

  /** The magic test finds every double free: after block `j` of region `k` was freed, and whatever happens
      then, a second `kfree` or `krealloc` of its pointer does not find the magic number, as long as its
      region is not given back and no new block uses its bytes. */
  lemma DoubleFreeStops(states: seq<HeapView>, events: seq<Event>, k: nat, j: nat, b: Block, minors: map<nat, Minor>)
    requires HeapRun(states, events) && HeapOk(states[0]) && events != [] && events[0] == Free(k, j)
    requires LiveAt(states[0].regions, k, j) && b == states[0].regions[k].blocks[j]
    requires forall i | 1 <= i < |states| :: Unused(states[i], b)
    requires OnlyLive(minors, states[|events|].regions)
    ensures var h := states[|events|];
            var p := UserPtr(b.addr);
            && ALIGN_INFO <= p <= |h.mem| && HeaderOf(h.mem, p) >= 0
            && MagicAt(h.mem, minors, HeaderOf(h.mem, p)) != MAGIC
            && forall m: nat, n: nat :: HeaderKnown(h, minors, p, m, n)
  {
    hide HeapOk, KfreeStep, Unused, Cleared, UserPtr, OnlyLive, MagicAt, HeaderOf;
    FreeClears(states[0], k, j, states[1]);
    StepKeeps(states[0], events[0], states[1]);
    RunKeepsCleared(states[1..], events[1..], b);
    ClearedHasNoMagic(states[|events|], minors, b);
  }

  // ----- krealloc -----

  /** A growing krealloc as three events. */
  function GrowEvents(k: nat, j: nat, size: nat, supply: nat, q: nat, g: Growth): (Event, Event, Event) {
    (Malloc(size, supply, q, g.s, g.k, g.j), Write(g.k, g.j), Free(k, MovedIndex(k, j, g.k, g.j)))
  }

  /** The old and the new block between the events. */
  lemma GrowFacts(h: HeapView, k: nat, j: nat, size: nat, supply: nat, t: HeapView, q: nat, g: Growth)
    requires HeapOk(h) && LiveAt(h.regions, k, j) && h.regions[k].blocks[j].req < size
    requires Supplied(h.regions, supply, size + ALIGNMENT + ALIGN_INFO)
    requires GrowStep(h, k, j, UserPtr(h.regions[k].blocks[j].addr), size, supply, t, q, g)
    ensures var (e1, e2, e3) := GrowEvents(k, j, size, supply, q, g);
            && HeapStep(h, e1, g.allocation) && HeapStep(g.allocation, e2, g.copy) && HeapStep(g.copy, e3, t)
    ensures HeapOk(g.allocation) && HeapOk(g.copy) && HeapOk(t)
    ensures LiveAt(g.allocation.regions, g.k, g.j)
    ensures var nb := g.allocation.regions[g.k].blocks[g.j];
            && nb.req == size && q == UserPtr(nb.addr) && q + size <= SPACE
    ensures TargetAt(g.allocation, k, MovedIndex(k, j, g.k, g.j), h.regions[k].blocks[j].addr)
  {
    hide HeapOk, KmallocStep, KfreeStep, UserPtr, Supplied, Copied, RegionsOk;
    var (e1, e2, e3) := GrowEvents(k, j, size, supply, q, g);
    StepKeeps(h, e1, g.allocation);
    OkRegions(g.allocation);
    GrowLocates(h, k, j, size, supply, g.allocation, q, g.s, g.k, g.j);
    var nb := g.allocation.regions[g.k].blocks[g.j];
    CopyStays(g.allocation.mem, g.copy.mem, q, UserPtr(h.regions[k].blocks[j].addr), h.regions[k].blocks[j].req, size);
    StepKeeps(g.allocation, e2, g.copy);
    StepKeeps(g.copy, e3, t);
    LiveBlockOk(g.allocation.regions, g.k, g.j);
    UserPtrFacts(nb.addr);
  }

  lemma CopyStays(mem: seq<nat>, v: seq<nat>, dst: nat, src: nat, len: nat, size: nat)
    requires Copied(mem, v, dst, src, len) && len <= size
    ensures SameExcept(mem, v, dst, dst + size)
  {
  }

  /** Two live blocks at different places have different addresses. */
  lemma AddrsDiffer(h: HeapView, k: nat, j: nat, m: nat, n: nat)
    requires HeapOk(h) && LiveAt(h.regions, k, j) && LiveAt(h.regions, m, n) && (k != m || j != n)
    ensures h.regions[k].blocks[j].addr != h.regions[m].blocks[n].addr
  {
    hide RegionsOk;
    BlocksApart(h.regions, k, j, m, n);
  }

  /** A growing krealloc keeps the old contents at the new pointer. */
  lemma KreallocKeepsBytes(h: HeapView, k: nat, j: nat, size: nat, supply: nat, t: HeapView, q: nat, g: Growth)
    requires HeapOk(h) && LiveAt(h.regions, k, j) && h.regions[k].blocks[j].req < size
    requires Supplied(h.regions, supply, size + ALIGNMENT + ALIGN_INFO)
    requires GrowStep(h, k, j, UserPtr(h.regions[k].blocks[j].addr), size, supply, t, q, g)
    ensures var b := h.regions[k].blocks[j];
            var p := UserPtr(b.addr);
            q + size <= |t.mem| && p + b.req <= |h.mem| &&
            forall a | q <= a < q + b.req :: t.mem[a] == h.mem[a - q + p]
  {
    hide HeapOk, KmallocStep, KfreeStep, UserPtr, Supplied, HeapStep;
    var b := h.regions[k].blocks[j];
    var (e1, e2, e3) := GrowEvents(k, j, size, supply, q, g);
    GrowFacts(h, k, j, size, supply, t, q, g);
    var nb := g.allocation.regions[g.k].blocks[g.j];
    assert Holds(h, b);
    StepPreserves(h, e1, g.allocation, b);
    assert LiveAt(g.copy.regions, g.k, g.j);
    assert Holds(g.copy, nb);
    AddrsDiffer(g.allocation, k, e3.j, g.k, g.j);
    StepPreserves(g.copy, e3, t, nb);
    OkLength(t);
  }

  /** ... for which a block of the new size was made, while the old one is gone and all others stay. */
  lemma KreallocMoves(h: HeapView, k: nat, j: nat, size: nat, supply: nat, t: HeapView, q: nat, g: Growth, b: Block)
    requires HeapOk(h) && LiveAt(h.regions, k, j) && h.regions[k].blocks[j].req < size
    requires Supplied(h.regions, supply, size + ALIGNMENT + ALIGN_INFO)
    requires GrowStep(h, k, j, UserPtr(h.regions[k].blocks[j].addr), size, supply, t, q, g)
    ensures LiveAt(g.allocation.regions, g.k, g.j)
    ensures var nb := g.allocation.regions[g.k].blocks[g.j];
            && nb.req == size && nb.size == size + 32 && q == UserPtr(nb.addr) && !Holds(h, nb)
            && (Holds(t, b) <==> (Holds(h, b) && b != h.regions[k].blocks[j]) || b == nb)
  {
    hide HeapOk, KmallocStep, KfreeStep, UserPtr, Supplied, HeapStep, GrowStep;
    var (e1, e2, e3) := GrowEvents(k, j, size, supply, q, g);
    GrowFacts(h, k, j, size, supply, t, q, g);
    CopyKeepsRegions(h, k, j, size, supply, t, q, g);
    MallocHolds(h, e1, g.allocation, b);
    FreeHolds(g.copy, e3, t, b);
    MallocAdds(h, e1, g.allocation);
    assert Holds(h, h.regions[k].blocks[j]);
  }

  lemma OkLength(h: HeapView)
    requires HeapOk(h)
    ensures |h.mem| == SPACE
  {
  }

  /** ... and every other live block with its record and its bytes. */
  lemma KreallocKeepsOthers(h: HeapView, k: nat, j: nat, size: nat, supply: nat, t: HeapView, q: nat, g: Growth,
                            c: Block)
    requires HeapOk(h) && LiveAt(h.regions, k, j) && h.regions[k].blocks[j].req < size
    requires Supplied(h.regions, supply, size + ALIGNMENT + ALIGN_INFO)
    requires GrowStep(h, k, j, UserPtr(h.regions[k].blocks[j].addr), size, supply, t, q, g)
    requires Holds(h, c) && c.addr != h.regions[k].blocks[j].addr
    ensures Holds(t, c) && SameBytes(h.mem, t.mem, c)
  {
    hide HeapOk, KmallocStep, KfreeStep, UserPtr, Supplied, HeapStep, GrowStep;
    var (e1, e2, e3) := GrowEvents(k, j, size, supply, q, g);
    GrowFacts(h, k, j, size, supply, t, q, g);
    CopyKeepsRegions(h, k, j, size, supply, t, q, g);
    var m: nat, n: nat :| LiveAt(h.regions, m, n) && h.regions[m].blocks[n] == c;
    StepPreserves(h, e1, g.allocation, c);
    MallocAdds(h, e1, g.allocation);
    AddrsDiffer(g.allocation, g.k, g.j, m, MovedIndex(m, n, g.k, g.j));
    StepPreserves(g.allocation, e2, g.copy, c);
    StepPreserves(g.copy, e3, t, c);
  }

  lemma CopyKeepsRegions(h: HeapView, k: nat, j: nat, size: nat, supply: nat, t: HeapView, q: nat, g: Growth)
    requires LiveAt(h.regions, k, j)
    requires GrowStep(h, k, j, UserPtr(h.regions[k].blocks[j].addr), size, supply, t, q, g)
    ensures g.copy.regions == g.allocation.regions
  {
  }
}
