/** The heap together with the kernel's page map and the block map: where a run of kmalloc, kfree and
krealloc gets its pages, while the rest of the kernel does what it does. */
module HeapSystem {
  import opened Bits
  import opened HeapModel
  import opened Liballoc
  import opened HeapRuns
  import opened HeapPages
  import opened UserCopy
  import V = Vmm

  datatype System = System(heap: HeapView, pages: seq<nat>, words: seq<uint32>)

  /** `Init` is `liballoc_init`, `Others` anything outside the heap. */
  datatype Act = Init(supply: nat) | Act(event: Event) | Others

  const FIRST: nat := ALIGNMENT + ALIGN_INFO

  ghost predicate PagesKept(x: System, y: System) {
    y.pages == x.pages && y.words == x.words
  }

  /** `liballoc_alloc` for a major that has to hold `size` bytes. */
  ghost predicate Fetched(x: System, y: System, supply: nat, size: nat) {
    PagesFor(size) <= V.PAGES && PagesCome(x.pages, x.words, y.pages, y.words, supply, PagesFor(size))
  }

  /** `liballoc_free` for region `k`. */
  ghost predicate Returned(x: System, y: System, k: nat)
    requires k < |x.heap.regions|
  {
    GavePages(x.pages, x.words, y.pages, y.words, x.heap.regions[k].addr / V.PAGE_SIZE, x.heap.regions[k].pages)
  }

  /** A request that no region has room for takes pages; a block that was the last one of its region gives
      the region's pages back; other requests do neither. */
  ghost predicate SystemStep(x: System, a: Act, y: System) {
    match a
    case Init(supply) =>
      && x.heap.regions == [] && Fetched(x, y, supply, FIRST)
      && y.heap == x.heap.(regions := [FreshRegion(supply, FIRST)])
    case Act(e) =>
      (match e
       case Malloc(req, supply, p, s, k, j) =>
         && KmallocStep(x.heap, req, supply, y.heap, p, s, k, j)
         && if Asks(x, a) then Fetched(x, y, supply, req + FIRST) else supply == 0 && PagesKept(x, y)
       case Free(k, j) =>
         && KfreeStep(x.heap, k, j, y.heap)
         && if |x.heap.regions[k].blocks| == 1 then Returned(x, y, k) else PagesKept(x, y)
       case Shrink(_, _, _) => HeapStep(x.heap, e, y.heap) && PagesKept(x, y)
       case Write(_, _) => HeapStep(x.heap, e, y.heap) && PagesKept(x, y))
    case Others => y.heap == x.heap && OthersOnly(x.heap.regions, x.pages, x.words, y.pages, y.words)
  }

  /** The action asks for pages. */
  ghost predicate Asks(x: System, a: Act) {
    || a.Init?
    || (a.Act? && a.event.Malloc? && NoGap(x.heap.regions, a.event.req + FIRST + HEADER))
  }

  function Bytes(a: Act): nat {
    if a.Act? && a.event.Malloc? then a.event.req + FIRST else FIRST
  }

  /** When it asks for pages there is a run of them that does not wrap at the end of the address space. */
  ghost predicate Roomy(x: System, a: Act) {
    Asks(x, a) ==> RoomToEnd(x.pages, PagesFor(Bytes(a)))
  }

  ghost predicate SystemOk(x: System) {
    HeapOk(x.heap) && Backed(x.pages, x.words, x.heap.regions)
  }

  ghost predicate SystemRun(states: seq<System>, acts: seq<Act>) {
    && |states| == |acts| + 1
    && forall i | 0 <= i < |acts| :: SystemStep(states[i], acts[i], states[i + 1]) && Roomy(states[i], acts[i])
  }

  /** Before `liballoc_init`. */
  lemma SystemStart(x: System)
    requires x.heap.regions == [] && |x.heap.mem| == SPACE && x.heap.best == 0 && |x.pages| == V.PAGES
    ensures SystemOk(x)
  {
  }

  // ----- every step -----

  lemma InitKeeps(x: System, a: Act, y: System)
    requires SystemOk(x) && a.Init? && SystemStep(x, a, y) && Roomy(x, a)
    ensures SystemOk(y)
  {
    hide Backed, PagesCome, RoomToEnd, RegionsOk, MemOk, BestOk, Supplied, FreshRegion, PagesFor;
    SupplyApart(x.heap.regions, x.pages, x.words, y.pages, y.words, a.supply, FIRST);
    assert x.heap.regions + [FreshRegion(a.supply, FIRST)] == y.heap.regions;
    SupplyNotNull(x, y, a.supply, FIRST);
    AppendKeeps(x.heap, a.supply, FIRST);
    BestAppend(x.heap.best, x.heap.regions, FreshRegion(a.supply, FIRST));
  }

  lemma SupplyNotNull(x: System, y: System, supply: nat, size: nat)
    requires Fetched(x, y, supply, size)
    ensures supply != 0
  {
    hide GotPages, V.RunFree, PagesFor;
  }

  /** A malloc's pages are as the heap asks for them, so that it is an event of a heap's run. */
  lemma MallocIsStep(x: System, a: Act, y: System)
    requires SystemOk(x) && a.Act? && a.event.Malloc? && SystemStep(x, a, y) && Roomy(x, a)
    ensures HeapStep(x.heap, a.event, y.heap)
    ensures Asks(x, a) ==>
              Backed(y.pages, y.words, x.heap.regions + [FreshRegion(a.event.supply, a.event.req + FIRST)])
  {
    hide Backed, PagesCome, RoomToEnd, RegionsOk, MemOk, BestOk, KmallocStep, PagesFor, FreshRegion, NoGap;
    if Asks(x, a) {
      SupplyApart(x.heap.regions, x.pages, x.words, y.pages, y.words, a.event.supply, a.event.req + FIRST);
    } else {
      NothingSupplied(x.heap.regions, a.event.req + FIRST);
    }
  }

  lemma NothingSupplied(rs: seq<Region>, size: nat)
    ensures Supplied(rs, 0, size)
  {
  }

  /** Which regions there are decides what has to be backed, not what is in them. */
  ghost predicate SamePlaces(rs: seq<Region>, ts: seq<Region>) {
    |ts| == |rs| && forall i | 0 <= i < |rs| :: ts[i].addr == rs[i].addr && ts[i].pages == rs[i].pages
  }

  lemma BackedSame(rs: seq<Region>, ts: seq<Region>, g: seq<nat>, w: seq<uint32>)
    requires Backed(g, w, rs) && SamePlaces(rs, ts)
    ensures Backed(g, w, ts)
  {
    hide Mapped, Frame;
    forall p: nat | HeapPage(ts, p)
      ensures HeapPage(rs, p)
    {
      var i :| 0 <= i < |ts| && PageOf(ts[i], p);
      assert PageOf(rs[i], p);
    }
  }

  lemma PlacedSame(h: HeapView, k: nat, j: nat, req: nat, t: HeapView, p: nat)
    requires Placed(h, k, j, req, t, p)
    ensures SamePlaces(h.regions, t.regions)
  {
    hide UserPtr;
  }

  lemma MallocBacked(x: System, a: Act, y: System)
    requires SystemOk(x) && a.Act? && a.event.Malloc? && SystemStep(x, a, y) && Roomy(x, a)
    ensures Backed(y.pages, y.words, y.heap.regions)
  {
    hide Backed, Placed, PagesCome, RoomToEnd, RegionsOk, MemOk, BestOk, NoGap, SearchStart, FirstRegion, FirstGap,
      PagesFor, FreshRegion, HeapStep, SamePlaces;
    MallocIsStep(x, a, y);
    var e, size := a.event, a.event.req + FIRST;
    var rs := if Asks(x, a) then x.heap.regions + [FreshRegion(e.supply, size)] else x.heap.regions;
    PlacedSame(x.heap.(regions := rs), e.k, e.j, e.req, y.heap, e.p);
    BackedSame(rs, y.heap.regions, y.pages, y.words);
  }

  lemma FreeBacked(x: System, a: Act, y: System)
    requires SystemOk(x) && a.Act? && a.event.Free? && SystemStep(x, a, y)
    ensures Backed(y.pages, y.words, y.heap.regions)
  {
    hide Backed, GavePages, RegionsOk, MemOk, BestOk, Zeroed;
    var rs, k, j := x.heap.regions, a.event.k, a.event.j;
    if |rs[k].blocks| == 1 {
      BackedLess(rs, k, x.pages, x.words, y.pages, y.words);
    } else {
      BackedSame(rs, y.heap.regions, y.pages, y.words);
    }
  }

  lemma ShrinkBacked(x: System, a: Act, y: System)
    requires SystemOk(x) && a.Act? && a.event.Shrink? && SystemStep(x, a, y)
    ensures Backed(y.pages, y.words, y.heap.regions)
  {
    hide Backed, RegionsOk, MemOk, BestOk;
    BackedSame(x.heap.regions, y.heap.regions, y.pages, y.words);
  }

  /** Every action keeps the heap well formed and every heap page backed by a frame of its own, and what it
      does to the heap is an event of the heap's runs. */
  lemma SystemStepKeeps(x: System, a: Act, y: System)
    requires SystemOk(x) && SystemStep(x, a, y) && Roomy(x, a)
    ensures SystemOk(y)
    ensures a.Act? ==> HeapStep(x.heap, a.event, y.heap)
  {
    hide HeapOk, Backed, KmallocStep, KfreeStep, ShrinkStep, WriteStep, Fetched, Returned, Roomy, OthersOnly;
    match a
    case Init(_) => InitKeeps(x, a, y);
    case Others => OthersKeep(x.heap.regions, x.pages, x.words, y.pages, y.words);
    case Act(e) =>
      match e {
        case Malloc(_, _, _, _, _, _) => MallocIsStep(x, a, y); MallocBacked(x, a, y);
        case Free(_, _) => FreeBacked(x, a, y);
        case Shrink(_, _, _) => ShrinkBacked(x, a, y);
        case Write(k, j) => WriteBacked(x, a, y);
      }
      StepKeeps(x.heap, e, y.heap);
  }

  lemma WriteBacked(x: System, a: Act, y: System)
    requires SystemOk(x) && a.Act? && a.event.Write? && SystemStep(x, a, y)
    ensures Backed(y.pages, y.words, y.heap.regions)
  {
    hide Backed, HeapOk;
  }

  // ----- runs -----

  /** In every reachable state the heap is well formed and every page of it has a frame of its own, and
      all pages that the heap ever gets are apart from those it has. */
  lemma {:induction false} SystemRunKeeps(states: seq<System>, acts: seq<Act>)
    requires SystemRun(states, acts) && SystemOk(states[0])
    ensures forall i | 0 <= i < |states| :: SystemOk(states[i])
    ensures forall i | 0 <= i < |acts| && acts[i].Act? :: HeapStep(states[i].heap, acts[i].event, states[i + 1].heap)
  {
    hide SystemOk, SystemStep, HeapStep, Roomy;
    if acts != [] {
      var n := |acts| - 1;
      SystemRunKeeps(states[..n + 1], acts[..n]);
      assert states[..n + 1][n] == states[n];
      SystemStepKeeps(states[n], acts[n], states[n + 1]);
      forall i | 0 <= i < |states|
        ensures SystemOk(states[i])
      {
        if i <= n { assert states[..n + 1][i] == states[i]; }
      }
      forall i | 0 <= i < |acts| && acts[i].Act?
        ensures HeapStep(states[i].heap, acts[i].event, states[i + 1].heap)
      {
        if i < n { assert states[..n + 1][i] == states[i] && states[..n + 1][i + 1] == states[i + 1]; }
      }
    }
  }

  lemma SystemStepPreserves(x: System, a: Act, y: System, b: Block)
    requires SystemOk(x) && SystemStep(x, a, y) && Roomy(x, a) && Holds(x.heap, b)
    requires a.Act? ==> !Touches(x.heap, a.event, b.addr)
    ensures Holds(y.heap, b) && SameBytes(x.heap.mem, y.heap.mem, b)
  {
    hide HeapOk, Backed, KmallocStep, KfreeStep, ShrinkStep, WriteStep, Fetched, Returned, Roomy, OthersOnly, HeapStep,
      Touches;
    SystemStepKeeps(x, a, y);
    if a.Act? { StepPreserves(x.heap, a.event, y.heap, b); }
  }

  /** Over every run a live block that no action targets stays where it is and keeps its bytes. */
  lemma {:induction false} SystemRunPreserves(states: seq<System>, acts: seq<Act>, b: Block)
    requires SystemRun(states, acts) && SystemOk(states[0]) && Holds(states[0].heap, b)
    requires forall i | 0 <= i < |acts| && acts[i].Act? :: !Touches(states[i].heap, acts[i].event, b.addr)
    ensures Holds(states[|acts|].heap, b) && SameBytes(states[0].heap.mem, states[|acts|].heap.mem, b)
  {
    hide SystemOk, SystemStep, HeapStep, Roomy, Holds, Touches;
    if acts != [] {
      var n := |acts| - 1;
      assert states[..n + 1][0] == states[0] && states[..n + 1][n] == states[n];
      SystemRunPreserves(states[..n + 1], acts[..n], b);
      SystemRunKeeps(states, acts);
      SystemStepPreserves(states[n], acts[n], states[n + 1], b);
    }
  }

  /** Two addresses in the heap's pages never lead to the same byte of physical memory. */
  lemma HeapBytesApart(x: System, a: nat, b: nat)
    requires SystemOk(x) && 32 * |x.words| <= V.PAGES && a != b
    requires HeapPage(x.heap.regions, a / V.PAGE_SIZE) && HeapPage(x.heap.regions, b / V.PAGE_SIZE)
    ensures |x.pages| == V.PAGES && PlaceOf(x.pages, a) != PlaceOf(x.pages, b)
  {
    hide HeapOk, HeapPage;
    FrameInMap(x.pages, x.words, a / V.PAGE_SIZE);
    FrameInMap(x.pages, x.words, b / V.PAGE_SIZE);
  }

  lemma FrameInMap(g: seq<nat>, w: seq<uint32>, p: nat)
    requires |g| == V.PAGES && 32 * |w| <= V.PAGES
    ensures Mapped(g, w, p) ==> p % V.PAGES == p && Frame(g[p]) % V.PAGES == Frame(g[p])
  {
  }
}
