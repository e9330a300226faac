/** The heap's bytes in physical memory: what its view shows of a live block is what the processor reads
there through the kernel's page map, whatever the rest of the kernel writes. */
module HeapMemory {
  import opened HeapModel
  import opened Liballoc
  import opened HeapRuns
  import opened HeapPages
  import opened HeapSystem
  import opened UserCopy
  import F = Fork
  import Pmm
  import V = Vmm

  ghost predicate HeadAt(rs: seq<Region>, a: nat) {
    LiveHead(rs, a) || exists k: nat :: k < |rs| && rs[k].addr == a
  }

  /** Byte `c` belongs to the header of a region or of a live block. */
  ghost predicate HeaderByte(rs: seq<Region>, c: nat) {
    exists a: nat :: HeadAt(rs, a) && a <= c < a + HEADER
  }

  ghost predicate UserByte(b: Block, c: nat) {
    UserPtr(b.addr) <= c < UserPtr(b.addr) + b.req
  }

  /** The addresses that an action of the heap may write: headers, the information byte of a new block, the
      bytes of a freed one, and what a client asked for. */
  ghost predicate Writes(x: System, a: Act, y: System, c: nat) {
    match a
    case Others => false
    case Init(_) => HeaderByte(y.heap.regions, c)
    case Act(e) =>
      match e
      case Malloc(_, _, p, _, _, _) => HeaderByte(y.heap.regions, c) || c + ALIGN_INFO == p
      case Free(k, j) =>
        || HeaderByte(x.heap.regions, c)
        || (LiveAt(x.heap.regions, k, j) &&
            x.heap.regions[k].blocks[j].addr + HEADER <= c < End(x.heap.regions[k].blocks[j]))
      case Shrink(_, _, _) => HeaderByte(x.heap.regions, c)
      case Write(k, j) => LiveAt(x.heap.regions, k, j) && UserByte(x.heap.regions[k].blocks[j], c)
  }

  /** The state whose mappings an action writes through: with the pages it got, before the pages it gives back. */
  ghost function During(x: System, a: Act, y: System): System {
    if a.Init? || (a.Act? && a.event.Malloc?) then y else x
  }

  ghost predicate Stored(x: System, a: Act, y: System, q: Place) {
    exists c: nat :: Writes(x, a, y, c) && |During(x, a, y).pages| == V.PAGES && PlaceOf(During(x, a, y).pages, c) == q
  }

  ghost function ByteAt(x: System, fs: seq<seq<nat>>, c: nat): nat
    requires |x.pages| == V.PAGES && FramesOk(fs)
  {
    ReadAt(fs, PlaceOf(x.pages, c))
  }

  /** The rest of the kernel writes to no frame of the heap. */
  ghost predicate HeapFramesKept(x: System, fs: seq<seq<nat>>, ft: seq<seq<nat>>)
    requires |x.pages| == V.PAGES && FramesOk(fs) && FramesOk(ft)
  {
    forall p: nat | HeapPage(x.heap.regions, p) :: ft[FrameAt(x.pages, p)] == fs[FrameAt(x.pages, p)]
  }

  ghost predicate Fits(x: System, fs: seq<seq<nat>>) {
    |x.pages| == V.PAGES && 32 * |x.words| <= V.PAGES && FramesOk(fs)
  }

  /** What an action does to physical memory: it stores at its addresses only, and there what the view says. */
  ghost predicate FrameStep(x: System, fs: seq<seq<nat>>, a: Act, y: System, ft: seq<seq<nat>>) {
    && Fits(x, fs) && Fits(y, ft)
    && if a.Others? then HeapFramesKept(x, fs, ft)
       else (forall q: Place | PlaceOk(q) && !Stored(x, a, y, q) :: ReadAt(ft, q) == ReadAt(fs, q))
            && (a.Act? && a.event.Write? ==> ClientWrites(x, fs, a, y, ft))
            && (a.Act? && a.event.Malloc? ==> InfoWritten(a.event.p, y, ft))
  }

  /** `kmalloc` stores the information byte. */
  ghost predicate InfoWritten(p: nat, y: System, ft: seq<seq<nat>>)
    requires Fits(y, ft)
  {
    ALIGN_INFO <= p < |y.heap.mem| ==> ByteAt(y, ft, p - ALIGN_INFO) == y.heap.mem[p - ALIGN_INFO]
  }

  /** A client's write is seen in the view as it is in memory. */
  ghost predicate ClientWrites(x: System, fs: seq<seq<nat>>, a: Act, y: System, ft: seq<seq<nat>>)
    requires Fits(x, fs) && Fits(y, ft)
  {
    forall c: nat | Writes(x, a, y, c) && c < |x.heap.mem| && c < |y.heap.mem| ::
      ByteAt(y, ft, c) == y.heap.mem[c] || (ByteAt(y, ft, c) == ByteAt(x, fs, c) && y.heap.mem[c] == x.heap.mem[c])
  }

  // ----- where the writes go -----

  lemma InRegionPages(x: System, k: nat, c: nat)
    requires SystemOk(x) && k < |x.heap.regions|
    requires x.heap.regions[k].addr <= c < x.heap.regions[k].addr + Size(x.heap.regions[k])
    ensures HeapPage(x.heap.regions, c / V.PAGE_SIZE)
  {
    hide HeapOk, Mapped;
    var r := x.heap.regions[k];
    PageWithin(r, c);
  }

  lemma PageWithin(r: Region, c: nat)
    requires r.addr % V.PAGE_SIZE == 0 && r.addr <= c < r.addr + Size(r)
    ensures PageOf(r, c / V.PAGE_SIZE)
  {
    var a := r.addr / V.PAGE_SIZE;
    assert r.addr == a * V.PAGE_SIZE;
  }

  lemma BlockInPages(x: System, k: nat, j: nat, c: nat)
    requires SystemOk(x) && LiveAt(x.heap.regions, k, j)
    requires x.heap.regions[k].blocks[j].addr <= c < End(x.heap.regions[k].blocks[j])
    ensures HeapPage(x.heap.regions, c / V.PAGE_SIZE)
  {
    hide RegionsOk, Backed, MemOk, BestOk, HeapPage;
    LiveBlockOk(x.heap.regions, k, j);
    InRegionPages(x, k, c);
  }

  lemma HeaderInPages(x: System, c: nat)
    requires SystemOk(x) && HeaderByte(x.heap.regions, c)
    ensures HeapPage(x.heap.regions, c / V.PAGE_SIZE)
  {
    hide RegionsOk, Backed, MemOk, BestOk, HeapPage;
    var a: nat :| HeadAt(x.heap.regions, a) && a <= c < a + HEADER;
    if LiveHead(x.heap.regions, a) {
      var k: nat, j: nat :| LiveAt(x.heap.regions, k, j) && x.heap.regions[k].blocks[j].addr == a;
      BlockInPages(x, k, j, c);
    } else {
      var k: nat :| k < |x.heap.regions| && x.heap.regions[k].addr == a;
      RegionHasHeader(x.heap.regions, k);
      InRegionPages(x, k, c);
    }
  }

  lemma RegionHasHeader(rs: seq<Region>, k: nat)
    requires RegionsOk(rs) && k < |rs|
    ensures HEADER <= Size(rs[k])
  {
    assert RegionOk(rs[k]);
  }

  /** All writes go to pages of the heap. */
  lemma WritesInPages(x: System, a: Act, y: System, c: nat)
    requires SystemOk(x) && SystemStep(x, a, y) && Roomy(x, a) && SystemOk(y) && Writes(x, a, y, c)
    ensures HeapPage(During(x, a, y).heap.regions, c / V.PAGE_SIZE)
  {
    hide SystemOk, HeaderByte, HeapPage, KmallocStep, KfreeStep, ShrinkStep, WriteStep, Roomy, Fetched, Returned,
      UserPtr;
    var z := During(x, a, y);
    if HeaderByte(z.heap.regions, c) {
      HeaderInPages(z, c);
    } else if a.event.Malloc? {
      NewBlockAt(x, a, y);
      var b := y.heap.regions[a.event.k].blocks[a.event.j];
      PayloadFacts(y, a.event.k, a.event.j);
      BlockInPages(y, a.event.k, a.event.j, c);
    } else {
      PayloadFacts(x, a.event.k, a.event.j);
      BlockInPages(x, a.event.k, a.event.j, c);
    }
  }

  lemma NewBlockAt(x: System, a: Act, y: System)
    requires SystemOk(x) && SystemStep(x, a, y) && Roomy(x, a) && a.Act? && a.event.Malloc?
    ensures LiveAt(y.heap.regions, a.event.k, a.event.j)
    ensures a.event.p == UserPtr(y.heap.regions[a.event.k].blocks[a.event.j].addr)
  {
    hide HeapOk, Backed, KmallocStep, Roomy, Fetched, UserPtr, HeapStep;
    MallocIsStep(x, a, y);
    MallocAdds(x.heap, a.event, y.heap);
  }

  lemma PayloadFacts(x: System, k: nat, j: nat)
    requires SystemOk(x) && LiveAt(x.heap.regions, k, j)
    ensures var b := x.heap.regions[k].blocks[j];
            b.addr + HEADER + ALIGN_INFO <= UserPtr(b.addr) && UserPtr(b.addr) + b.req <= End(b) <= SPACE
    ensures |x.heap.mem| == SPACE
  {
    hide RegionsOk, Backed, BestOk, UserPtr;
    LiveBlockOk(x.heap.regions, k, j);
    UserPtrFacts(x.heap.regions[k].blocks[j].addr);
  }

  /** A page that is the heap's before and after an action has the same frame. */
  lemma SamePage(x: System, a: Act, y: System, p: nat)
    requires SystemOk(x) && SystemStep(x, a, y) && Roomy(x, a)
    requires HeapPage(x.heap.regions, p) && HeapPage(y.heap.regions, p)
    ensures p < |x.pages| == |y.pages| == V.PAGES && y.pages[p] == x.pages[p]
  {
    hide HeapOk, KmallocStep, Roomy, HeapPage, ShrinkStep, WriteStep, PagesCome, GavePages, PagesFor, Zeroed;
    assert Mapped(x.pages, x.words, p);
    match a
    case Others =>
    case Init(supply) => FetchedElsewhere(x, y, supply, FIRST, p);
    case Act(e) =>
      match e
      case Malloc(req, supply, _, _, _, _) => if Asks(x, a) { FetchedElsewhere(x, y, supply, req + FIRST, p); }
      case Free(k, j) => if |x.heap.regions[k].blocks| == 1 { ReturnedElsewhere(x, y, k, p); }
      case Shrink(_, _, _) =>
      case Write(_, _) =>
  }

  lemma FetchedElsewhere(x: System, y: System, supply: nat, size: nat, p: nat)
    requires Fetched(x, y, supply, size) && Mapped(x.pages, x.words, p)
    ensures p < |x.pages| == |y.pages| == V.PAGES && y.pages[p] == x.pages[p]
  {
    hide V.RunFree, PagesFor;
    var s, n := supply / V.PAGE_SIZE, PagesFor(size);
    if V.InRun(p, s, n) {
      V.RunFreeAt(x.pages, s, n, if s <= p then p else p + V.PAGES);
    }
  }

  lemma ReturnedElsewhere(x: System, y: System, k: nat, p: nat)
    requires HeapOk(x.heap) && Backed(x.pages, x.words, x.heap.regions) && k < |x.heap.regions| && Returned(x, y, k)
    requires HeapPage(RemoveRegion(x.heap.regions, k), p)
    ensures p < |x.pages| == |y.pages| == V.PAGES && y.pages[p] == x.pages[p]
  {
    hide RegionsOk, MemOk, BestOk, HeapPage, RemoveRegion;
    LeftPage(x.heap.regions, k, p, x.pages, x.words);
    assert Mapped(x.pages, x.words, p);
  }

  // ----- what stays in memory -----

  /** A byte of the heap that the action does not write is in memory what it was. */
  lemma ByteKept(x: System, fs: seq<seq<nat>>, a: Act, y: System, ft: seq<seq<nat>>, c: nat)
    requires SystemOk(x) && SystemStep(x, a, y) && Roomy(x, a) && SystemOk(y) && FrameStep(x, fs, a, y, ft)
    requires HeapPage(x.heap.regions, c / V.PAGE_SIZE) && HeapPage(y.heap.regions, c / V.PAGE_SIZE)
    requires !Writes(x, a, y, c)
    ensures ByteAt(y, ft, c) == ByteAt(x, fs, c)
  {
    hide SystemOk, SystemStep, Roomy, HeapPage, Writes, ClientWrites, InfoWritten;
    SamePage(x, a, y, c / V.PAGE_SIZE);
    assert PlaceOf(y.pages, c) == PlaceOf(x.pages, c);
    if a.Others? {
      assert ft[FrameAt(x.pages, c / V.PAGE_SIZE)] == fs[FrameAt(x.pages, c / V.PAGE_SIZE)];
    } else if Stored(x, a, y, PlaceOf(x.pages, c)) {
      var z := During(x, a, y);
      var c': nat :| Writes(x, a, y, c') && PlaceOf(z.pages, c') == PlaceOf(x.pages, c);
      WritesInPages(x, a, y, c');
      HeapBytesApart(z, c, c');
    }
  }

  /** The bytes of a live block that the action does not target are not among those it writes. */
  lemma NotWritten(x: System, a: Act, y: System, b: Block, c: nat)
    requires SystemOk(x) && SystemStep(x, a, y) && Roomy(x, a) && SystemOk(y)
    requires Holds(x.heap, b) && Holds(y.heap, b) && UserByte(b, c)
    requires a.Act? ==> !Touches(x.heap, a.event, b.addr)
    ensures !Writes(x, a, y, c)
  {
    hide SystemOk, HeaderByte, KmallocStep, KfreeStep, ShrinkStep, WriteStep, Roomy, Fetched, Returned, UserPtr;
    NotInHeader(During(x, a, y), b, c);
    if Writes(x, a, y, c) {
      if a.event.Malloc? {
        NewBlockAt(x, a, y);
        InfoByteApart(y, a.event.k, a.event.j, b, c);
      } else {
        OtherPayload(x, a.event.k, a.event.j, b, c);
      }
    }
  }

  lemma NotInHeader(x: System, b: Block, c: nat)
    requires SystemOk(x) && Holds(x.heap, b) && UserByte(b, c)
    ensures !HeaderByte(x.heap.regions, c)
  {
    hide HeapOk, Backed, UserPtr, LiveHead;
    var k: nat, j: nat :| LiveAt(x.heap.regions, k, j) && x.heap.regions[k].blocks[j] == b;
    forall a: nat | HeadAt(x.heap.regions, a)
      ensures !(a <= c < a + HEADER)
    {
      if LiveHead(x.heap.regions, a) {
        var m, n := HeadOf(x.heap.regions, a);
        LiveBytesApart(x.heap, k, j, m, n);
      } else {
        var m: nat :| m < |x.heap.regions| && x.heap.regions[m].addr == a;
        RegionHeaderApart(x, k, j, m);
      }
    }
  }

  lemma HeadOf(rs: seq<Region>, a: nat) returns (m: nat, n: nat)
    requires LiveHead(rs, a)
    ensures LiveAt(rs, m, n) && rs[m].blocks[n].addr == a
  {
    m, n :| LiveAt(rs, m, n) && rs[m].blocks[n].addr == a;
  }

  lemma RegionHeaderApart(x: System, k: nat, j: nat, m: nat)
    requires SystemOk(x) && LiveAt(x.heap.regions, k, j) && m < |x.heap.regions|
    ensures var b := x.heap.regions[k].blocks[j];
            UserPtr(b.addr) + b.req <= x.heap.regions[m].addr || x.heap.regions[m].addr + HEADER <= UserPtr(b.addr)
  {
    hide RegionsOk, Backed, MemOk, BestOk, UserPtr;
    LiveBlockOk(x.heap.regions, k, j);
    PayloadFacts(x, k, j);
    if k != m {
      RegionAddrsDiffer(x.heap.regions, k, m);
      RegionHasHeader(x.heap.regions, m);
    }
  }

  lemma InfoByteApart(x: System, k: nat, j: nat, b: Block, c: nat)
    requires SystemOk(x) && LiveAt(x.heap.regions, k, j) && Holds(x.heap, b) && UserByte(b, c)
    ensures c + ALIGN_INFO != UserPtr(x.heap.regions[k].blocks[j].addr)
  {
    hide RegionsOk, Backed, MemOk, BestOk, UserPtr;
    var m: nat, n: nat :| LiveAt(x.heap.regions, m, n) && x.heap.regions[m].blocks[n] == b;
    PayloadFacts(x, k, j);
    PayloadFacts(x, m, n);
    if k != m || j != n { BlocksApart(x.heap.regions, k, j, m, n); }
  }

  lemma OtherPayload(x: System, k: nat, j: nat, b: Block, c: nat)
    requires SystemOk(x) && LiveAt(x.heap.regions, k, j) && Holds(x.heap, b) && UserByte(b, c)
    requires x.heap.regions[k].blocks[j].addr != b.addr
    ensures !(x.heap.regions[k].blocks[j].addr + HEADER <= c < End(x.heap.regions[k].blocks[j]))
    ensures !UserByte(x.heap.regions[k].blocks[j], c)
  {
    hide RegionsOk, Backed, MemOk, BestOk, UserPtr;
    var m: nat, n: nat :| LiveAt(x.heap.regions, m, n) && x.heap.regions[m].blocks[n] == b;
    PayloadFacts(x, k, j);
    PayloadFacts(x, m, n);
    BlocksApart(x.heap.regions, k, j, m, n);
  }

  lemma UserBytePage(x: System, b: Block, c: nat)
    requires SystemOk(x) && Holds(x.heap, b) && UserByte(b, c)
    ensures HeapPage(x.heap.regions, c / V.PAGE_SIZE) && c < |x.heap.mem|
  {
    hide SystemOk, HeapPage, UserPtr;
    var k: nat, j: nat :| LiveAt(x.heap.regions, k, j) && x.heap.regions[k].blocks[j] == b;
    PayloadFacts(x, k, j);
    BlockInPages(x, k, j, c);
  }

  /** The processor reads the bytes of `b` as the view has them. */
  ghost predicate Shown(x: System, fs: seq<seq<nat>>, b: Block) {
    Fits(x, fs) && forall c: nat | UserByte(b, c) && c < |x.heap.mem| :: ByteAt(x, fs, c) == x.heap.mem[c]
  }

  /** An action that neither frees nor shrinks a block leaves it where it is, and its bytes in memory: as they
      were, or as the client wrote them. */
  lemma ShownStep(x: System, fs: seq<seq<nat>>, a: Act, y: System, ft: seq<seq<nat>>, b: Block)
    requires SystemOk(x) && SystemStep(x, a, y) && Roomy(x, a) && FrameStep(x, fs, a, y, ft) && Holds(x.heap, b)
    requires a.Act? && !a.event.Write? ==> !Touches(x.heap, a.event, b.addr)
    ensures SystemOk(y) && Holds(y.heap, b)
    ensures Shown(x, fs, b) ==> Shown(y, ft, b)
    ensures Fits(x, fs) && Fits(y, ft)
    ensures (a.Act? ==> !Touches(x.heap, a.event, b.addr)) ==>
              forall c: nat | UserByte(b, c) :: ByteAt(y, ft, c) == ByteAt(x, fs, c)
  {
    hide SystemOk, SystemStep, Roomy, HeapPage, Writes, UserPtr, Touches, SameBytes, UserByte, FrameStep;
    SystemStepKeeps(x, a, y);
    FrameFits(x, fs, a, y, ft);
    if a.Act? && Touches(x.heap, a.event, b.addr) {
      TargetShown(x, fs, a, y, ft, b);
    } else {
      SystemStepPreserves(x, a, y, b);
      forall c: nat | UserByte(b, c)
        ensures ByteAt(y, ft, c) == ByteAt(x, fs, c)
        ensures c < |x.heap.mem| == |y.heap.mem| && y.heap.mem[c] == x.heap.mem[c]
      {
        UserBytePage(x, b, c);
        UserBytePage(y, b, c);
        NotWritten(x, a, y, b, c);
        ByteKept(x, fs, a, y, ft, c);
        SameByte(x.heap.mem, y.heap.mem, b, c);
      }
    }
  }

  lemma SameByte(mem: seq<nat>, v: seq<nat>, b: Block, c: nat)
    requires SameBytes(mem, v, b) && UserByte(b, c) && c < |mem|
    ensures |v| == |mem| && v[c] == mem[c]
  {
  }

  lemma FrameFits(x: System, fs: seq<seq<nat>>, a: Act, y: System, ft: seq<seq<nat>>)
    requires FrameStep(x, fs, a, y, ft)
    ensures Fits(x, fs) && Fits(y, ft)
  {
  }

  /** The block that the client writes to. */
  lemma TargetShown(x: System, fs: seq<seq<nat>>, a: Act, y: System, ft: seq<seq<nat>>, b: Block)
    requires SystemOk(x) && SystemStep(x, a, y) && FrameStep(x, fs, a, y, ft) && Holds(x.heap, b)
    requires a.Act? && a.event.Write? && Touches(x.heap, a.event, b.addr)
    ensures Holds(y.heap, b)
    ensures Shown(x, fs, b) ==> Shown(y, ft, b)
  {
    hide SystemOk, UserPtr, Stored, HeapFramesKept, FramesOk;
    var k, j := a.event.k, a.event.j;
    TargetIs(x, k, j, b);
    assert LiveAt(y.heap.regions, k, j);
  }

  lemma TargetIs(x: System, k: nat, j: nat, b: Block)
    requires SystemOk(x) && Holds(x.heap, b) && TargetAt(x.heap, k, j, b.addr)
    ensures x.heap.regions[k].blocks[j] == b
  {
    hide HeapOk, Backed;
    var m: nat, n: nat :| LiveAt(x.heap.regions, m, n) && x.heap.regions[m].blocks[n] == b;
    if k != m || j != n { AddrsDiffer(x.heap, k, j, m, n); }
  }

  // ----- the information bytes -----

  /** The information byte of every live block, in memory. */
  ghost predicate InfoShown(x: System, fs: seq<seq<nat>>) {
    Fits(x, fs) && forall a: nat | LiveHead(x.heap.regions, a) :: InfoAt(x, fs, a)
  }

  ghost predicate InfoAt(x: System, fs: seq<seq<nat>>, a: nat)
    requires Fits(x, fs)
  {
    UserPtr(a) >= ALIGN_INFO && ByteAt(x, fs, UserPtr(a) - ALIGN_INFO) == UserPtr(a) - (a + HEADER)
  }

  /** A block is live after an action because it was before, or because it is the new one. */
  lemma HeadsBefore(x: System, a: Act, y: System, addr: nat)
    requires SystemOk(x) && SystemStep(x, a, y) && LiveHead(y.heap.regions, addr)
    ensures LiveHead(x.heap.regions, addr) || (a.Act? && a.event.Malloc? && a.event.p == UserPtr(addr))
    ensures a.Act? && a.event.Free? && LiveAt(x.heap.regions, a.event.k, a.event.j) ==>
              x.heap.regions[a.event.k].blocks[a.event.j].addr != addr
  {
    hide SystemOk, UserPtr, KmallocStep, Fetched, Returned, Zeroed, BestOk;
    var m, n := HeadOf(y.heap.regions, addr);
    if a.Act? {
      match a.event
      case Malloc(_, _, _, _, _, _) => MallocHeads(x.heap, a.event, y.heap, m, n);
      case Free(k, j) => FreeHeads(x, k, j, y, m, n);
      case Shrink(k, j, _) => assert LiveAt(x.heap.regions, m, n);
      case Write(_, _) => assert LiveAt(x.heap.regions, m, n);
    }
  }

  lemma MallocHeads(h: HeapView, e: Event, t: HeapView, m: nat, n: nat)
    requires e.Malloc? && KmallocStep(h, e.req, e.supply, t, e.p, e.s, e.k, e.j) && LiveAt(t.regions, m, n)
    ensures var a := t.regions[m].blocks[n].addr; LiveHead(h.regions, a) || e.p == UserPtr(a)
  {
    hide UserPtr, NoGap, SearchStart, FirstRegion, FirstGap, BestOk, GapFits;
    var size := e.req + FIRST;
    var rs := if NoGap(h.regions, size + HEADER) then h.regions + [FreshRegion(e.supply, size)] else h.regions;
    PlacedAt(HeapView(rs, h.best, h.mem), e.k, e.j, e.req, t, e.p);
    if m != e.k || n != e.j {
      var n' := if m == e.k && n > e.j then n - 1 else n;
      assert LiveAt(rs, m, n') && rs[m].blocks[n'] == t.regions[m].blocks[n];
      assert LiveAt(h.regions, m, n');
    }
  }

  lemma FreeHeads(x: System, k: nat, j: nat, y: System, m: nat, n: nat)
    requires SystemOk(x) && KfreeStep(x.heap, k, j, y.heap) && LiveAt(y.heap.regions, m, n)
    ensures var a := y.heap.regions[m].blocks[n].addr;
            LiveHead(x.heap.regions, a) && x.heap.regions[k].blocks[j].addr != a
  {
    hide HeapOk, Backed, Zeroed, BestOk;
    var one := |x.heap.regions[k].blocks| == 1;
    var m' := if one && m >= k then m + 1 else m;
    var n' := if !one && m == k && n >= j then n + 1 else n;
    assert LiveAt(x.heap.regions, m', n') && x.heap.regions[m'].blocks[n'] == y.heap.regions[m].blocks[n];
    AddrsDiffer(x.heap, k, j, m', n');
  }

  /** The information byte of a block that stays is not written. */
  lemma InfoNotWritten(x: System, a: Act, y: System, addr: nat)
    requires SystemOk(x) && SystemStep(x, a, y) && Roomy(x, a) && SystemOk(y)
    requires LiveHead(x.heap.regions, addr) && LiveHead(y.heap.regions, addr)
    requires a.Act? && a.event.Malloc? ==> a.event.p != UserPtr(addr)
    ensures UserPtr(addr) >= ALIGN_INFO && !Writes(x, a, y, UserPtr(addr) - ALIGN_INFO)
  {
    hide SystemOk, HeaderByte, KmallocStep, KfreeStep, ShrinkStep, WriteStep, Roomy, Fetched, Returned, UserPtr,
      LiveHead;
    UserPtrFacts(addr);
    InfoNotHeader(During(x, a, y), addr);
    HeadsBefore(x, a, y, addr);
    if a.Act? && (a.event.Free? || a.event.Write?) && LiveAt(x.heap.regions, a.event.k, a.event.j) {
      InfoElsewhere(x, a.event.k, a.event.j, addr);
    }
  }

  lemma InfoNotHeader(x: System, addr: nat)
    requires SystemOk(x) && LiveHead(x.heap.regions, addr) && UserPtr(addr) >= ALIGN_INFO
    ensures !HeaderByte(x.heap.regions, UserPtr(addr) - ALIGN_INFO)
  {
    hide HeapOk, Backed, UserPtr, LiveHead;
    var c := UserPtr(addr) - ALIGN_INFO;
    var k, j := HeadOf(x.heap.regions, addr);
    PayloadFacts(x, k, j);
    forall a: nat | HeadAt(x.heap.regions, a)
      ensures !(a <= c < a + HEADER)
    {
      if LiveHead(x.heap.regions, a) {
        var m, n := HeadOf(x.heap.regions, a);
        if m != k || n != j { ApartBlocks(x, k, j, m, n); }
      } else {
        var m: nat :| m < |x.heap.regions| && x.heap.regions[m].addr == a;
        RegionHeaderBelow(x, k, j, m);
      }
    }
  }

  lemma ApartBlocks(x: System, k: nat, j: nat, m: nat, n: nat)
    requires SystemOk(x) && LiveAt(x.heap.regions, k, j) && LiveAt(x.heap.regions, m, n) && (k != m || j != n)
    ensures var b, d := x.heap.regions[k].blocks[j], x.heap.regions[m].blocks[n];
            (End(b) <= d.addr || End(d) <= b.addr) && d.addr + HEADER <= End(d)
  {
    hide RegionsOk, Backed, MemOk, BestOk;
    BlocksApart(x.heap.regions, k, j, m, n);
  }

  lemma RegionHeaderBelow(x: System, k: nat, j: nat, m: nat)
    requires SystemOk(x) && LiveAt(x.heap.regions, k, j) && m < |x.heap.regions|
    ensures var b := x.heap.regions[k].blocks[j];
            End(b) <= x.heap.regions[m].addr || x.heap.regions[m].addr + HEADER <= b.addr
  {
    hide RegionsOk, Backed, MemOk, BestOk;
    LiveBlockOk(x.heap.regions, k, j);
    if k != m {
      RegionAddrsDiffer(x.heap.regions, k, m);
      RegionHasHeader(x.heap.regions, m);
    }
  }

  /** It is in no other block, and not among the bytes its client asked for. */
  lemma InfoElsewhere(x: System, k: nat, j: nat, addr: nat)
    requires SystemOk(x) && LiveAt(x.heap.regions, k, j) && LiveHead(x.heap.regions, addr)
    requires UserPtr(addr) >= ALIGN_INFO
    ensures var b := x.heap.regions[k].blocks[j];
            var c := UserPtr(addr) - ALIGN_INFO;
            !UserByte(b, c) && (b.addr != addr ==> !(b.addr + HEADER <= c < End(b)))
  {
    hide SystemOk, UserPtr, LiveHead;
    var m, n := HeadOf(x.heap.regions, addr);
    PayloadFacts(x, k, j);
    PayloadFacts(x, m, n);
    if m != k || n != j { ApartBlocks(x, k, j, m, n); }
  }

  lemma InfoPage(x: System, addr: nat)
    requires SystemOk(x) && LiveHead(x.heap.regions, addr) && UserPtr(addr) >= ALIGN_INFO
    ensures HeapPage(x.heap.regions, (UserPtr(addr) - ALIGN_INFO) / V.PAGE_SIZE)
  {
    hide SystemOk, UserPtr, LiveHead, HeapPage;
    var k, j := HeadOf(x.heap.regions, addr);
    PayloadFacts(x, k, j);
    BlockInPages(x, k, j, UserPtr(addr) - ALIGN_INFO);
  }

  /** What the view says of the byte. */
  lemma InfoInView(x: System, addr: nat)
    requires SystemOk(x) && LiveHead(x.heap.regions, addr)
    ensures ALIGN_INFO <= UserPtr(addr) < |x.heap.mem|
    ensures x.heap.mem[UserPtr(addr) - ALIGN_INFO] == UserPtr(addr) - (addr + HEADER)
  {
    hide RegionsOk, Backed, BestOk, UserPtr, LiveHead;
    var k, j := HeadOf(x.heap.regions, addr);
    PayloadFacts(x, k, j);
    LiveAlign(x.heap.mem, x.heap.regions, k, j);
    LiveBlockOk(x.heap.regions, k, j);
    UserPtrFacts(addr);
  }

  lemma InfoStep(x: System, fs: seq<seq<nat>>, a: Act, y: System, ft: seq<seq<nat>>)
    requires SystemOk(x) && SystemStep(x, a, y) && Roomy(x, a) && FrameStep(x, fs, a, y, ft) && InfoShown(x, fs)
    ensures SystemOk(y) && InfoShown(y, ft)
  {
    hide SystemOk, SystemStep, Roomy, HeapPage, Writes, UserPtr, LiveHead, Stored, ClientWrites, HeapFramesKept, Fits;
    SystemStepKeeps(x, a, y);
    forall addr: nat | LiveHead(y.heap.regions, addr)
      ensures InfoAt(y, ft, addr)
    {
      UserPtrFacts(addr);
      HeadsBefore(x, a, y, addr);
      if a.Act? && a.event.Malloc? && a.event.p == UserPtr(addr) {
        InfoInView(y, addr);
      } else {
        InfoNotWritten(x, a, y, addr);
        InfoPage(x, addr);
        InfoPage(y, addr);
        ByteKept(x, fs, a, y, ft, UserPtr(addr) - ALIGN_INFO);
        assert InfoAt(x, fs, addr);
      }
    }
  }

  // ----- forks and copies leave the heap alone -----

  lemma HeapFrameUsed(x: System, fs: seq<seq<nat>>, p: nat)
    requires SystemOk(x) && Fits(x, fs) && HeapPage(x.heap.regions, p)
    ensures Pmm.UsedAt(x.words, FrameAt(x.pages, p)) && FrameAt(x.pages, p) < V.PAGES
  {
    hide HeapOk, HeapPage, FramesOk;
    assert Mapped(x.pages, x.words, p);
  }

  /** A fork writes to frames only that were free, so to none of the heap's. */
  lemma ForkKeepsHeap(x: System, f: seq<nat>, s0: F.Snapshot, s: F.Snapshot, m: nat, lost: set<nat>)
    requires SystemOk(x) && Fits(x, s0.frames) && s0.words == x.words
    requires F.ClonedBelow(f, s0, s, m, lost)
    ensures FramesOk(s.frames) && HeapFramesKept(x, s0.frames, s.frames)
  {
    hide SystemOk, HeapPage, Pmm.UsedAt;
    forall p: nat | HeapPage(x.heap.regions, p)
      ensures s.frames[FrameAt(x.pages, p)] == s0.frames[FrameAt(x.pages, p)]
    {
      HeapFrameUsed(x, s0.frames, p);
    }
  }

  /** A copy to a process whose pages do not lead to the heap's frames leaves those alone. */
  lemma CopyKeepsHeap(x: System, fs: seq<seq<nat>>, f: seq<nat>, ptr: nat, bs: seq<nat>, r: int, ft: seq<seq<nat>>)
    requires SystemOk(x) && Fits(x, fs) && |f| == V.PAGES && CopiedOut(f, ptr, bs, fs, r, ft)
    requires forall p: nat, q: Place | HeapPage(x.heap.regions, p) && q in Places(f, ptr, |bs|) ::
               q.frame != FrameAt(x.pages, p)
    ensures FramesOk(ft) && HeapFramesKept(x, fs, ft)
  {
    hide SystemOk, HeapPage, WriteAll, AllUserOk;
    if r != -1 {
      forall p: nat | HeapPage(x.heap.regions, p)
        ensures ft[FrameAt(x.pages, p)] == fs[FrameAt(x.pages, p)]
      {
        OtherFrame(fs, Places(f, ptr, |bs|), bs, FrameAt(x.pages, p));
      }
    }
  }

  lemma {:induction false} OtherFrame(fs: seq<seq<nat>>, ps: seq<Place>, bs: seq<nat>, n: nat)
    requires FramesOk(fs) && PlacesOk(ps) && |bs| == |ps| && n < V.PAGES
    requires forall q: Place | q in ps :: q.frame != n
    ensures WriteAll(fs, ps, bs)[n] == fs[n]
  {
    if ps != [] {
      assert ps[|ps| - 1] in ps;
      OtherFrame(fs, ps[..|ps| - 1], bs[..|ps| - 1], n);
    }
  }

  // ----- runs -----

  ghost predicate FrameRun(states: seq<System>, acts: seq<Act>, frames: seq<seq<seq<nat>>>) {
    && SystemRun(states, acts) && |frames| == |states|
    && forall i | 0 <= i < |acts| :: FrameStep(states[i], frames[i], acts[i], states[i + 1], frames[i + 1])
  }

  /** Action `i` leaves block `b` allocated as it is. */
  ghost predicate Spares(x: System, a: Act, b: Block) {
    a.Act? && !a.event.Write? ==> !Touches(x.heap, a.event, b.addr)
  }

  /** Over every run of the heap, of its clients and of the rest of the kernel: as long as a block is neither freed
      nor shrunk, memory holds in its bytes what the view shows, if it did at the beginning. */
  lemma {:induction false} ShownOverRuns(states: seq<System>, acts: seq<Act>, frames: seq<seq<seq<nat>>>, b: Block)
    requires FrameRun(states, acts, frames) && SystemOk(states[0]) && Holds(states[0].heap, b)
    requires Shown(states[0], frames[0], b)
    requires forall i | 0 <= i < |acts| :: Spares(states[i], acts[i], b)
    ensures Holds(states[|acts|].heap, b) && Shown(states[|acts|], frames[|acts|], b)
  {
    hide SystemOk, SystemStep, Roomy, FrameStep, Holds, Touches, Shown;
    if acts != [] {
      var n := |acts| - 1;
      assert states[..n + 1][0] == states[0] && states[..n + 1][n] == states[n];
      assert frames[..n + 1][0] == frames[0] && frames[..n + 1][n] == frames[n];
      ShownOverRuns(states[..n + 1], acts[..n], frames[..n + 1], b);
      SystemRunKeeps(states, acts);
      assert Spares(states[n], acts[n], b);
      ShownStep(states[n], frames[n], acts[n], states[n + 1], frames[n + 1], b);
    }
  }

  /** ... and the bytes of a block that no client writes either stay in memory as they were, whatever they are. */
  lemma {:induction false} BytesStayInMemory(states: seq<System>, acts: seq<Act>, frames: seq<seq<seq<nat>>>, b: Block)
    requires FrameRun(states, acts, frames) && SystemOk(states[0]) && Holds(states[0].heap, b)
    requires forall i | 0 <= i < |acts| && acts[i].Act? :: !Touches(states[i].heap, acts[i].event, b.addr)
    requires Fits(states[0], frames[0])
    ensures Holds(states[|acts|].heap, b) && Fits(states[|acts|], frames[|acts|])
    ensures forall c: nat | UserByte(b, c) ::
              ByteAt(states[|acts|], frames[|acts|], c) == ByteAt(states[0], frames[0], c)
  {
    hide SystemOk, SystemStep, Roomy, FrameStep, Holds, Touches, UserByte, Fits;
    if acts != [] {
      var n := |acts| - 1;
      assert states[..n + 1][0] == states[0] && states[..n + 1][n] == states[n];
      assert frames[..n + 1][0] == frames[0] && frames[..n + 1][n] == frames[n];
      BytesStayInMemory(states[..n + 1], acts[..n], frames[..n + 1], b);
      SystemRunKeeps(states, acts);
      ShownStep(states[n], frames[n], acts[n], states[n + 1], frames[n + 1], b);
      FrameFits(states[n], frames[n], acts[n], states[n + 1], frames[n + 1]);
    }
  }

  /** Before `liballoc_init` no block is live. */
  lemma MemoryStart(x: System, fs: seq<seq<nat>>)
    requires Fits(x, fs) && x.heap.regions == []
    ensures InfoShown(x, fs)
  {
  }

  /** In every reachable state the information byte of every live block is right in physical memory, so that
      `UNALIGN` as the processor performs it leads to the header. */
  lemma {:induction false} InfoOverRuns(states: seq<System>, acts: seq<Act>, frames: seq<seq<seq<nat>>>)
    requires FrameRun(states, acts, frames) && SystemOk(states[0]) && InfoShown(states[0], frames[0])
    ensures forall i | 0 <= i < |states| :: InfoShown(states[i], frames[i])
  {
    hide SystemOk, SystemStep, Roomy, FrameStep, InfoShown;
    if acts != [] {
      var n := |acts| - 1;
      assert states[..n + 1][0] == states[0] && frames[..n + 1][0] == frames[0];
      InfoOverRuns(states[..n + 1], acts[..n], frames[..n + 1]);
      assert states[..n + 1][n] == states[n] && frames[..n + 1][n] == frames[n];
      SystemRunKeeps(states, acts);
      InfoStep(states[n], frames[n], acts[n], states[n + 1], frames[n + 1]);
      forall i | 0 <= i < |states|
        ensures InfoShown(states[i], frames[i])
      {
        if i <= n { assert states[..n + 1][i] == states[i] && frames[..n + 1][i] == frames[i]; }
      }
    }
  }
}
