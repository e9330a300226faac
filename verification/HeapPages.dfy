/** Where the heap's regions come from (`liballoc_alloc` and `liballoc_free` of kernel/liballoc.c): free
virtual pages of the kernel, each with a fresh frame behind it. */
module HeapPages {
  import opened Bits
  import opened Outcomes
  import opened Vmm
  import Pmm
  import H = HeapModel
  import L = Liballoc

  function Frame(entry: nat): nat {
    entry / PAGE_SIZE
  }

  predicate PageOf(r: H.Region, p: nat) {
    r.addr / PAGE_SIZE <= p < r.addr / PAGE_SIZE + r.pages
  }

  ghost predicate HeapPage(rs: seq<H.Region>, p: nat) {
    exists i | 0 <= i < |rs| :: PageOf(rs[i], p)
  }

  ghost predicate Mapped(g: seq<nat>, w: seq<uint32>, p: nat) {
    p < |g| && g[p] % 2 == 1 && Pmm.UsedAt(w, Frame(g[p]))
  }

  /** Every page of the heap is present, and no two share a frame. */
  ghost predicate Backed(g: seq<nat>, w: seq<uint32>, rs: seq<H.Region>) {
    && |g| == PAGES
    && (forall i | 0 <= i < |rs| :: rs[i].addr % PAGE_SIZE == 0)
    && (forall p: nat | HeapPage(rs, p) :: Mapped(g, w, p))
    && (forall p: nat, q: nat | HeapPage(rs, p) && HeapPage(rs, q) && p != q :: Frame(g[p]) != Frame(g[q]))
  }

  /** Page `p` was given a frame that was free before, writable and not for users. */
  ghost predicate Given(w0: seq<uint32>, g: seq<nat>, w: seq<uint32>, p: nat) {
    Mapped(g, w, p) && !Pmm.UsedAt(w0, Frame(g[p])) && g[p] == Frame(g[p]) * PAGE_SIZE + 3
  }

  /** The `m` pages from `s` on were given frames of their own, and no other page changed. */
  ghost predicate GotPages(g0: seq<nat>, w0: seq<uint32>, g: seq<nat>, w: seq<uint32>, s: nat, m: nat) {
    && |g0| == |g| == PAGES
    && (forall p: nat | p < PAGES && !InRun(p, s, m) :: g[p] == g0[p])
    && (forall p: nat | p < PAGES && InRun(p, s, m) :: Given(w0, g, w, p))
    && (forall p: nat, q: nat | p < q < PAGES && InRun(p, s, m) && InRun(q, s, m) :: Frame(g[p]) != Frame(g[q]))
    && UsedGrew(w0, w)
  }

  lemma NothingGot(g: seq<nat>, w: seq<uint32>, s: nat)
    requires |g| == PAGES && s <= PAGES
    ensures GotPages(g, w, g, w, s, 0)
  {
  }

  lemma GotOneMore(g0: seq<nat>, w0: seq<uint32>, g: seq<nat>, w: seq<uint32>, w': seq<uint32>, s: nat, m: nat,
                   b: nat, entry: nat)
    requires GotPages(g0, w0, g, w, s, m) && s < PAGES && m < PAGES
    requires Pmm.Fits(w, b, 1) && Pmm.Marked(w, w', b, 1, true)
    requires entry % 2 == 1 && Frame(entry) == b && entry == b * PAGE_SIZE + 3
    ensures GotPages(g0, w0, g[(s + m) % PAGES := entry], w', s, m + 1)
  {
    hide Pmm.UsedAt, Pmm.Fits, Pmm.Marked, InRun;
    var x := (s + m) % PAGES;
    var g' := g[x := entry];
    NextOfRun(s, m);
    FreshBlock(w, b, w');
    forall p: nat | p < PAGES && InRun(p, s, m + 1)
      ensures Given(w0, g', w', p)
    {
      if p != x { assert Given(w0, g, w, p); }
    }
    forall p: nat, q: nat | p < q < PAGES && InRun(p, s, m + 1) && InRun(q, s, m + 1)
      ensures Frame(g'[p]) != Frame(g'[q])
    {
      if p != x { assert Given(w0, g, w, p); }
      if q != x { assert Given(w0, g, w, q); }
    }
  }

  /** `liballoc_alloc`: the first run of unmapped pages, which may wrap, each mapped to a fresh frame; it
      stops without a run or a frame. */
  method LiballocAlloc(machine: Machine, pages: nat) returns (r: Outcome<nat>)
    requires machine.Ready(machine.kernel) && 0 < pages <= PAGES
    modifies machine.kernel, machine.kernel.tables, machine.kernel.physicalTables, machine.kernel.Tabs
    modifies machine.pmm.words
    ensures machine.Ready(machine.kernel)
    ensures r.Done? ==> PagesCome(old(machine.kernel.Flat()), old(machine.pmm.words[..]), machine.kernel.Flat(),
                                  machine.pmm.words[..], r.value, pages)
    ensures r.Stopped? ==>
              || (forall s: nat | 1 <= s < PAGES :: !RunFree(old(machine.kernel.Flat()), s, pages))
              || NoFrame(machine.pmm.words[..])
  {
    hide Machine.Ready, Machine.Valid, PageDirectory.Valid, PageDirectory.Present, PageDirectory.Flat,
      PageDirectory.Entry, FoundSpace, Grew, UsedGrew, RunFree, NoFrame, Pmm.AllocStep, Or, GotPages, SameOutside;
    ghost var g0, w0 := machine.kernel.Flat(), machine.pmm.words[..];
    var found := machine.FindVspace(machine.kernel, pages);
    if found.value == NONE {
      SpaceNone(g0, pages, machine.kernel.Flat());
      return Stopped;
    }
    var s := found.value / PAGE_SIZE;
    ghost var g1 := machine.kernel.Flat();
    SpaceSome(g0, pages, found.value, g1);
    FoundFit(g0, pages, found.value, g1);
    NothingGot(g1, w0, s);
    for i := 0 to pages
      invariant machine.Ready(machine.kernel) && unchanged(machine.kernel)
      invariant GotPages(g1, w0, machine.kernel.Flat(), machine.pmm.words[..], s, i)
    {
      ghost var g, w := machine.kernel.Flat(), machine.pmm.words[..];
      var block := machine.pmm.AllocBlocks(1);
      AllocNone(w, block, machine.pmm.words[..]);
      if block.Stopped? || block.value == 0 {
        return Stopped;
      }
      AllocOne(w, block.value, machine.pmm.words[..]);
      PresentEntry(block.value);
      machine.MapIn(machine.kernel, (s + i) % PAGES, block.value, PRESENT + READWRITE);
      GotOneMore(g1, w0, g, w, machine.pmm.words[..], s, i, block.value / PAGE_SIZE,
                 Or(block.value, PRESENT + READWRITE));
    }
    GotAll(g0, w0, g1, machine.kernel.Flat(), machine.pmm.words[..], s, pages);
    return Done(found.value);
  }

  /** The `n` pages from `v` on were the first run of unmapped ones, and have frames now. */
  ghost predicate PagesCome(g0: seq<nat>, w0: seq<uint32>, g: seq<nat>, w: seq<uint32>, v: nat, n: nat) {
    var s := v / PAGE_SIZE;
    && v % PAGE_SIZE == 0 && 1 <= s < PAGES
    && RunFree(g0, s, n) && (forall t: nat | 1 <= t < s :: !RunFree(g0, t, n))
    && GotPages(g0, w0, g, w, s, n)
  }

  lemma FoundFit(g: seq<nat>, n: nat, r: nat, g': seq<nat>)
    requires FoundSpace(g, n, r, g') && r != NONE
    ensures r % PAGE_SIZE == 0 && 1 <= r / PAGE_SIZE < PAGES
    ensures RunFree(g, r / PAGE_SIZE, n) && forall t: nat | 1 <= t < r / PAGE_SIZE :: !RunFree(g, t, n)
  {
    hide RunFree;
  }

  lemma PresentEntry(phys: nat)
    requires phys % PAGE_SIZE == 0
    ensures Or(phys, PRESENT + READWRITE) % 2 == 1 && Frame(Or(phys, PRESENT + READWRITE)) == phys / PAGE_SIZE
    ensures Or(phys, PRESENT + READWRITE) == phys / PAGE_SIZE * PAGE_SIZE + 3
  {
    hide Or;
    FlagsKeepFrame(phys, 3);
  }

  /** Once all pages are mapped nothing of the reservation is left. */
  lemma GotAll(g0: seq<nat>, w0: seq<uint32>, g1: seq<nat>, g: seq<nat>, w: seq<uint32>, s: nat, n: nat)
    requires SameOutside(g0, g1, s, n) && GotPages(g1, w0, g, w, s, n)
    ensures GotPages(g0, w0, g, w, s, n)
  {
    hide Pmm.UsedAt, Given, Frame, InRun;
  }

  // ----- a new region is apart from all others -----

  /** Some run of `n` unmapped pages from page 1 on does not wrap. */
  ghost predicate RoomToEnd(g: seq<nat>, n: nat) {
    exists s: nat | 1 <= s && s + n <= PAGES :: RunFree(g, s, n)
  }

  /** What `liballoc_alloc` hands out for a major is what the heap asks of it if and only if, before the
      call, there is a run that does not wrap; and then the heap with the new region is backed again. */
  lemma SupplyApart(rs: seq<H.Region>, g0: seq<nat>, w0: seq<uint32>, g: seq<nat>, w: seq<uint32>,
                    supply: nat, size: nat)
    requires H.RegionsOk(rs) && Backed(g0, w0, rs) && L.PagesFor(size) <= PAGES
    requires PagesCome(g0, w0, g, w, supply, L.PagesFor(size))
    ensures L.Supplied(rs, supply, size) <==> RoomToEnd(g0, L.PagesFor(size))
    ensures RoomToEnd(g0, L.PagesFor(size)) ==> Backed(g, w, rs + [L.FreshRegion(supply, size)])
  {
    hide Pmm.UsedAt, Frame, RunFree, GotPages, H.Apart, Mapped, HeapPage;
    var s, n, q := supply / PAGE_SIZE, L.PagesFor(size), L.FreshRegion(supply, size);
    assert RoomToEnd(g0, n) <==> s + n <= PAGES;
    if s + n <= PAGES {
      RunIsFree(g0, s, n);
      forall i | 0 <= i < |rs|
        ensures H.Apart(rs[i], q)
      {
        RegionsMiss(rs, g0, w0, i, s, n);
        ApartFromPages(rs[i], q);
      }
      BackedMore(rs, g0, w0, g, w, q);
    }
  }

  /** Page 0 and the last 15 pages are unmapped. */
  function WrapMap(): (g: seq<nat>)
    ensures |g| == PAGES && forall p | 0 <= p < PAGES :: g[p] == if p == 0 || PAGES - 15 <= p then 0 else PRESENT
  {
    seq(PAGES, p => if p == 0 || PAGES - 15 <= p then 0 else PRESENT)
  }

  /** There the first major, of 16 pages, wraps at the end of the address space, which is not what the heap
      asks for. */
  lemma FirstMajorWraps(w0: seq<uint32>, g: seq<nat>, w: seq<uint32>, v: nat)
    ensures var n := L.PagesFor(H.ALIGNMENT + H.ALIGN_INFO);
            && n == 16 && !RoomToEnd(WrapMap(), n) && FoundSpace(WrapMap(), n, (PAGES - 15) * PAGE_SIZE, WrapMap())
            && (PagesCome(WrapMap(), w0, g, w, v, n) ==>
                  v / PAGE_SIZE == PAGES - 15 && !L.Supplied([], v, H.ALIGNMENT + H.ALIGN_INFO))
  {
    hide GotPages, WrapMap;
    var f := WrapMap();
    forall t: nat | 1 <= t < PAGES - 15
      ensures !RunFree(f, t, 16)
    {
      assert !Unmapped(f, t);
    }
    forall q: nat | PAGES - 15 <= q < PAGES + 1
      ensures Unmapped(f, q)
    {
      Wrapped(PAGES - 15, q - (PAGES - 15));
    }
    assert RunFree(f, PAGES - 15, 16);
    WrapsBelow(PAGES - 15, 16);
    assert Reserve(f, PAGES - 15, 1) == f;
  }

  lemma RunIsFree(g: seq<nat>, s: nat, n: nat)
    requires |g| == PAGES && RunFree(g, s, n) && s + n <= PAGES
    ensures forall p | s <= p < s + n :: g[p] == 0
  {
    forall p: nat | s <= p < s + n
      ensures g[p] == 0
    {
      assert Unmapped(g, p);
    }
  }

  lemma ApartFromPages(r: H.Region, q: H.Region)
    requires r.addr % PAGE_SIZE == 0 && q.addr % PAGE_SIZE == 0
    requires q.pages == 0 || r.pages == 0 || r.addr / PAGE_SIZE + r.pages <= q.addr / PAGE_SIZE
             || q.addr / PAGE_SIZE + q.pages <= r.addr / PAGE_SIZE
    requires r.pages > 0 && q.pages > 0
    ensures H.Apart(r, q)
  {
  }

  lemma RegionsMiss(rs: seq<H.Region>, g: seq<nat>, w: seq<uint32>, i: nat, s: nat, n: nat)
    requires H.RegionsOk(rs) && Backed(g, w, rs) && i < |rs|
    requires s + n <= PAGES && forall p | s <= p < s + n :: g[p] == 0
    ensures n == 0 || rs[i].addr / PAGE_SIZE + rs[i].pages <= s || s + n <= rs[i].addr / PAGE_SIZE
    ensures rs[i].addr % PAGE_SIZE == 0 && rs[i].pages > 0
  {
    hide Mapped;
    assert H.RegionOk(rs[i]);
    var a := rs[i].addr / PAGE_SIZE;
    var p := if a < s then s else a;
    if PageOf(rs[i], p) { OnHeap(rs, g, w, i, p); }
  }

  lemma OnHeap(rs: seq<H.Region>, g: seq<nat>, w: seq<uint32>, i: nat, p: nat)
    requires Backed(g, w, rs) && i < |rs| && PageOf(rs[i], p)
    ensures p < |g| && g[p] % 2 == 1
  {
    assert HeapPage(rs, p);
    assert Mapped(g, w, p);
  }

  lemma BackedMore(rs: seq<H.Region>, g0: seq<nat>, w0: seq<uint32>, g: seq<nat>, w: seq<uint32>, q: H.Region)
    requires Backed(g0, w0, rs) && q.addr % PAGE_SIZE == 0 && q.addr / PAGE_SIZE + q.pages <= PAGES
    requires GotPages(g0, w0, g, w, q.addr / PAGE_SIZE, q.pages)
    requires forall p | q.addr / PAGE_SIZE <= p < q.addr / PAGE_SIZE + q.pages :: g0[p] == 0
    ensures Backed(g, w, rs + [q])
  {
    hide Pmm.UsedAt, Frame;
    var all := rs + [q];
    forall p: nat | HeapPage(all, p)
      ensures Mapped(g, w, p)
      ensures if PageOf(q, p) then Given(w0, g, w, p) else HeapPage(rs, p) && Mapped(g0, w0, p) && g[p] == g0[p]
    {
      PageCases(rs, q, p);
      if PageOf(q, p) { assert Given(w0, g, w, p); } else { assert Mapped(g0, w0, p); }
    }
    forall p: nat, r: nat | HeapPage(all, p) && HeapPage(all, r) && p != r
      ensures Frame(g[p]) != Frame(g[r])
    {
      assert Mapped(g, w, p) && Mapped(g, w, r);
    }
  }

  lemma PageCases(rs: seq<H.Region>, q: H.Region, p: nat)
    requires HeapPage(rs + [q], p)
    ensures PageOf(q, p) || HeapPage(rs, p)
  {
    var i :| 0 <= i < |rs + [q]| && PageOf((rs + [q])[i], p);
    if i < |rs| { assert PageOf(rs[i], p); }
  }

  /** Whatever else the kernel does: it leaves the heap's pages and their frames alone. */
  ghost predicate OthersOnly(rs: seq<H.Region>, g: seq<nat>, w: seq<uint32>, g': seq<nat>, w': seq<uint32>) {
    |g'| == |g| && forall p: nat | HeapPage(rs, p) && p < |g| :: g'[p] == g[p] && Pmm.UsedAt(w', Frame(g[p]))
  }

  lemma OthersKeep(rs: seq<H.Region>, g: seq<nat>, w: seq<uint32>, g': seq<nat>, w': seq<uint32>)
    requires Backed(g, w, rs) && OthersOnly(rs, g, w, g', w')
    ensures Backed(g', w', rs)
  {
    hide Pmm.UsedAt, Frame, PageOf, HeapPage;
    forall p: nat | HeapPage(rs, p)
      ensures Mapped(g', w', p) && g'[p] == g[p]
    {
      assert Mapped(g, w, p);
    }
  }

  /** So do mappings at unmapped pages and frames that are taken, as page tables, copies and forks have them. */
  lemma UnmappedAreOthers(rs: seq<H.Region>, g: seq<nat>, w: seq<uint32>, g': seq<nat>, w': seq<uint32>)
    requires Backed(g, w, rs) && UsedGrew(w, w')
    requires |g'| == |g| && forall p: nat | p < |g| && g[p] != 0 :: g'[p] == g[p]
    ensures OthersOnly(rs, g, w, g', w')
  {
    hide Pmm.UsedAt, Frame, PageOf, HeapPage;
    forall p: nat | HeapPage(rs, p) && p < |g|
      ensures g'[p] == g[p] && Pmm.UsedAt(w', Frame(g[p]))
    {
      assert Mapped(g, w, p);
    }
  }

  // ----- giving pages back -----

  /** The entries of the `n` pages from `s` on are 0, and of the frames exactly theirs are free. */
  ghost predicate GavePages(g0: seq<nat>, w0: seq<uint32>, g: seq<nat>, w: seq<uint32>, s: nat, n: nat) {
    && |g| == |g0| == PAGES && s + n <= PAGES && |w| == |w0|
    && (forall p: nat | p < PAGES :: g[p] == if s <= p < s + n then 0 else g0[p])
    && (forall b: nat :: Pmm.UsedAt(w, b) <==> Pmm.UsedAt(w0, b) && !FrameIn(g0, b, s, n))
  }

  ghost predicate FrameIn(g: seq<nat>, b: nat, s: nat, n: nat)
    requires s + n <= |g|
  {
    exists p | s <= p < s + n :: g[p] != RESERVED && Frame(g[p]) == b
  }

  lemma NothingGiven(g: seq<nat>, w: seq<uint32>, s: nat)
    requires |g| == PAGES && s <= PAGES
    ensures GavePages(g, w, g, w, s, 0)
  {
  }

  /** A page with a frame, or one that is only reserved. */
  ghost predicate Releasable(g: seq<nat>, w: seq<uint32>, p: nat) {
    Mapped(g, w, p) || (p < |g| && g[p] == RESERVED)
  }

  /** `liballoc_free`: the pages are unmapped, and the frames of those that have one are given back. */
  method LiballocFree(machine: Machine, v: nat, pages: nat)
    requires machine.Ready(machine.kernel) && v != 0 && v % PAGE_SIZE == 0 && v / PAGE_SIZE + pages <= PAGES
    requires forall p: nat | v / PAGE_SIZE <= p < v / PAGE_SIZE + pages ::
               Releasable(machine.kernel.Flat(), machine.pmm.words[..], p)
    modifies machine.kernel.Tabs, machine.pmm.words
    ensures machine.Ready(machine.kernel)
    ensures GavePages(old(machine.kernel.Flat()), old(machine.pmm.words[..]), machine.kernel.Flat(),
                      machine.pmm.words[..], v / PAGE_SIZE, pages)
  {
    hide Machine.Ready, Machine.Valid, PageDirectory.Valid, PageDirectory.Present, PageDirectory.Flat,
      PageDirectory.Entry, Or, GavePages, Pmm.FreeStep;
    ghost var g0, w0 := machine.kernel.Flat(), machine.pmm.words[..];
    var s := v / PAGE_SIZE;
    NothingGiven(g0, w0, s);
    for i := 0 to pages
      invariant machine.Ready(machine.kernel)
      invariant GavePages(g0, w0, machine.kernel.Flat(), machine.pmm.words[..], s, i)
    {
      ghost var g, w := machine.kernel.Flat(), machine.pmm.words[..];
      var page := machine.kernel.Lookup(s + i);
      StillMapped(g0, w0, g, w, s, i);
      WithZero(0);
      if page == RESERVED {
        machine.MapIn(machine.kernel, s + i, 0, 0);
        GaveReserved(g0, w0, g, w, s, i);
      } else {
        var block := page - page % PAGE_SIZE;
        machine.MapIn(machine.kernel, s + i, 0, 0);
        machine.pmm.FreeBlocks(block, 1);
        GaveOneMore(g0, w0, g, w, machine.pmm.words[..], s, i, block);
      }
    }
  }

  lemma StillMapped(g0: seq<nat>, w0: seq<uint32>, g: seq<nat>, w: seq<uint32>, s: nat, i: nat)
    requires GavePages(g0, w0, g, w, s, i) && s + i < PAGES && Releasable(g0, w0, s + i)
    ensures g[s + i] == g0[s + i] && (g0[s + i] != RESERVED ==> Frame(g0[s + i]) < 32 * |w|)
  {
    if g0[s + i] != RESERVED { UsedInside(w0, Frame(g0[s + i])); }
  }

  lemma GaveReserved(g0: seq<nat>, w0: seq<uint32>, g: seq<nat>, w: seq<uint32>, s: nat, i: nat)
    requires GavePages(g0, w0, g, w, s, i) && s + i < PAGES && g0[s + i] == RESERVED
    ensures GavePages(g0, w0, g[s + i := 0], w, s, i + 1)
  {
    hide Frame, Pmm.UsedAt;
    forall b: nat
      ensures FrameIn(g0, b, s, i + 1) <==> FrameIn(g0, b, s, i)
    {
      MoreFrames(g0, b, s, i);
    }
  }

  lemma MoreFrames(g: seq<nat>, b: nat, s: nat, i: nat)
    requires s + i < |g|
    ensures FrameIn(g, b, s, i + 1) <==> FrameIn(g, b, s, i) || (g[s + i] != RESERVED && Frame(g[s + i]) == b)
  {
    var last := s + i;
    assert g[last] != RESERVED && Frame(g[last]) == b ==> FrameIn(g, b, s, i + 1);
    if FrameIn(g, b, s, i) {
      var p :| s <= p < s + i && g[p] != RESERVED && Frame(g[p]) == b;
      assert s <= p < s + (i + 1);
    }
    if FrameIn(g, b, s, i + 1) {
      var p :| s <= p < s + (i + 1) && g[p] != RESERVED && Frame(g[p]) == b;
      assert p == last || s <= p < s + i;
    }
  }

  lemma UsedInside(w: seq<uint32>, b: nat)
    requires Pmm.UsedAt(w, b)
    ensures b < 32 * |w|
  {
  }

  lemma GaveOneMore(g0: seq<nat>, w0: seq<uint32>, g: seq<nat>, w: seq<uint32>, w': seq<uint32>, s: nat, i: nat,
                    block: nat)
    requires GavePages(g0, w0, g, w, s, i) && s + i < PAGES && g0[s + i] != RESERVED
    requires block / PAGE_SIZE == Frame(g0[s + i])
    requires Pmm.FreeStep(w, block, 1, w')
    ensures GavePages(g0, w0, g[s + i := 0], w', s, i + 1)
  {
    hide Frame, FrameIn, Pmm.FreeStep, Pmm.UsedAt;
    FreedOne(w, w', block, 0);
    forall b: nat
      ensures Pmm.UsedAt(w', b) <==> Pmm.UsedAt(w0, b) && !FrameIn(g0, b, s, i + 1)
    {
      MoreFrames(g0, b, s, i);
      FreedOne(w, w', block, b);
    }
  }

  lemma FreedOne(w: seq<uint32>, v: seq<uint32>, p: nat, b: nat)
    requires Pmm.FreeStep(w, p, 1, v)
    ensures |v| == |w| && (Pmm.UsedAt(v, b) <==> Pmm.UsedAt(w, b) && b != p / PAGE_SIZE)
  {
  }

  /** A region that is given back leaves the others backed. */
  lemma BackedLess(rs: seq<H.Region>, k: nat, g0: seq<nat>, w0: seq<uint32>, g: seq<nat>, w: seq<uint32>)
    requires H.RegionsOk(rs) && k < |rs| && Backed(g0, w0, rs)
    requires GavePages(g0, w0, g, w, rs[k].addr / PAGE_SIZE, rs[k].pages)
    ensures Backed(g, w, H.RemoveRegion(rs, k))
  {
    hide Pmm.UsedAt, Frame;
    var left := H.RemoveRegion(rs, k);
    forall p: nat | HeapPage(left, p)
      ensures HeapPage(rs, p) && !PageOf(rs[k], p) && Mapped(g, w, p) && g[p] == g0[p]
    {
      LeftPage(rs, k, p, g0, w0);
      assert Mapped(g0, w0, p);
      FrameStays(rs, k, p, g0, w0);
    }
    forall p: nat, q: nat | HeapPage(left, p) && HeapPage(left, q) && p != q
      ensures Frame(g[p]) != Frame(g[q])
    {
      assert HeapPage(rs, p) && HeapPage(rs, q);
    }
  }

  lemma FrameStays(rs: seq<H.Region>, k: nat, p: nat, g: seq<nat>, w: seq<uint32>)
    requires k < |rs| && Backed(g, w, rs) && HeapPage(rs, p) && !PageOf(rs[k], p)
    requires rs[k].addr / PAGE_SIZE + rs[k].pages <= |g|
    ensures !FrameIn(g, Frame(g[p]), rs[k].addr / PAGE_SIZE, rs[k].pages)
  {
    hide Pmm.UsedAt, Frame;
    assert Mapped(g, w, p);
    forall q: nat | PageOf(rs[k], q)
      ensures Frame(g[q]) != Frame(g[p])
    {
      assert HeapPage(rs, q);
    }
    assert forall q: nat | rs[k].addr / PAGE_SIZE <= q < rs[k].addr / PAGE_SIZE + rs[k].pages :: PageOf(rs[k], q);
  }

  lemma LeftPage(rs: seq<H.Region>, k: nat, p: nat, g: seq<nat>, w: seq<uint32>)
    requires H.RegionsOk(rs) && k < |rs| && Backed(g, w, rs) && HeapPage(H.RemoveRegion(rs, k), p)
    ensures HeapPage(rs, p) && !PageOf(rs[k], p)
  {
    hide H.RegionsOk, Backed, H.Apart, PageOf;
    var left := H.RemoveRegion(rs, k);
    var i :| 0 <= i < |left| && PageOf(left[i], p);
    var j := if i < k then i else i + 1;
    assert left[i] == rs[j] && PageOf(rs[j], p);
    AlignedRegions(rs, g, w);
    PairApart(rs, j, k);
    ApartPages(rs[j], rs[k], p, j < k);
  }

  lemma AlignedRegions(rs: seq<H.Region>, g: seq<nat>, w: seq<uint32>)
    requires Backed(g, w, rs)
    ensures forall i | 0 <= i < |rs| :: rs[i].addr % PAGE_SIZE == 0
  {
  }

  lemma PairApart(rs: seq<H.Region>, i: nat, j: nat)
    requires H.RegionsOk(rs) && i < |rs| && j < |rs| && i != j
    ensures if i < j then H.Apart(rs[i], rs[j]) else H.Apart(rs[j], rs[i])
  {
    hide H.RegionOk, H.Apart;
  }

  lemma ApartPages(r: H.Region, q: H.Region, p: nat, before: bool)
    requires r.addr % PAGE_SIZE == 0 && q.addr % PAGE_SIZE == 0 && PageOf(r, p)
    requires if before then H.Apart(r, q) else H.Apart(q, r)
    ensures !PageOf(q, p)
  {
  }
}
