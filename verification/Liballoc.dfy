/** The kernel heap (kernel/liballoc.c), with its header records in memory at their addresses and linked
by them.  Every method keeps the records in step with the ghost layout `regions` and states its effect
on that layout; module `HeapRuns` proves what follows for whole runs. */
module Liballoc {
  import opened Outcomes
  import opened HeapModel

  datatype HeapView = HeapView(regions: seq<Region>, best: nat, mem: seq<nat>)

  ghost predicate BestOk(best: nat, rs: seq<Region>) {
    best == 0 || exists i :: 0 <= i < |rs| && rs[i].addr == best
  }

  // ----- requests for pages -----

  /** The pages `allocate_new_page` asks for. */
  function PagesFor(size: nat): nat {
    var st := (size + 2 * HEADER + PAGE_SIZE - 1) / PAGE_SIZE;
    if st < PAGE_COUNT then PAGE_COUNT else st
  }

  /** It is the least number of pages, and at least 16, that hold the bytes and two headers. */
  lemma PagesForLeast(size: nat, n: nat)
    ensures PagesFor(size) >= 16 && size + 48 <= 4096 * PagesFor(size)
    ensures n >= 16 && size + 48 <= 4096 * n ==> PagesFor(size) <= n
  {
  }

  function FreshRegion(supply: nat, size: nat): (r: Region)
    ensures r.addr == supply && r.pages == PagesFor(size) && r.blocks == []
  {
    Region(supply, PagesFor(size), [])
  }

  /** What `liballoc_alloc` hands out: nothing (0), or pages away from every region in use. */
  ghost predicate Supplied(rs: seq<Region>, supply: nat, size: nat) {
    supply != 0 ==>
      && supply + Size(FreshRegion(supply, size)) <= SPACE
      && forall i | 0 <= i < |rs| :: Apart(rs[i], FreshRegion(supply, size))
  }

  // ----- what an allocation does -----

  /** `t` is `h` with a block for `req` bytes put into gap `j` of region `k`, and `p` points to it. */
  ghost predicate Placed(h: HeapView, k: nat, j: nat, req: nat, t: HeapView, p: nat) {
    && k < |h.regions| && GapFits(h.regions[k], j, req + ALIGNMENT + ALIGN_INFO + HEADER)
    && var b := NewBlock(h.regions[k], j, req);
       && t.regions == h.regions[k := InsertBlock(h.regions[k], j, b)]
       && p == UserPtr(b.addr) && ALIGN_INFO <= p <= |h.mem|
       && t.mem == h.mem[p - ALIGN_INFO := p - (b.addr + HEADER)]
  }

  // ----- the magic number -----

  ghost predicate LiveHead(rs: seq<Region>, a: nat) {
    exists k: nat, j: nat | LiveAt(rs, k, j) :: rs[k].blocks[j].addr == a
  }

  /** Only the headers of live blocks carry the magic number. */
  ghost predicate OnlyLive(minors: map<nat, Minor>, rs: seq<Region>) {
    forall a | a in minors && minors[a].magic == MAGIC :: LiveHead(rs, a)
  }

  /** Apart from the header at `x`, no header appeared and no magic number changed. */
  ghost predicate MagicKept(minors: map<nat, Minor>, v: map<nat, Minor>, x: nat) {
    forall a | a in v && a != x :: a in minors && v[a].magic == minors[a].magic
  }

  /** A 32-bit number in memory, lowest byte first. */
  function Word(mem: seq<nat>, a: nat): nat
    requires a + 4 <= |mem|
  {
    mem[a] + 0x100 * (mem[a + 1] + 0x100 * (mem[a + 2] + 0x100 * mem[a + 3]))
  }

  /** What a read of the `magic` of a header at `a` finds: that of the record written there, or else four
  bytes of some block. */
  function MagicAt(mem: seq<nat>, minors: map<nat, Minor>, a: nat): nat
    requires a + HEADER <= |mem|
  {
    if a in minors then minors[a].magic else Word(mem, a + 12)
  }

  lemma LiveReadable(rs: seq<Region>, minors: map<nat, Minor>, k: nat, j: nat)
    requires LiveAt(rs, k, j)
    ensures Readable(rs, minors, rs[k].blocks[j].addr)
  {
    assert LiveHead(rs, rs[k].blocks[j].addr);
  }

  lemma InsertOnlyLive(minors: map<nat, Minor>, v: map<nat, Minor>, rs: seq<Region>, k: nat, j: nat, b: Block)
    requires k < |rs| && j <= |rs[k].blocks| && OnlyLive(minors, rs) && MagicKept(minors, v, b.addr)
    ensures OnlyLive(v, rs[k := InsertBlock(rs[k], j, b)])
  {
    var ts := rs[k := InsertBlock(rs[k], j, b)];
    forall a | a in v && v[a].magic == MAGIC
      ensures LiveHead(ts, a)
    {
      if a == b.addr {
        assert LiveAt(ts, k, j);
      } else {
        assert LiveHead(rs, a);
        var m: nat, n: nat :| LiveAt(rs, m, n) && rs[m].blocks[n].addr == a;
        assert LiveAt(ts, m, MovedIndex(m, n, k, j));
      }
    }
  }

  lemma RemoveOnlyLive(minors: map<nat, Minor>, v: map<nat, Minor>, rs: seq<Region>, k: nat, j: nat)
    requires LiveAt(rs, k, j) && OnlyLive(minors, rs) && MagicKept(minors, v, rs[k].blocks[j].addr)
    requires var x := rs[k].blocks[j].addr; x in v ==> v[x].magic != MAGIC
    ensures OnlyLive(v, rs[k := RemoveBlock(rs[k], j)])
  {
    var ts := rs[k := RemoveBlock(rs[k], j)];
    forall a | a in v && v[a].magic == MAGIC
      ensures LiveHead(ts, a)
    {
      assert LiveHead(rs, a);
      var m: nat, n: nat :| LiveAt(rs, m, n) && rs[m].blocks[n].addr == a;
      assert LiveAt(ts, m, if m == k && n > j then n - 1 else n);
    }
  }

  /** Regions come and go without blocks. */
  lemma AppendOnlyLive(minors: map<nat, Minor>, rs: seq<Region>, q: Region)
    requires OnlyLive(minors, rs)
    ensures OnlyLive(minors, rs + [q])
  {
    forall a | a in minors && minors[a].magic == MAGIC
      ensures LiveHead(rs + [q], a)
    {
      assert LiveHead(rs, a);
      var m: nat, n: nat :| LiveAt(rs, m, n) && rs[m].blocks[n].addr == a;
      assert LiveAt(rs + [q], m, n);
    }
  }

  lemma DropOnlyLive(minors: map<nat, Minor>, rs: seq<Region>, k: nat)
    requires OnlyLive(minors, rs) && k < |rs| && rs[k].blocks == []
    ensures OnlyLive(minors, RemoveRegion(rs, k))
  {
    var ts := RemoveRegion(rs, k);
    forall a | a in minors && minors[a].magic == MAGIC
      ensures LiveHead(ts, a)
    {
      assert LiveHead(rs, a);
      var m: nat, n: nat :| LiveAt(rs, m, n) && rs[m].blocks[n].addr == a;
      assert LiveAt(ts, if m > k then m - 1 else m, n);
    }
  }

  lemma ShrinkOnlyLive(minors: map<nat, Minor>, v: map<nat, Minor>, rs: seq<Region>, k: nat, j: nat, req: nat)
    requires LiveAt(rs, k, j) && OnlyLive(minors, rs)
    requires forall a | a in v :: a in minors && v[a].magic == minors[a].magic
    ensures OnlyLive(v, rs[k := SetReq(rs[k], j, req)])
  {
    var ts := rs[k := SetReq(rs[k], j, req)];
    forall a | a in v && v[a].magic == MAGIC
      ensures LiveHead(ts, a)
    {
      assert LiveHead(rs, a);
      var m: nat, n: nat :| LiveAt(rs, m, n) && rs[m].blocks[n].addr == a;
      assert LiveAt(ts, m, n);
    }
  }

  class Heap {
    var majors: map<nat, Major>
    var minors: map<nat, Minor>
    var mem: seq<nat>
    var memRoot: nat
    var bestBet: nat
    var inUseBytes: nat
    var allocatedBytes: nat
    var errorCount: nat
    var possibleOverruns: nat
    ghost var regions: seq<Region>

    /** The global variables agree with the layout. */
    ghost predicate Links()
      reads this
    {
      && memRoot == (if regions == [] then 0 else regions[0].addr)
      && BestOk(bestBet, regions)
      && inUseBytes == InUse(regions)
      && allocatedBytes == Allocated(regions)
    }

    ghost predicate Valid()
      reads this
    {
      && RegionsOk(regions)
      && Linked(majors, minors, regions)
      && Links()
      && |mem| == SPACE && MemOk(mem, regions)
      && OnlyLive(minors, regions)
    }

    ghost function View(): HeapView
      reads this
    {
      HeapView(regions, bestBet, mem)
    }

    /** The globals before `liballoc_init`: no region at all. */
    constructor ()
      ensures Valid() && regions == []
    {
      majors, minors, mem := map[], map[], seq(SPACE, _ => 0);
      memRoot, bestBet, inUseBytes, allocatedBytes := 0, 0, 0, 0;
      errorCount, possibleOverruns := 0, 0;
      regions := [];
    }

    /** `liballoc_init`: the first region; stops when called twice or without pages. */
    method LiballocInit(supply: nat) returns (ok: bool)
      requires Valid() && Supplied(regions, supply, ALIGNMENT + ALIGN_INFO)
      modifies this
      ensures ok <==> old(regions) == [] && supply != 0
      ensures ok ==> Valid() && regions == [FreshRegion(supply, ALIGNMENT + ALIGN_INFO)]
    {
      hide RegionsOk, RegionOk, InUse, Allocated, MemOk, OnlyLive, BestOk, Linked, Size, Supplied, Apart, PagesFor;
      RootFacts();
      if memRoot != 0 {
        return false;
      }
      var r := AllocateNewPage(ALIGNMENT + ALIGN_INFO, supply);
      if r.Stopped? {
        return false;
      }
      ghost var q := FreshRegion(supply, ALIGNMENT + ALIGN_INFO);
      memRoot := r.value;
      FreshRegionOk(regions, supply, ALIGNMENT + ALIGN_INFO);
      FirstLinks(majors, minors, q);
      SumsAppend(regions, q);
      EmptySum(q);
      BestAppend(bestBet, regions, q);
      MemAppend(mem, regions, q);
      AppendOnlyLive(minors, regions, q);
      assert regions + [q] == [q];
      regions := [q];
      return true;
    }

    /** `ALIGN`: move the pointer past the information byte to the next multiple of 16 and record by how
        much. */
    method Align(ptr: nat) returns (p: nat)
      requires HEADER <= ptr && |mem| == SPACE && ptr + ALIGNMENT + ALIGN_INFO <= SPACE
      modifies this`mem
      ensures p == UserPtr(ptr - HEADER) <= SPACE && ALIGN_INFO <= p
      ensures mem == old(mem)[p - ALIGN_INFO := p - ptr]
    {
      p := ptr + ALIGN_INFO;
      var diff := p % ALIGNMENT;
      if diff != 0 {
        diff := ALIGNMENT - diff;
        p := p + diff;
      }
      mem := mem[p - ALIGN_INFO := diff + ALIGN_INFO];
    }

    /** The tail of every case: count the bytes, align the pointer and return it. */
    method Commit(block: nat, size: nat, req: nat, ghost k: nat, ghost j: nat, ghost b: Block,
                  ghost majors0: map<nat, Major>, ghost minors0: map<nat, Minor>) returns (p: nat)
      requires k < |regions| && GapFits(regions[k], j, size + HEADER) && b == NewBlock(regions[k], j, req)
      requires block == b.addr && size == b.size
      requires RegionsOk(regions) && Linked(majors0, minors0, regions)
      requires HeadersInserted(majors0, minors0, majors, minors, regions, k, j, b)
      requires OnlyLive(minors0, regions) && MagicKept(minors0, minors, b.addr)
      requires Links() && |mem| == SPACE && MemOk(mem, regions)
      modifies this
      ensures Valid() && bestBet == old(bestBet) && p != 0 && Placed(old(View()), k, j, req, View(), p)
    {
      hide RegionOk, RegionsOk, InUse, Allocated, MemOk, OnlyLive, BestOk, UserPtr, Linked, HeadersInserted,
        InsertBlock, BlockOk;
      InsertSetup(regions, k, j, b);
      BestKept(bestBet, regions, k, InsertBlock(regions[k], j, b));
      Inserted(majors0, minors0, majors, minors, regions, k, j, b);
      InsertMemOk(mem, regions, k, j, b);
      InsertOnlyLive(minors0, minors, regions, k, j, b);
      RootKept(regions, k, InsertBlock(regions[k], j, b));
      inUseBytes := inUseBytes + size;
      p := Align(block + HEADER);
      regions := regions[k := InsertBlock(regions[k], j, b)];
    }

    /** Case 2: the region is empty. */
    method PlaceFirst(maj: nat, size: nat, req: nat, ghost k: nat) returns (p: nat)
      requires Valid() && k < |regions| && regions[k].addr == maj
      requires size == req + ALIGNMENT + ALIGN_INFO
      requires regions[k].blocks == [] && GapFits(regions[k], 0, size + HEADER)
      modifies this
      ensures Valid() && bestBet == old(bestBet) && p != 0 && Placed(old(View()), k, 0, req, View(), p)
    {
      hide RegionOk, RegionsOk, InUse, Allocated, MemOk, OnlyLive, BestOk, UserPtr, Usage, Linked, Placed, MinorsLinked,
        InsertBlock;
      ghost var b := NewBlock(regions[k], 0, req);
      InsertRecNew(regions[k], 0, b);
      LinkedMajor(majors, minors, regions, k);
      var first := maj + HEADER;
      majors := majors[maj := majors[maj].(first := first)];
      minors := minors[first := Minor(0, 0, maj, MAGIC, size, req)];
      majors := majors[maj := majors[maj].(usage := majors[maj].usage + (size + HEADER))];
      p := Commit(first, size, req, k, 0, b, old(majors), old(minors));
    }

    /** Case 3: enough space before the first block. */
    method PlaceFront(maj: nat, size: nat, req: nat, ghost k: nat) returns (p: nat)
      requires Valid() && k < |regions| && regions[k].addr == maj
      requires size == req + ALIGNMENT + ALIGN_INFO
      requires regions[k].blocks != [] && GapFits(regions[k], 0, size + HEADER)
      modifies this
      ensures Valid() && bestBet == old(bestBet) && p != 0 && Placed(old(View()), k, 0, req, View(), p)
    {
      hide RegionOk, RegionsOk, InUse, Allocated, MemOk, OnlyLive, BestOk, UserPtr, Usage, Linked, Placed, MinorsLinked,
        InsertBlock;
      ghost var b := NewBlock(regions[k], 0, req);
      InsertRecNew(regions[k], 0, b);
      LinkedMajor(majors, minors, regions, k);
      LinkedMinor(minors, regions[k], 0);
      NewBlockFresh(regions, k, 0, b);
      var second := majors[maj].first;
      var first := maj + HEADER;
      minors := minors[second := minors[second].(prev := first)];
      majors := majors[maj := majors[maj].(first := first)];
      minors := minors[first := Minor(0, second, maj, MAGIC, size, req)];
      majors := majors[maj := majors[maj].(usage := majors[maj].usage + (size + HEADER))];
      p := Commit(first, size, req, k, 0, b, old(majors), old(minors));
    }

    /** Case 4.1: enough space after the last block. */
    method PlaceTail(maj: nat, min: nat, size: nat, req: nat, ghost k: nat) returns (p: nat)
      requires Valid() && k < |regions| && regions[k].addr == maj
      requires size == req + ALIGNMENT + ALIGN_INFO
      requires var n := |regions[k].blocks|;
               n > 0 && regions[k].blocks[n - 1].addr == min && GapFits(regions[k], n, size + HEADER)
      modifies this
      ensures Valid() && bestBet == old(bestBet) && p != 0
      ensures Placed(old(View()), k, |old(regions[k].blocks)|, req, View(), p)
    {
      hide RegionOk, RegionsOk, InUse, Allocated, MemOk, OnlyLive, BestOk, UserPtr, Usage, Linked, Placed, MinorsLinked,
        InsertBlock;
      ghost var n := |regions[k].blocks|;
      ghost var b := NewBlock(regions[k], n, req);
      InsertRecNew(regions[k], n, b);
      LinkedMajor(majors, minors, regions, k);
      LinkedMinor(minors, regions[k], n - 1);
      NewBlockFresh(regions, k, n, b);
      var newMin := min + HEADER + minors[min].size;
      minors := minors[min := minors[min].(next := newMin)];
      minors := minors[newMin := Minor(min, 0, maj, MAGIC, size, req)];
      majors := majors[maj := majors[maj].(usage := majors[maj].usage + (size + HEADER))];
      p := Commit(newMin, size, req, k, n, b, old(majors), old(minors));
    }

    /** Case 4.2: enough space between block `j - 1` and its successor. */
    method PlaceBetween(maj: nat, min: nat, size: nat, req: nat, ghost k: nat, ghost j: nat) returns (p: nat)
      requires Valid() && k < |regions| && regions[k].addr == maj
      requires size == req + ALIGNMENT + ALIGN_INFO
      requires 0 < j < |regions[k].blocks| && regions[k].blocks[j - 1].addr == min
      requires GapFits(regions[k], j, size + HEADER)
      modifies this
      ensures Valid() && bestBet == old(bestBet) && p != 0 && Placed(old(View()), k, j, req, View(), p)
    {
      hide RegionOk, RegionsOk, InUse, Allocated, MemOk, OnlyLive, BestOk, UserPtr, Usage, Linked, Placed, MinorsLinked,
        InsertBlock, MinorsInserted, MagicKept;
      ghost var b := NewBlock(regions[k], j, req);
      LinkedMajor(majors, minors, regions, k);
      LinkedMinor(minors, regions[k], j - 1);
      LinkedMinor(minors, regions[k], j);
      NewBlockFresh(regions, k, j, b);
      var newMin := min + HEADER + minors[min].size;
      var next := minors[min].next;
      minors := minors[newMin := Minor(min, next, maj, MAGIC, size, req)];
      minors := minors[next := minors[next].(prev := newMin)];
      minors := minors[min := minors[min].(next := newMin)];
      BetweenWrites(old(minors), minors, regions[k], j, b);
      majors := majors[maj := majors[maj].(usage := majors[maj].usage + (size + HEADER))];
      p := Commit(newMin, size, req, k, j, b, old(majors), old(minors));
    }

    /** Cases 2 to 4 for one region: the first gap, in address order, that is large enough; 0 if none. */
    method PlaceIn(maj: nat, size: nat, req: nat, ghost k: nat) returns (p: nat, ghost j: nat)
      requires Valid() && k < |regions| && regions[k].addr == maj
      requires size == req + ALIGNMENT + ALIGN_INFO
      requires regions[k].blocks == [] ==> GapFits(regions[k], 0, size + HEADER)
      modifies this
      ensures Valid() && bestBet == old(bestBet)
      ensures p == 0 ==> unchanged(this) && !HasGap(regions[k], size + HEADER)
      ensures p != 0 ==> Placed(old(View()), k, j, req, View(), p) && FirstGap(old(regions[k]), j, size + HEADER)
    {
      hide RegionOk, RegionsOk, InUse, Allocated, MemOk, OnlyLive, BestOk, UserPtr, Usage, Linked, Placed,
        MinorsLinked, Size;
      LinkedMajor(majors, minors, regions, k);
      ghost var r := regions[k];
      ghost var n := |r.blocks|;
      ghost var need := size + HEADER;
      AddrsPositive(regions, k);
      j := 0;
      if majors[maj].first == 0 {
        p := PlaceFirst(maj, size, req, k);
        return;
      }
      GapBounds(regions, k, 0);
      var diff := majors[maj].first - maj - HEADER;
      if diff >= size + HEADER {
        p := PlaceFront(maj, size, req, k);
        return;
      }
      var min := majors[maj].first;
      while min != 0
        invariant unchanged(this)
        invariant j <= n && min == if j < n then r.blocks[j].addr else 0
        invariant forall t: nat | t <= j :: !GapFits(r, t, need)
        decreases n - j
      {
        LinkedMinor(minors, r, j);
        GapBounds(regions, k, j + 1);
        if minors[min].next == 0 {
          diff := maj + majors[maj].size - min - HEADER - minors[min].size;
          if diff >= size + HEADER {
            p := PlaceTail(maj, min, size, req, k);
            j := j + 1;
            return;
          }
        }
        if minors[min].next != 0 {
          diff := minors[min].next - min - HEADER - minors[min].size;
          if diff >= size + HEADER {
            p := PlaceBetween(maj, min, size, req, k, j + 1);
            j := j + 1;
            return;
          }
        }
        min := minors[min].next;
        j := j + 1;
      }
      p := 0;
    }

    /** A fresh major for at least `size` bytes and the two headers; stops when there are no pages. */
    method AllocateNewPage(size: nat, supply: nat) returns (r: Outcome<nat>)
      modifies this`majors, this`allocatedBytes
      ensures r == if supply == 0 then Stopped else Done(supply)
      ensures r.Done? ==>
              && majors ==
                 old(majors)[supply := Major(0, 0, PagesFor(size), Size(FreshRegion(supply, size)), HEADER, 0)]
              && allocatedBytes == old(allocatedBytes) + Size(FreshRegion(supply, size))
    {
      var st := size + HEADER + HEADER;
      if st % PAGE_SIZE == 0 {
        st := st / PAGE_SIZE;
      } else {
        st := st / PAGE_SIZE + 1;
      }
      if st < PAGE_COUNT {
        st := PAGE_COUNT;
      }
      if supply == 0 {
        return Stopped;
      }
      majors := majors[supply := Major(0, 0, st, st * PAGE_SIZE, HEADER, 0)];
      allocatedBytes := allocatedBytes + st * PAGE_SIZE;
      return Done(supply);
    }

    /** `maj->next = allocate_new_page(size); maj->next->prev = maj` behind the last region. */
    method Grow(maj: nat, size: nat, supply: nat) returns (ok: bool)
      requires Valid() && regions != [] && regions[|regions| - 1].addr == maj
      requires Supplied(regions, supply, size)
      modifies this
      ensures ok <==> supply != 0
      ensures ok ==> Valid() && mem == old(mem) && bestBet == old(bestBet)
      ensures ok ==> regions == old(regions) + [FreshRegion(supply, size)]
    {
      hide RegionOk, RegionsOk, InUse, Allocated, MemOk, OnlyLive, BestOk, UserPtr, Linked, Apart, PagesFor, Size,
        Supplied, FreshRegion, MajorsAppended;
      ghost var q := FreshRegion(supply, size);
      LinkedMajor(majors, minors, regions, |regions| - 1);
      var r := AllocateNewPage(size, supply);
      if r.Stopped? {
        return false;
      }
      var next := r.value;
      FreshRegionOk(regions, supply, size);
      AppendKeepsLinks(old(majors), minors, regions, q);
      RegionAddrsDiffer(regions + [q], |regions| - 1, |regions|);
      majors := majors[maj := majors[maj].(next := next)];
      majors := majors[next := majors[next].(prev := maj)];
      LinkedMajor(old(majors), minors, regions, |regions| - 1);
      AppendWrites(old(majors), majors, regions, q);
      SumsAppend(regions, q);
      BestAppend(bestBet, regions, q);
      MemAppend(mem, regions, q);
      AppendOnlyLive(minors, regions, q);
      regions := regions + [q];
      return true;
    }

    /** The links and counters of region `k`, read off the layout. */
    lemma RegionFacts(k: nat)
      requires Valid() && k < |regions|
      ensures memRoot == regions[0].addr > 0 && RegionsOk(regions)
      ensures regions[k].addr in majors
      ensures majors[regions[k].addr].next == if k + 1 == |regions| then 0 else regions[k + 1].addr
      ensures k + 1 < |regions| ==> regions[k + 1].addr > 0
      ensures majors[regions[k].addr].first == 0 <==> regions[k].blocks == []
      ensures majors[regions[k].addr].size == Size(regions[k])
      ensures majors[regions[k].addr].usage == Usage(regions[k]) <= Size(regions[k])
    {
      hide RegionsOk, Linked, InUse, Allocated, MemOk, OnlyLive;
      NextMajor(majors, minors, regions, k);
      UsageFits(regions, k);
      AddrsPositive(regions, 0);
      AddrsPositive(regions, k);
    }

    lemma RootFacts()
      requires Valid()
      ensures memRoot == 0 <==> regions == []
      ensures BestOk(bestBet, regions)
    {
      hide RegionsOk, Linked, InUse, Allocated, MemOk, OnlyLive, BestOk;
      if regions != [] { AddrsPositive(regions, 0); }
    }

    /** Choose where the search starts. */
    method StartSearch(size: nat) returns (maj: nat, startedBet: bool, bestSize: int, ghost s: nat)
      requires Valid() && regions != []
      ensures SearchStart(View(), size + HEADER, s) && maj == regions[s].addr && (!startedBet ==> s == 0)
    {
      hide Valid, Size, Usage, BestUsed;
      RootFacts();
      RegionFacts(0);
      maj, startedBet, bestSize, s := memRoot, false, 0, 0;
      NoBest(View(), size + HEADER);
      if bestBet != 0 {
        ghost var i: nat :| i < |regions| && regions[i].addr == bestBet;
        RegionFacts(i);
        StartFound(View(), size + HEADER, i);
        bestSize := majors[bestBet].size - majors[bestBet].usage;
        if bestSize > size + HEADER {
          maj, startedBet, s := bestBet, true, i;
        }
      }
    }

    /** `if (bestSize < diff)`: remember the region with the most free bytes so far. */
    method NoteBest(maj: nat, diff: int, bestSize: int, ghost k: nat) returns (best: int)
      requires Valid() && k < |regions| && regions[k].addr == maj
      modifies this`bestBet
      ensures Valid()
      ensures bestBet == (if bestSize < diff then maj else old(bestBet))
      ensures best == if bestSize < diff then diff else bestSize
    {
      hide RegionsOk, Linked, InUse, Allocated, MemOk, OnlyLive, BestOk;
      best := bestSize;
      if bestSize < diff {
        BestIs(maj, regions, k);
        bestBet := maj;
        best := diff;
      }
    }

    /** Visit the regions from the best bet, or the first one, to the last; if the search started at the
        best bet start over once from the first; then ask for a new region and use that. */
    method Kmalloc(req: nat, supply: nat) returns (r: Outcome<nat>, ghost s: nat, ghost k: nat, ghost j: nat)
      requires Valid() && req <= MAX_REQUEST
      requires Supplied(regions, supply, req + ALIGNMENT + ALIGN_INFO)
      modifies this
      ensures r.Stopped? <==>
              old(regions) == [] || (supply == 0 && NoGap(old(regions), req + ALIGNMENT + ALIGN_INFO + HEADER))
      ensures r.Done? ==> Valid() && KmallocStep(old(View()), req, supply, View(), r.value, s, k, j)
    {
      hide Valid, Size, Usage, HasGap, Supplied, Visited, NoGap, FirstGap, BestUsed, GapFits, Placed, SearchStart,
        BestOk, FirstRegion, FreshRegion;
      var size := req + ALIGNMENT + ALIGN_INFO;
      ghost var need := size + HEADER;
      ghost var rs := regions;
      s, k, j := 0, 0, 0;
      RootFacts();
      if memRoot == 0 {
        return Stopped, s, k, j;
      }
      var maj, startedBet, bestSize;
      maj, startedBet, bestSize, s := StartSearch(size);
      k := s;
      ghost var wrapped, grown := false, false;
      SearchBegins(View(), need, s);
      while true
        invariant Valid() && k < |regions| && maj == regions[k].addr
        invariant mem == old(mem) && (wrapped ==> !startedBet) && (!startedBet && !wrapped ==> s == 0)
        invariant if grown then regions == rs + [FreshRegion(supply, size)] && k == |rs| else regions == rs
        invariant grown ==> NoGap(rs, need) && supply != 0
        invariant !grown ==> Visited(rs, s, wrapped, k, need) && (!wrapped ==> s <= k)
        decreases startedBet, !grown, |regions| - k
      {
        RegionFacts(k);
        UsageFits(regions, k);
        FreshFits(supply, size);
        if !grown { VisitedNext(rs, s, wrapped, k, need); }
        var diff := majors[maj].size - majors[maj].usage;
        bestSize := NoteBest(maj, diff, bestSize, k);
        // case 1: not enough space in this region
        if diff < size + HEADER {
          if majors[maj].next != 0 {
            maj := majors[maj].next;
            k := k + 1;
            continue;
          }
          if startedBet {
            maj, startedBet := memRoot, false;
            k, wrapped := 0, true;
            continue;
          }
          var ok := Grow(maj, size, supply);
          if !ok {
            return Stopped, s, k, j;
          }
          RegionFacts(k);
          maj := majors[maj].next;
          k, grown := k + 1, true;
        }
        EmptyFits(regions, k, need);
        ghost var best := bestBet;
        var p;
        p, j := PlaceIn(maj, size, req, k);
        if p != 0 {
          RootFacts();
          SearchEnds(old(View()), req, supply, View(), p, s, k, j, best, wrapped, grown);
          return Done(p), s, k, j;
        }
        RegionFacts(k);
        // case 5: this region is full
        if majors[maj].next == 0 {
          if startedBet {
            maj, startedBet := memRoot, false;
            k, wrapped := 0, true;
            continue;
          }
          var ok := Grow(maj, size, supply);
          if !ok {
            return Stopped, s, k, j;
          }
          grown := true;
        }
        RegionFacts(k);
        maj := majors[maj].next;
        k := k + 1;
      }
    }

    /** `liballoc_verify_magic`: false, with the error counted, where the original fails an assertion. */
    method VerifyMagic(min: nat) returns (ok: bool)
      requires min + HEADER <= |mem|
      modifies this`errorCount, this`possibleOverruns
      ensures ok <==> MagicAt(mem, minors, min) == MAGIC
      ensures errorCount == old(errorCount) + if ok then 0 else 1
      ensures possibleOverruns ==
              old(possibleOverruns) + if !ok && MaybeOverrun(MagicAt(mem, minors, min)) then 1 else 0
    {
      hide MaybeOverrun;
      var magic := MagicAt(mem, minors, min);
      if magic == MAGIC {
        return true;
      }
      errorCount := errorCount + 1;
      if MaybeOverrun(magic) {
        possibleOverruns := possibleOverruns + 1;
      }
      return false;
    }

    /** The header writes of `kfree`: the counter, the mark, and the links around the block. */
    method UnlinkHeaders(min: nat, ghost k: nat, ghost j: nat)
      requires RegionsOk(regions) && Linked(majors, minors, regions)
      requires LiveAt(regions, k, j) && regions[k].blocks[j].addr == min
      modifies this`majors, this`minors
      ensures MinorsRemoved(old(minors), minors, regions[k], j)
      ensures MagicKept(old(minors), minors, min) && min in minors && minors[min].magic == DEAD
      ensures regions[k].addr in old(majors)
      ensures old(majors[regions[k].addr].usage) >= regions[k].blocks[j].size + HEADER
      ensures majors == old(majors)[regions[k].addr := old(majors[regions[k].addr]).(
                          usage := old(majors[regions[k].addr].usage) - (regions[k].blocks[j].size + HEADER),
                          first := if j == 0 then MinorRec(regions[k], 0).next
                                   else old(majors[regions[k].addr].first))]
    {
      hide RegionOk, RegionsOk, InUse, Linked, MinorsLinked, RemoveBlock, Usage, MajorRec;
      RemoveSetup(majors, minors, regions, k, j);
      var maj := minors[min].block;
      majors := majors[maj := majors[maj].(usage := majors[maj].usage - (minors[min].size + HEADER))];
      minors := minors[min := minors[min].(magic := DEAD)];
      var next, prev := minors[min].next, minors[min].prev;
      if next != 0 {
        minors := minors[next := minors[next].(prev := prev)];
      }
      if prev != 0 {
        minors := minors[prev := minors[prev].(next := next)];
      }
      if prev == 0 {
        majors := majors[maj := majors[maj].(first := next)];
      }
    }

    /** `kfree` up to the block being unlinked from its region and its bytes cleared. */
    method UnlinkBlock(min: nat, ghost k: nat, ghost j: nat)
      requires Valid() && LiveAt(regions, k, j) && regions[k].blocks[j].addr == min
      modifies this
      ensures Valid() && bestBet == old(bestBet)
      ensures regions == old(regions)[k := RemoveBlock(old(regions)[k], j)]
      ensures Zeroed(old(mem), mem, min + HEADER, old(regions)[k].blocks[j].size)
    {
      hide RegionOk, RegionsOk, InUse, Allocated, MemOk, OnlyLive, BestOk, UserPtr, Usage, Linked, MinorsLinked,
        RemoveBlock, SumSizes, MinorsRemoved, MajorRec, MinorRec;
      ghost var r := regions[k];
      RemoveSetup(majors, minors, regions, k, j);
      var size := minors[min].size;
      assert size == r.blocks[j].size by { MinorFields(r, j); }
      inUseBytes := inUseBytes - size;
      mem := mem[..min + HEADER] + seq(size, _ => 0) + mem[min + HEADER + size..];
      UnlinkHeaders(min, k, j);
      Removed(old(majors), old(minors), majors, minors, regions, k, j);
      RemoveMemOk(old(mem), mem, regions, k, j);
      RemoveOnlyLive(old(minors), minors, regions, k, j);
      BestKept(bestBet, regions, k, RemoveBlock(r, j));
      RootKept(regions, k, RemoveBlock(r, j));
      regions := regions[k := RemoveBlock(r, j)];
    }

    /** `maj->prev->next = maj->next; maj->next->prev = maj->prev`, where they exist. */
    method UnlinkMajor(maj: nat, ghost k: nat)
      requires RegionsOk(regions) && Linked(majors, minors, regions)
      requires k < |regions| && regions[k].addr == maj
      modifies this`majors
      ensures MajorsUnlinked(old(majors), majors, regions, k)
      ensures maj in majors && majors[maj] == old(majors)[maj]
    {
      hide RegionsOk, Linked, MajorRec, RemoveRegion, Allocated, Size;
      LinkedMajor(majors, minors, regions, k);
      MajorFields(regions, k);
      DropSetup(majors, minors, regions, k);
      var next, prev := majors[maj].next, majors[maj].prev;
      if prev != 0 {
        majors := majors[prev := majors[prev].(next := next)];
      }
      if next != 0 {
        majors := majors[next := majors[next].(prev := prev)];
      }
    }

    /** The end of `kfree` for a region that became empty: unlink it and give its pages back. */
    method DropRegion(maj: nat, ghost k: nat)
      requires Valid() && k < |regions| && regions[k].addr == maj && regions[k].blocks == []
      modifies this
      ensures Valid() && mem == old(mem)
      ensures regions == RemoveRegion(old(regions), k)
    {
      hide RegionsOk, InUse, Allocated, MemOk, OnlyLive, BestOk, Linked, Size, RemoveRegion, MajorRec, MajorsUnlinked;
      LinkedMajor(majors, minors, regions, k);
      MajorFields(regions, k);
      DropSetup(majors, minors, regions, k);
      DropBest(bestBet, regions, k);
      if memRoot == maj {
        memRoot := majors[maj].next;
      }
      if bestBet == maj {
        bestBet := 0;
      }
      UnlinkMajor(maj, k);
      allocatedBytes := allocatedBytes - majors[maj].size;
      DropLinks(old(majors), majors, minors, regions, k);
      SumsRemove(regions, k);
      EmptySum(regions[k]);
      DropMemOk(mem, regions, k);
      DropOnlyLive(minors, regions, k);
      regions := RemoveRegion(regions, k);
    }

    /** The end of `kfree`: an emptied region goes, a region with more free bytes becomes the best bet. */
    method Settle(maj: nat, ghost k: nat)
      requires Valid() && k < |regions| && regions[k].addr == maj
      modifies this
      ensures Valid() && mem == old(mem)
      ensures regions == if old(regions)[k].blocks == [] then RemoveRegion(old(regions), k) else old(regions)
    {
      hide Valid, Usage, Size, RemoveRegion;
      RegionFacts(k);
      RootFacts();
      if majors[maj].first == 0 {
        DropRegion(maj, k);
      } else if bestBet != 0 {
        ghost var i: nat :| i < |regions| && regions[i].addr == bestBet;
        RegionFacts(i);
        var bestSize := Int32(majors[bestBet].size - majors[bestBet].usage);
        var majSize := Int32(majors[maj].size - majors[maj].usage);
        var best := NoteBest(maj, majSize, bestSize, k);
      }
    }

    method Kfree(p: nat, ghost k: nat, ghost j: nat) returns (r: Outcome<()>)
      requires Valid() && HeaderKnown(View(), minors, p, k, j)
      modifies this
      ensures r.Stopped? <==> p == 0 || MagicAt(old(mem), old(minors), HeaderOf(old(mem), p)) != MAGIC
      ensures r.Done? ==> Valid() && KfreeStep(old(View()), k, j, View())
    {
      hide Usage, Size, Zeroed, RemoveBlock, RemoveRegion, RegionsOk, Linked, MemOk, OnlyLive, InUse, Allocated, BestOk;
      if p == 0 {
        return Stopped;
      }
      // UNALIGN(ptr)
      var diff := mem[p - ALIGN_INFO];
      var ptr := if diff < ALIGNMENT + ALIGN_INFO then p - diff else p;
      var min := ptr - HEADER;
      var ok := VerifyMagic(min);
      if !ok {
        return Stopped;
      }
      RegionFacts(k);
      BlockFacts(k, j);
      var maj := minors[min].block;
      DropAfterRemove(regions, k, j);
      UnlinkBlock(min, k, j);
      Settle(maj, k);
      RootFacts();
      return Done(());
    }

    /** `min->req_size = size` for a smaller request. */
    method Shrink(min: nat, size: nat, ghost k: nat, ghost j: nat)
      requires Valid() && LiveAt(regions, k, j) && regions[k].blocks[j].addr == min
      requires size <= regions[k].blocks[j].req
      modifies this
      ensures Valid() && mem == old(mem) && bestBet == old(bestBet)
      ensures regions == old(regions)[k := SetReq(old(regions)[k], j, size)]
    {
      hide RegionOk, RegionsOk, InUse, Allocated, MemOk, OnlyLive, BestOk, Linked, Size, SetReq, MinorsLinked;
      ghost var q := SetReq(regions[k], j, size);
      LinkedMajor(majors, minors, regions, k);
      LinkedMinor(minors, regions[k], j);
      ShrinkLinks(majors, minors, regions, k, j, size);
      SetReqMemOk(mem, regions, k, j, size);
      BestKept(bestBet, regions, k, q);
      RootKept(regions, k, q);
      minors := minors[min := minors[min].(req := size)];
      ShrinkOnlyLive(old(minors), minors, regions, k, j, size);
      regions := regions[k := q];
    }

    /** `memcpy`: stops on a zero length. */
    method MemCopy(dst: nat, src: nat, len: nat, ghost k: nat, ghost j: nat) returns (ok: bool)
      requires Valid() && LiveAt(regions, k, j)
      requires dst == UserPtr(regions[k].blocks[j].addr) && len <= regions[k].blocks[j].req
      requires src + len <= SPACE && (src + len <= dst || dst + len <= src)
      modifies this`mem
      ensures ok <==> len != 0
      ensures ok ==> Valid() && Copied(old(mem), mem, dst, src, len)
    {
      hide RegionsOk, InUse, Allocated, MemOk, OnlyLive, BestOk, Linked, Size, UserPtr;
      if len == 0 {
        return false;
      }
      RegionFacts(k);
      LiveBlockOk(regions, k, j);
      UserPtrFacts(regions[k].blocks[j].addr);
      mem := mem[..dst] + mem[src..src + len] + mem[dst + len..];
      WriteMemOk(old(mem), mem, regions, k, j);
      return true;
    }

    method Krealloc(p: nat, size: nat, supply: nat, ghost k: nat, ghost j: nat)
      returns (r: Outcome<nat>, ghost g: Growth)
      requires Valid() && HeaderKnown(View(), minors, p, k, j) && size <= MAX_REQUEST
      requires Supplied(regions, supply, size + ALIGNMENT + ALIGN_INFO)
      modifies this
      ensures r.Done? ==> Valid()
      ensures p != 0 && MagicAt(old(mem), old(minors), HeaderOf(old(mem), p)) != MAGIC ==> r.Stopped?
      ensures size == 0 && r.Done? ==> r.value == 0 && KfreeStep(old(View()), k, j, View())
      ensures size == 0 ==> (r.Stopped? <==> p == 0 || MagicAt(old(mem), old(minors), HeaderOf(old(mem), p)) != MAGIC)
      ensures size != 0 && p == 0 ==>
                (r.Stopped? <==> old(regions) == [] ||
                                 (supply == 0 && NoGap(old(regions), size + ALIGNMENT + ALIGN_INFO + HEADER)))
      ensures size != 0 && p == 0 && r.Done? ==> KmallocStep(old(View()), size, supply, View(), r.value, g.s, g.k, g.j)
      ensures size != 0 && p != 0 && r.Done? ==>
              LiveAt(old(regions), k, j) &&
              if size <= old(regions)[k].blocks[j].req
              then r.value == p && ShrinkStep(old(View()), k, j, size, View())
              else GrowStep(old(View()), k, j, p, size, supply, View(), r.value, g)
      ensures size != 0 && p != 0 && MagicAt(old(mem), old(minors), HeaderOf(old(mem), p)) == MAGIC ==>
              r.Stopped? == (
                && old(regions)[k].blocks[j].req < size
                && (old(regions)[k].blocks[j].req == 0 ||
                    (supply == 0 && NoGap(old(regions), size + ALIGNMENT + ALIGN_INFO + HEADER))))
    {
      hide RegionsOk, InUse, Allocated, MemOk, OnlyLive, BestOk, Linked, Size, UserPtr, Usage, Readable, KmallocStep,
        KfreeStep, NoGap, Supplied, Copied, SetReq;
      g := Growth(View(), View(), 0, 0, 0);
      if size == 0 {
        var freed := Kfree(p, k, j);
        return if freed.Stopped? then Stopped else Done(0), g;
      }
      if p == 0 {
        ghost var s, k', j';
        r, s, k', j' := Kmalloc(size, supply);
        return r, Growth(View(), View(), s, k', j');
      }
      // UNALIGN(ptr)
      var diff := mem[p - ALIGN_INFO];
      var ptr := if diff < ALIGNMENT + ALIGN_INFO then p - diff else p;
      var min := ptr - HEADER;
      var ok := VerifyMagic(min);
      if !ok {
        return Stopped, g;
      }
      BlockFacts(k, j);
      var realSize := minors[min].req;
      if realSize >= size {
        Shrink(min, size, k, j);
        RootFacts();
        return Done(p), g;
      }
      ghost var h := View();
      ghost var s, k', j';
      r, s, k', j' := Kmalloc(size, supply);
      if r.Stopped? {
        return r, g;
      }
      ghost var m := MovedIndex(k, j, k', j');
      ghost var allocation := View();
      Invariants();
      GrowLocates(h, k, j, size, supply, allocation, r.value, s, k', j');
      var copied := MemCopy(r.value, p, realSize, k', j');
      if !copied {
        return Stopped, g;
      }
      g := Growth(allocation, View(), s, k', j');
      BlockFacts(k, m);
      LiveAlign(mem, regions, k, m);
      Invariants();
      UnalignRecovers(mem, regions[k].blocks[m]);
      LiveReadable(regions, minors, k, m);
      var freed := Kfree(p, k, m);
      return r, g;
    }

    lemma Invariants()
      requires Valid()
      ensures RegionsOk(regions) && MemOk(mem, regions) && BestOk(bestBet, regions) && |mem| == SPACE
    {
    }

    lemma BlockFacts(k: nat, j: nat)
      requires Valid() && LiveAt(regions, k, j)
      ensures var b := regions[k].blocks[j];
              && b.addr in minors && minors[b.addr].block == regions[k].addr
              && minors[b.addr].size == b.size && minors[b.addr].req == b.req && minors[b.addr].magic == MAGIC
    {
      hide RegionsOk, MemOk, OnlyLive, InUse, Allocated, BestOk, MajorRec;
      LinkedMinor(minors, regions[k], j);
    }
  }

  /** The conversion of an unsigned difference to `int`. */
  function Int32(x: nat): int {
    if x % SPACE < SPACE / 2 then x % SPACE else x % SPACE - SPACE
  }

  /** What `MagicAt` says about `a` is what is there: the header of a live block; one left behind where no
      live block has written since; or bytes that are not of a live header. */
  ghost predicate Readable(rs: seq<Region>, minors: map<nat, Minor>, a: nat) {
    || LiveHead(rs, a)
    || forall k: nat, j: nat | LiveAt(rs, k, j) ::
         var b := rs[k].blocks[j];
         if a in minors then End(b) <= a || a + HEADER <= b.addr else b.addr + HEADER <= a + 12 || a + 16 <= b.addr
  }

  /** What `kfree` and `krealloc` need of a pointer: that a header can be read where it leads, and if that
      header carries the magic number it is the one of the live block `j` of region `k`. */
  ghost predicate HeaderKnown(h: HeapView, minors: map<nat, Minor>, p: nat, k: nat, j: nat) {
    p != 0 ==>
      && ALIGN_INFO <= p <= |h.mem|
      && var a := HeaderOf(h.mem, p);
         && 0 <= a && a + HEADER <= |h.mem| && Readable(h.regions, minors, a)
         && (MagicAt(h.mem, minors, a) == MAGIC ==>
               a in minors && LiveAt(h.regions, k, j) && h.regions[k].blocks[j].addr == a && p == UserPtr(a))
  }

  /** Freeing takes the block out, and its region too when it was the last one, and clears its bytes. */
  ghost predicate KfreeStep(h: HeapView, k: nat, j: nat, t: HeapView) {
    && LiveAt(h.regions, k, j)
    && t.regions == (if |h.regions[k].blocks| == 1 then RemoveRegion(h.regions, k)
                     else h.regions[k := RemoveBlock(h.regions[k], j)])
    && Zeroed(h.mem, t.mem, h.regions[k].blocks[j].addr + HEADER, h.regions[k].blocks[j].size)
    && BestOk(t.best, t.regions)
  }

  /** A magic number that still has its low one, two or three bytes. */
  predicate MaybeOverrun(magic: nat) {
    || magic % 0x100_0000 == MAGIC % 0x100_0000
    || magic % 0x1_0000 == MAGIC % 0x1_0000
    || magic % 0x100 == MAGIC % 0x100
  }

  /** Of the three tests the one of the low byte decides. */
  lemma OverrunIsLowByte(magic: nat)
    ensures MaybeOverrun(magic) <==> magic % 0x100 == 0xDE
  {
    LowBytes(magic);
    LowBytes(MAGIC);
  }

  lemma LowBytes(x: nat)
    ensures x % 0x100_0000 % 0x100 == x % 0x100 && x % 0x1_0000 % 0x100 == x % 0x100
  {
    LowByte(0x1_0000 * (x / 0x100_0000), x % 0x100_0000);
    LowByte(0x100 * (x / 0x1_0000), x % 0x1_0000);
  }

  lemma LowByte(q: nat, r: nat)
    ensures (0x100 * q + r) % 0x100 == r % 0x100
  {
  }

  /** `v` is `mem` with `n` zero bytes from `a`. */
  ghost predicate Zeroed(mem: seq<nat>, v: seq<nat>, a: nat, n: nat) {
    && SameExcept(mem, v, a, a + n)
    && forall i | a <= i < a + n && i < |v| :: v[i] == 0
  }

  /** `v` is `mem` with `len` bytes from `src` copied to `dst`. */
  ghost predicate Copied(mem: seq<nat>, v: seq<nat>, dst: nat, src: nat, len: nat) {
    && SameExcept(mem, v, dst, dst + len)
    && src + len <= |mem|
    && forall a | dst <= a < dst + len && a < |v| :: v[a] == mem[a - dst + src]
  }

  /** The states inside a growing `krealloc`: after the allocation and after the copy, and where the
      allocation put the new block. */
  datatype Growth = Growth(allocation: HeapView, copy: HeapView, s: nat, k: nat, j: nat)

  ghost predicate ShrinkStep(h: HeapView, k: nat, j: nat, size: nat, t: HeapView) {
    && LiveAt(h.regions, k, j) && size <= h.regions[k].blocks[j].req
    && t == h.(regions := h.regions[k := SetReq(h.regions[k], j, size)])
  }

  /** Where block `j` of region `k` is after an insertion at `j2` of region `k2`. */
  function MovedIndex(k: nat, j: nat, k2: nat, j2: nat): nat {
    if k == k2 && j2 <= j then j + 1 else j
  }

  /** Growing is: allocate, copy the old bytes, free the old block. */
  ghost predicate GrowStep(h: HeapView, k: nat, j: nat, p: nat, size: nat, supply: nat, t: HeapView, q: nat,
                           g: Growth) {
    && LiveAt(h.regions, k, j)
    && KmallocStep(h, size, supply, g.allocation, q, g.s, g.k, g.j)
    && LiveAt(g.allocation.regions, g.k, g.j)
    && g.copy == g.allocation.(mem := g.copy.mem)
    && Copied(g.allocation.mem, g.copy.mem, q, p, h.regions[k].blocks[j].req)
    && KfreeStep(g.copy, k, MovedIndex(k, j, g.k, g.j), t)
  }

  /** Requests small enough for the 32-bit sums of the C code. */
  const MAX_REQUEST: nat := SPACE - 2 * PAGE_SIZE

  ghost predicate NoGap(rs: seq<Region>, need: nat) {
    forall i | 0 <= i < |rs| :: !HasGap(rs[i], need)
  }

  ghost predicate BestUsed(h: HeapView, need: nat) {
    h.best != 0 && exists i :: 0 <= i < |h.regions| && h.regions[i].addr == h.best &&
                               Size(h.regions[i]) - Usage(h.regions[i]) > need
  }

  /** The search starts at the best bet if that has more than enough free bytes, else at the root. */
  ghost predicate SearchStart(h: HeapView, need: nat, s: nat) {
    s < |h.regions| && if BestUsed(h, need) then h.regions[s].addr == h.best else s == 0
  }

  /** `k` is the first region with a gap in the order `s, s + 1, ..., 0, 1, ...`. */
  ghost predicate FirstRegion(rs: seq<Region>, s: nat, k: nat, need: nat) {
    k < |rs| && HasGap(rs[k], need) && Visited(rs, s, k < s, k, need)
  }

  /** No gap in the regions `s .. k`, or after wrapping round in `s ..` and `.. k`. */
  ghost predicate Visited(rs: seq<Region>, s: nat, wrapped: bool, k: nat, need: nat) {
    forall i | 0 <= i < |rs| && (if wrapped then i < k || s <= i else s <= i < k) :: !HasGap(rs[i], need)
  }

  /** An allocation takes the first gap found; only when no region has one does it add a region, and
      then it puts the block at its start. */
  ghost predicate KmallocStep(h: HeapView, req: nat, supply: nat, t: HeapView, p: nat, s: nat, k: nat, j: nat) {
    var size := req + ALIGNMENT + ALIGN_INFO;
    var need := size + HEADER;
    && BestOk(t.best, t.regions)
    && if NoGap(h.regions, need) then
         && supply != 0 && k == |h.regions| && j == 0
         && Placed(h.(regions := h.regions + [FreshRegion(supply, size)]), k, j, req, t, p)
       else
         && SearchStart(h, need, s) && FirstRegion(h.regions, s, k, need)
         && FirstGap(h.regions[k], j, need)
         && Placed(h, k, j, req, t, p)
  }

  lemma NextMajor(majors: map<nat, Major>, minors: map<nat, Minor>, rs: seq<Region>, k: nat)
    requires RegionsOk(rs) && Linked(majors, minors, rs) && k < |rs|
    ensures rs[k].addr in majors
    ensures majors[rs[k].addr].next == if k + 1 == |rs| then 0 else rs[k + 1].addr
    ensures k + 1 < |rs| ==> rs[k + 1].addr > 0
    ensures majors[rs[k].addr].size == Size(rs[k]) && majors[rs[k].addr].usage == Usage(rs[k])
    ensures majors[rs[k].addr].first == if rs[k].blocks == [] then 0 else rs[k].blocks[0].addr
  {
    if k + 1 < |rs| { AddrsPositive(rs, k + 1); }
  }

  lemma EmptyFits(rs: seq<Region>, k: nat, need: nat)
    requires k < |rs|
    ensures rs[k].blocks == [] && Size(rs[k]) - Usage(rs[k]) >= need ==> GapFits(rs[k], 0, need)
  {
  }

  lemma FreshFits(supply: nat, size: nat)
    ensures var r := FreshRegion(supply, size); GapFits(r, 0, size + HEADER) && HasGap(r, size + HEADER)
  {
    assert GapFits(FreshRegion(supply, size), 0, size + HEADER);
  }

  lemma FoundFirst(rs: seq<Region>, s: nat, wrapped: bool, k: nat, j: nat, need: nat)
    requires Visited(rs, s, wrapped, k, need) && k < |rs| && (!wrapped ==> s <= k)
    requires FirstGap(rs[k], j, need)
    ensures FirstRegion(rs, s, k, need) && !NoGap(rs, need)
  {
    hide GapFits;
    assert HasGap(rs[k], need) by { assert GapFits(rs[k], j, need); GapIndex(rs[k], j, need); }
  }

  lemma GapIndex(r: Region, j: nat, need: nat)
    requires GapFits(r, j, need)
    ensures j <= |r.blocks|
  {
  }

  lemma NoBest(h: HeapView, need: nat)
    ensures h.best == 0 ==> !BestUsed(h, need)
  {
  }

  lemma SearchBegins(h: HeapView, need: nat, s: nat)
    requires SearchStart(h, need, s)
    ensures s < |h.regions| && Visited(h.regions, s, false, s, need)
  {
  }

  lemma SearchEnds(h: HeapView, req: nat, supply: nat, t: HeapView, p: nat, s: nat, k: nat, j: nat,
                   best: nat, wrapped: bool, grown: bool)
    requires var size := req + ALIGNMENT + ALIGN_INFO;
             var need := size + HEADER;
             var rs := if grown then h.regions + [FreshRegion(supply, size)] else h.regions;
             && SearchStart(h, need, s) && BestOk(t.best, t.regions)
             && (grown ==> NoGap(h.regions, need) && supply != 0 && k == |h.regions|)
             && (!grown ==> k < |h.regions| && Visited(h.regions, s, wrapped, k, need) && (!wrapped ==> s <= k))
             && k < |rs| && FirstGap(rs[k], j, need)
             && Placed(HeapView(rs, best, h.mem), k, j, req, t, p)
    ensures KmallocStep(h, req, supply, t, p, s, k, j)
  {
    hide SearchStart, Visited, BestOk, UserPtr, GapFits, NoGap, FirstRegion;
    var size := req + ALIGNMENT + ALIGN_INFO;
    var need := size + HEADER;
    if grown {
      FreshFits(supply, size);
    } else {
      FoundFirst(h.regions, s, wrapped, k, j, need);
    }
  }

  lemma StartFound(h: HeapView, need: nat, i: nat)
    requires RegionsOk(h.regions) && i < |h.regions| && h.regions[i].addr == h.best != 0
    ensures BestUsed(h, need) <==> Size(h.regions[i]) - Usage(h.regions[i]) > need
  {
    if BestUsed(h, need) {
      var m :| 0 <= m < |h.regions| && h.regions[m].addr == h.best && Size(h.regions[m]) - Usage(h.regions[m]) > need;
      if m != i { RegionAddrsDiffer(h.regions, m, i); }
    }
  }

  lemma BestIs(best: nat, rs: seq<Region>, k: nat)
    requires k < |rs| && rs[k].addr == best
    ensures BestOk(best, rs)
  {
  }

  /** After region `k` failed too, the next one to visit is `k + 1`; behind the last one there are none. */
  lemma VisitedNext(rs: seq<Region>, s: nat, wrapped: bool, k: nat, need: nat)
    requires Visited(rs, s, wrapped, k, need) && k < |rs|
    ensures !HasGap(rs[k], need) ==> Visited(rs, s, wrapped, k + 1, need)
    ensures !HasGap(rs[k], need) && k + 1 == |rs| && (wrapped || s == 0) ==> NoGap(rs, need)
    ensures !HasGap(rs[k], need) && k + 1 == |rs| && !wrapped ==> Visited(rs, s, true, 0, need)
  {
  }

  lemma UsageFits(rs: seq<Region>, k: nat)
    requires RegionsOk(rs) && k < |rs|
    ensures Usage(rs[k]) <= Size(rs[k])
    ensures forall need: nat | Size(rs[k]) - Usage(rs[k]) < need :: !HasGap(rs[k], need)
  {
    assert RegionOk(rs[k]);
    UsageBound(rs[k]);
    forall need: nat | Size(rs[k]) - Usage(rs[k]) < need
      ensures !HasGap(rs[k], need)
    {
      TooFullHasNoGap(rs[k], need);
    }
  }

  predicate FirstGap(r: Region, j: nat, need: nat) {
    GapFits(r, j, need) && forall t: nat | t < j :: !GapFits(r, t, need)
  }

  lemma AddrsPositive(rs: seq<Region>, k: nat)
    requires RegionsOk(rs) && k < |rs|
    ensures rs[k].addr > 0
    ensures forall j | 0 <= j < |rs[k].blocks| :: rs[k].blocks[j].addr > 0
  {
    assert RegionOk(rs[k]);
    forall j | 0 <= j < |rs[k].blocks|
      ensures rs[k].blocks[j].addr > 0
    {
      assert BlockOk(rs[k], rs[k].blocks[j]);
    }
  }

  lemma GapBounds(rs: seq<Region>, k: nat, j: nat)
    requires RegionsOk(rs) && k < |rs| && j <= |rs[k].blocks|
    ensures rs[k].addr + HEADER <= GapStart(rs[k], j) <= GapEnd(rs[k], j)
  {
    assert RegionOk(rs[k]);
    GapNonNegative(rs[k], j);
    if j > 0 { assert BlockOk(rs[k], rs[k].blocks[j - 1]); }
  }

  lemma FreshRegionOk(rs: seq<Region>, supply: nat, size: nat)
    requires Supplied(rs, supply, size) && supply != 0
    ensures RegionOk(FreshRegion(supply, size))
    ensures forall i | 0 <= i < |rs| :: Apart(rs[i], FreshRegion(supply, size))
  {
  }

  lemma FirstLinks(majors: map<nat, Major>, minors: map<nat, Minor>, q: Region)
    requires RegionOk(q) && q.blocks == []
    requires q.addr in majors && majors[q.addr] == Major(0, 0, q.pages, Size(q), HEADER, 0)
    ensures RegionsOk([q]) && Linked(majors, minors, [q])
  {
    hide RegionOk;
  }

  lemma AppendWrites(majors: map<nat, Major>, majors': map<nat, Major>, rs: seq<Region>, q: Region)
    requires rs != [] && rs[|rs| - 1].addr in majors && rs[|rs| - 1].addr != q.addr
    requires var last := rs[|rs| - 1].addr;
             var m := majors[q.addr := Major(0, 0, q.pages, Size(q), HEADER, 0)];
             var m2 := m[last := m[last].(next := q.addr)];
             majors' == m2[q.addr := m2[q.addr].(prev := last)]
    ensures majors' == MajorsAppended(majors, rs, q)
  {
  }

  lemma BestAppend(best: nat, rs: seq<Region>, q: Region)
    requires BestOk(best, rs)
    ensures BestOk(best, rs + [q])
  {
    if best != 0 {
      var i :| 0 <= i < |rs| && rs[i].addr == best;
      assert (rs + [q])[i].addr == best;
    }
  }

  lemma MemAppend(mem: seq<nat>, rs: seq<Region>, q: Region)
    requires MemOk(mem, rs) && q.blocks == []
    ensures MemOk(mem, rs + [q])
  {
    hide AlignByteOk;
  }

  lemma BetweenWrites(minors: map<nat, Minor>, v: map<nat, Minor>, r: Region, j: nat, b: Block)
    requires 0 < j < |r.blocks| && MinorsLinked(minors, r)
    requires r.blocks[j - 1].addr < b.addr < r.blocks[j].addr
    requires r.blocks[j - 1].addr in minors && r.blocks[j].addr in minors
    requires var prev, next := r.blocks[j - 1].addr, r.blocks[j].addr;
             var w := minors[b.addr := Minor(prev, next, r.addr, MAGIC, b.size, b.req)];
             var w2 := w[next := w[next].(prev := b.addr)];
             v == w2[prev := w2[prev].(next := b.addr)]
    ensures MinorsInserted(minors, v, r, j, b) && MagicKept(minors, v, b.addr)
  {
    hide InsertBlock, MinorRec;
    InsertRecNew(r, j, b);
  }

  lemma LinkedMinor(minors: map<nat, Minor>, r: Region, j: nat)
    requires MinorsLinked(minors, r) && j < |r.blocks|
    ensures r.blocks[j].addr in minors && minors[r.blocks[j].addr] == MinorRec(r, j)
  {
  }

  /** A block placed in a gap has its header at an address of its own. */
  lemma NewBlockFresh(rs: seq<Region>, k: nat, j: nat, b: Block)
    requires RegionsOk(rs) && k < |rs| && GapFits(rs[k], j, b.size + HEADER)
    requires b.addr == GapStart(rs[k], j)
    ensures j > 0 ==> rs[k].blocks[j - 1].addr < b.addr
    ensures j < |rs[k].blocks| ==> b.addr < rs[k].blocks[j].addr
    ensures 0 < j < |rs[k].blocks| ==> rs[k].blocks[j - 1].addr < rs[k].blocks[j].addr
  {
    assert RegionOk(rs[k]);
  }

  /** The header writes of an insertion: the neighbours and the new block, and the region's counters. */
  ghost predicate HeadersInserted(majors: map<nat, Major>, minors: map<nat, Minor>,
                                  majors': map<nat, Major>, minors': map<nat, Minor>,
                                  rs: seq<Region>, k: nat, j: nat, b: Block)
    requires k < |rs| && j <= |rs[k].blocks|
  {
    && MinorsInserted(minors, minors', rs[k], j, b)
    && rs[k].addr in majors
    && majors' == majors[rs[k].addr := majors[rs[k].addr].(
                     usage := majors[rs[k].addr].usage + (b.size + HEADER),
                     first := if j == 0 then b.addr else majors[rs[k].addr].first)]
  }

  lemma RootKept(rs: seq<Region>, k: nat, q: Region)
    requires k < |rs| && q.addr == rs[k].addr
    ensures rs[k := q] != [] && rs[k := q][0].addr == rs[0].addr
  {
  }

  lemma BestKept(best: nat, rs: seq<Region>, k: nat, q: Region)
    requires BestOk(best, rs) && k < |rs| && q.addr == rs[k].addr
    ensures BestOk(best, rs[k := q])
  {
    if best != 0 {
      var i :| 0 <= i < |rs| && rs[i].addr == best;
      assert rs[k := q][i].addr == best;
    }
  }

  lemma LinkedMajor(majors: map<nat, Major>, minors: map<nat, Minor>, rs: seq<Region>, k: nat)
    requires Linked(majors, minors, rs) && k < |rs|
    ensures rs[k].addr in majors && majors[rs[k].addr] == MajorRec(rs, k)
    ensures MinorsLinked(minors, rs[k])
  {
  }

  lemma MajorFields(rs: seq<Region>, k: nat)
    requires k < |rs|
    ensures var m := MajorRec(rs, k);
            && m.prev == (if k == 0 then 0 else rs[k - 1].addr)
            && m.next == (if k + 1 == |rs| then 0 else rs[k + 1].addr)
            && m.size == Size(rs[k])
  {
  }

  lemma MinorFields(r: Region, j: nat)
    requires j < |r.blocks|
    ensures MinorRec(r, j).size == r.blocks[j].size && MinorRec(r, j).block == r.addr
  {
  }

  lemma DropSetup(majors: map<nat, Major>, minors: map<nat, Minor>, rs: seq<Region>, k: nat)
    requires RegionsOk(rs) && Linked(majors, minors, rs) && k < |rs|
    ensures k > 0 ==> rs[k - 1].addr in majors && rs[k - 1].addr > 0 && rs[k - 1].addr != rs[k].addr
    ensures k + 1 < |rs| ==> rs[k + 1].addr in majors && rs[k + 1].addr > 0 && rs[k + 1].addr != rs[k].addr
    ensures 0 < k && k + 1 < |rs| ==> rs[k - 1].addr != rs[k + 1].addr
    ensures rs[k].addr > 0 && (rs[0].addr == rs[k].addr ==> k == 0)
    ensures Allocated(rs) >= Size(rs[k])
    ensures |RemoveRegion(rs, k)| == |rs| - 1
    ensures |rs| > 1 ==> RemoveRegion(rs, k)[0] == if k == 0 then rs[1] else rs[0]
  {
    hide RegionsOk, Linked, Allocated, Size;
    AddrsPositive(rs, k);
    SumsRemove(rs, k);
    if k > 0 {
      LinkedMajor(majors, minors, rs, k - 1);
      AddrsPositive(rs, k - 1);
      RegionAddrsDiffer(rs, k - 1, k);
      RegionAddrsDiffer(rs, 0, k);
    }
    if k + 1 < |rs| {
      LinkedMajor(majors, minors, rs, k + 1);
      AddrsPositive(rs, k + 1);
      RegionAddrsDiffer(rs, k, k + 1);
    }
    if 0 < k && k + 1 < |rs| { RegionAddrsDiffer(rs, k - 1, k + 1); }
  }

  lemma DropLinks(majors: map<nat, Major>, v: map<nat, Major>, minors: map<nat, Minor>, rs: seq<Region>, k: nat)
    requires RegionsOk(rs) && Linked(majors, minors, rs) && k < |rs| && MajorsUnlinked(majors, v, rs, k)
    ensures RegionsOk(RemoveRegion(rs, k)) && Linked(v, minors, RemoveRegion(rs, k))
  {
    hide RegionsOk, Linked, MajorsUnlinked, RemoveRegion;
    UnlinkKeepsLinks(majors, v, minors, minors, rs, k);
  }

  lemma EmptySum(r: Region)
    ensures r.blocks == [] ==> SumSizes(r.blocks) == 0
  {
  }

  lemma DropAfterRemove(rs: seq<Region>, k: nat, j: nat)
    requires LiveAt(rs, k, j)
    ensures RemoveRegion(rs[k := RemoveBlock(rs[k], j)], k) == RemoveRegion(rs, k)
  {
    hide RemoveBlock;
  }

  lemma DropBest(best: nat, rs: seq<Region>, k: nat)
    requires BestOk(best, rs) && k < |rs|
    ensures best != rs[k].addr ==> BestOk(best, RemoveRegion(rs, k))
    ensures BestOk(0, RemoveRegion(rs, k))
  {
    if best != 0 && best != rs[k].addr {
      var i :| 0 <= i < |rs| && rs[i].addr == best;
      assert RemoveRegion(rs, k)[if i < k then i else i - 1].addr == best;
    }
  }

  lemma RemoveSetup(majors: map<nat, Major>, minors: map<nat, Minor>, rs: seq<Region>, k: nat, j: nat)
    requires RegionsOk(rs) && Linked(majors, minors, rs) && LiveAt(rs, k, j)
    ensures var r := rs[k];
            var b := r.blocks[j];
            && r.addr in majors && majors[r.addr] == MajorRec(rs, k)
            && b.addr in minors && minors[b.addr] == MinorRec(r, j)
            && (j > 0 ==> r.blocks[j - 1].addr in minors && 0 < r.blocks[j - 1].addr < b.addr)
            && (j + 1 < |r.blocks| ==> r.blocks[j + 1].addr in minors && b.addr < r.blocks[j + 1].addr)
            && End(b) <= SPACE && majors[r.addr].usage >= b.size + HEADER && InUse(rs) >= b.size
            && RemoveBlock(r, j).addr == r.addr && r.addr > 0 && b.addr > 0
  {
    hide RegionOk, RegionsOk, BlockOk, InUse, SumSizes;
    LinkedMajor(majors, minors, rs, k);
    LinkedMinor(minors, rs[k], j);
    LiveBlockOk(rs, k, j);
    AddrsPositive(rs, k);
    MajorRecRemove(rs, k, j);
    SumsReplace(rs, k, RemoveBlock(rs[k], j));
    SumSizesRemove(rs[k].blocks, j);
    if j > 0 { SortedAddrs(rs[k], j - 1, j); }
    if j + 1 < |rs[k].blocks| { SortedAddrs(rs[k], j, j + 1); }
  }

  /** The header writes of `kfree` put the lists in step with the layout without the block. */
  lemma Removed(majors: map<nat, Major>, minors: map<nat, Minor>, majors': map<nat, Major>, minors': map<nat, Minor>,
                rs: seq<Region>, k: nat, j: nat)
    requires RegionsOk(rs) && Linked(majors, minors, rs) && LiveAt(rs, k, j)
    requires MinorsRemoved(minors, minors', rs[k], j)
    requires rs[k].addr in majors && majors[rs[k].addr].usage >= rs[k].blocks[j].size + HEADER
    requires majors' == majors[rs[k].addr := majors[rs[k].addr].(
                          usage := majors[rs[k].addr].usage - (rs[k].blocks[j].size + HEADER),
                          first := if j == 0 then MinorRec(rs[k], 0).next else majors[rs[k].addr].first)]
    ensures var ts := rs[k := RemoveBlock(rs[k], j)];
            && RegionsOk(ts) && Linked(majors', minors', ts)
            && InUse(ts) == InUse(rs) - rs[k].blocks[j].size && Allocated(ts) == Allocated(rs)
  {
    hide RegionOk, MajorRec, MinorsRemoved, InUse, Allocated, SumSizes;
    var q := RemoveBlock(rs[k], j);
    LiveBlockOk(rs, k, j);
    RemoveRegionOk(rs[k], j);
    ReplaceRegionsOk(rs, k, q);
    RemoveMinorsLinked(minors, minors', rs[k], j);
    RemoveKeepsOutside(minors, minors', rs[k], j);
    MajorRecRemove(rs, k, j);
    MajorUsage(rs, k);
    ReplaceKeepsLinks(majors, minors, minors', rs, k, q);
    SumsReplace(rs, k, q);
    SumSizesRemove(rs[k].blocks, j);
  }

  lemma ShrinkLinks(majors: map<nat, Major>, minors: map<nat, Minor>, rs: seq<Region>, k: nat, j: nat, req: nat)
    requires RegionsOk(rs) && Linked(majors, minors, rs) && LiveAt(rs, k, j) && req <= rs[k].blocks[j].req
    ensures rs[k].blocks[j].addr in minors
    ensures var a := rs[k].blocks[j].addr;
            var ts := rs[k := SetReq(rs[k], j, req)];
            && RegionsOk(ts) && Linked(majors, minors[a := minors[a].(req := req)], ts)
            && InUse(ts) == InUse(rs) && Allocated(ts) == Allocated(rs)
  {
    hide RegionOk, MajorRec, InUse, Allocated, SumSizes, MinorRec, MinorsKeptOutside, MinorsLinked, SetReq;
    var q := SetReq(rs[k], j, req);
    var a := rs[k].blocks[j].addr;
    LinkedMajor(majors, minors, rs, k);
    LiveBlockOk(rs, k, j);
    SetReqRegionOk(rs[k], j, req);
    ReplaceRegionsOk(rs, k, q);
    SetReqMinorsLinked(minors, rs[k], j, req);
    SetReqMajor(rs, k, j, req);
    ReplaceKeepsLinks(majors, minors, minors[a := minors[a].(req := req)], rs, k, q);
    assert majors[q.addr := MajorRec(rs[k := q], k)] == majors;
    SumsReplace(rs, k, q);
  }

  lemma SetReqMajor(rs: seq<Region>, k: nat, j: nat, req: nat)
    requires LiveAt(rs, k, j)
    ensures MajorRec(rs[k := SetReq(rs[k], j, req)], k) == MajorRec(rs, k)
    ensures SumSizes(SetReq(rs[k], j, req).blocks) == SumSizes(rs[k].blocks)
  {
    SetReqSum(rs[k].blocks, j, req);
  }

  lemma LiveAlign(mem: seq<nat>, rs: seq<Region>, k: nat, j: nat)
    requires MemOk(mem, rs) && LiveAt(rs, k, j)
    ensures AlignByteOk(mem, rs[k].blocks[j])
  {
  }

  /** After an allocation the new block is live at its place, every old block still is, and the two are
      apart. */
  lemma GrowLocates(h: HeapView, k: nat, j: nat, req: nat, supply: nat, t: HeapView, q: nat, s: nat, k': nat, j': nat)
    requires RegionsOk(t.regions) && LiveAt(h.regions, k, j)
    requires KmallocStep(h, req, supply, t, q, s, k', j')
    ensures LiveAt(t.regions, k', j') && t.regions[k'].blocks[j'].req == req
    ensures q == UserPtr(t.regions[k'].blocks[j'].addr)
    ensures var m := MovedIndex(k, j, k', j');
            && LiveAt(t.regions, k, m) && t.regions[k].blocks[m] == h.regions[k].blocks[j]
            && var p := UserPtr(h.regions[k].blocks[j].addr);
               var n := h.regions[k].blocks[j].req;
               p + n <= SPACE && (p + n <= q || q + req <= p)
  {
    hide RegionsOk, UserPtr, NoGap, FirstRegion, SearchStart, FirstGap, BestOk, GapFits, InsertBlock;
    var rs := if NoGap(h.regions, req + ALIGNMENT + ALIGN_INFO + HEADER)
              then h.regions + [FreshRegion(supply, req + ALIGNMENT + ALIGN_INFO)] else h.regions;
    PlacedAt(HeapView(rs, h.best, h.mem), k', j', req, t, q);
    var m := MovedIndex(k, j, k', j');
    assert LiveAt(t.regions, k, m) && t.regions[k].blocks[m] == h.regions[k].blocks[j];
    LiveBlockOk(t.regions, k, m);
    LiveBlockOk(t.regions, k', j');
    BlocksApart(t.regions, k, m, k', j');
    UserPtrFacts(t.regions[k].blocks[m].addr);
    UserPtrFacts(t.regions[k'].blocks[j'].addr);
  }

  lemma PlacedAt(h: HeapView, k: nat, j: nat, req: nat, t: HeapView, p: nat)
    requires Placed(h, k, j, req, t, p)
    ensures |t.regions| == |h.regions| && LiveAt(t.regions, k, j)
    ensures forall i | 0 <= i < |h.regions| && i != k :: t.regions[i] == h.regions[i]
    ensures var b := t.regions[k].blocks[j]; b == NewBlock(h.regions[k], j, req) && p == UserPtr(b.addr)
    ensures |t.regions[k].blocks| == |h.regions[k].blocks| + 1
    ensures forall n | 0 <= n < |h.regions[k].blocks| ::
              t.regions[k].blocks[if j <= n then n + 1 else n] == h.regions[k].blocks[n]
  {
    hide UserPtr;
    InsertedAt(h.regions[k], j, NewBlock(h.regions[k], j, req));
  }

  lemma InsertSetup(rs: seq<Region>, k: nat, j: nat, b: Block)
    requires RegionsOk(rs) && k < |rs| && GapFits(rs[k], j, b.size + HEADER)
    requires b.addr == GapStart(rs[k], j) && b.size == b.req + ALIGNMENT + ALIGN_INFO
    ensures RegionOk(InsertBlock(rs[k], j, b)) && RegionsOk(rs[k := InsertBlock(rs[k], j, b)])
    ensures BlockOk(rs[k], b) && End(b) <= SPACE && InsertBlock(rs[k], j, b).addr == rs[k].addr
  {
    assert RegionOk(rs[k]);
    InsertRegionOk(rs[k], j, b);
    GapBlockOk(rs[k], j, b);
    ReplaceRegionsOk(rs, k, InsertBlock(rs[k], j, b));
  }

  /** The header writes of an insertion put the lists in step with the new layout. */
  lemma Inserted(majors: map<nat, Major>, minors: map<nat, Minor>, majors': map<nat, Major>, minors': map<nat, Minor>,
                 rs: seq<Region>, k: nat, j: nat, b: Block)
    requires RegionsOk(rs) && Linked(majors, minors, rs)
    requires k < |rs| && GapFits(rs[k], j, b.size + HEADER)
    requires b.addr == GapStart(rs[k], j) && b.size == b.req + ALIGNMENT + ALIGN_INFO
    requires HeadersInserted(majors, minors, majors', minors', rs, k, j, b)
    ensures Linked(majors', minors', rs[k := InsertBlock(rs[k], j, b)])
    ensures InUse(rs[k := InsertBlock(rs[k], j, b)]) == InUse(rs) + b.size
    ensures Allocated(rs[k := InsertBlock(rs[k], j, b)]) == Allocated(rs)
  {
    hide RegionOk, MajorRec, MinorsInserted, InUse, Allocated, SumSizes;
    var q := InsertBlock(rs[k], j, b);
    InsertSetup(rs, k, j, b);
    InsertMinorsLinked(minors, minors', rs[k], j, b);
    InsertKeepsOutside(minors, minors', rs[k], j, b);
    MajorRecInsert(rs, k, j, b);
    MajorUsage(rs, k);
    ReplaceKeepsLinks(majors, minors, minors', rs, k, q);
    SumsReplace(rs, k, q);
    SumSizesInsert(rs[k].blocks, j, b);
  }

  lemma MajorUsage(rs: seq<Region>, k: nat)
    requires k < |rs|
    ensures MajorRec(rs, k).usage == Usage(rs[k]) && MajorRec(rs, k).size == Size(rs[k])
  {
  }
}
