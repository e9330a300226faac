/** Copying between the kernel and a user address space (kernel/syscall.c): the user's pages are mapped
a second time at a free kernel range, copied through that alias, and unmapped again. */
module UserCopy {
  import opened Bits
  import opened Outcomes
  import opened Vmm

  /** A byte of physical memory. */
  datatype Place = Place(frame: nat, offset: nat)

  /** Where address `a` leads under the flat view `f`; both are taken modulo 2^32. */
  function PlaceOf(f: seq<nat>, a: nat): (p: Place)
    requires |f| == PAGES
    ensures PlaceOk(p)
  {
    Place(f[a / PAGE_SIZE % PAGES] / PAGE_SIZE % PAGES, a % PAGE_SIZE)
  }

  function Places(f: seq<nat>, a: nat, n: nat): (ps: seq<Place>)
    requires |f| == PAGES
    ensures |ps| == n && (forall i | 0 <= i < n :: ps[i] == PlaceOf(f, a + i)) && PlacesOk(ps)
  {
    seq(n, i requires 0 <= i < n => PlaceOf(f, a + i))
  }

  ghost predicate FramesOk(frames: seq<seq<nat>>) {
    |frames| == PAGES && forall i | 0 <= i < PAGES :: |frames[i]| == PAGE_SIZE
  }

  ghost predicate PlaceOk(p: Place) {
    p.frame < PAGES && p.offset < PAGE_SIZE
  }

  function WriteAt(frames: seq<seq<nat>>, p: Place, b: nat): (r: seq<seq<nat>>)
    requires FramesOk(frames) && PlaceOk(p)
    ensures FramesOk(r)
  {
    var row: seq<nat> := frames[p.frame][p.offset := b];
    frames[p.frame := row]
  }

  function ReadAt(frames: seq<seq<nat>>, p: Place): nat
    requires FramesOk(frames) && PlaceOk(p)
  {
    frames[p.frame][p.offset]
  }

  ghost predicate PlacesOk(ps: seq<Place>) {
    forall i | 0 <= i < |ps| :: PlaceOk(ps[i])
  }

  /** The bytes stored one after the other. */
  function WriteAll(frames: seq<seq<nat>>, ps: seq<Place>, bs: seq<nat>): (r: seq<seq<nat>>)
    requires FramesOk(frames) && PlacesOk(ps) && |bs| == |ps|
    ensures FramesOk(r)
  {
    if ps == [] then frames
    else
      var n := |ps| - 1;
      WriteAt(WriteAll(frames, ps[..n], bs[..n]), ps[n], bs[n])
  }

  function ReadAll(frames: seq<seq<nat>>, ps: seq<Place>): (bs: seq<nat>)
    requires FramesOk(frames) && PlacesOk(ps)
    ensures |bs| == |ps|
  {
    seq(|ps|, i requires 0 <= i < |ps| => ReadAt(frames, ps[i]))
  }

  /** Present, writable and accessible to the user. */
  predicate UserOk(page: nat) {
    And(page, PRESENT) != 0 && And(page, READWRITE) != 0 && And(page, USER) != 0
  }

  /** Page `q` is not present, read-only or the kernel's: bit 0, 1 or 2 of its entry is clear. */
  ghost predicate Barred(f: seq<nat>, q: nat)
    requires |f| == PAGES
  {
    var e := f[q % PAGES];
    e % 2 == 0 || e / 2 % 2 == 0 || e / 4 % 2 == 0
  }

  lemma BitTest(e: nat)
    ensures And(e, PRESENT) == 0 <==> e % 2 == 0
    ensures And(e, READWRITE) == 0 <==> e / 2 % 2 == 0
    ensures And(e, USER) == 0 <==> e / 4 % 2 == 0
  {
    hide And;
    LowBitTest(e);
    Halves(e, 2);
    LowBitTest(e / 2);
    Halves(e, 4);
    Halves(e / 2, 2);
    LowBitTest(e / 4);
  }

  lemma LowBitTest(x: nat)
    ensures And(x, 1) == x % 2
  {
    AndOne(x);
  }

  lemma BarredExactly(f: seq<nat>, p: nat, n: nat)
    requires |f| == PAGES
    ensures AllUserOk(f, p, n) <==> !exists q: nat :: p <= q < p + n && Barred(f, q)
  {
    hide And, Barred;
    forall q: nat
      ensures UserOkAt(f, q) <==> !Barred(f, q)
    {
      BarredPage(f, q);
    }
  }

  lemma BarredPage(f: seq<nat>, q: nat)
    requires |f| == PAGES
    ensures UserOkAt(f, q) <==> !Barred(f, q)
  {
    hide And;
    BitTest(f[q % PAGES]);
  }

  lemma CodeBlocks(ptr: nat, n: nat)
    ensures Blocks(ptr, n) == (PAGE_SIZE - 1 + n + ptr % PAGE_SIZE) / PAGE_SIZE
    ensures n < 0x1_0000_0000 - 2 * PAGE_SIZE ==> Blocks(ptr, n) <= PAGES
  {
  }

  /** The pages that are checked are those of the bytes from the first to the last. */
  lemma PagesOfBytes(ptr: nat, n: nat)
    requires n > 0
    ensures ptr / PAGE_SIZE + Blocks(ptr, n) == (ptr + n - 1) / PAGE_SIZE + 1
  {
    var a, d := ptr / PAGE_SIZE, ptr % PAGE_SIZE;
    assert PAGE_SIZE - 1 + n + d == PAGE_SIZE + (n + d - 1);
    assert ptr + n - 1 == PAGE_SIZE * a + (n + d - 1);
  }

  ghost predicate AllUserOk(f: seq<nat>, p: nat, n: nat)
    requires |f| == PAGES
  {
    forall q: nat | p <= q < p + n :: UserOkAt(f, q)
  }

  ghost predicate UserOkAt(f: seq<nat>, q: nat)
    requires |f| == PAGES
  {
    UserOk(f[q % PAGES])
  }

  /** The number of pages that `[ptr, ptr + n)` touches, as the code computes it. */
  function Blocks(ptr: nat, n: nat): nat {
    (PAGE_SIZE - 1 + n + ptr % PAGE_SIZE) / PAGE_SIZE
  }

  /** The kernel pages from `k` on show the user pages from `p` on. */
  ghost predicate Aliased(f: seq<nat>, p: nat, g: seq<nat>, k: nat, n: nat) {
    forall i: nat | i < n :: AliasAt(f, p, g, k, i)
  }

  ghost predicate AliasAt(f: seq<nat>, p: nat, g: seq<nat>, k: nat, i: nat) {
    |f| == |g| == PAGES && g[(k + i) % PAGES] == Or(f[(p + i) % PAGES], PRESENT + READWRITE)
  }

  ghost predicate ZeroIn(g: seq<nat>, k: nat, n: nat) {
    forall p: nat | p < |g| && InRun(p, k, n) :: g[p] == 0
  }

  lemma AliasKept(f: seq<nat>, p: nat, g: seq<nat>, g': seq<nat>, k: nat, n: nat)
    requires Aliased(f, p, g, k, n) && |f| == |g| == PAGES && k < PAGES && n < PAGES
    requires g' == g[(k + n) % PAGES := 0][(k + n) % PAGES := Or(f[(p + n) % PAGES], PRESENT + READWRITE)]
    ensures Aliased(f, p, g', k, n + 1)
  {
    hide Or;
    Wrapped(k, n);
    forall i: nat | i < n + 1
      ensures AliasAt(f, p, g', k, i)
    {
      Wrapped(k, i);
      if i < n { assert AliasAt(f, p, g, k, i); }
    }
  }

  // ----- mapping page by page, and taking it back -----

  /** The first `i` of the `n` pages are mapped, the others are as they were. */
  ghost predicate Mapping(g: seq<nat>, h: seq<nat>, k: nat, i: nat, n: nat) {
    && |g| == |h| == PAGES
    && forall p: nat | p < PAGES && InRun(p, k, n) :: if InRun(p, k, i) then h[p] != 0 else h[p] == g[p]
  }

  /** Page `failed` could not be mapped and is 0; of those before it the first `i` are taken back. */
  ghost predicate RollingBack(g: seq<nat>, h: seq<nat>, k: nat, i: nat, failed: nat, n: nat) {
    && |g| == |h| == PAGES
    && forall p: nat | p < PAGES && InRun(p, k, n) ::
         if InRun(p, k, failed) then (h[p] == 0 <==> InRun(p, k, i))
         else if InRun(p, k, failed + 1) then h[p] == 0
         else h[p] == g[p]
  }

  /** Nothing is left mapped: each page is 0, or as it was before. */
  ghost predicate TakenBack(g: seq<nat>, h: seq<nat>, k: nat, n: nat) {
    |g| == |h| && forall p: nat | p < |g| && InRun(p, k, n) :: h[p] == 0 || h[p] == g[p]
  }

  lemma MappingStarts(g: seq<nat>, k: nat, n: nat)
    requires |g| == PAGES && k < PAGES
    ensures Mapping(g, g, k, 0, n)
  {
  }

  lemma MappingNext(g: seq<nat>, h: seq<nat>, h': seq<nat>, k: nat, i: nat, n: nat, entry: nat)
    requires Mapping(g, h, k, i, n) && k < PAGES && i < n <= PAGES && entry != 0
    requires h' == h[(k + i) % PAGES := 0][(k + i) % PAGES := entry]
    ensures Mapping(g, h', k, i + 1, n)
  {
    NextOfRun(k, i);
    hide InRun;
  }

  lemma MappingFails(g: seq<nat>, h: seq<nat>, h': seq<nat>, k: nat, i: nat, n: nat)
    requires Mapping(g, h, k, i, n) && k < PAGES && i < n <= PAGES && h' == h[(k + i) % PAGES := 0]
    ensures RollingBack(g, h', k, 0, i, n)
  {
    NextOfRun(k, i);
    EmptyRun(k);
    hide InRun;
  }

  lemma EmptyRun(k: nat)
    requires k < PAGES
    ensures forall p: nat | p < PAGES :: !InRun(p, k, 0)
  {
  }

  /** The next page is the one that failed, and all is taken back, or it is mapped, and is taken back now. */
  lemma RollBackNext(g: seq<nat>, h: seq<nat>, k: nat, i: nat, failed: nat, n: nat)
    requires RollingBack(g, h, k, i, failed, n) && k < PAGES && i <= failed < n <= PAGES
    ensures if h[(k + i) % PAGES] == 0 then TakenBack(g, h, k, n)
            else i < failed && RollingBack(g, h[(k + i) % PAGES := 0], k, i + 1, failed, n)
  {
    var q := (k + i) % PAGES;
    NextOfRun(k, i);
    NextOfRun(k, failed);
    InWider(q, k, i + 1, failed);
    InWider(q, k, i + 1, n);
    hide InRun;
  }

  lemma InWider(p: nat, k: nat, m: nat, n: nat)
    requires InRun(p, k, m)
    ensures m <= n ==> InRun(p, k, n)
  {
  }

  class Memory {
    const machine: Machine
    /** Physical memory, frame by frame. */
    var frames: seq<seq<nat>>

    constructor (machine: Machine, frames: seq<seq<nat>>)
      ensures this.machine == machine && this.frames == frames
    {
      this.machine, this.frames := machine, frames;
    }

    /** Map the `n` user pages from `p` on at the kernel pages from `k` on, or none of them. */
    method MapUserspaceToKernel(dir: PageDirectory, p: nat, k: nat, n: nat) returns (ok: bool)
      requires machine.Ready(dir) && dir != machine.kernel && n != 0 && k < PAGES && n <= PAGES
      modifies machine.kernel.Tabs
      ensures machine.Ready(dir) && dir.Flat() == old(dir.Flat())
      ensures SameOutside(old(machine.kernel.Flat()), machine.kernel.Flat(), k, n)
      ensures ok <==> AllUserOk(dir.Flat(), p, n)
      ensures ok <==> !exists q: nat :: p <= q < p + n && Barred(dir.Flat(), q)
      ensures ok ==> Aliased(dir.Flat(), p, machine.kernel.Flat(), k, n)
      ensures !ok ==> TakenBack(old(machine.kernel.Flat()), machine.kernel.Flat(), k, n)
    {
      hide Machine.Ready, Machine.Valid, PageDirectory.Valid, PageDirectory.Present, PageDirectory.Flat,
        PageDirectory.Entry, Or, And, UserOk, SameOutside, Barred, Mapping,
        RollingBack, TakenBack;
      BarredExactly(dir.Flat(), p, n);
      ghost var f, g := dir.Flat(), machine.kernel.Flat();
      SameSelf(g, k, n);
      MappingStarts(g, k, n);
      ok := true;
      var i: nat := 0;
      ghost var failed: nat := n;
      while i < n && ok
        invariant machine.Ready(dir) && dir.Flat() == f && i <= n
        invariant SameOutside(g, machine.kernel.Flat(), k, n)
        invariant ok ==> AllUserOk(f, p, i) && Aliased(f, p, machine.kernel.Flat(), k, i)
        invariant !ok ==> !AllUserOk(f, p, n)
        invariant if ok then Mapping(g, machine.kernel.Flat(), k, i, n)
                  else failed < n && RollingBack(g, machine.kernel.Flat(), k, 0, failed, n)
        decreases ok, n - i
      {
        ghost var g' := machine.kernel.Flat();
        WithZero(0);
        machine.MapKernel((k + i) % PAGES, 0, 0, dir);
        ChangedInRun(g, g', k, i, n, 0);
        var page := dir.Lookup((p + i) % PAGES);
        if UserOk(page) {
          ChangedInRun(g, machine.kernel.Flat(), k, i, n, Or(page, PRESENT + READWRITE));
          machine.MapKernel((k + i) % PAGES, page, PRESENT + READWRITE, dir);
          AliasKept(f, p, g', machine.kernel.Flat(), k, i);
          Halves(page, 3);
          MappingNext(g, g', machine.kernel.Flat(), k, i, n, Or(page, PRESENT + READWRITE));
          i := i + 1;
        } else {
          assert !UserOkAt(f, p + i);
          MappingFails(g, g', machine.kernel.Flat(), k, i, n);
          ok, failed := false, i;
        }
      }
      if ok {
        return;
      }
      // failure
      TakeBack(dir, k, n, g, failed);
    }

    /** The pages mapped so far, up to the first that is not, are cleared again. */
    method TakeBack(ghost dir: PageDirectory, k: nat, n: nat, ghost g: seq<nat>, ghost failed: nat)
      requires machine.Ready(dir) && dir != machine.kernel && k < PAGES && failed < n <= PAGES
      requires SameOutside(g, machine.kernel.Flat(), k, n)
      requires RollingBack(g, machine.kernel.Flat(), k, 0, failed, n)
      modifies machine.kernel.Tabs
      ensures machine.Ready(dir) && dir.Flat() == old(dir.Flat())
      ensures SameOutside(g, machine.kernel.Flat(), k, n) && TakenBack(g, machine.kernel.Flat(), k, n)
    {
      hide Machine.Ready, Machine.Valid, PageDirectory.Valid, PageDirectory.Present, PageDirectory.Flat,
        PageDirectory.Entry, Or, SameOutside, RollingBack, TakenBack;
      ghost var f := dir.Flat();
      var i: nat := 0;
      while i < n
        invariant machine.Ready(dir) && dir.Flat() == f
        invariant SameOutside(g, machine.kernel.Flat(), k, n)
        invariant i <= failed < n && RollingBack(g, machine.kernel.Flat(), k, i, failed, n)
      {
        var page := machine.kernel.GetPage((k + i) % PAGES);
        RollBackNext(g, machine.kernel.Flat(), k, i, failed, n);
        if page == 0 {
          break;
        }
        WithZero(0);
        ChangedInRun(g, machine.kernel.Flat(), k, i, n, Or(0, 0));
        machine.MapKernel((k + i) % PAGES, 0, 0, dir);
        i := i + 1;
      }
    }

    method UnmapFromKernel(dir: PageDirectory, k: nat, n: nat)
      requires machine.Ready(dir) && dir != machine.kernel && k < PAGES && n <= PAGES
      modifies machine.kernel.Tabs
      ensures machine.Ready(dir) && dir.Flat() == old(dir.Flat())
      ensures SameOutside(old(machine.kernel.Flat()), machine.kernel.Flat(), k, n)
      ensures ZeroIn(machine.kernel.Flat(), k, n)
    {
      hide Machine.Ready, Machine.Valid, PageDirectory.Valid, PageDirectory.Present, PageDirectory.Flat,
        PageDirectory.Entry, Or, SameOutside;
      ghost var f, g := dir.Flat(), machine.kernel.Flat();
      WithZero(0);
      SameSelf(g, k, n);
      for i := 0 to n
        invariant machine.Ready(dir) && dir.Flat() == f
        invariant SameOutside(g, machine.kernel.Flat(), k, n)
        invariant ZeroIn(machine.kernel.Flat(), k, i)
      {
        NextOfRun(k, i);
        ChangedInRun(g, machine.kernel.Flat(), k, i, n, 0);
        machine.MapKernel((k + i) % PAGES, 0, 0, dir);
      }
    }

    /** `memcpy` to kernel address `dst`, byte by byte; stops on a zero length. */
    method StoreVirtual(dst: nat, buffer: seq<nat>) returns (ok: bool)
      requires machine.Valid() && FramesOk(frames)
      modifies this`frames
      ensures ok <==> buffer != []
      ensures ok ==> FramesOk(frames) && PlacesOk(Places(machine.kernel.Flat(), dst, |buffer|))
      ensures ok ==> frames == WriteAll(old(frames), Places(machine.kernel.Flat(), dst, |buffer|), buffer)
    {
      hide Machine.Valid, PageDirectory.Valid, PageDirectory.Present, PageDirectory.Flat, PageDirectory.Entry;
      hide FramesOk, WriteAt, WriteAll;
      if buffer == [] {
        return false;
      }
      ghost var g := machine.kernel.Flat();
      ghost var ps := Places(g, dst, |buffer|);
      WriteNone(frames);
      for i := 0 to |buffer|
        invariant FramesOk(frames) && PlacesOk(ps)
        invariant frames == WriteAll(old(frames), ps[..i], buffer[..i])
      {
        var page := machine.kernel.GetPage((dst + i) / PAGE_SIZE % PAGES);
        frames := WriteAt(frames, Place(page / PAGE_SIZE % PAGES, (dst + i) % PAGE_SIZE), buffer[i]);
        WriteAllSnoc(old(frames), ps, buffer, i);
      }
      assert ps[..|buffer|] == ps && buffer[..|buffer|] == buffer;
      return true;
    }

    /** `memcpy` from kernel address `src`; stops on a zero length. */
    method LoadVirtual(src: nat, n: nat) returns (ok: bool, buffer: seq<nat>)
      requires machine.Valid() && FramesOk(frames)
      ensures ok <==> n != 0
      ensures PlacesOk(Places(machine.kernel.Flat(), src, n))
      ensures ok ==> buffer == ReadAll(frames, Places(machine.kernel.Flat(), src, n))
    {
      hide Machine.Valid, PageDirectory.Valid, PageDirectory.Present, PageDirectory.Flat, PageDirectory.Entry;
      buffer := [];
      if n == 0 {
        return false, [];
      }
      for i := 0 to n
        invariant |buffer| == i
        invariant forall j | 0 <= j < i :: buffer[j] == ReadAt(frames, Places(machine.kernel.Flat(), src, n)[j])
      {
        var page := machine.kernel.GetPage((src + i) / PAGE_SIZE % PAGES);
        buffer := buffer + [ReadAt(frames, Place(page / PAGE_SIZE % PAGES, (src + i) % PAGE_SIZE))];
      }
      return true, buffer;
    }

    /** -1 when some page is not the user's to write, otherwise the length, with the bytes stored where
        the user's directory leads.  The kernel's directory ends as it began. */
    method CopyToUserspace(dir: PageDirectory, ptr: nat, buffer: seq<nat>) returns (r: Outcome<int>)
      requires machine.Ready(dir) && dir != machine.kernel && FramesOk(frames)
      requires ptr < 0x1_0000_0000 && |buffer| < 0x1_0000_0000 - 2 * PAGE_SIZE
      modifies this`frames, machine.kernel, machine.kernel.tables, machine.kernel.physicalTables
      modifies machine.kernel.Tabs, machine.pmm.words
      ensures machine.Ready(dir) && dir.Flat() == old(dir.Flat())
      ensures r.Done? ==> machine.kernel.Flat() == old(machine.kernel.Flat())
      ensures r.Stopped? <==> Stops(old(machine.kernel.Flat()), dir.Flat(), ptr, |buffer|)
      ensures r.Done? ==> CopiedOut(dir.Flat(), ptr, buffer, old(frames), r.value, frames)
      ensures r.Done? && |buffer| > 0 ==>
                (r.value == -1 <==> exists q: nat ::
                   ptr / PAGE_SIZE <= q <= (ptr + |buffer| - 1) / PAGE_SIZE && Barred(dir.Flat(), q))
    {
      hide Machine.Ready, Machine.Valid, PageDirectory.Valid, PageDirectory.Present, PageDirectory.Flat,
        PageDirectory.Entry, Or, And, UserOk, WriteAll, Places, FoundSpace, SameOutside, ZeroIn, RunFree, Barred,
        Blocks;
      ghost var f, g := dir.Flat(), machine.kernel.Flat();
      var blocks := (PAGE_SIZE - 1 + |buffer| + ptr % PAGE_SIZE) / PAGE_SIZE;
      CodeBlocks(ptr, |buffer|);
      if buffer != [] { PagesOfBytes(ptr, |buffer|); }
      if blocks == 0 {
        return Stopped;
      }
      var kptr := machine.KernelSpace(blocks, dir);
      // map_userspace_to_kernel asserts that the address is page aligned, which -1 is not
      if kptr == NONE {
        SpaceNone(g, blocks, machine.kernel.Flat());
        return Stopped;
      }
      var k := kptr / PAGE_SIZE;
      ghost var g1 := machine.kernel.Flat();
      SpaceSome(g, blocks, kptr, g1);
      var ok := MapUserspaceToKernel(dir, ptr / PAGE_SIZE, k, blocks);
      ghost var g2 := machine.kernel.Flat();
      if !ok {
        UnmapFromKernel(dir, k, blocks);
        Restored(g, g1, g2, machine.kernel.Flat(), k, blocks);
        return Done(-1);
      }
      var stored := StoreVirtual(kptr + ptr % PAGE_SIZE, buffer);
      if !stored {
        return Stopped;
      }
      PlacesAgree(f, g2, ptr, k, |buffer|);
      UnmapFromKernel(dir, k, blocks);
      Restored(g, g1, g2, machine.kernel.Flat(), k, blocks);
      return Done(|buffer|);
    }

    method CopyFromUserspace(dir: PageDirectory, ptr: nat, n: nat) returns (r: Outcome<int>, buffer: seq<nat>)
      requires machine.Ready(dir) && dir != machine.kernel && FramesOk(frames)
      requires ptr < 0x1_0000_0000 && n < 0x1_0000_0000 - 2 * PAGE_SIZE
      modifies machine.kernel, machine.kernel.tables, machine.kernel.physicalTables
      modifies machine.kernel.Tabs, machine.pmm.words
      ensures machine.Ready(dir) && dir.Flat() == old(dir.Flat())
      ensures r.Done? ==> machine.kernel.Flat() == old(machine.kernel.Flat())
      ensures r.Stopped? <==> Stops(old(machine.kernel.Flat()), dir.Flat(), ptr, n)
      ensures r.Done? ==> CopiedIn(dir.Flat(), ptr, n, frames, r.value, buffer)
      ensures r.Done? && n > 0 ==>
                (r.value == -1 <==> exists q: nat ::
                   ptr / PAGE_SIZE <= q <= (ptr + n - 1) / PAGE_SIZE && Barred(dir.Flat(), q))
    {
      hide Machine.Ready, Machine.Valid, PageDirectory.Valid, PageDirectory.Present, PageDirectory.Flat,
        PageDirectory.Entry, Or, And, UserOk, ReadAll, Places, FoundSpace, SameOutside, ZeroIn, RunFree, Barred,
        Blocks;
      buffer := [];
      ghost var f, g := dir.Flat(), machine.kernel.Flat();
      var blocks := (PAGE_SIZE - 1 + n + ptr % PAGE_SIZE) / PAGE_SIZE;
      CodeBlocks(ptr, n);
      if n > 0 { PagesOfBytes(ptr, n); }
      if blocks == 0 {
        return Stopped, [];
      }
      var kptr := machine.KernelSpace(blocks, dir);
      if kptr == NONE {
        SpaceNone(g, blocks, machine.kernel.Flat());
        return Stopped, [];
      }
      var k := kptr / PAGE_SIZE;
      ghost var g1 := machine.kernel.Flat();
      SpaceSome(g, blocks, kptr, g1);
      var ok := MapUserspaceToKernel(dir, ptr / PAGE_SIZE, k, blocks);
      ghost var g2 := machine.kernel.Flat();
      if !ok {
        UnmapFromKernel(dir, k, blocks);
        Restored(g, g1, g2, machine.kernel.Flat(), k, blocks);
        return Done(-1), [];
      }
      var loaded;
      loaded, buffer := LoadVirtual(kptr + ptr % PAGE_SIZE, n);
      if !loaded {
        return Stopped, [];
      }
      PlacesAgree(f, g2, ptr, k, n);
      UnmapFromKernel(dir, k, blocks);
      Restored(g, g1, g2, machine.kernel.Flat(), k, blocks);
      return Done(n), buffer;
    }
  }

  lemma WriteAllSnoc(frames: seq<seq<nat>>, ps: seq<Place>, bs: seq<nat>, i: nat)
    requires FramesOk(frames) && PlacesOk(ps) && |bs| == |ps| && i < |ps|
    ensures WriteAll(frames, ps[..i + 1], bs[..i + 1]) == WriteAt(WriteAll(frames, ps[..i], bs[..i]), ps[i], bs[i])
  {
    hide WriteAt;
    assert ps[..i + 1][..i] == ps[..i] && bs[..i + 1][..i] == bs[..i];
  }

  lemma WriteNone(frames: seq<seq<nat>>)
    requires FramesOk(frames)
    ensures WriteAll(frames, [], []) == frames
  {
  }

  /** No room in the kernel's address space, or nothing to copy. */
  ghost predicate Stops(g: seq<nat>, f: seq<nat>, ptr: nat, n: nat)
    requires |f| == PAGES
  {
    var blocks := Blocks(ptr, n);
    || blocks == 0
    || (forall s: nat | 1 <= s < PAGES :: !RunFree(g, s, blocks))
    || (n == 0 && AllUserOk(f, ptr / PAGE_SIZE, blocks))
  }

  ghost predicate CopiedOut(f: seq<nat>, ptr: nat, bs: seq<nat>, frames: seq<seq<nat>>, r: int, frames': seq<seq<nat>>)
    requires |f| == PAGES && FramesOk(frames)
  {
    if AllUserOk(f, ptr / PAGE_SIZE, Blocks(ptr, |bs|)) then
      && r == |bs| > 0 && PlacesOk(Places(f, ptr, |bs|))
      && frames' == WriteAll(frames, Places(f, ptr, |bs|), bs)
    else
      r == -1 && frames' == frames
  }

  ghost predicate CopiedIn(f: seq<nat>, ptr: nat, n: nat, frames: seq<seq<nat>>, r: int, buffer: seq<nat>)
    requires |f| == PAGES && FramesOk(frames)
  {
    if AllUserOk(f, ptr / PAGE_SIZE, Blocks(ptr, n)) then
      r == n > 0 && buffer == ReadAll(frames, Places(f, ptr, n))
    else
      r == -1
  }

  /** Reserved, mapped and unmapped again, the pages are as free as they were. */
  lemma Restored(g: seq<nat>, g1: seq<nat>, g2: seq<nat>, g3: seq<nat>, k: nat, n: nat)
    requires |g| == PAGES && k < PAGES && n <= PAGES && RunFree(g, k, n)
    requires SameOutside(g, g1, k, n) && SameOutside(g1, g2, k, n) && SameOutside(g2, g3, k, n) && ZeroIn(g3, k, n)
    ensures g3 == g
  {
    forall p: nat | p < PAGES
      ensures g3[p] == g[p]
    {
      if InRun(p, k, n) {
        var q := if k <= p then p else p + PAGES;
        RunFreeAt(g, k, n, q);
        assert q % PAGES == p;
      } else {
        assert g1[p] == g[p] && g2[p] == g1[p];
      }
    }
  }

  /** The alias shows the same bytes of physical memory as the user's own addresses. */
  lemma PlacesAgree(f: seq<nat>, g: seq<nat>, ptr: nat, k: nat, n: nat)
    requires |f| == PAGES && |g| == PAGES
    requires Aliased(f, ptr / PAGE_SIZE, g, k, Blocks(ptr, n))
    ensures Places(g, k * PAGE_SIZE + ptr % PAGE_SIZE, n) == Places(f, ptr, n)
  {
    hide Or, Blocks;
    var ps, qs := Places(g, k * PAGE_SIZE + ptr % PAGE_SIZE, n), Places(f, ptr, n);
    forall i | 0 <= i < n
      ensures ps[i] == qs[i]
    {
      var j := (ptr % PAGE_SIZE + i) / PAGE_SIZE;
      BlockOf(ptr, k, n, i);
      assert AliasAt(f, ptr / PAGE_SIZE, g, k, j);
      OrKeepsFrame(f[(ptr / PAGE_SIZE + j) % PAGES]);
    }
  }

  lemma BlockOf(ptr: nat, k: nat, n: nat, i: nat)
    requires i < n
    ensures var j := (ptr % PAGE_SIZE + i) / PAGE_SIZE;
            && j < Blocks(ptr, n)
            && (ptr + i) / PAGE_SIZE == ptr / PAGE_SIZE + j
            && (k * PAGE_SIZE + ptr % PAGE_SIZE + i) / PAGE_SIZE == k + j
            && (ptr + i) % PAGE_SIZE == (k * PAGE_SIZE + ptr % PAGE_SIZE + i) % PAGE_SIZE
  {
  }

  // ----- what the bytes end up as -----

  lemma {:induction false} WriteAllOther(frames: seq<seq<nat>>, ps: seq<Place>, bs: seq<nat>, q: Place)
    requires FramesOk(frames) && PlacesOk(ps) && |bs| == |ps| && PlaceOk(q) && q !in ps
    ensures ReadAt(WriteAll(frames, ps, bs), q) == ReadAt(frames, q)
  {
    if ps != [] {
      var n := |ps| - 1;
      WriteAllOther(frames, ps[..n], bs[..n], q);
      assert ps[n] in ps;
    }
  }

  /** A place ends up with the last byte stored there. */
  lemma {:induction false} WriteAllLast(frames: seq<seq<nat>>, ps: seq<Place>, bs: seq<nat>, i: nat)
    requires FramesOk(frames) && PlacesOk(ps) && |bs| == |ps| && i < |ps|
    requires forall j | i < j < |ps| :: ps[j] != ps[i]
    ensures ReadAt(WriteAll(frames, ps, bs), ps[i]) == bs[i]
  {
    var n := |ps| - 1;
    if i < n {
      WriteAllLast(frames, ps[..n], bs[..n], i);
    }
  }

  /** Equal places get equal bytes. */
  ghost predicate Consistent(ps: seq<Place>, bs: seq<nat>)
    requires |bs| == |ps|
  {
    forall i, j | 0 <= i < j < |ps| && ps[i] == ps[j] :: bs[i] == bs[j]
  }

  lemma {:induction false} LastIndex(ps: seq<Place>, i: nat) returns (l: nat)
    requires i < |ps|
    ensures i <= l < |ps| && ps[l] == ps[i] && forall j | l < j < |ps| :: ps[j] != ps[i]
  {
    l := |ps| - 1;
    while ps[l] != ps[i]
      invariant i <= l < |ps| && forall j | l < j < |ps| :: ps[j] != ps[i]
      decreases l
    {
      l := l - 1;
    }
  }

  /** What was copied out reads back as it was, if and only if no place was given two different bytes. */
  lemma RoundTripExactly(frames: seq<seq<nat>>, ps: seq<Place>, bs: seq<nat>)
    requires FramesOk(frames) && PlacesOk(ps) && |bs| == |ps|
    ensures ReadAll(WriteAll(frames, ps, bs), ps) == bs <==> Consistent(ps, bs)
  {
    hide WriteAll, ReadAt;
    var back := ReadAll(WriteAll(frames, ps, bs), ps);
    forall i | 0 <= i < |ps|
      ensures exists l | i <= l < |ps| :: ps[l] == ps[i] && back[i] == bs[l]
    {
      var l := LastIndex(ps, i);
      WriteAllLast(frames, ps, bs, l);
    }
    if back == bs {
      forall i, j | 0 <= i < j < |ps| && ps[i] == ps[j]
        ensures bs[i] == bs[j]
      {
        assert back[i] == back[j];
      }
    }
  }

  /** The pages of the range lead to different frames. */
  ghost predicate DistinctFrames(f: seq<nat>, p: nat, n: nat)
    requires |f| == PAGES
  {
    forall a: nat, b: nat | p <= a < b < p + n :: FrameAt(f, a) != FrameAt(f, b)
  }

  function FrameAt(f: seq<nat>, q: nat): nat
    requires |f| == PAGES
  {
    f[q % PAGES] / PAGE_SIZE % PAGES
  }

  lemma DistinctPlaces(f: seq<nat>, ptr: nat, n: nat)
    requires |f| == PAGES && DistinctFrames(f, ptr / PAGE_SIZE, Blocks(ptr, n))
    ensures forall i, j | 0 <= i < j < n :: Places(f, ptr, n)[i] != Places(f, ptr, n)[j]
  {
    hide Blocks;
    forall i, j | 0 <= i < j < n
      ensures Places(f, ptr, n)[i] != Places(f, ptr, n)[j]
    {
      PageInRange(ptr, n, i);
      PageInRange(ptr, n, j);
      var a, b := (ptr + i) / PAGE_SIZE, (ptr + j) / PAGE_SIZE;
      if a != b { assert FrameAt(f, a) != FrameAt(f, b); }
    }
  }

  lemma PageInRange(ptr: nat, n: nat, i: nat)
    requires i < n
    ensures ptr / PAGE_SIZE <= (ptr + i) / PAGE_SIZE < ptr / PAGE_SIZE + Blocks(ptr, n)
  {
  }

  /** A successful copy out followed by a copy in of the same range returns the same bytes, when the
      pages of the range lead to different frames. */
  lemma OutThenIn(f: seq<nat>, ptr: nat, bs: seq<nat>, frames: seq<seq<nat>>, r: int, frames': seq<seq<nat>>,
                  r': int, buffer: seq<nat>)
    requires |f| == PAGES && FramesOk(frames) && FramesOk(frames')
    requires CopiedOut(f, ptr, bs, frames, r, frames') && r >= 0
    requires CopiedIn(f, ptr, |bs|, frames', r', buffer)
    requires DistinctFrames(f, ptr / PAGE_SIZE, Blocks(ptr, |bs|))
    ensures r' == r == |bs| && buffer == bs
  {
    hide WriteAll, ReadAll, Places, AllUserOk, Blocks;
    var ps := Places(f, ptr, |bs|);
    DistinctPlaces(f, ptr, |bs|);
    RoundTripExactly(frames, ps, bs);
  }

  /** A copy out changes no byte of physical memory that the range does not lead to. */
  lemma OutKeepsOthers(f: seq<nat>, ptr: nat, bs: seq<nat>, frames: seq<seq<nat>>, r: int, frames': seq<seq<nat>>,
                       q: Place)
    requires |f| == PAGES && FramesOk(frames) && PlaceOk(q)
    requires CopiedOut(f, ptr, bs, frames, r, frames')
    requires q !in Places(f, ptr, |bs|)
    ensures FramesOk(frames') && ReadAt(frames', q) == ReadAt(frames, q)
  {
    hide WriteAll, Places, AllUserOk;
    if r != -1 {
      WriteAllOther(frames, Places(f, ptr, |bs|), bs, q);
    }
  }
}
