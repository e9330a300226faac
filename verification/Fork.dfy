/** Copying an address space for fork (kernel/process.c): every present user page gets a fresh frame
with the same contents and flags. */
module Fork {
  import opened Bits
  import opened Outcomes
  import opened Vmm
  import opened UserCopy
  import Pmm

  /** The two directories and the kernel's share nothing. */
  ghost predicate Separate(mem: Memory, child: PageDirectory, parent: PageDirectory)
    reads mem, mem.machine.kernel, mem.machine.kernel.tables, mem.machine.kernel.Tabs
    reads child, child.tables, child.Tabs, parent, parent.tables, parent.Tabs
    ensures Separate(mem, child, parent) ==>
            mem.machine.Ready(child) && mem.machine.Ready(parent) && child.Valid() && parent.Valid() &&
            mem.machine.kernel.Valid() && FramesOk(mem.frames) &&
            parent != mem.machine.kernel && parent.tables != mem.machine.kernel.tables &&
            parent != child && parent.tables != child.tables &&
            parent.physicalTables != mem.machine.kernel.physicalTables &&
            parent.physicalTables != child.physicalTables &&
            parent.physicalTables !in child.Tabs + mem.machine.kernel.Tabs &&
            child.physicalTables !in child.Tabs + mem.machine.kernel.Tabs &&
            child.physicalTables != mem.machine.kernel.physicalTables &&
            mem.machine.pmm.words as object != child.physicalTables &&
            mem.machine.pmm.words as object != parent.physicalTables &&
            mem.machine.pmm.words as object !in child.Tabs + mem.machine.kernel.Tabs + parent.Tabs &&
            32 * mem.machine.pmm.words.Length <= PAGES
  {
    var kernel := mem.machine.kernel;
    && mem.machine.Ready(child) && mem.machine.Ready(parent)
    && child != kernel && parent != kernel && child != parent
    && child.tables != parent.tables && child.physicalTables != parent.physicalTables
    && child.Tabs !! parent.Tabs
    && child.physicalTables !in parent.Tabs && parent.physicalTables !in child.Tabs
    && FramesOk(mem.frames) && 32 * mem.machine.pmm.words.Length <= PAGES
  }

  /** From `vmm_init` to two address spaces without pages: a state in which a fork can begin.  It stops
  for want of a frame, or of a kernel page once there is a kernel directory. */
  method Boot(pmm: Pmm.BlockMap, frames: seq<seq<nat>>)
    returns (ok: bool, machine: Machine?, mem: Memory?, child: PageDirectory?, parent: PageDirectory?)
    requires FramesOk(frames) && 32 * pmm.words.Length <= PAGES
    modifies pmm.words
    ensures ok ==> mem != null && child != null && parent != null && Separate(mem, child, parent)
    ensures ok ==> child.Present() == {} && parent.Present() == {}
    ensures ok ==> TablesAgree(child) && TablesAgree(parent) && Forkable(mem, child) && Forkable(mem, parent)
    ensures ok ==> Owned(child.Flat(), mem.machine.pmm.words[..]) && Owned(parent.Flat(), mem.machine.pmm.words[..])
    ensures machine != null ==> machine.Valid()
    ensures !ok ==>
              if machine == null then NoFrame(pmm.words[..])
              else Exhausted(pmm.words[..], machine.kernel.Flat())
  {
    hide Grew, Exhausted, NoFrame, And, OwnFrames, DirectMap, TableFrames, Pmm.UsedAt, Took, TookFrame, UsedGrew,
      PageDirectory.Flat, PageDirectory.Entry, Owned, NoOddTable, Agree, Odd;
    ok, machine, mem, child, parent := false, null, null, null, null;
    var booted, _ := VmmInit(pmm);
    if booted.Done? {
      machine := booted.value;
      var first := machine.NewDirectory(machine.kernel);
      if first.Done? {
        var second := machine.NewDirectory(first.value);
        if second.Done? {
          mem := new Memory(machine, frames);
          ok, child, parent := true, second.value, first.value;
          parent.NoEntries();
          child.NoEntries();
          parent.HardwareEntries();
          child.HardwareEntries();
          EmptyIsSound(parent.Flat(), pmm.words[..], parent.physicalTables[..]);
          EmptyIsSound(child.Flat(), pmm.words[..], child.physicalTables[..]);
        }
      }
    }
  }

  predicate UserPage(page: nat) {
    And(page, PRESENT) != 0 && And(page, USER) != 0
  }

  /** `map_page(get_table(v, kernel_directory), v, phys, flags)` */
  method KernelMap(mem: Memory, p: nat, phys: nat, flags: nat, ghost child: PageDirectory, ghost parent: PageDirectory)
    requires Separate(mem, child, parent) && p < PAGES
    modifies mem.machine.kernel.Tabs
    ensures Separate(mem, child, parent)
    ensures child.Flat() == old(child.Flat()) && parent.Flat() == old(parent.Flat())
    ensures child.Present() == old(child.Present())
    ensures mem.machine.kernel.Flat() == old(mem.machine.kernel.Flat())[p := Or(phys, flags)]
  {
    mem.machine.MapKernel(p, phys, flags, child);
  }

  method KernelSpace(mem: Memory, ghost child: PageDirectory, ghost parent: PageDirectory) returns (r: nat)
    requires Separate(mem, child, parent)
    modifies mem.machine.kernel, mem.machine.kernel.tables, mem.machine.kernel.physicalTables
    modifies mem.machine.kernel.Tabs, mem.machine.pmm.words
    ensures Separate(mem, child, parent) && mem.machine.pmm.words[..] == old(mem.machine.pmm.words[..])
    ensures child.Flat() == old(child.Flat()) && parent.Flat() == old(parent.Flat())
    ensures child.Present() == old(child.Present())
    ensures unchanged(mem.machine.kernel)
    ensures FoundSpace(old(mem.machine.kernel.Flat()), 1, r, mem.machine.kernel.Flat())
  {
    hide FoundSpace;
    r := mem.machine.KernelSpace(1, child);
  }

  method ChildMap(mem: Memory, p: nat, entry: nat, child: PageDirectory, ghost parent: PageDirectory)
    requires Separate(mem, child, parent) && p < PAGES && p / ENTRIES in child.Present()
    modifies child.Tabs
    ensures Separate(mem, child, parent)
    ensures parent.Flat() == old(parent.Flat()) && child.Present() == old(child.Present())
    ensures mem.machine.kernel.Flat() == old(mem.machine.kernel.Flat())
    ensures child.Flat() == old(child.Flat())[p := entry]
  {
    OrZero(entry);
    mem.machine.MapIn(child, p, entry, 0);
  }

  method ChildTable(mem: Memory, p: nat, child: PageDirectory, ghost parent: PageDirectory) returns (ok: bool)
    requires Separate(mem, child, parent) && p < PAGES
    modifies child, child.tables, child.physicalTables
    modifies mem.machine.kernel, mem.machine.kernel.tables, mem.machine.kernel.physicalTables
    modifies mem.machine.kernel.Tabs, mem.machine.pmm.words
    ensures Separate(mem, child, parent) && fresh(child.Tabs - old(child.Tabs))
    ensures child.Flat() == old(child.Flat()) && parent.Flat() == old(parent.Flat())
    ensures unchanged(mem.machine.kernel)
    ensures parent.Present() == old(parent.Present()) && unchanged(parent.physicalTables)
    ensures child.Present() == if ok then old(child.Present()) + {p / ENTRIES} else old(child.Present())
    ensures ok ==> Grew(old(mem.machine.kernel.Flat()), mem.machine.kernel.Flat())
    ensures ok ==> Gained(p / ENTRIES in old(child.Present()), p / ENTRIES, old(mem.machine.kernel.Flat()),
                          mem.machine.kernel.Flat(), old(child.physicalTables[..]), child.physicalTables[..],
                          old(mem.machine.pmm.words[..]), mem.machine.pmm.words[..])
    ensures !ok ==> child.physicalTables[..] == old(child.physicalTables[..])
    ensures !ok ==> Exhausted(mem.machine.pmm.words[..], mem.machine.kernel.Flat())
    ensures UsedGrew(old(mem.machine.pmm.words[..]), mem.machine.pmm.words[..])
  {
    hide Grew, UsedGrew, Gained;
    ok := mem.machine.GetTableAlloc(p, child);
  }

  // ----- what the clone looks like so far -----

  /** The child's entries, the block map, physical memory and the child's hardware entries at one moment. */
  datatype Snapshot = Snapshot(child: seq<nat>, words: seq<uint32>, frames: seq<seq<nat>>, tables: seq<nat>)

  function FrameNo(page: nat): nat {
    page / PAGE_SIZE % PAGES
  }

  ghost predicate SnapshotOk(s: Snapshot) {
    |s.child| == PAGES && 32 * |s.words| <= PAGES && FramesOk(s.frames)
  }

  /** Page `p` was dealt with: a present user page has an entry for a frame that was free at the
      beginning, with the same contents and the same ten low bits; other pages are as they were.  In a
      table of `lost` the frame was copied onto itself, and holds what it held at the beginning. */
  ghost predicate Cloned(f: seq<nat>, s0: Snapshot, s: Snapshot, p: nat, lost: set<nat>)
    requires |f| == PAGES && SnapshotOk(s0) && SnapshotOk(s) && p < PAGES
  {
    if UserPage(f[p]) then
      var b := s.child[p] / PAGE_SIZE;
      && s0.child[p] == 0
      && s.child[p] == b * PAGE_SIZE + f[p] % 1024
      && b < PAGES && !Pmm.UsedAt(s0.words, b) && Pmm.UsedAt(s.words, b)
      && s.frames[b] == s0.frames[if p / ENTRIES in lost then b else FrameNo(f[p])]
    else
      !Odd(f[p]) && s.child[p] == s0.child[p]
  }

  /** An entry that a user directory should not hold: reserved, or not present and no guard page. */
  predicate Odd(page: nat) {
    page == RESERVED || (page != 0 && page != GUARD && And(page, PRESENT) == 0)
  }

  /** By the bits of the entry: bit 0 is present, bit 2 is the user's. */
  lemma EntryKinds(page: nat)
    ensures UserPage(page) <==> page % 2 == 1 && page / 4 % 2 == 1
    ensures Odd(page) <==> page == 0xFFFF100 || (page != 0 && page != 0xFFFF_F000 && page % 2 == 0)
    ensures OddTable(page) <==> page != 0 && page % 2 == 0
  {
    hide And;
    AndOne(page);
    UserBit(page);
  }

  /** Why page `p` cannot be cloned: an odd entry, or the child has one already. */
  predicate Refused(f: seq<nat>, s0: Snapshot, p: nat)
    requires |f| == PAGES && p < PAGES && |s0.child| == PAGES
  {
    Odd(f[p]) || (UserPage(f[p]) && s0.child[p] != 0)
  }

  /** Why the clone stops: a page that cannot be cloned, no frame, or no kernel page for a mapping. */
  ghost predicate CloneFails(f: seq<nat>, s0: Snapshot, w: seq<uint32>, g: seq<nat>) {
    || Exhausted(w, g)
    || (|f| == PAGES && |s0.child| == PAGES && exists p: nat | p < PAGES :: Refused(f, s0, p))
  }

  lemma FailsAt(f: seq<nat>, s0: Snapshot, w: seq<uint32>, g: seq<nat>, p: nat)
    requires |f| == PAGES && |s0.child| == PAGES && p < PAGES && Refused(f, s0, p)
    ensures CloneFails(f, s0, w, g)
  {
  }

  lemma NoFrameFails(f: seq<nat>, s0: Snapshot, w: seq<uint32>, g: seq<nat>)
    requires NoFrame(w)
    ensures CloneFails(f, s0, w, g)
  {
  }

  lemma FullFails(f: seq<nat>, s0: Snapshot, w: seq<uint32>, g: seq<nat>)
    requires Exhausted(w, g)
    ensures CloneFails(f, s0, w, g)
  {
  }

  ghost predicate ClonedFrames(f: seq<nat>, s: Snapshot, p: nat, q: nat)
    requires |f| == PAGES && SnapshotOk(s) && p < PAGES && q < PAGES
  {
    UserPage(f[p]) && UserPage(f[q]) ==> s.child[p] / PAGE_SIZE != s.child[q] / PAGE_SIZE
  }

  /** The pages below `m` are cloned into distinct frames, those above are untouched, and no frame
      changed but those that went into use. */
  ghost predicate ClonedBelow(f: seq<nat>, s0: Snapshot, s: Snapshot, m: nat, lost: set<nat>) {
    && |f| == PAGES && SnapshotOk(s0) && SnapshotOk(s) && m <= PAGES
    && (forall p: nat | p < m :: Cloned(f, s0, s, p, lost))
    && (forall p: nat | m <= p < PAGES :: s.child[p] == s0.child[p])
    && (forall p: nat, q: nat | p < q < m :: ClonedFrames(f, s, p, q))
    && UsedGrew(s0.words, s.words)
    && (forall b: nat | Pmm.UsedAt(s0.words, b) && b < PAGES :: s.frames[b] == s0.frames[b])
    && (forall b: nat | !Pmm.UsedAt(s.words, b) && b < PAGES :: s.frames[b] == s0.frames[b])
    && Tabled(f, s0, s, m)
  }

  /** The child got a hardware entry at `t`. */
  ghost predicate NewTable(s0: Snapshot, s: Snapshot, t: nat) {
    t < |s.tables| == |s0.tables| && s.tables[t] != s0.tables[t]
  }

  /** It is present, writable and the user's, and of a frame that was free. */
  ghost predicate TableOk(s0: Snapshot, s: Snapshot, t: nat)
    requires t < |s.tables|
  {
    var b := s.tables[t] / PAGE_SIZE;
    0 < b && s.tables[t] == b * PAGE_SIZE + 7 && !Pmm.UsedAt(s0.words, b) && Pmm.UsedAt(s.words, b)
  }

  /** The child's new tables are in fresh frames, no two in the same, and none in that of a page below `m`. */
  ghost predicate Tabled(f: seq<nat>, s0: Snapshot, s: Snapshot, m: nat) {
    && |s.tables| == |s0.tables|
    && (forall t: nat | NewTable(s0, s, t) :: TableOk(s0, s, t))
    && (forall t: nat, u: nat | NewTable(s0, s, t) && NewTable(s0, s, u) && t != u ::
          s.tables[t] / PAGE_SIZE != s.tables[u] / PAGE_SIZE)
    && forall t: nat, p: nat | NewTable(s0, s, t) && p < m && p < |f| && p < |s.child| ::
         UserPage(f[p]) ==> s.child[p] / PAGE_SIZE != s.tables[t] / PAGE_SIZE
  }

  lemma TabledPage(f: seq<nat>, s0: Snapshot, s: Snapshot, s': Snapshot, m: nat, b: nat)
    requires Tabled(f, s0, s, m) && m < |s.child| == |s'.child| && m < |f| && s'.tables == s.tables
    requires UsedGrew(s.words, s'.words) && !Pmm.UsedAt(s.words, b)
    requires s'.child == s.child[m := b * PAGE_SIZE + f[m] % 1024]
    ensures Tabled(f, s0, s', m + 1)
  {
    hide Pmm.UsedAt, UserPage;
    EntryParts(b, f[m] % 1024);
    forall t: nat | NewTable(s0, s', t)
      ensures NewTable(s0, s, t) && TableOk(s0, s', t) && s'.tables[t] / PAGE_SIZE != b
    {
      assert NewTable(s0, s, t);
      assert TableOk(s0, s, t);
    }
  }

  lemma TabledSkip(f: seq<nat>, s0: Snapshot, s: Snapshot, m: nat)
    requires Tabled(f, s0, s, m) && m < |f| && !UserPage(f[m])
    ensures Tabled(f, s0, s, m + 1)
  {
    hide UserPage, TableOk;
  }

  /** One more table, in a frame that was free until now. */
  lemma TabledTable(f: seq<nat>, s0: Snapshot, s: Snapshot, s': Snapshot, m: nat, had: bool, i: nat, k: seq<nat>,
                    k': seq<nat>)
    requires Tabled(f, s0, s, m) && Gained(had, i, k, k', s.tables, s'.tables, s.words, s'.words)
    requires s'.child == s.child && UsedGrew(s.words, s'.words) && UsedGrew(s0.words, s.words)
    requires forall p: nat | p < m && p < |f| && p < |s.child| ::
               UserPage(f[p]) ==> Pmm.UsedAt(s.words, s.child[p] / PAGE_SIZE)
    ensures Tabled(f, s0, s', m)
  {
    hide Pmm.UsedAt, UserPage, Took, Pmm.Fits, Pmm.Marked;
    if !had { FreshBlock(s.words, s'.tables[i] / PAGE_SIZE, s'.words); }
    forall t: nat | NewTable(s0, s', t)
      ensures TableOk(s0, s', t)
      ensures had || t != i ==> NewTable(s0, s, t) && Pmm.UsedAt(s.words, s'.tables[t] / PAGE_SIZE)
    {
      if had || t != i {
        assert NewTable(s0, s, t);
        assert TableOk(s0, s, t);
      }
    }
  }

  /** The frames of the parent's user pages are marked as used. */
  ghost predicate Owned(f: seq<nat>, w: seq<uint32>) {
    forall p | 0 <= p < |f| :: UserPage(f[p]) ==> Pmm.UsedAt(w, FrameNo(f[p]))
  }

  lemma MarkedGrew(w: seq<uint32>, v: seq<uint32>, b: nat)
    requires Pmm.Fits(w, b, 1) && Pmm.Marked(w, v, b, 1, true)
    ensures UsedGrew(w, v) && !Pmm.UsedAt(w, b) && Pmm.UsedAt(v, b) && b < 32 * |w|
  {
    assert Pmm.FreeAt(w, b);
  }

  /** One more page, cloned into block `b`. */
  lemma CloneStep(f: seq<nat>, s0: Snapshot, s: Snapshot, s': Snapshot, m: nat, b: nat,
                  lost: set<nat>)
    requires ClonedBelow(f, s0, s, m, lost) && m < PAGES && Owned(f, s0.words)
    requires UserPage(f[m]) && s.child[m] == 0
    requires Pmm.Fits(s.words, b, 1) && Pmm.Marked(s.words, s'.words, b, 1, true)
    requires b < PAGES && s'.child == s.child[m := b * PAGE_SIZE + f[m] % 1024]
    requires s'.frames == s.frames[b := s.frames[if m / ENTRIES in lost then b else FrameNo(f[m])]]
    requires s'.tables == s.tables
    ensures ClonedBelow(f, s0, s', m + 1, lost)
  {
    hide Pmm.UsedAt, UserPage, Tabled;
    MarkedGrew(s.words, s'.words, b);
    TabledPage(f, s0, s, s', m, b);
    forall p: nat | p < m + 1
      ensures Cloned(f, s0, s', p, lost)
    {
      if p < m { assert Cloned(f, s0, s, p, lost); }
    }
    forall p: nat, q: nat | p < q < m + 1
      ensures ClonedFrames(f, s', p, q)
    {
      if p < m { assert Cloned(f, s0, s, p, lost); }
      if q < m { assert ClonedFrames(f, s, p, q); }
    }
  }

  lemma SkipStep(f: seq<nat>, s0: Snapshot, s: Snapshot, m: nat, lost: set<nat>)
    requires ClonedBelow(f, s0, s, m, lost) && m < PAGES && !UserPage(f[m]) && !Odd(f[m])
    ensures ClonedBelow(f, s0, s, m + 1, lost)
  {
    hide Pmm.UsedAt, UserPage, UsedGrew, Tabled;
    TabledSkip(f, s0, s, m);
    forall p: nat, q: nat | p < q < m + 1
      ensures ClonedFrames(f, s, p, q)
    {
      if q < m { assert ClonedFrames(f, s, p, q); }
    }
  }

  /** Allocating a page table in between only marks more blocks as used. */
  lemma TableStep(f: seq<nat>, s0: Snapshot, s: Snapshot, s': Snapshot, m: nat, lost: set<nat>, had: bool, i: nat,
                  k: seq<nat>, k': seq<nat>)
    requires ClonedBelow(f, s0, s, m, lost) && Gained(had, i, k, k', s.tables, s'.tables, s.words, s'.words)
    requires s'.child == s.child && s'.frames == s.frames && UsedGrew(s.words, s'.words)
    ensures ClonedBelow(f, s0, s', m, lost)
  {
    hide Pmm.UsedAt, UserPage, Tabled, Gained;
    forall p: nat | p < m
      ensures Cloned(f, s0, s', p, lost)
      ensures UserPage(f[p]) ==> Pmm.UsedAt(s.words, s.child[p] / PAGE_SIZE)
    {
      assert Cloned(f, s0, s, p, lost);
    }
    forall p: nat, q: nat | p < q < m
      ensures ClonedFrames(f, s', p, q)
    {
      assert ClonedFrames(f, s, p, q);
    }
    TabledTable(f, s0, s, s', m, had, i, k, k');
  }

  ghost function Snap(mem: Memory, child: PageDirectory): Snapshot
    requires child.Valid()
    reads mem, mem.machine.pmm.words, child, child.tables, child.physicalTables, child.Tabs
  {
    Snapshot(child.Flat(), mem.machine.pmm.words[..], mem.frames, child.physicalTables[..])
  }

  /** The kernel's directory is as it began except at the two temporary pages. */
  ghost predicate TempOnly(g: seq<nat>, g': seq<nat>, a: nat, b: nat) {
    |g'| == |g| && forall p | 0 <= p < |g| && p != a && p != b :: g'[p] == g[p]
  }

  /** Copy one present user page: a fresh frame, both frames mapped at the temporary pages, `memcpy`. */
  method ClonePage(mem: Memory, child: PageDirectory, parent: PageDirectory, p: nat, page: nat, a: nat, b: nat,
                   ghost s0: Snapshot, ghost lost: set<nat>) returns (ok: bool)
    requires Separate(mem, child, parent) && p < PAGES && p / ENTRIES in child.Present()
    requires page == parent.Flat()[p] && UserPage(page) && a < PAGES && b < PAGES
    requires p / ENTRIES in lost <==> a == b
    requires ClonedBelow(parent.Flat(), s0, Snap(mem, child), p, lost) && Owned(parent.Flat(), s0.words)
    modifies mem`frames, child.Tabs, mem.machine.kernel.Tabs, mem.machine.pmm.words
    ensures Separate(mem, child, parent)
    ensures parent.Flat() == old(parent.Flat()) && child.Present() == old(child.Present())
    ensures TempOnly(old(mem.machine.kernel.Flat()), mem.machine.kernel.Flat(), a, b)
    ensures unchanged(child.physicalTables, parent.physicalTables)
    ensures ok ==> ClonedBelow(parent.Flat(), s0, Snap(mem, child), p + 1, lost)
    ensures !ok ==> CloneFails(parent.Flat(), s0, mem.machine.pmm.words[..], mem.machine.kernel.Flat())
  {
    hide Separate, PageDirectory.Valid, PageDirectory.Present, PageDirectory.Flat, PageDirectory.Entry, Machine.Ready,
      Machine.Valid, Or, And, AndNot, UserPage, ClonedBelow, Owned, Pmm.Fits, Pmm.Marked, FrameNo;
    ghost var s := Snap(mem, child);
    var entry := child.GetPage(p);
    if entry != 0 {
      TakenFails(parent.Flat(), s0, s, mem.machine.pmm.words[..], mem.machine.kernel.Flat(), p, lost);
      return false;
    }
    var phys := AllocFrame(mem, child, parent);
    if phys == 0 {
      NoFrameFails(parent.Flat(), s0, mem.machine.pmm.words[..], mem.machine.kernel.Flat());
      return false;
    }
    MarkedBound(s.words, mem.machine.pmm.words[..], phys / PAGE_SIZE);
    CopyThrough(mem, page, phys, a, b, child, parent);
    EntryBits(page, phys);
    ChildMap(mem, p, Or(phys, And(page, FLAG_MASK)), child, parent);
    ClonedEntry(parent.Flat(), s0, s, p, lost);
    CloneStep(parent.Flat(), s0, s, Snap(mem, child), p, phys / PAGE_SIZE, lost);
    return true;
  }

  lemma TakenFails(f: seq<nat>, s0: Snapshot, s: Snapshot, w: seq<uint32>, g: seq<nat>, p: nat,
                   lost: set<nat>)
    requires ClonedBelow(f, s0, s, p, lost) && p < PAGES && UserPage(f[p]) && s.child[p] != 0
    ensures CloneFails(f, s0, w, g)
  {
    hide UserPage, Odd, Pmm.UsedAt;
    FailsAt(f, s0, w, g, p);
  }

  /** Map the old and the new frame at the temporary pages and copy one to the other; a single temporary
      page shows the new frame on both sides. */
  method CopyThrough(mem: Memory, page: nat, phys: nat, a: nat, b: nat, ghost child: PageDirectory,
                     ghost parent: PageDirectory)
    requires Separate(mem, child, parent) && a < PAGES && b < PAGES
    requires phys % PAGE_SIZE == 0 && phys / PAGE_SIZE < PAGES
    modifies mem`frames, mem.machine.kernel.Tabs
    ensures Separate(mem, child, parent)
    ensures child.Flat() == old(child.Flat()) && parent.Flat() == old(parent.Flat())
    ensures child.Present() == old(child.Present())
    ensures TempOnly(old(mem.machine.kernel.Flat()), mem.machine.kernel.Flat(), a, b)
    ensures FrameNo(page) < PAGES == |old(mem.frames)|
    ensures mem.frames == old(mem.frames)[phys / PAGE_SIZE :=
                                            old(mem.frames)[if a == b then phys / PAGE_SIZE else FrameNo(page)]]
  {
    hide Separate, PageDirectory.Valid, PageDirectory.Present, PageDirectory.Flat, PageDirectory.Entry, Machine.Ready,
      Machine.Valid, Or, And, AndNot;
    EntryBits(page, phys);
    KernelMap(mem, a, AndNot(page, FLAG_MASK), PRESENT + READWRITE, child, parent);
    KernelMap(mem, b, phys, PRESENT + READWRITE, child, parent);
    CopyFrame(mem, b, a, child, parent);
  }

  lemma ClonedEntry(f: seq<nat>, s0: Snapshot, s: Snapshot, m: nat, lost: set<nat>)
    requires ClonedBelow(f, s0, s, m, lost)
    ensures m <= PAGES && |f| == PAGES && SnapshotOk(s0) && SnapshotOk(s)
  {
  }

  lemma MarkedBound(w: seq<uint32>, v: seq<uint32>, b: nat)
    requires Pmm.Fits(w, b, 1)
    ensures b < 32 * |w|
  {
  }

  /** `memcpy((void *)dst, (void *)src, BLOCK_SIZE)` between two kernel pages. */
  method CopyFrame(mem: Memory, dst: nat, src: nat, ghost child: PageDirectory, ghost parent: PageDirectory)
    requires Separate(mem, child, parent) && dst < PAGES && src < PAGES
    modifies mem`frames
    ensures Separate(mem, child, parent)
    ensures mem.frames == old(mem.frames)[FrameNo(mem.machine.kernel.Flat()[dst]) :=
                                          old(mem.frames)[FrameNo(mem.machine.kernel.Flat()[src])]]
  {
    var from := mem.machine.kernel.GetPage(src);
    var to := mem.machine.kernel.GetPage(dst);
    mem.frames := mem.frames[FrameNo(to) := mem.frames[FrameNo(from)]];
  }

  /** What the masks and flags do to the two entries. */
  lemma EntryBits(page: nat, phys: nat)
    requires phys % PAGE_SIZE == 0 && phys / PAGE_SIZE < PAGES
    ensures FrameNo(Or(AndNot(page, FLAG_MASK), PRESENT + READWRITE)) == FrameNo(page)
    ensures FrameNo(Or(phys, PRESENT + READWRITE)) == phys / PAGE_SIZE
    ensures Or(phys, And(page, FLAG_MASK)) == phys / PAGE_SIZE * PAGE_SIZE + page % 1024
  {
    hide Or, And, AndNot, Pow2;
    Pow2Values();
    LowMask(page, 10);
    OrKeepsFrame(AndNot(page, FLAG_MASK));
    OrKeepsFrame(phys);
    OrDisjoint(phys, page % 1024, 12);
    MaskedFrame(page);
  }

  lemma MaskedFrame(page: nat)
    ensures (page - page % 1024) / PAGE_SIZE == page / PAGE_SIZE
  {
    var x := page / 1024;
    assert page - page % 1024 == x * 1024;
    ShiftDown(x);
    assert page / PAGE_SIZE == x / 4;
  }

  lemma ShiftDown(x: nat)
    ensures x * 1024 / PAGE_SIZE == x / 4
  {
  }

  /** `pmm_alloc_blocks_safe(1)`, 0 where it stops. */
  method AllocFrame(mem: Memory, ghost child: PageDirectory, ghost parent: PageDirectory) returns (phys: nat)
    requires Separate(mem, child, parent)
    modifies mem.machine.pmm.words
    ensures Separate(mem, child, parent)
    ensures child.Flat() == old(child.Flat()) && parent.Flat() == old(parent.Flat())
    ensures child.Present() == old(child.Present())
    ensures mem.machine.kernel.Flat() == old(mem.machine.kernel.Flat())
    ensures phys != 0 ==>
            && phys % PAGE_SIZE == 0
            && Pmm.Fits(old(mem.machine.pmm.words[..]), phys / PAGE_SIZE, 1)
            && Pmm.Marked(old(mem.machine.pmm.words[..]), mem.machine.pmm.words[..], phys / PAGE_SIZE, 1, true)
    ensures phys == 0 ==> NoFrame(mem.machine.pmm.words[..])
  {
    hide Pmm.Fits, Pmm.Marked, NoFrame;
    ghost var w := mem.machine.pmm.words[..];
    var r := mem.machine.pmm.AllocBlocks(1);
    AllocNone(w, r, mem.machine.pmm.words[..]);
    phys := if r.Stopped? then 0 else r.value;
  }

  /** One entry of `page_directory_clone_table`; false where the original stops. */
  method CloneEntry(mem: Memory, child: PageDirectory, parent: PageDirectory, t: nat, i: nat, a: nat, b: nat,
                    ghost s0: Snapshot, ghost lost: set<nat>) returns (ok: bool)
    requires Separate(mem, child, parent) && t < ENTRIES && i < ENTRIES && a < PAGES && b < PAGES
    requires t in child.Present() && t in parent.Present() && (t in lost <==> a == b)
    requires ClonedBelow(parent.Flat(), s0, Snap(mem, child), t * ENTRIES + i, lost) && Owned(parent.Flat(), s0.words)
    modifies mem`frames, child.Tabs, mem.machine.kernel.Tabs, mem.machine.pmm.words
    ensures Separate(mem, child, parent)
    ensures parent.Flat() == old(parent.Flat()) && child.Present() == old(child.Present())
    ensures TempOnly(old(mem.machine.kernel.Flat()), mem.machine.kernel.Flat(), a, b)
    ensures unchanged(child.physicalTables, parent.physicalTables)
    ensures ok ==> ClonedBelow(parent.Flat(), s0, Snap(mem, child), t * ENTRIES + i + 1, lost)
    ensures !ok ==> CloneFails(parent.Flat(), s0, mem.machine.pmm.words[..], mem.machine.kernel.Flat())
  {
    hide Separate, PageDirectory.Valid, PageDirectory.Present, PageDirectory.Flat, PageDirectory.Entry, Machine.Ready,
      Machine.Valid, And, UserPage, ClonedBelow, Owned;
    var p := t * ENTRIES + i;
    IndexOf(t, i);
    ClonedEntry(parent.Flat(), s0, Snap(mem, child), p, lost);
    var page := parent.GetTablePage(t, i);
    if page == 0 || page == GUARD {
      KernelPage(page);
      SkipStep(parent.Flat(), s0, Snap(mem, child), p, lost);
      return true;
    } else if page == RESERVED {
      FailsAt(parent.Flat(), s0, mem.machine.pmm.words[..], mem.machine.kernel.Flat(), p);
      return false;
    } else if And(page, PRESENT) != 0 && And(page, USER) == 0 {
      NotUser(page);
      SkipStep(parent.Flat(), s0, Snap(mem, child), p, lost);
      return true;
    } else if And(page, PRESENT) != 0 && And(page, USER) != 0 {
      IsUser(page);
      ok := ClonePage(mem, child, parent, p, page, a, b, s0, lost);
    } else {
      FailsAt(parent.Flat(), s0, mem.machine.pmm.words[..], mem.machine.kernel.Flat(), p);
      return false;
    }
  }

  lemma IndexOf(t: nat, i: nat)
    requires t < ENTRIES && i < ENTRIES
    ensures (t * ENTRIES + i) / ENTRIES == t && t * ENTRIES + i < PAGES
  {
  }

  /** The two temporary kernel pages; -1 for either stops at the next `map_page`.  They are one and the same
      if and only if only the last page is left. */
  method TempPages(mem: Memory, ghost child: PageDirectory, ghost parent: PageDirectory)
    returns (ok: bool, a: nat, b: nat)
    requires Separate(mem, child, parent)
    modifies mem.machine.kernel, mem.machine.kernel.tables, mem.machine.kernel.physicalTables
    modifies mem.machine.kernel.Tabs, mem.machine.pmm.words
    ensures Separate(mem, child, parent) && mem.machine.pmm.words[..] == old(mem.machine.pmm.words[..])
    ensures child.Flat() == old(child.Flat()) && parent.Flat() == old(parent.Flat())
    ensures child.Present() == old(child.Present()) && unchanged(mem.machine.kernel)
    ensures unchanged(child.physicalTables, parent.physicalTables)
    ensures ok ==> a < PAGES && b < PAGES && (a == b <==> FirstFree(old(mem.machine.kernel.Flat()), PAGES - 1))
    ensures ok ==> 1 <= a && old(mem.machine.kernel.Flat())[a] == 0 == old(mem.machine.kernel.Flat())[b]
    ensures ok ==> TempOnly(old(mem.machine.kernel.Flat()), mem.machine.kernel.Flat(), a, b)
    ensures !ok ==> Exhausted(mem.machine.pmm.words[..], mem.machine.kernel.Flat())
  {
    hide Separate, PageDirectory.Valid, PageDirectory.Present, PageDirectory.Flat, PageDirectory.Entry, Machine.Ready,
      Machine.Valid, FoundSpace;
    ghost var g := mem.machine.kernel.Flat();
    var oldkv := KernelSpace(mem, child, parent);
    if oldkv == NONE {
      SpaceGone(g, mem.machine.kernel.Flat());
      return false, 0, 0;
    }
    ghost var g1 := mem.machine.kernel.Flat();
    FoundFirstFree(g, oldkv, g1);
    var newkv := KernelSpace(mem, child, parent);
    if newkv == NONE {
      SpaceGone(g1, mem.machine.kernel.Flat());
      return false, 0, 0;
    }
    FoundFirstFree(g1, newkv, mem.machine.kernel.Flat());
    SamePageExactly(g, oldkv, g1, newkv, mem.machine.kernel.Flat());
    FoundIs(g, oldkv, g1);
    FoundIs(g1, newkv, mem.machine.kernel.Flat());
    return true, oldkv / PAGE_SIZE, newkv / PAGE_SIZE;
  }

  /** `page_directory_clone_table` for table `t`; false where the original stops. */
  method CloneTable(mem: Memory, child: PageDirectory, parent: PageDirectory, t: nat, ghost s0: Snapshot,
                    ghost lost: set<nat>) returns (ok: bool)
    requires Separate(mem, child, parent) && t < ENTRIES && t in child.Present() && t in parent.Present()
    requires t in lost <==> FirstFree(mem.machine.kernel.Flat(), PAGES - 1)
    requires ClonedBelow(parent.Flat(), s0, Snap(mem, child), t * ENTRIES, lost) && Owned(parent.Flat(), s0.words)
    modifies mem`frames, child.Tabs, mem.machine.pmm.words
    modifies mem.machine.kernel, mem.machine.kernel.tables, mem.machine.kernel.physicalTables
    modifies mem.machine.kernel.Tabs
    ensures Separate(mem, child, parent) && parent.Flat() == old(parent.Flat())
    ensures child.Present() == old(child.Present())
    ensures unchanged(mem.machine.kernel)
    ensures parent.Present() == old(parent.Present())
    ensures unchanged(child.physicalTables, parent.physicalTables)
    ensures ok ==> mem.machine.kernel.Flat() == old(mem.machine.kernel.Flat())
    ensures ok ==> SomeFree(mem.machine.kernel.Flat())
    ensures ok ==> ClonedBelow(parent.Flat(), s0, Snap(mem, child), t * ENTRIES + ENTRIES, lost)
    ensures !ok ==> CloneFails(parent.Flat(), s0, mem.machine.pmm.words[..], mem.machine.kernel.Flat())
  {
    hide Separate, PageDirectory.Valid, PageDirectory.Present, PageDirectory.Flat, PageDirectory.Entry, Machine.Ready,
      Machine.Valid, Or, UserPage, ClonedBelow, Owned, FoundSpace, FramesOk, FirstFree;
    ghost var f, g := parent.Flat(), mem.machine.kernel.Flat();
    var a, b;
    ok, a, b := TempPages(mem, child, parent);
    if !ok {
      FullFails(f, s0, mem.machine.pmm.words[..], mem.machine.kernel.Flat());
      return;
    }
    for i := 0 to ENTRIES
      invariant Separate(mem, child, parent) && parent.Flat() == f && child.Present() == old(child.Present())
      invariant parent.Present() == old(parent.Present()) && unchanged(mem.machine.kernel)
      invariant TempOnly(g, mem.machine.kernel.Flat(), a, b)
      invariant unchanged(child.physicalTables, parent.physicalTables)
      invariant ClonedBelow(f, s0, Snap(mem, child), t * ENTRIES + i, lost)
    {
      ok := CloneEntry(mem, child, parent, t, i, a, b, s0, lost);
      if !ok {
        return;
      }
    }
    ghost var g2 := mem.machine.kernel.Flat();
    UnmapTemp(mem, a, b, child, parent);
    TempGone(g, g2, mem.machine.kernel.Flat(), a, b);
    return true;
  }

  method UnmapTemp(mem: Memory, a: nat, b: nat, ghost child: PageDirectory, ghost parent: PageDirectory)
    requires Separate(mem, child, parent) && a < PAGES && b < PAGES
    modifies mem.machine.kernel.Tabs
    ensures Separate(mem, child, parent)
    ensures child.Flat() == old(child.Flat()) && parent.Flat() == old(parent.Flat())
    ensures child.Present() == old(child.Present())
    ensures mem.machine.kernel.Flat() == old(mem.machine.kernel.Flat())[a := 0][b := 0]
    ensures mem.machine.pmm.words[..] == old(mem.machine.pmm.words[..])
  {
    hide Separate, PageDirectory.Valid, PageDirectory.Present, PageDirectory.Flat, PageDirectory.Entry, Machine.Ready,
      Machine.Valid, Or;
    KernelMap(mem, a, 0, 0, child, parent);
    KernelMap(mem, b, 0, 0, child, parent);
    OrZero(0);
  }

  lemma KernelPage(page: nat)
    requires page == 0 || page == GUARD
    ensures !UserPage(page)
  {
    hide And;
    AndOne(page);
  }

  lemma NotUser(page: nat)
    requires And(page, USER) == 0
    ensures !UserPage(page)
  {
    hide And;
  }

  lemma IsUser(page: nat)
    requires And(page, PRESENT) != 0 && And(page, USER) != 0
    ensures UserPage(page)
  {
    hide And;
  }

  lemma TempGone(g: seq<nat>, g2: seq<nat>, g3: seq<nat>, a: nat, b: nat)
    requires TempOnly(g, g2, a, b) && a < |g| && b < |g| && g[a] == 0 && g[b] == 0
    requires g3 == g2[a := 0][b := 0]
    ensures g3 == g
  {
  }

  lemma NothingCloned(f: seq<nat>, s: Snapshot, lost: set<nat>)
    requires |f| == PAGES && SnapshotOk(s)
    ensures ClonedBelow(f, s, s, 0, lost)
  {
  }

  lemma SkipTable(f: seq<nat>, s0: Snapshot, s: Snapshot, m: nat, lost: set<nat>)
    requires ClonedBelow(f, s0, s, m, lost) && m + ENTRIES <= PAGES
    requires forall p: nat | m <= p < m + ENTRIES && p < PAGES :: f[p] == 0
    ensures ClonedBelow(f, s0, s, m + ENTRIES, lost)
  {
    hide ClonedBelow, UserPage;
    KernelPage(0);
    for i := 0 to ENTRIES
      invariant ClonedBelow(f, s0, s, m + i, lost)
    {
      ClonedEntry(f, s0, s, m + i, lost);
      SkipStep(f, s0, s, m + i, lost);
    }
  }

  // ----- the kernel's free pages -----

  /** How many of the pages from 1 on below `m` are unmapped. */
  function FreeUpTo(g: seq<nat>, m: nat): nat
    requires m <= |g|
  {
    if m <= 1 then 0 else FreeUpTo(g, m - 1) + if g[m - 1] == 0 then 1 else 0
  }

  /** How many pages but the first and the last are unmapped. */
  function FreeBelow(g: seq<nat>): nat
    requires |g| == PAGES
  {
    FreeUpTo(g, |g| - 1)
  }

  /** The tables below `t` that the child has to get. */
  ghost function NewTables(parent: set<nat>, child: set<nat>, t: nat): set<nat> {
    set u | u in parent && u !in child && u < t
  }

  /** The tables that are cloned when only the last kernel page is left, so that both temporary pages are
      that one: `find_vspace` does not reserve it.  Up to there the child's new tables have taken all others. */
  ghost function Lost(g: seq<nat>, parent: set<nat>, child: set<nat>): set<nat>
    requires |g| == PAGES
  {
    set t | t in parent && g[PAGES - 1] == 0 && FreeBelow(g) == |NewTables(parent, child, t + 1)|
  }

  /** From `g` to `k` the kernel used `c` pages for tables, and not the last one. */
  ghost predicate Room(g: seq<nat>, k: seq<nat>, c: nat) {
    |g| == |k| == PAGES && FreeBelow(k) + c == FreeBelow(g) && (k[PAGES - 1] == 0 <==> g[PAGES - 1] == 0)
  }

  ghost predicate SomeFree(k: seq<nat>) {
    exists q | 1 <= q < |k| :: k[q] == 0
  }

  lemma {:induction false} FreeUpToZero(g: seq<nat>, m: nat)
    requires m <= |g|
    ensures FreeUpTo(g, m) == 0 <==> forall p | 1 <= p < m :: g[p] != 0
  {
    if m > 1 { FreeUpToZero(g, m - 1); }
  }

  lemma {:induction false} FreeUpToTake(g: seq<nat>, q: nat, entry: nat, m: nat)
    requires 1 <= q < |g| && m <= |g| && g[q] == 0 && entry != 0
    ensures FreeUpTo(g, m) == FreeUpTo(g[q := entry], m) + if q < m then 1 else 0
  {
    if m > 1 { FreeUpToTake(g, q, entry, m - 1); }
  }

  lemma FreeBelowTake(k: seq<nat>, k': seq<nat>, entry: nat)
    requires |k| == PAGES && Took(k, k', entry) && entry != 0
    ensures |k'| == PAGES
    ensures if FreeBelow(k) > 0 then FreeBelow(k') + 1 == FreeBelow(k) && k'[PAGES - 1] == k[PAGES - 1]
            else !SomeFree(k')
  {
    var q: nat :| FirstFree(k, q) && k' == k[q := entry];
    FreeUpToTake(k, q, entry, |k| - 1);
    FreeUpToZero(k, |k| - 1);
    if FreeBelow(k) == 0 { assert q == PAGES - 1; }
  }

  lemma LastIsFirst(k: seq<nat>)
    requires |k| == PAGES
    ensures FirstFree(k, PAGES - 1) <==> k[PAGES - 1] == 0 && FreeBelow(k) == 0
    ensures FirstFree(k, PAGES - 1) ==> SomeFree(k)
  {
    FreeUpToZero(k, |k| - 1);
  }

  lemma NewTablesNext(parent: set<nat>, child: set<nat>, t: nat)
    ensures |NewTables(parent, child, t + 1)| ==
            |NewTables(parent, child, t)| + if t in parent && t !in child then 1 else 0
  {
    var more, less := NewTables(parent, child, t + 1), NewTables(parent, child, t);
    assert more == if t in parent && t !in child then less + {t} else less;
  }

  /** What getting table `t` leaves for the temporary pages. */
  lemma RoomStep(g: seq<nat>, parent: set<nat>, child: set<nat>, t: nat, k: seq<nat>, k': seq<nat>, pt: seq<nat>,
                 pt': seq<nat>, w: seq<uint32>, w': seq<uint32>)
    requires t in parent && Room(g, k, |NewTables(parent, child, t)|) && Gained(t in child, t, k, k', pt, pt', w, w')
    ensures |g| == |k'| == PAGES
    ensures t in Lost(g, parent, child) <==> FirstFree(k', PAGES - 1)
    ensures SomeFree(k') ==> Room(g, k', |NewTables(parent, child, t + 1)|)
  {
    hide Took, TookFrame, FreeBelow, FirstFree, SomeFree, NewTables;
    NewTablesNext(parent, child, t);
    if t !in child { FreeBelowTake(k, k', pt'[t] / PAGE_SIZE * PAGE_SIZE + 3); }
    LastIsFirst(k');
  }

  lemma RoomSkip(g: seq<nat>, parent: set<nat>, child: set<nat>, t: nat, k: seq<nat>)
    requires t !in parent && Room(g, k, |NewTables(parent, child, t)|)
    ensures Room(g, k, |NewTables(parent, child, t + 1)|)
  {
    hide NewTables, FreeBelow;
    NewTablesNext(parent, child, t);
  }

  lemma RoomStart(g: seq<nat>, parent: set<nat>, child: set<nat>)
    requires |g| == PAGES
    ensures Room(g, g, |NewTables(parent, child, 0)|)
  {
    hide FreeBelow;
    assert NewTables(parent, child, 0) == {};
  }

  /** The child's tables once those below `t` are cloned. */
  ghost function Grown(child: set<nat>, parent: set<nat>, t: nat): set<nat> {
    child + set u | u in parent && u < t
  }

  lemma GrownNext(child: set<nat>, parent: set<nat>, t: nat)
    ensures Grown(child, parent, 0) == child
    ensures t in parent ==> Grown(child, parent, t + 1) == Grown(child, parent, t) + {t}
    ensures t !in parent ==> Grown(child, parent, t + 1) == Grown(child, parent, t)
    ensures t in Grown(child, parent, t) <==> t in child
  {
  }

  lemma GrownAll(child: set<nat>, parent: set<nat>, t: nat)
    requires forall u | u in parent :: u < t
    ensures Grown(child, parent, t) == child + parent && NewTables(parent, child, t) == parent - child
  {
  }

  /** Hardware entries and tables that agreed still do, and no odd entry came in. */
  ghost predicate StillAgree(pt: seq<nat>, present: set<nat>, pt': seq<nat>, present': set<nat>) {
    Agree(pt, present) ==> Agree(pt', present') && (NoOddTable(pt) ==> NoOddTable(pt'))
  }

  lemma AgreeSame(pt: seq<nat>, present: set<nat>)
    ensures StillAgree(pt, present, pt, present)
  {
  }

  lemma AgreeTrans(pt: seq<nat>, present: set<nat>, pt': seq<nat>, present': set<nat>, pt2: seq<nat>,
                   present2: set<nat>)
    requires StillAgree(pt, present, pt', present') && StillAgree(pt', present', pt2, present2)
    ensures StillAgree(pt, present, pt2, present2)
  {
    hide Agree, NoOddTable;
  }

  lemma AgreeStep(i: nat, k: seq<nat>, k': seq<nat>, pt: seq<nat>, pt': seq<nat>, present: set<nat>,
                  w: seq<uint32>, w': seq<uint32>)
    requires Gained(i in present, i, k, k', pt, pt', w, w') && i < ENTRIES
    ensures StillAgree(pt, present, pt', present + {i})
  {
    hide Agree, NoOddTable, Gained;
    if Agree(pt, present) { GainedAgree(i, k, k', pt, pt', present, w, w'); }
  }

  /** One present table of the parent: `get_table_alloc` for the child and `page_directory_clone_table`. */
  method CloneNext(mem: Memory, child: PageDirectory, parent: PageDirectory, t: nat, ghost s0: Snapshot,
                   ghost g: seq<nat>, ghost have: set<nat>) returns (ok: bool)
    requires Separate(mem, child, parent) && t < ENTRIES && t in parent.Present() && |g| == PAGES
    requires Owned(parent.Flat(), s0.words) && child.Present() == Grown(have, parent.Present(), t)
    requires Room(g, mem.machine.kernel.Flat(), |NewTables(parent.Present(), have, t)|)
    requires ClonedBelow(parent.Flat(), s0, Snap(mem, child), t * ENTRIES, Lost(g, parent.Present(), have))
    modifies mem`frames, child, child.tables, child.physicalTables, child.Tabs, mem.machine.pmm.words
    modifies mem.machine.kernel, mem.machine.kernel.tables, mem.machine.kernel.physicalTables
    modifies mem.machine.kernel.Tabs
    ensures Separate(mem, child, parent) && parent.Flat() == old(parent.Flat())
    ensures parent.Present() == old(parent.Present()) && unchanged(parent.physicalTables)
    ensures unchanged(mem.machine.kernel) && fresh(child.Tabs - old(child.Tabs))
    ensures ok ==> Grew(old(mem.machine.kernel.Flat()), mem.machine.kernel.Flat())
    ensures ok ==> Room(g, mem.machine.kernel.Flat(), |NewTables(parent.Present(), have, t + 1)|)
    ensures ok ==> child.Present() == Grown(have, parent.Present(), t + 1)
    ensures StillAgree(old(child.physicalTables[..]), old(child.Present()), child.physicalTables[..], child.Present())
    ensures ok ==> ClonedBelow(parent.Flat(), s0, Snap(mem, child), t * ENTRIES + ENTRIES,
                               Lost(g, parent.Present(), have))
    ensures !ok ==> CloneFails(parent.Flat(), s0, mem.machine.pmm.words[..], mem.machine.kernel.Flat())
  {
    hide Separate, PageDirectory.Valid, PageDirectory.Present, PageDirectory.Flat, PageDirectory.Entry, Machine.Ready,
      Machine.Valid, And, UserPage, ClonedBelow, Owned, UsedGrew, Room, Lost, NewTables, Grown, Gained, Agree,
      StillAgree, NoOddTable, Grew, SomeFree, FirstFree;
    ghost var f, want, lost := parent.Flat(), parent.Present(), Lost(g, parent.Present(), have);
    ghost var s, k := Snap(mem, child), mem.machine.kernel.Flat();
    ghost var pt, present := child.physicalTables[..], child.Present();
    GrownNext(have, want, t);
    IndexOf(t, 0);
    ok := ChildTable(mem, t * ENTRIES, child, parent);
    if !ok {
      AgreeSame(pt, present);
      FullFails(f, s0, mem.machine.pmm.words[..], mem.machine.kernel.Flat());
      return;
    }
    ghost var s', k' := Snap(mem, child), mem.machine.kernel.Flat();
    TableStep(f, s0, s, s', t * ENTRIES, lost, t in present, t, k, k');
    RoomStep(g, want, have, t, k, k', pt, s'.tables, s.words, s'.words);
    AgreeStep(t, k, k', pt, s'.tables, present, s.words, s'.words);
    ok := CloneTable(mem, child, parent, t, s0, lost);
  }

  /** `page_directory_clone`; false where the original stops.  Afterwards every present user page of
      the parent is cloned, but for the contents of those in a table of `Lost`; the parent is as it was, and
      the kernel's directory has gained nothing but the mappings of the child's new page tables. */
  method PageDirectoryClone(mem: Memory, child: PageDirectory, parent: PageDirectory) returns (ok: bool)
    requires Separate(mem, child, parent) && TablesAgree(parent)
    requires Owned(parent.Flat(), mem.machine.pmm.words[..])
    modifies mem`frames, child, child.tables, child.physicalTables, child.Tabs, mem.machine.pmm.words
    modifies mem.machine.kernel, mem.machine.kernel.tables, mem.machine.kernel.physicalTables
    modifies mem.machine.kernel.Tabs
    ensures Separate(mem, child, parent) && TablesAgree(parent)
    ensures parent.Flat() == old(parent.Flat()) && parent.Present() == old(parent.Present())
    ensures ok ==> ClonedBelow(parent.Flat(), old(Snap(mem, child)), Snap(mem, child), PAGES,
                               Lost(old(mem.machine.kernel.Flat()), parent.Present(), old(child.Present())))
    ensures ok ==> Grew(old(mem.machine.kernel.Flat()), mem.machine.kernel.Flat())
    ensures ok ==> Room(old(mem.machine.kernel.Flat()), mem.machine.kernel.Flat(),
                        |parent.Present() - old(child.Present())|)
    ensures ok ==> child.Present() == old(child.Present()) + parent.Present()
    ensures unchanged(mem.machine.kernel, parent.physicalTables) && fresh(child.Tabs - old(child.Tabs))
    ensures StillAgree(old(child.physicalTables[..]), old(child.Present()), child.physicalTables[..], child.Present())
    ensures !ok ==>
              || (exists t: nat | t < ENTRIES :: OddTable(parent.physicalTables[t]))
              || CloneFails(parent.Flat(), old(Snap(mem, child)), mem.machine.pmm.words[..],
                            mem.machine.kernel.Flat())
  {
    hide Separate, PageDirectory.Valid, PageDirectory.Present, PageDirectory.Flat, PageDirectory.Entry, Machine.Ready,
      Machine.Valid, And, UserPage, ClonedBelow, Owned, UsedGrew, Room, Lost, NewTables, Grown, Gained, Agree,
      StillAgree, NoOddTable, Grew, SomeFree, FirstFree, OddTable, CloneFails;
    ghost var f, g, s0 := parent.Flat(), mem.machine.kernel.Flat(), Snap(mem, child);
    ghost var have, want := child.Present(), parent.Present();
    ghost var lost, pt := Lost(g, want, have), child.physicalTables[..];
    AgreeSame(pt, have);
    GrewRefl(g, s0.words);
    NothingCloned(f, s0, lost);
    RoomStart(g, want, have);
    GrownNext(have, want, 0);
    for t := 0 to ENTRIES
      invariant Separate(mem, child, parent) && TablesAgree(parent) && parent.Flat() == f && parent.Present() == want
      invariant unchanged(mem.machine.kernel, parent.physicalTables) && fresh(child.Tabs - old(child.Tabs))
      invariant Grew(g, mem.machine.kernel.Flat()) && Room(g, mem.machine.kernel.Flat(), |NewTables(want, have, t)|)
      invariant child.Present() == Grown(have, want, t)
      invariant StillAgree(pt, have, child.physicalTables[..], child.Present())
      invariant ClonedBelow(f, s0, Snap(mem, child), t * ENTRIES, lost)
    {
      TablePresent(parent.physicalTables[..], want, t);
      var tablePhys := parent.physicalTables[t];
      GrownNext(have, want, t);
      if And(tablePhys, PRESENT) == 0 {
        if tablePhys != 0 {
          OddHere(tablePhys);
          assert OddTable(parent.physicalTables[t]);
          return false;
        }
        parent.AbsentTable(t);
        SkipTable(f, s0, Snap(mem, child), t * ENTRIES, lost);
        RoomSkip(g, want, have, t, mem.machine.kernel.Flat());
      } else {
        ghost var k, pt', present := mem.machine.kernel.Flat(), child.physicalTables[..], child.Present();
        ok := CloneNext(mem, child, parent, t, s0, g, have);
        AgreeTrans(pt, have, pt', present, child.physicalTables[..], child.Present());
        if !ok {
          return;
        }
        GrewTrans(g, k, mem.machine.kernel.Flat(), [], [], []);
      }
    }
    GrownAll(have, want, ENTRIES);
    return true;
  }

  lemma OddHere(entry: nat)
    requires entry != 0 && And(entry, PRESENT) == 0
    ensures OddTable(entry)
  {
    hide And;
  }

  lemma TablePresent(pt: seq<nat>, present: set<nat>, t: nat)
    requires Agree(pt, present) && t < ENTRIES
    ensures |pt| == ENTRIES && (And(pt[t], PRESENT) != 0 <==> t in present)
  {
    hide And;
  }

  lemma OrZero(x: nat)
    ensures Or(x, 0) == x
  {
    WithZero(x);
  }

  // ----- isolation -----

  /** Address `a` lies in a present user page of `f`. */
  ghost predicate UserAddress(f: seq<nat>, a: nat)
    requires |f| == PAGES
  {
    UserPage(f[a / PAGE_SIZE % PAGES])
  }

  /** The child's frame for page `p`: fresh, so not one of the parent's. */
  lemma ChildFrame(f: seq<nat>, s0: Snapshot, s: Snapshot, p: nat, lost: set<nat>)
    requires ClonedBelow(f, s0, s, PAGES, lost) && p < PAGES && UserPage(f[p])
    ensures FrameNo(s.child[p]) == s.child[p] / PAGE_SIZE && !Pmm.UsedAt(s0.words, FrameNo(s.child[p]))
    ensures s.frames[FrameNo(s.child[p])] == s0.frames[FrameNo(if p / ENTRIES in lost then s.child[p] else f[p])]
    ensures s.child[p] % 1024 == f[p] % 1024
  {
    hide ClonedBelow, Pmm.UsedAt, UserPage, FramesOk;
    ClonedGet(f, s0, s, p, lost);
    EntryParts(s.child[p] / PAGE_SIZE, f[p] % 1024);
  }

  lemma ClonedGet(f: seq<nat>, s0: Snapshot, s: Snapshot, p: nat, lost: set<nat>)
    requires ClonedBelow(f, s0, s, PAGES, lost) && p < PAGES
    ensures |f| == PAGES && SnapshotOk(s0) && SnapshotOk(s) && Cloned(f, s0, s, p, lost)
  {
    hide Cloned, ClonedFrames;
  }

  lemma EntryParts(b: nat, x: nat)
    requires x < 1024
    ensures (b * PAGE_SIZE + x) / PAGE_SIZE == b && (b * PAGE_SIZE + x) % 1024 == x
  {
    PagePart(b, x);
    FlagPart(4 * b, x);
  }

  lemma PagePart(b: nat, x: nat)
    requires x < PAGE_SIZE
    ensures (b * PAGE_SIZE + x) / PAGE_SIZE == b
  {
  }

  lemma FlagPart(c: nat, x: nat)
    requires x < 1024
    ensures (c * 1024 + x) % 1024 == x
  {
  }

  /** No frame is shared: not between parent and child, and not between two pages of the child. */
  lemma FramesApart(f: seq<nat>, s0: Snapshot, s: Snapshot, p: nat, q: nat, lost: set<nat>)
    requires ClonedBelow(f, s0, s, PAGES, lost) && Owned(f, s0.words) && p < PAGES && q < PAGES
    requires UserPage(f[p]) && UserPage(f[q])
    ensures FrameNo(s.child[p]) != FrameNo(f[q])
    ensures p != q ==> FrameNo(s.child[p]) != FrameNo(s.child[q])
  {
    hide Pmm.UsedAt, UserPage;
    ChildFrame(f, s0, s, p, lost);
    ChildFrame(f, s0, s, q, lost);
    if p < q { assert ClonedFrames(f, s, p, q); }
    if q < p { assert ClonedFrames(f, s, q, p); }
  }

  /** A fork copies every page if and only if each frame given to a page in a table of `lost` happened to hold
      the bytes of the parent's frame before. */
  lemma CopiesExactly(f: seq<nat>, s0: Snapshot, s: Snapshot, lost: set<nat>)
    requires ClonedBelow(f, s0, s, PAGES, lost)
    ensures ClonedBelow(f, s0, s, PAGES, {}) <==>
              forall p: nat | p < PAGES && UserPage(f[p]) && p / ENTRIES in lost ::
                s0.frames[FrameNo(s.child[p])] == s0.frames[FrameNo(f[p])]
  {
    hide UserPage, Pmm.UsedAt;
    forall p: nat | p < PAGES && UserPage(f[p])
      ensures FrameNo(s.child[p]) == s.child[p] / PAGE_SIZE
    {
      ChildFrame(f, s0, s, p, lost);
    }
    if ClonedBelow(f, s0, s, PAGES, {}) {
      forall p: nat | p < PAGES && UserPage(f[p]) && p / ENTRIES in lost
        ensures s0.frames[FrameNo(s.child[p])] == s0.frames[FrameNo(f[p])]
      {
        assert Cloned(f, s0, s, p, lost) && Cloned(f, s0, s, p, {});
      }
    } else {
      assert exists p: nat | p < PAGES :: !Cloned(f, s0, s, p, {}) && Cloned(f, s0, s, p, lost);
    }
  }

  /** No free frame holds the bytes of one of the parent's pages. */
  ghost predicate Stale(f: seq<nat>, s0: Snapshot)
    requires |f| == PAGES && SnapshotOk(s0)
  {
    forall p: nat, b: nat | p < PAGES && b < PAGES && UserPage(f[p]) && !Pmm.UsedAt(s0.words, b) ::
      s0.frames[b] != s0.frames[FrameNo(f[p])]
  }

  /** A table of the parent with a user page is cloned through a single temporary page. */
  ghost predicate Clash(f: seq<nat>, lost: set<nat>) {
    exists p: nat | p < PAGES && p < |f| :: UserPage(f[p]) && p / ENTRIES in lost
  }

  /** Decided before the call: a fork copies every page if no table with a user page is in `Lost`, and only
      then, unless a free frame happens to hold the right bytes already. */
  lemma CopiesExactlyWithoutClash(f: seq<nat>, s0: Snapshot, s: Snapshot, lost: set<nat>)
    requires ClonedBelow(f, s0, s, PAGES, lost)
    ensures !Clash(f, lost) ==> ClonedBelow(f, s0, s, PAGES, {})
    ensures Stale(f, s0) ==> (ClonedBelow(f, s0, s, PAGES, {}) <==> !Clash(f, lost))
  {
    hide ClonedBelow, UserPage, Pmm.UsedAt, FramesOk;
    ClonedEntry(f, s0, s, PAGES, lost);
    CopiesExactly(f, s0, s, lost);
    if Stale(f, s0) && Clash(f, lost) {
      var p: nat :| p < PAGES && UserPage(f[p]) && p / ENTRIES in lost;
      ChildFrame(f, s0, s, p, lost);
    }
  }

  /** For an empty child, as `process_clone` has it, a fork that does not stop loses at most the last table:
      it does so if and only if the last kernel page is unmapped and the others that are unmapped are exactly
      as many as the parent has tables. */
  lemma LostOfFreshChild(g: seq<nat>, k: seq<nat>, parent: set<nat>, t: nat)
    requires Room(g, k, |parent - {}|)
    ensures t in Lost(g, parent, {}) <==>
              t in parent && (forall u | u in parent :: u <= t) && g[PAGES - 1] == 0 && FreeBelow(g) == |parent|
  {
    hide FreeBelow;
    var below := NewTables(parent, {}, t + 1);
    assert parent - {} == parent && below <= parent;
    if forall u | u in parent :: u <= t {
      assert below == parent;
    } else {
      var u :| u in parent && u > t;
      assert below <= parent - {u};
      Fewer(below, parent - {u});
    }
  }

  lemma Fewer(a: set<nat>, b: set<nat>)
    requires a <= b
    ensures |a| <= |b|
  {
    assert |b - a| == |b| - |a|;
  }

  /** An input on which a fork loses a page.  Page 1 and the last one are the only unmapped pages of the
      kernel, ... */
  function LossKernel(): (g: seq<nat>)
    ensures |g| == PAGES && g[1] == 0 == g[PAGES - 1] && forall p | 2 <= p < PAGES - 1 :: g[p] != 0
  {
    seq(PAGES, p => if p == 1 || p == PAGES - 1 then 0 else PRESENT)
  }

  /** ... the parent has one user page, in frame 1, ... */
  function LossParent(): (f: seq<nat>)
    ensures |f| == PAGES && f[0] == PAGE_SIZE + 7 && forall p | 1 <= p < PAGES :: f[p] == 0
  {
    seq(PAGES, p => if p == 0 then PAGE_SIZE + 7 else 0)
  }

  /** ... the child has none, the blocks 0 and 1 are in use, and only frame 1 holds ones. */
  function LossStart(): (s: Snapshot)
    ensures |s.tables| == ENTRIES && forall t | 0 <= t < ENTRIES :: s.tables[t] == 0
    ensures SnapshotOk(s) && s.words == [3] && forall p | 0 <= p < PAGES :: s.child[p] == 0
    ensures forall b | 0 <= b < PAGES :: s.frames[b][0] == if b == 1 then 1 else 0
  {
    Snapshot(seq(PAGES, p => 0), [3],
             seq(PAGES, b => if b == 1 then seq(PAGE_SIZE, i => 1) else seq(PAGE_SIZE, i => 0)),
             seq(ENTRIES, t => 0))
  }

  /** The child's table takes kernel page 1, and whatever free frame the child's page gets, the child reads 0
      where its parent reads 1. */
  lemma ForkLosesPage(s: Snapshot)
    ensures Owned(LossParent(), LossStart().words)
    ensures ClonedBelow(LossParent(), LossStart(), s, PAGES, Lost(LossKernel(), {0}, {})) ==>
              ReadAt(s.frames, PlaceOf(s.child, 0)) == 0 && ReadAt(s.frames, PlaceOf(LossParent(), 0)) == 1
  {
    hide UserPage, Lost, ClonedBelow, Pmm.UsedAt, ReadAt, LossKernel, LossParent, LossStart;
    var lost := Lost(LossKernel(), {0}, {});
    LosesFirst(LossKernel());
    SevenIsUser();
    KernelPage(0);
    BlocksUsed();
    if ClonedBelow(LossParent(), LossStart(), s, PAGES, lost) { ForkReads(LossParent(), LossStart(), s, lost); }
  }

  /** How it ends: the table takes frame 2, the page gets frame 3, and no frame has changed. */
  lemma ForkLosesPageEnds()
    ensures Pmm.AllocStep([3], 1, Done(2 * PAGE_SIZE), [7]) && Pmm.AllocStep([7], 1, Done(3 * PAGE_SIZE), [15])
    ensures var s0 := LossStart();
            var s := Snapshot(s0.child[0 := 3 * PAGE_SIZE + 7], [15], s0.frames, s0.tables[0 := 2 * PAGE_SIZE + 7]);
            ClonedBelow(LossParent(), s0, s, PAGES, Lost(LossKernel(), {0}, {}))
  {
    hide UserPage, Lost, ClonedBelow, Pmm.UsedAt, ReadAt, Pmm.AllocStep, LossKernel, LossParent, LossStart;
    var s0 := LossStart();
    LosesFirst(LossKernel());
    SevenIsUser();
    KernelPage(0);
    BlocksUsed();
    Powers();
    NextBlock(3, 2, 7);
    NextBlock(7, 3, 15);
    var s := Snapshot(s0.child[0 := 3 * PAGE_SIZE + 7], [15], s0.frames, s0.tables[0 := 2 * PAGE_SIZE + 7]);
    OnePageCloned(LossParent(), s0, s, Lost(LossKernel(), {0}, {}));
  }

  lemma Powers()
    ensures Pow2(2) == 4 && Pow2(3) == 8 && Pow2(4) == 16
  {
  }

  /** With the blocks below `n` used, the next one to be handed out is `n`. */
  lemma NextBlock(w: uint32, n: nat, v: uint32)
    requires 0 < n < 5 && w as nat + 1 == Pow2(n) && v as nat + 1 == Pow2(n + 1)
    ensures Pmm.AllocStep([w], 1, Done(n * PAGE_SIZE), [v])
  {
    hide Test, Pow2;
    forall b: nat | b < 32
      ensures Pmm.UsedAt([w], b) <==> b < n
      ensures Pmm.UsedAt([v], b) <==> b <= n
    {
      LowTest(w as nat, n, b);
      LowTest(v as nat, n + 1, b);
    }
    FirstFit([w], [v], n);
  }

  lemma FirstFit(w: seq<uint32>, v: seq<uint32>, n: nat)
    requires |w| == |v| == 1 && 0 < n < 32
    requires forall b: nat | b < 32 :: (Pmm.UsedAt(w, b) <==> b < n) && (Pmm.UsedAt(v, b) <==> b <= n)
    ensures Pmm.AllocStep(w, 1, Done(n * PAGE_SIZE), v)
  {
    hide Pmm.UsedAt;
    assert n * PAGE_SIZE / PAGE_SIZE == n && n * PAGE_SIZE % PAGE_SIZE == 0;
    assert Pmm.FreeAt(w, n);
    forall b: nat | b < n
      ensures !Pmm.Fits(w, b, 1)
    {
      assert !Pmm.FreeAt(w, b);
    }
  }

  lemma LosesFirst(g: seq<nat>)
    requires |g| == PAGES && g[1] == 0 == g[PAGES - 1] && forall p | 2 <= p < PAGES - 1 :: g[p] != 0
    ensures 0 in Lost(g, {0}, {})
  {
    OneBelow(g);
    assert NewTables({0}, {}, 1) == {0};
  }

  lemma OnePageCloned(f: seq<nat>, s0: Snapshot, s: Snapshot, lost: set<nat>)
    requires |f| == PAGES && SnapshotOk(s0) && SnapshotOk(s) && 0 in lost
    requires UserPage(f[0]) && f[0] == PAGE_SIZE + 7 && forall p: nat | 1 <= p < PAGES :: f[p] == 0
    requires !UserPage(0) && s0.child[0] == 0 && s.child == s0.child[0 := 3 * PAGE_SIZE + 7]
    requires !Pmm.UsedAt(s0.words, 3) && Pmm.UsedAt(s.words, 3) && UsedGrew(s0.words, s.words)
    requires !Pmm.UsedAt(s0.words, 2) && Pmm.UsedAt(s.words, 2)
    requires s.frames == s0.frames && 0 < |s0.tables| && s.tables == s0.tables[0 := 2 * PAGE_SIZE + 7]
    ensures ClonedBelow(f, s0, s, PAGES, lost)
  {
    hide UserPage, Pmm.UsedAt, UsedGrew, FramesOk;
  }

  lemma ForkReads(f: seq<nat>, s0: Snapshot, s: Snapshot, lost: set<nat>)
    requires ClonedBelow(f, s0, s, PAGES, lost) && 0 in lost && UserPage(f[0]) && f[0] == PAGE_SIZE + 7
    requires Owned(f, s0.words) && Pmm.UsedAt(s0.words, 1)
    requires forall b | 0 <= b < PAGES :: s0.frames[b][0] == if b == 1 then 1 else 0
    ensures ReadAt(s.frames, PlaceOf(s.child, 0)) == 0 && ReadAt(s.frames, PlaceOf(f, 0)) == 1
  {
    hide UserPage, Pmm.UsedAt, ClonedBelow, Owned;
    ClonedEntry(f, s0, s, PAGES, lost);
    ChildFrame(f, s0, s, 0, lost);
    ForkCopies(f, s0, s, 0, lost);
  }

  lemma BlocksUsed()
    ensures forall b: nat | b < 32 :: Pmm.UsedAt([3], b) <==> b < 2
    ensures Pmm.UsedAt([15], 2) && Pmm.UsedAt([15], 3) && UsedGrew([3], [15])
  {
    hide Test;
    forall b: nat | b < 32
      ensures Pmm.UsedAt([3], b) <==> b < 2
      ensures Pmm.UsedAt([15], b) <==> b < 4
    {
      LowTest(3, 2, b);
      LowTest(15, 4, b);
    }
  }

  /** Exactly the `n` low bits of `2^n - 1` are set. */
  lemma {:induction false} LowTest(x: nat, n: nat, b: nat)
    requires x + 1 == Pow2(n)
    ensures Test(x, b) <==> b < n
  {
    Pow2Zero();
    hide Test, Pow2;
    if n > 0 { Pow2Next(n - 1); }
    TestStep(x, if b == 0 then 0 else b - 1);
    if b > 0 {
      LowTest(x / 2, if n == 0 then 0 else n - 1, b - 1);
    }
  }

  lemma OneBelow(g: seq<nat>)
    requires |g| == PAGES && g[1] == 0 && forall p | 2 <= p < PAGES - 1 :: g[p] != 0
    ensures FreeBelow(g) == 1
  {
    FreeUpToTake(g, 1, 1, |g| - 1);
    FreeUpToZero(g[1 := 1], |g| - 1);
  }

  lemma SevenIsUser()
    ensures UserPage(PAGE_SIZE + 7)
  {
    hide And;
    AndOne(PAGE_SIZE + 7);
    UserBit(PAGE_SIZE + 7);
  }

  /** A clone can be cloned itself: its user pages are the parent's, their frames are in use, and it has no entry
      that stops a clone, if what the child had before was like that. */
  lemma CloneIsClonable(f: seq<nat>, s0: Snapshot, s: Snapshot, lost: set<nat>)
    requires ClonedBelow(f, s0, s, PAGES, lost) && Owned(s0.child, s0.words)
    requires forall p: nat | p < PAGES :: !Odd(s0.child[p])
    ensures Owned(s.child, s.words)
    ensures forall p: nat | p < PAGES :: !Odd(s.child[p])
    ensures forall p: nat | p < PAGES && UserPage(f[p]) :: UserPage(s.child[p])
  {
    hide UserPage, Odd, Pmm.UsedAt;
    forall p: nat | p < PAGES
      ensures UserPage(s.child[p]) ==> Pmm.UsedAt(s.words, FrameNo(s.child[p]))
      ensures !Odd(s.child[p]) && (UserPage(f[p]) ==> UserPage(s.child[p]))
    {
      assert Cloned(f, s0, s, p, lost);
      if UserPage(f[p]) {
        ChildFrame(f, s0, s, p, lost);
        SameFlags(f[p], s.child[p]);
      }
    }
  }

  lemma SameFlags(page: nat, entry: nat)
    requires UserPage(page) && page % 1024 == entry % 1024
    ensures UserPage(entry) && !Odd(entry)
  {
    hide And;
    AndOne(page);
    AndOne(entry);
    UserBit(page);
    UserBit(entry);
    LowBits(page);
    LowBits(entry);
  }

  lemma UserBit(page: nat)
    ensures And(page, USER) != 0 <==> page / 4 % 2 == 1
  {
    hide And;
    Halves(page, 4);
    Halves(page / 2, 2);
    AndOne(page / 4);
  }

  lemma LowBits(page: nat)
    ensures page % 2 == page % 1024 % 2 && page / 4 % 2 == page % 1024 / 4 % 2
  {
    var c, d := page / 1024, page % 1024;
    EvenShift(512 * c, d);
    QuarterShift(c, d);
    EvenShift(128 * c, d / 4);
  }

  lemma EvenShift(a: nat, x: nat)
    ensures (2 * a + x) % 2 == x % 2
  {
  }

  lemma QuarterShift(c: nat, d: nat)
    ensures (1024 * c + d) / 4 == 2 * (128 * c) + d / 4
  {
  }

  /** Every table that the child got: in a frame of its own that was free, which no page of either has, and
      entered as present, writable and the user's. */
  lemma ChildTables(f: seq<nat>, s0: Snapshot, s: Snapshot, lost: set<nat>, have: set<nat>, want: set<nat>, t: nat)
    requires ClonedBelow(f, s0, s, PAGES, lost) && Owned(f, s0.words)
    requires Agree(s0.tables, have) && Agree(s.tables, have + want) && t in want && t !in have && t < ENTRIES
    ensures |s.tables| == ENTRIES
    ensures var b := s.tables[t] / PAGE_SIZE;
            && 0 < b && s.tables[t] == b * PAGE_SIZE + 7 && !Pmm.UsedAt(s0.words, b) && Pmm.UsedAt(s.words, b)
            && (forall u: nat | u < ENTRIES && u in want && u !in have && u != t :: s.tables[u] / PAGE_SIZE != b)
            && forall p: nat | p < PAGES && UserPage(f[p]) :: s.child[p] / PAGE_SIZE != b && FrameNo(f[p]) != b
  {
    hide Pmm.UsedAt, UserPage, And;
    forall u: nat | u < ENTRIES && u in want && u !in have
      ensures NewTable(s0, s, u)
    {
      assert (And(s0.tables[u], PRESENT) != 0) != (And(s.tables[u], PRESENT) != 0);
    }
    assert TableOk(s0, s, t);
  }

  // ----- one fork after another -----

  lemma SoundGrew(f: seq<nat>, w: seq<uint32>, w': seq<uint32>)
    requires Sound(f, w) && UsedGrew(w, w')
    ensures Sound(f, w') && Owned(f, w')
  {
    hide Pmm.UsedAt, UserPage, Odd;
  }

  lemma EmptyIsSound(f: seq<nat>, w: seq<uint32>, pt: seq<nat>)
    requires |f| == PAGES && (forall p: nat | p < PAGES :: f[p] == 0)
    requires |pt| == ENTRIES && forall i | 0 <= i < ENTRIES :: pt[i] == 0
    ensures Sound(f, w) && Agree(pt, {}) && NoOddTable(pt)
  {
    hide Pmm.UsedAt, UserPage, And;
    KernelPage(0);
    AndOne(0);
  }

  lemma OnlyExhausted(f: seq<nat>, s0: Snapshot, w: seq<uint32>, g: seq<nat>, pt: seq<nat>)
    requires |f| == PAGES && |s0.child| == PAGES && (forall p: nat | p < PAGES :: s0.child[p] == 0)
    requires Sound(f, s0.words) && |pt| == ENTRIES && NoOddTable(pt)
    requires (exists t: nat | t < ENTRIES :: OddTable(pt[t])) || CloneFails(f, s0, w, g)
    ensures Exhausted(w, g)
  {
    hide UserPage, Odd, OddTable, Exhausted, Owned;
  }

  /** The clone is sound, and so is the parent still. */
  lemma ClonedIsSound(f: seq<nat>, s0: Snapshot, s: Snapshot, lost: set<nat>)
    requires ClonedBelow(f, s0, s, PAGES, lost) && Sound(f, s0.words) && Sound(s0.child, s0.words)
    ensures Sound(f, s.words) && Sound(s.child, s.words)
  {
    hide ClonedBelow, UserPage, Odd, Owned;
    ClonedEntry(f, s0, s, PAGES, lost);
    CloneIsClonable(f, s0, s, lost);
    ClonedGrew(f, s0, s, lost);
    SoundGrew(f, s0.words, s.words);
  }

  lemma ClonedGrew(f: seq<nat>, s0: Snapshot, s: Snapshot, lost: set<nat>)
    requires ClonedBelow(f, s0, s, PAGES, lost)
    ensures UsedGrew(s0.words, s.words)
  {
  }

  lemma AgreeNow(pt: seq<nat>, pt': seq<nat>, present: set<nat>)
    requires Agree(pt, {}) && NoOddTable(pt) && StillAgree(pt, {}, pt', present)
    ensures Agree(pt', present) && NoOddTable(pt')
  {
    hide Agree, NoOddTable;
  }

  /** What a directory needs for a clone of it to fail only when the kernel is out of frames or pages. */
  ghost predicate Forkable(mem: Memory, dir: PageDirectory)
    reads mem, mem.machine.kernel, mem.machine.kernel.tables, mem.machine.kernel.Tabs, mem.machine.pmm.words
    reads dir, dir.tables, dir.physicalTables, dir.Tabs
  {
    && mem.machine.Ready(dir) && dir != mem.machine.kernel && TablesAgree(dir)
    && FramesOk(mem.frames) && 32 * mem.machine.pmm.words.Length <= PAGES
    && NoOddTable(dir.physicalTables[..]) && Sound(dir.Flat(), mem.machine.pmm.words[..])
  }

  ghost predicate Sound(f: seq<nat>, w: seq<uint32>) {
    Owned(f, w) && forall p | 0 <= p < |f| :: !Odd(f[p])
  }

  /** `page_directory_new` next to a directory that can be cloned: an empty one, and nothing else changed for
      the other. */
  method EmptyChild(mem: Memory, parent: PageDirectory) returns (child: PageDirectory?)
    requires Forkable(mem, parent)
    modifies mem.machine.pmm.words, mem.machine.kernel, mem.machine.kernel.tables
    modifies mem.machine.kernel.physicalTables, mem.machine.kernel.Tabs
    ensures child != null ==> Separate(mem, child, parent) && Forkable(mem, parent) && Forkable(mem, child)
    ensures child != null ==> fresh(child) && fresh(child.tables) && fresh(child.physicalTables) && child.Tabs == {}
    ensures child != null ==> child.Present() == {} && forall p: nat | p < PAGES :: child.Flat()[p] == 0
    ensures child != null ==> |parent.physicalTables[..]| == ENTRIES && Owned(parent.Flat(), mem.machine.pmm.words[..])
    ensures mem.machine.Ready(parent) && unchanged(mem.machine.kernel)
    ensures parent.Flat() == old(parent.Flat()) && parent.Present() == old(parent.Present())
    ensures child != null ==> TookFrame(old(mem.machine.pmm.words[..]), child.physicalAddress / PAGE_SIZE,
                                        mem.machine.pmm.words[..])
    ensures child != null ==> child.physicalAddress % PAGE_SIZE == 0
    ensures child != null ==>
              Took(old(mem.machine.kernel.Flat()), mem.machine.kernel.Flat(), child.physicalAddress + 3)
    ensures UsedGrew(old(mem.machine.pmm.words[..]), mem.machine.pmm.words[..])
    ensures child == null ==> Exhausted(mem.machine.pmm.words[..], mem.machine.kernel.Flat())
  {
    hide PageDirectory.Valid, PageDirectory.Present, PageDirectory.Flat, PageDirectory.Entry, Machine.Valid, And,
      UsedGrew, Agree, NoOddTable, Grew, Took, TookFrame, Exhausted, Sound, Owned;
    ghost var f, w := parent.Flat(), mem.machine.pmm.words[..];
    var dir := mem.machine.NewDirectory(parent);
    if dir.Stopped? {
      return null;
    }
    child := dir.value;
    child.NoEntries();
    child.HardwareEntries();
    parent.HardwareEntries();
    SoundGrew(f, w, mem.machine.pmm.words[..]);
    EmptyIsSound(child.Flat(), mem.machine.pmm.words[..], child.physicalTables[..]);
  }

  /** The memory of `process_clone`: `page_directory_new` and `page_directory_clone`.  `s0` and `g` are the
      state and the kernel's pages in between.  It fails only for want of a frame or a kernel page; otherwise
      parent and child can be cloned again. */
  method CloneMemory(mem: Memory, parent: PageDirectory)
    returns (ok: bool, child: PageDirectory?, ghost s0: Snapshot, ghost g: seq<nat>)
    requires Forkable(mem, parent)
    modifies mem`frames, mem.machine.pmm.words, mem.machine.kernel, mem.machine.kernel.tables
    modifies mem.machine.kernel.physicalTables, mem.machine.kernel.Tabs
    ensures ok ==> child != null && Separate(mem, child, parent) && Forkable(mem, parent) && Forkable(mem, child)
    ensures ok ==> fresh(child) && fresh(child.tables) && fresh(child.physicalTables) && fresh(child.Tabs)
    ensures ok ==> parent.Flat() == old(parent.Flat()) && parent.Present() == old(parent.Present())
    ensures ok ==> unchanged(mem.machine.kernel)
    ensures ok ==> Took(old(mem.machine.kernel.Flat()), g, child.physicalAddress + 3) && |g| == PAGES
    ensures ok ==> s0.frames == old(mem.frames)
    ensures ok ==> TookFrame(old(mem.machine.pmm.words[..]), child.physicalAddress / PAGE_SIZE, s0.words)
    ensures ok ==> ClonedBelow(parent.Flat(), s0, Snap(mem, child), PAGES, Lost(g, parent.Present(), {}))
    ensures !ok ==> mem.machine.Valid() && Exhausted(mem.machine.pmm.words[..], mem.machine.kernel.Flat())
  {
    hide PageDirectory.Valid, PageDirectory.Present, PageDirectory.Flat, PageDirectory.Entry, Machine.Ready,
      Machine.Valid, And, UserPage, ClonedBelow, UsedGrew, Room, Lost, Agree, StillAgree, NoOddTable, Grew, Took,
      TookFrame,      Exhausted, CloneFails, Sound, Separate, Owned;
    ok, s0, g := false, Snapshot([], [], [], []), mem.machine.kernel.Flat();
    ghost var f := parent.Flat();
    child := EmptyChild(mem, parent);
    if child == null {
      return;
    }
    g, s0 := mem.machine.kernel.Flat(), Snap(mem, child);
    ghost var pt := child.physicalTables[..];
    ok := PageDirectoryClone(mem, child, parent);
    ghost var s := Snap(mem, child);
    if !ok {
      OnlyExhausted(f, s0, s.words, mem.machine.kernel.Flat(), parent.physicalTables[..]);
      return;
    }
    ClonedIsSound(f, s0, s, Lost(g, parent.Present(), {}));
    AgreeNow(pt, child.physicalTables[..], child.Present());
  }

  /** A process forks, and its child does: the grandchild is a clone of the clone. */
  method CloneTwice(mem: Memory, parent: PageDirectory)
    returns (ok: bool, child: PageDirectory?, grandchild: PageDirectory?, ghost s0: Snapshot, ghost g: seq<nat>)
    requires Forkable(mem, parent)
    modifies mem`frames, mem.machine.pmm.words, mem.machine.kernel, mem.machine.kernel.tables
    modifies mem.machine.kernel.physicalTables, mem.machine.kernel.Tabs
    ensures ok ==> child != null && grandchild != null && Forkable(mem, child) && Forkable(mem, grandchild)
    ensures ok ==> |g| == PAGES
    ensures ok ==> ClonedBelow(child.Flat(), s0, Snap(mem, grandchild), PAGES, Lost(g, child.Present(), {}))
    ensures !ok ==> mem.machine.Valid() && Exhausted(mem.machine.pmm.words[..], mem.machine.kernel.Flat())
  {
    hide Forkable, Separate, ClonedBelow, Took, TookFrame, UsedGrew, Lost, Exhausted;
    grandchild := null;
    ok, child, s0, g := CloneMemory(mem, parent);
    if ok {
      ok, grandchild, s0, g := CloneMemory(mem, child);
    }
  }

  /** Right after the fork the parent reads what it read before, and so does the child outside the tables of
      `lost`; there it reads what its new frames held before. */
  lemma ForkCopies(f: seq<nat>, s0: Snapshot, s: Snapshot, a: nat, lost: set<nat>)
    requires ClonedBelow(f, s0, s, PAGES, lost) && Owned(f, s0.words) && UserAddress(f, a)
    ensures ReadAt(s.frames, PlaceOf(f, a)) == ReadAt(s0.frames, PlaceOf(f, a))
    ensures ReadAt(s.frames, PlaceOf(s.child, a)) ==
            ReadAt(s0.frames, PlaceOf(if a / PAGE_SIZE % PAGES / ENTRIES in lost then s.child else f, a))
  {
    hide Pmm.UsedAt, UserPage;
    var p := a / PAGE_SIZE % PAGES;
    ChildFrame(f, s0, s, p, lost);
    assert Pmm.UsedAt(s0.words, FrameNo(f[p]));
  }

  /** Whatever is later written through one directory, at any user addresses in any order, the other
      reads what it read before. */
  lemma ForkIsolates(f: seq<nat>, s0: Snapshot, s: Snapshot, frames: seq<seq<nat>>, addrs: seq<nat>, bs: seq<nat>,
                     a: nat, lost: set<nat>)
    requires ClonedBelow(f, s0, s, PAGES, lost) && Owned(f, s0.words) && FramesOk(frames)
    requires |bs| == |addrs| && (forall i | 0 <= i < |addrs| :: UserAddress(f, addrs[i])) && UserAddress(f, a)
    ensures ReadAt(WriteAll(frames, PlacesOf(s.child, addrs), bs), PlaceOf(f, a)) == ReadAt(frames, PlaceOf(f, a))
    ensures ReadAt(WriteAll(frames, PlacesOf(f, addrs), bs), PlaceOf(s.child, a)) == ReadAt(frames, PlaceOf(s.child, a))
  {
    hide UserPage, ClonedBelow, Owned, WriteAll, ReadAt, FramesOk;
    ClonedEntry(f, s0, s, PAGES, lost);
    forall i | 0 <= i < |addrs|
      ensures PlacesOf(s.child, addrs)[i] != PlaceOf(f, a)
      ensures PlacesOf(f, addrs)[i] != PlaceOf(s.child, a)
    {
      FramesApart(f, s0, s, addrs[i] / PAGE_SIZE % PAGES, a / PAGE_SIZE % PAGES, lost);
      FramesApart(f, s0, s, a / PAGE_SIZE % PAGES, addrs[i] / PAGE_SIZE % PAGES, lost);
    }
    WriteAllOther(frames, PlacesOf(s.child, addrs), bs, PlaceOf(f, a));
    WriteAllOther(frames, PlacesOf(f, addrs), bs, PlaceOf(s.child, a));
  }

  /** Where each address of a sequence leads. */
  function PlacesOf(f: seq<nat>, addrs: seq<nat>): (ps: seq<Place>)
    requires |f| == PAGES
    ensures |ps| == |addrs| && (forall i | 0 <= i < |ps| :: ps[i] == PlaceOf(f, addrs[i])) && PlacesOk(ps)
  {
    seq(|addrs|, i requires 0 <= i < |addrs| => PlaceOf(f, addrs[i]))
  }
}
