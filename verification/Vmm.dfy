/** Page directories and the search for free virtual ranges (kernel/vmm.c).

A directory is two levels of 1024 entries; `Flat` is the one-level view that the searches and mappings
are specified on.  Addresses are 32-bit and wrap, so page numbers are taken modulo 2^20. */
module Vmm {
  import opened Bits
  import opened Outcomes
  import Pmm

  const PAGE_SIZE: nat := 4096
  const PAGES: nat := 0x10_0000
  const ENTRIES: nat := 1024

  const PRESENT: nat := 1
  const READWRITE: nat := 2
  const USER: nat := 4
  const WRITE_THROUGH: nat := 8
  const CACHE_DISABLE: nat := 16
  const GUARD: nat := 0xFFFF_F000
  const RESERVED: nat := 0xFFF_F100
  const FLAG_MASK: nat := 0x3FF

  /** `(uintptr_t)-1`, what `find_vspace` returns when it finds nothing. */
  const NONE: nat := 0xFFFF_FFFF

  class PageDirectory {
    /** The frame with the hardware's table entries. */
    const physicalAddress: nat
    /** The page tables where the kernel can reach them, NULL for an absent one. */
    const tables: array<array?<nat>>
    /** The hardware's table entries: physical address and flags. */
    const physicalTables: array<nat>
    ghost var Tabs: set<array<nat>>

    ghost predicate Valid()
      reads this, tables, Tabs
      ensures Valid() ==> tables.Length == ENTRIES
    {
      && tables.Length == ENTRIES && physicalTables.Length == ENTRIES && physicalTables !in Tabs
      && (forall i | 0 <= i < ENTRIES && tables[i] != null :: tables[i] in Tabs && tables[i].Length == ENTRIES)
      && forall i, j | 0 <= i < j < ENTRIES && tables[i] != null && tables[j] != null :: tables[i] != tables[j]
    }

    /** A directory without tables. */
    constructor (physicalAddress: nat)
      ensures this.physicalAddress == physicalAddress
      ensures Valid() && Present() == {} && Tabs == {} && fresh(tables) && fresh(physicalTables)
      ensures forall i | 0 <= i < physicalTables.Length :: physicalTables[i] == 0
    {
      this.physicalAddress := physicalAddress;
      tables := new array?<nat>[ENTRIES](_ => null);
      physicalTables := new nat[ENTRIES](_ => 0);
      Tabs := {};
    }

    /** The indices of the tables there are. */
    ghost function Present(): (t: set<nat>)
      requires tables.Length == ENTRIES
      reads this, tables
      ensures forall i: nat :: i in t <==> i < ENTRIES && tables[i] != null
    {
      set i: nat | i < ENTRIES && tables[i] != null
    }

    /** The entry of page `p`: that of its table, 0 where there is no table. */
    ghost function Entry(p: nat): nat
      requires Valid() && p < PAGES
      reads this, tables, Tabs
    {
      if tables[p / ENTRIES] == null then 0 else tables[p / ENTRIES][p % ENTRIES]
    }

    ghost function Flat(): (f: seq<nat>)
      requires Valid()
      reads this, tables, Tabs
      ensures |f| == PAGES && forall p: nat | p < PAGES :: f[p] == Entry(p)
    {
      seq(PAGES, p requires 0 <= p < PAGES && Valid() reads this, tables, Tabs => Entry(p))
    }

    /** A fresh, zeroed page table in an empty slot. */
    method AddTable(i: nat)
      requires Valid() && i < ENTRIES && i !in Present()
      modifies this, tables
      ensures Valid() && Present() == old(Present()) + {i} && fresh(Tabs - old(Tabs))
      ensures old(Tabs) <= Tabs && Flat() == old(Flat())
    {
      ghost var f := Flat();
      var table := new nat[ENTRIES](_ => 0);
      tables[i] := table;
      Tabs := Tabs + {table};
      forall q: nat | q < PAGES
        ensures Entry(q) == f[q]
      {
        SplitPage(q, q);
      }
    }

    /** The loop of `vmm_init` that allocates all the kernel's page tables; false where it stops for want of
        a frame. */
    method PreallocateTables(pmm: Pmm.BlockMap) returns (ok: bool)
      requires Valid() && Present() == {} && pmm.words as object != tables && pmm.words as object != physicalTables
      modifies this, tables, physicalTables, pmm.words
      ensures Valid() && fresh(Tabs - old(Tabs)) && Flat() == old(Flat())
      ensures ok ==> forall i: nat | i < ENTRIES :: i in Present()
      ensures ok ==> |physicalTables[..]| == ENTRIES
      ensures ok ==> OwnFrames(physicalTables[..], ENTRIES, old(pmm.words[..]), pmm.words[..])
      ensures !ok ==> NoFrame(pmm.words[..])
    {
      hide Present, Flat, Entry, Or, Pmm.AllocStep, OwnFrames;
      ghost var w0 := pmm.words[..];
      NoOwnFrames(physicalTables[..], w0);
      for i := 0 to ENTRIES
        invariant Valid() && fresh(Tabs - old(Tabs)) && Flat() == old(Flat())
        invariant forall k: nat :: k in Present() <==> k < i
        invariant OwnFrames(physicalTables[..], i, w0, pmm.words[..])
      {
        ghost var pt := physicalTables[..];
        ghost var w := pmm.words[..];
        var phys := pmm.AllocBlocks(1);
        AllocNone(w, phys, pmm.words[..]);
        if phys.Stopped? || phys.value == 0 {
          return false;
        }
        physicalTables[i] := Or(phys.value, PRESENT + READWRITE + WRITE_THROUGH + CACHE_DISABLE);
        OwnFramesNext(pt, physicalTables[..], i, w0, w, phys.value, pmm.words[..]);
        AddTable(i);
      }
      return true;
    }

    /** `get_page(get_table(v), v)` for page `p`. */
    method GetPage(p: nat) returns (page: nat)
      requires Valid() && p < PAGES && p / ENTRIES in Present()
      ensures page == Flat()[p]
    {
      SplitPage(p, p);
      page := tables[p / ENTRIES][p % ENTRIES];
    }

    /** Without a table the flat view has no entries. */
    lemma AbsentTable(t: nat)
      requires Valid() && t < ENTRIES && t !in Present()
      ensures forall p: nat | t * ENTRIES <= p < t * ENTRIES + ENTRIES && p < PAGES :: Flat()[p] == 0
    {
      forall p: nat | t * ENTRIES <= p < t * ENTRIES + ENTRIES && p < PAGES
        ensures Flat()[p] == 0
      {
        assert p / ENTRIES == t;
        assert Entry(p) == 0;
      }
    }

    lemma HardwareEntries()
      requires Valid()
      ensures physicalTables.Length == ENTRIES
    {
    }

    lemma NoEntries()
      requires Valid() && Present() == {}
      ensures forall p: nat | p < PAGES :: Flat()[p] == 0
    {
      forall p: nat | p < PAGES
        ensures Flat()[p] == 0
      {
        assert p / ENTRIES !in Present();
        assert Entry(p) == 0;
      }
    }

    /** `table->pages[i]` of table `t`. */
    method GetTablePage(t: nat, i: nat) returns (page: nat)
      requires Valid() && t in Present() && i < ENTRIES
      ensures t * ENTRIES + i < PAGES && page == Flat()[t * ENTRIES + i]
    {
      assert (t * ENTRIES + i) / ENTRIES == t && (t * ENTRIES + i) % ENTRIES == i;
      page := tables[t][i];
    }

    /** The entry of page `p`, 0 when `get_table` returns NULL. */
    method Lookup(p: nat) returns (page: nat)
      requires Valid() && p < PAGES
      ensures page == Flat()[p]
    {
      SplitPage(p, p);
      page := if tables[p / ENTRIES] == null then 0 else tables[p / ENTRIES][p % ENTRIES];
    }

    /** `map_direct_kernel` for page `p`; false where it stops. */
    method MapDirect(p: nat) returns (ok: bool)
      requires Valid() && p < PAGES && p / ENTRIES in Present()
      modifies tables[p / ENTRIES]
      ensures Valid() && ok == (old(Flat())[p] == 0 || AndNot(old(Flat())[p], FLAG_MASK) == p * PAGE_SIZE)
      ensures Flat() == if ok then old(Flat())[p := Or(p * PAGE_SIZE, 3)] else old(Flat())
    {
      hide Or, AndNot;
      var page := GetPage(p);
      if page != 0 && AndNot(page, FLAG_MASK) != p * PAGE_SIZE {
        return false;
      }
      MapPage(p, p * PAGE_SIZE, PRESENT + READWRITE);
      return true;
    }

    /** `map_page(get_table(v), v, phys, flags)` for page `p`. */
    method MapPage(p: nat, phys: nat, flags: nat)
      requires Valid() && p < PAGES && p / ENTRIES in Present()
      modifies tables[p / ENTRIES]
      ensures Valid() && Flat() == old(Flat())[p := Or(phys, flags)]
    {
      var table := tables[p / ENTRIES];
      ghost var f := Flat();
      table[p % ENTRIES] := Or(phys, flags);
      forall q: nat | q < PAGES
        ensures Entry(q) == if q == p then Or(phys, flags) else f[q]
      {
        SplitPage(p, q);
      }
    }
  }

  // ----- the kernel's own tables -----

  /** The first `n` hardware entries are of distinct frames that were free. */
  ghost predicate OwnFrames(pt: seq<nat>, n: nat, w0: seq<uint32>, w: seq<uint32>) {
    && n <= |pt| && |w| == |w0|
    && (forall t: nat | t < n :: OwnFrame(pt, t, w0, w))
    && (forall t: nat, u: nat | t < u < n :: pt[t] / PAGE_SIZE != pt[u] / PAGE_SIZE)
    && forall b: nat | Pmm.UsedAt(w0, b) :: Pmm.UsedAt(w, b)
  }

  ghost predicate OwnFrame(pt: seq<nat>, t: nat, w0: seq<uint32>, w: seq<uint32>) {
    t < |pt| && 0 < pt[t] / PAGE_SIZE && pt[t] == pt[t] / PAGE_SIZE * PAGE_SIZE + 27
    && !Pmm.UsedAt(w0, pt[t] / PAGE_SIZE) && Pmm.UsedAt(w, pt[t] / PAGE_SIZE)
  }

  lemma NoOwnFrames(pt: seq<nat>, w: seq<uint32>)
    ensures OwnFrames(pt, 0, w, w)
  {
  }

  lemma OwnFramesNext(pt: seq<nat>, pt': seq<nat>, i: nat, w0: seq<uint32>, w: seq<uint32>, phys: nat,
                      w': seq<uint32>)
    requires OwnFrames(pt, i, w0, w) && i < |pt| && Pmm.AllocStep(w, 1, Done(phys), w') && phys != 0
    requires pt' == pt[i := Or(phys, PRESENT + READWRITE + WRITE_THROUGH + CACHE_DISABLE)]
    ensures OwnFrames(pt', i + 1, w0, w')
  {
    hide Or, Pmm.UsedAt, Pmm.AllocStep;
    AllocOne(w, phys, w');
    FreshBlock(w, phys / PAGE_SIZE, w');
    FlagsKeepFrame(phys, 27);
    forall t: nat | t < i + 1
      ensures OwnFrame(pt', t, w0, w')
    {
      if t < i { assert OwnFrame(pt, t, w0, w); }
    }
    forall t: nat, u: nat | t < u < i + 1
      ensures pt'[t] / PAGE_SIZE != pt'[u] / PAGE_SIZE
    {
      assert OwnFrame(pt, t, w0, w);
    }
  }

  lemma AllocOne(w: seq<uint32>, p: nat, v: seq<uint32>)
    requires Pmm.AllocStep(w, 1, Done(p), v) && p != 0
    ensures p % PAGE_SIZE == 0 && Pmm.Fits(w, p / PAGE_SIZE, 1) && Pmm.Marked(w, v, p / PAGE_SIZE, 1, true)
  {
    hide Pmm.Fits, Pmm.Marked;
  }

  lemma FreshBlock(w: seq<uint32>, b: nat, v: seq<uint32>)
    requires Pmm.Fits(w, b, 1) && Pmm.Marked(w, v, b, 1, true)
    ensures b < 32 * |w| && !Pmm.UsedAt(w, b) && Pmm.UsedAt(v, b) && UsedGrew(w, v)
  {
    assert Pmm.FreeAt(w, b);
  }

  lemma FlagsKeepFrame(phys: nat, flags: nat)
    requires phys % PAGE_SIZE == 0 && flags < PAGE_SIZE
    ensures Or(phys, flags) == phys + flags
    ensures Or(phys, flags) / PAGE_SIZE == phys / PAGE_SIZE && Or(phys, flags) % 2 == flags % 2
  {
    hide Or, Pow2;
    Pow2Values();
    OrDisjoint(phys, flags, 12);
    Halves(phys, flags);
  }

  /** Or-ing in the two low bits does not change the frame. */
  lemma OrKeepsFrame(e: nat)
    ensures Or(e, 3) / PAGE_SIZE == e / PAGE_SIZE
  {
    hide Or;
    Halves(e, 3);
    Halves(e / 2, 1);
    WithZero(e / 4);
    Quarter(e);
    Quarter(Or(e, 3));
    assert Or(e, 3) / 4 == e / 4;
  }

  lemma Quarter(x: nat)
    ensures x / 2 / 2 == x / 4 && x / PAGE_SIZE == x / 4 / 1024
  {
  }

  /** Exactly the pages of `ps` are mapped, each to the frame of the same number. */
  ghost predicate DirectMap(f: seq<nat>, ps: set<nat>) {
    |f| == PAGES && forall p: nat | p < PAGES :: f[p] == if p in ps then Or(p * PAGE_SIZE, 3) else 0
  }

  /** The frames of the first `n` tables. */
  ghost function TableFrames(pt: seq<nat>, n: nat): set<nat>
    requires n <= |pt|
  {
    set t | 0 <= t < n :: pt[t] / PAGE_SIZE
  }

  lemma DirectEntry(p: nat)
    ensures AndNot(Or(p * PAGE_SIZE, 3), FLAG_MASK) == p * PAGE_SIZE
  {
    hide Or, AndNot, Pow2;
    FlagsKeepFrame(p * PAGE_SIZE, 3);
    Pow2Values();
    LowMask(p * PAGE_SIZE + 3, 10);
    assert (4 * p * 1024 + 3) % 1024 == 3;
  }

  lemma DirectNext(f: seq<nat>, pt: seq<nat>, n: nat, f': seq<nat>)
    requires n < |pt| && DirectMap(f, TableFrames(pt, n)) && pt[n] / PAGE_SIZE < PAGES
    requires f' == f[pt[n] / PAGE_SIZE := Or(pt[n] / PAGE_SIZE * PAGE_SIZE, 3)]
    ensures DirectMap(f', TableFrames(pt, n + 1))
  {
    hide Or;
  }

  lemma NoTables(f: seq<nat>, pt: seq<nat>)
    requires |f| == PAGES && forall p: nat | p < PAGES :: f[p] == 0
    ensures DirectMap(f, TableFrames(pt, 0))
  {
  }

  lemma TableFrame(pt: seq<nat>, t: nat, w0: seq<uint32>, w: seq<uint32>)
    requires OwnFrames(pt, ENTRIES, w0, w) && t < ENTRIES && 32 * |w| <= PAGES
    ensures t < |pt| && 0 < pt[t] / PAGE_SIZE < PAGES
  {
    assert OwnFrame(pt, t, w0, w);
  }

  /** A page is unmapped or mapped to the frame of the same number, so that `map_direct_kernel` goes on. */
  lemma DirectFree(f: seq<nat>, ps: set<nat>, p: nat)
    requires DirectMap(f, ps) && p < PAGES
    ensures f[p] == 0 || AndNot(f[p], FLAG_MASK) == p * PAGE_SIZE
  {
    hide Or, AndNot;
    DirectEntry(p);
  }

  lemma DirectEnd(f: seq<nat>, f': seq<nat>, g: seq<nat>, pt: seq<nat>, d: nat, w0: seq<uint32>, w: seq<uint32>)
    requires OwnFrames(pt, ENTRIES, w0, w) && 32 * |w| <= PAGES && 0 < d < PAGES
    requires DirectMap(f, TableFrames(pt, ENTRIES)) && f' == f[d := Or(d * PAGE_SIZE, 3)] && g == f'[0 := 0]
    ensures DirectMap(g, TableFrames(pt, ENTRIES) + {d})
  {
    hide Or, OwnFrames;
    forall t: nat | t < ENTRIES
      ensures t < |pt| && pt[t] / PAGE_SIZE != 0
    {
      TableFrame(pt, t, w0, w);
    }
  }

  // ----- free runs in the flat view -----

  /** Page `q`, counted modulo 2^20, has no entry. */
  ghost predicate Unmapped(f: seq<nat>, q: nat) {
    |f| == PAGES && f[q % PAGES] == 0
  }

  /** The `n` pages from `s` on, wrapping at the end of the address space, are unmapped. */
  ghost predicate RunFree(f: seq<nat>, s: nat, n: nat) {
    forall q: nat | s <= q < s + n :: Unmapped(f, q)
  }

  /** Pages `lo .. hi` become reserved. */
  function Reserve(f: seq<nat>, lo: nat, hi: nat): (g: seq<nat>)
    ensures |g| == |f|
  {
    seq(|f|, p requires 0 <= p < |f| => if lo <= p < hi then RESERVED else f[p])
  }

  /** First fit from page 1; the reservation loop's end address is computed modulo 2^32. */
  ghost predicate FoundSpace(f: seq<nat>, n: nat, r: nat, g: seq<nat>) {
    if r == NONE then
      g == f && forall s: nat | 1 <= s < PAGES :: !RunFree(f, s, n)
    else
      var s := r / PAGE_SIZE;
      && r % PAGE_SIZE == 0 && 1 <= s < PAGES
      && RunFree(f, s, n) && (forall t: nat | 1 <= t < s :: !RunFree(f, t, n))
      && g == Reserve(f, s, (s + n) % PAGES)
  }

  /** Entries are only added, and those are of present pages: nothing stays reserved. */
  ghost predicate Grew(f: seq<nat>, g: seq<nat>) {
    |g| == |f| && forall p | 0 <= p < |f| :: g[p] == f[p] || (f[p] == 0 && g[p] % 2 == 1)
  }

  /** Page `q` is the first unmapped one from page 1 on. */
  ghost predicate FirstFree(g: seq<nat>, q: nat) {
    1 <= q < |g| && g[q] == 0 && forall t | 1 <= t < q :: g[t] != 0
  }

  /** The first unmapped page has that entry now, and nothing else changed. */
  ghost predicate Took(g: seq<nat>, g': seq<nat>, entry: nat) {
    exists q: nat :: FirstFree(g, q) && g' == g[q := entry]
  }

  /** Exactly block `b`, which was free, went into use. */
  ghost predicate TookFrame(w: seq<uint32>, b: nat, w': seq<uint32>) {
    0 < b && Pmm.Fits(w, b, 1) && Pmm.Marked(w, w', b, 1, true)
  }

  /** What getting table `i` does: nothing where there is one; else a fresh frame, which the hardware entry names as
      present, writable and the user's, and which the kernel has at the first unmapped page, writable. */
  ghost predicate Gained(had: bool, i: nat, k: seq<nat>, k': seq<nat>, pt: seq<nat>, pt': seq<nat>,
                         w: seq<uint32>, w': seq<uint32>) {
    if had then k' == k && pt' == pt && w' == w
    else
      && i < |pt| == |pt'|
      && var b := pt'[i] / PAGE_SIZE;
         TookFrame(w, b, w') && pt' == pt[i := b * PAGE_SIZE + 7] && Took(k, k', b * PAGE_SIZE + 3)
  }

  /** Tables were added: each in a frame of its own that was free, entered as present, writable and the user's;
      all other hardware entries are as they were. */
  ghost predicate TablesGrew(pt: seq<nat>, present: set<nat>, pt': seq<nat>, present': set<nat>, w: seq<uint32>,
                             w': seq<uint32>) {
    && |pt'| == |pt| && present <= present' && UsedGrew(w, w')
    && (forall t: nat | t < |pt| && (t in present || t !in present') :: pt'[t] == pt[t])
    && (forall t: nat | t < |pt| && t in present' && t !in present :: NewEntry(pt', t, w, w'))
    && forall t: nat, u: nat | t < u < |pt| && t in present' - present && u in present' - present ::
         pt'[t] / PAGE_SIZE != pt'[u] / PAGE_SIZE
  }

  ghost predicate NewEntry(pt: seq<nat>, t: nat, w: seq<uint32>, w': seq<uint32>)
    requires t < |pt|
  {
    var b := pt[t] / PAGE_SIZE;
    0 < b && pt[t] == b * PAGE_SIZE + 7 && !Pmm.UsedAt(w, b) && Pmm.UsedAt(w', b)
  }

  lemma TablesSame(pt: seq<nat>, present: set<nat>, w: seq<uint32>)
    ensures TablesGrew(pt, present, pt, present, w, w)
  {
  }

  lemma TablesGained(i: nat, k: seq<nat>, k': seq<nat>, pt: seq<nat>, present: set<nat>, pt': seq<nat>,
                     w: seq<uint32>, w': seq<uint32>)
    requires Gained(i in present, i, k, k', pt, pt', w, w')
    ensures TablesGrew(pt, present, pt', present + {i}, w, w')
  {
    hide Took, Pmm.UsedAt, Pmm.Fits, Pmm.Marked;
    if i !in present { FreshBlock(w, pt'[i] / PAGE_SIZE, w'); }
  }

  lemma TablesTrans(pt: seq<nat>, present: set<nat>, pt': seq<nat>, present': set<nat>, pt2: seq<nat>,
                    present2: set<nat>, w: seq<uint32>, w': seq<uint32>, w2: seq<uint32>)
    requires TablesGrew(pt, present, pt', present', w, w') && TablesGrew(pt', present', pt2, present2, w', w2)
    ensures TablesGrew(pt, present, pt2, present2, w, w2)
  {
    hide Pmm.UsedAt;
    forall t: nat | t < |pt| && t in present2 && t !in present
      ensures NewEntry(pt2, t, w, w2)
      ensures t in present' ==> Pmm.UsedAt(w', pt2[t] / PAGE_SIZE)
      ensures t !in present' ==> !Pmm.UsedAt(w', pt2[t] / PAGE_SIZE)
    {
      if t in present' { assert NewEntry(pt', t, w, w'); } else { assert NewEntry(pt2, t, w', w2); }
    }
  }

  /** So hardware entries that agreed with the tables still do. */
  lemma TablesStillAgree(pt: seq<nat>, present: set<nat>, pt': seq<nat>, present': set<nat>, w: seq<uint32>,
                         w': seq<uint32>)
    requires TablesGrew(pt, present, pt', present', w, w') && Agree(pt, present)
    requires forall t | t in present' :: t < ENTRIES
    ensures Agree(pt', present') && (NoOddTable(pt) ==> NoOddTable(pt'))
  {
    hide And, Pmm.UsedAt;
    forall t: nat | t < ENTRIES
      ensures And(pt'[t], PRESENT) != 0 <==> t in present'
      ensures !OddTable(pt[t]) ==> !OddTable(pt'[t])
    {
      AndOne(pt'[t]);
      if t in present' && t !in present {
        assert NewEntry(pt', t, w, w');
        SevenIsOdd(pt'[t] / PAGE_SIZE);
      }
    }
  }

  /** A hardware entry is present exactly where there is a table. */
  ghost predicate Agree(pt: seq<nat>, present: set<nat>) {
    |pt| == ENTRIES && forall t: nat | t < ENTRIES :: And(pt[t], PRESENT) != 0 <==> t in present
  }

  ghost predicate TablesAgree(dir: PageDirectory)
    requires dir.Valid()
    reads dir, dir.tables, dir.physicalTables, dir.Tabs
  {
    Agree(dir.physicalTables[..], dir.Present())
  }

  /** A hardware entry that is neither present nor empty. */
  predicate OddTable(entry: nat) {
    entry != 0 && And(entry, PRESENT) == 0
  }

  ghost predicate NoOddTable(pt: seq<nat>) {
    forall t | 0 <= t < |pt| :: !OddTable(pt[t])
  }

  lemma AndOne(x: nat)
    ensures And(x, PRESENT) == x % 2
  {
    hide And;
    Halves(x, 1);
    AndZero(x / 2);
  }

  /** Page tables added later keep the two arrays in agreement. */
  lemma GainedAgree(i: nat, k: seq<nat>, k': seq<nat>, pt: seq<nat>, pt': seq<nat>, present: set<nat>,
                    w: seq<uint32>, w': seq<uint32>)
    requires Gained(i in present, i, k, k', pt, pt', w, w') && Agree(pt, present) && i < ENTRIES
    ensures Agree(pt', present + {i})
    ensures NoOddTable(pt) ==> NoOddTable(pt')
  {
    hide And, Took, TookFrame;
    AndOne(pt'[i]);
    if i !in present { SevenIsOdd(pt'[i] / PAGE_SIZE); }
  }

  lemma SevenIsOdd(b: nat)
    ensures (b * PAGE_SIZE + 7) % 2 == 1
  {
  }

  /** Not one block can be handed out. */
  ghost predicate NoFrame(w: seq<uint32>) {
    Pmm.Fits(w, 0, 1) || forall b: nat :: !Pmm.Fits(w, b, 1)
  }

  /** Why a page table cannot be had: no frame for it, or no kernel page to reach it by. */
  ghost predicate Exhausted(w: seq<uint32>, g: seq<nat>) {
    NoFrame(w) || forall p | 1 <= p < |g| :: g[p] != 0
  }

  lemma AllocNone(w: seq<uint32>, r: Outcome<nat>, v: seq<uint32>)
    requires Pmm.AllocStep(w, 1, r, v)
    ensures r.Stopped? || r.value == 0 ==> NoFrame(v)
  {
    hide Pmm.Fits;
  }

  lemma SpaceGone(f: seq<nat>, g: seq<nat>)
    requires |f| == PAGES && FoundSpace(f, 1, NONE, g)
    ensures forall p | 1 <= p < |g| :: g[p] != 0
  {
    forall p | 1 <= p < |g|
      ensures g[p] != 0
    {
      if g[p] == 0 { assert !RunFree(f, p, 1); OneFree(f, p); }
    }
  }

  lemma OneFree(f: seq<nat>, p: nat)
    requires |f| == PAGES && p < PAGES && f[p] == 0
    ensures RunFree(f, p, 1)
  {
  }

  ghost predicate UsedGrew(w: seq<uint32>, v: seq<uint32>) {
    |v| == |w| && forall b: nat | Pmm.UsedAt(w, b) :: Pmm.UsedAt(v, b)
  }

  /** Two directories share neither records nor tables. */
  ghost predicate Apart(dir: PageDirectory, other: PageDirectory)
    reads dir, other
  {
    && dir != other && dir.tables != other.tables && dir.physicalTables != other.physicalTables
    && dir.Tabs !! other.Tabs
    && dir.physicalTables !in other.Tabs && other.physicalTables !in dir.Tabs
  }

  /** `vmm_init`, with the block `d` that it takes for the directory: a kernel directory with all its
      tables, in which exactly the tables and the directory are mapped, at their physical addresses.  It
      stops only for want of a frame. */
  method VmmInit(pmm: Pmm.BlockMap) returns (r: Outcome<Machine>, ghost d: nat)
    requires 32 * pmm.words.Length <= PAGES
    modifies pmm.words
    ensures r.Done? ==> fresh(r.value) && fresh(r.value.kernel) && r.value.pmm == pmm && r.value.Valid()
    ensures r.Done? ==> fresh(r.value.kernel.tables) && fresh(r.value.kernel.physicalTables)
    ensures r.Done? ==> fresh(r.value.kernel.Tabs)
    ensures r.Done? ==> r.value.Ready(r.value.kernel) && |r.value.kernel.physicalTables[..]| == ENTRIES
    ensures r.Done? ==> OwnFrames(r.value.kernel.physicalTables[..], ENTRIES, old(pmm.words[..]), pmm.words[..])
    ensures r.Done? ==> r.value.kernel.physicalAddress == d * PAGE_SIZE
    ensures r.Done? ==> 0 < d && !Pmm.UsedAt(old(pmm.words[..]), d) && Pmm.UsedAt(pmm.words[..], d)
    ensures r.Done? ==> d !in TableFrames(r.value.kernel.physicalTables[..], ENTRIES)
    ensures r.Done? ==>
              DirectMap(r.value.kernel.Flat(), TableFrames(r.value.kernel.physicalTables[..], ENTRIES) + {d})
    ensures r.Stopped? ==> NoFrame(pmm.words[..])
  {
    hide NoFrame, Pmm.AllocStep, DirectMap, OwnFrames, Pmm.UsedAt, PageDirectory.Flat, PageDirectory.Entry, TableFrames;
    d := 0;
    ghost var w := pmm.words[..];
    var phys := pmm.AllocBlocks(1);
    AllocNone(w, phys, pmm.words[..]);
    if phys.Stopped? || phys.value == 0 {
      return Stopped, d;
    }
    AllocOne(w, phys.value, pmm.words[..]);
    d := phys.value / PAGE_SIZE;
    FreshBlock(w, d, pmm.words[..]);
    ghost var w1 := pmm.words[..];
    var kernel := new PageDirectory(phys.value);
    kernel.NoEntries();
    var ok := kernel.PreallocateTables(pmm);
    if !ok {
      return Stopped, d;
    }
    FramesSince(kernel.physicalTables[..], d, w, w1, pmm.words[..]);
    var machine := new Machine(kernel, pmm);
    machine.MapTables(phys.value / PAGE_SIZE, w1);
    return Done(machine), d;
  }

  lemma FramesSince(pt: seq<nat>, d: nat, w0: seq<uint32>, w1: seq<uint32>, w: seq<uint32>)
    requires |pt| == ENTRIES && OwnFrames(pt, ENTRIES, w1, w) && UsedGrew(w0, w1) && Pmm.UsedAt(w1, d)
    ensures OwnFrames(pt, ENTRIES, w0, w) && Pmm.UsedAt(w, d) && d !in TableFrames(pt, ENTRIES)
  {
    hide Pmm.UsedAt;
    forall t: nat | t < ENTRIES
      ensures OwnFrame(pt, t, w0, w) && pt[t] / PAGE_SIZE != d
    {
      assert OwnFrame(pt, t, w1, w);
    }
  }

  /** The kernel's directory, whose tables are all allocated in advance, and the block allocator. */
  class Machine {
    const kernel: PageDirectory
    const pmm: Pmm.BlockMap

    /** After `vmm_init`: every kernel table is there. */
    constructor (kernel: PageDirectory, pmm: Pmm.BlockMap)
      requires kernel.Valid() && (forall i: nat | i < ENTRIES :: i in kernel.Present())
      requires pmm.words as object !in kernel.Tabs && pmm.words as object != kernel.tables
      requires pmm.words as object != kernel.physicalTables
      ensures this.kernel == kernel && this.pmm == pmm && Valid()
    {
      this.kernel, this.pmm := kernel, pmm;
      new;
      forall i | 0 <= i < ENTRIES
        ensures kernel.tables[i] != null
      {
        assert i in kernel.Present();
      }
    }

    ghost predicate Valid()
      reads kernel, kernel.tables, kernel.Tabs
      ensures Valid() ==> kernel.Valid() && forall i: nat | i < ENTRIES :: i in kernel.Present()
    {
      && kernel.Valid()
      && (forall i | 0 <= i < ENTRIES :: kernel.tables[i] != null)
      && pmm.words as object !in kernel.Tabs && pmm.words as object != kernel.tables
      && pmm.words as object != kernel.physicalTables
    }

    /** `dir` is the kernel's directory, or shares nothing with it. */
    ghost predicate Ready(dir: PageDirectory)
      reads kernel, kernel.tables, kernel.Tabs, dir, dir.tables, dir.Tabs
      ensures Ready(dir) ==> Valid() && dir.Valid() && kernel.Valid()
      ensures Ready(dir) ==> kernel.physicalTables !in dir.Tabs && dir.physicalTables !in dir.Tabs
      ensures Ready(dir) ==> pmm.words as object !in dir.Tabs
    {
      && Valid() && dir.Valid()
      && (dir != kernel ==>
            && dir.tables != kernel.tables && dir.physicalTables != kernel.physicalTables
            && dir.Tabs !! kernel.Tabs
            && dir.physicalTables !in kernel.Tabs && kernel.physicalTables !in dir.Tabs
            && pmm.words as object !in dir.Tabs && pmm.words as object != dir.tables
            && pmm.words as object != dir.physicalTables)
    }

    /** The end of `vmm_init`: the direct mappings of the tables and of the directory in block `d`, none of
        which can clash with another. */
    method MapTables(d: nat, ghost w: seq<uint32>)
      requires Valid() && (forall p: nat | p < PAGES :: kernel.Flat()[p] == 0)
      requires 32 * pmm.words.Length <= PAGES && OwnFrames(kernel.physicalTables[..], ENTRIES, w, pmm.words[..])
      requires 0 < d < PAGES && d !in TableFrames(kernel.physicalTables[..], ENTRIES)
      modifies kernel.Tabs
      ensures Valid() && DirectMap(kernel.Flat(), TableFrames(kernel.physicalTables[..], ENTRIES) + {d})
      ensures unchanged(kernel.physicalTables) && pmm.words[..] == old(pmm.words[..])
    {
      hide DirectMap, OwnFrames, TableFrames, Or, AndNot, PageDirectory.Flat, PageDirectory.Entry;
      ghost var pt := kernel.physicalTables[..];
      NoTables(kernel.Flat(), pt);
      for t := 0 to ENTRIES
        invariant Valid() && kernel.physicalTables[..] == pt
        invariant DirectMap(kernel.Flat(), TableFrames(pt, t))
      {
        TableFrame(pt, t, w, pmm.words[..]);
        var p := kernel.physicalTables[t] / PAGE_SIZE;
        SplitPage(p, p);
        ghost var f := kernel.Flat();
        DirectFree(f, TableFrames(pt, t), p);
        var ok := kernel.MapDirect(p);
        assert ok;
        DirectNext(f, pt, t, kernel.Flat());
      }
      SplitPage(d, d);
      ghost var f := kernel.Flat();
      DirectFree(f, TableFrames(pt, ENTRIES), d);
      var ok := kernel.MapDirect(d);
      assert ok;
      ghost var f' := kernel.Flat();
      kernel.MapPage(0, 0, 0);
      WithZero(0);
      DirectEnd(f, f', kernel.Flat(), pt, d, w, pmm.words[..]);
    }

    /** `get_table_alloc` for page `p`: the table exists afterwards, and the flat view is as before. */
    method GetTableAlloc(p: nat, dir: PageDirectory) returns (ok: bool)
      requires Ready(dir) && p < PAGES
      modifies dir, dir.tables, dir.physicalTables
      modifies kernel, kernel.tables, kernel.physicalTables, kernel.Tabs, pmm.words
      ensures Ready(dir) && unchanged(kernel, kernel.tables, kernel.physicalTables)
      ensures dir.Flat() == old(dir.Flat()) && fresh(dir.Tabs - old(dir.Tabs))
      ensures dir == kernel ==> ok && pmm.words[..] == old(pmm.words[..])
      ensures dir.Present() == if ok then old(dir.Present()) + {p / ENTRIES} else old(dir.Present())
      ensures ok ==> Grew(old(kernel.Flat()), kernel.Flat())
      ensures ok ==> Gained(p / ENTRIES in old(dir.Present()), p / ENTRIES, old(kernel.Flat()), kernel.Flat(),
                            old(dir.physicalTables[..]), dir.physicalTables[..], old(pmm.words[..]), pmm.words[..])
      ensures !ok ==> dir.physicalTables[..] == old(dir.physicalTables[..])
      ensures !ok ==> Exhausted(pmm.words[..], kernel.Flat())
      ensures UsedGrew(old(pmm.words[..]), pmm.words[..])
      decreases dir != kernel, 0
    {
      hide FoundSpace, Grew, UsedGrew, Pmm.AllocStep, NoFrame, Took, TookFrame, Or,
        PageDirectory.Flat, PageDirectory.Entry;
      GrewRefl(kernel.Flat(), pmm.words[..]);
      if dir.tables[p / ENTRIES] != null {
        return true;
      }
      // assert(directory != kernel_directory)
      if dir == kernel {
        return false;
      }
      ghost var k, w := kernel.Flat(), pmm.words[..];
      var phys := pmm.AllocBlocks(1);
      AllocGrew(w, 1, phys, pmm.words[..]);
      AllocNone(w, phys, pmm.words[..]);
      if phys.Stopped? || phys.value == 0 {
        return false;
      }
      var virt := FindVspace(kernel, 1);
      if virt.value == NONE {
        SpaceGone(k, kernel.Flat());
        return false;
      }
      FrameEntries(w, phys.value, pmm.words[..]);
      FoundMapped(k, virt.value, kernel.Flat(), Or(phys.value, PRESENT + READWRITE));
      InstallTable(p / ENTRIES, dir, phys.value, virt.value / PAGE_SIZE);
      return true;
    }

    /** `page_directory_new`: an empty directory, which the kernel can reach through one more page; it
        stops without a frame or a kernel page.  A directory there was before stays as it is. */
    method NewDirectory(ghost user: PageDirectory) returns (r: Outcome<PageDirectory>)
      requires Ready(user)
      modifies kernel, kernel.tables, kernel.physicalTables, kernel.Tabs, pmm.words
      ensures Ready(user) && unchanged(kernel, kernel.tables, kernel.physicalTables)
      ensures user != kernel ==> user.Flat() == old(user.Flat()) && user.Present() == old(user.Present())
      ensures r.Done? ==> Ready(r.value) && r.value.Present() == {} && Apart(r.value, user) && r.value != kernel
      ensures r.Done? ==> forall i | 0 <= i < ENTRIES :: r.value.physicalTables[i] == 0
      ensures r.Done? ==> fresh(r.value) && fresh(r.value.tables) && fresh(r.value.physicalTables) && r.value.Tabs == {}
      ensures r.Done? ==> TookFrame(old(pmm.words[..]), r.value.physicalAddress / PAGE_SIZE, pmm.words[..])
      ensures r.Done? ==> r.value.physicalAddress % PAGE_SIZE == 0
      ensures r.Done? ==> Took(old(kernel.Flat()), kernel.Flat(), r.value.physicalAddress + 3)
      ensures r.Done? ==> Grew(old(kernel.Flat()), kernel.Flat())
      ensures user != kernel ==> unchanged(user, user.tables, user.physicalTables)
      ensures UsedGrew(old(pmm.words[..]), pmm.words[..])
      ensures r.Stopped? ==> Exhausted(pmm.words[..], kernel.Flat())
    {
      hide Grew, Exhausted, Took, TookFrame, UsedGrew;
      var ok, phys := MapNewFrame(user);
      if !ok {
        return Stopped;
      }
      var dir := new PageDirectory(phys);
      return Done(dir);
    }

    /** A fresh frame, mapped at a kernel page. */
    method MapNewFrame(ghost user: PageDirectory) returns (ok: bool, frame: nat)
      requires Ready(user)
      modifies kernel, kernel.tables, kernel.physicalTables, kernel.Tabs, pmm.words
      ensures Ready(user) && unchanged(kernel, kernel.tables, kernel.physicalTables)
      ensures user != kernel ==> user.Flat() == old(user.Flat()) && user.Present() == old(user.Present())
      ensures ok ==> Grew(old(kernel.Flat()), kernel.Flat()) && Took(old(kernel.Flat()), kernel.Flat(), frame + 3)
      ensures ok ==> frame % PAGE_SIZE == 0 && TookFrame(old(pmm.words[..]), frame / PAGE_SIZE, pmm.words[..])
      ensures UsedGrew(old(pmm.words[..]), pmm.words[..])
      ensures !ok ==> Exhausted(pmm.words[..], kernel.Flat())
    {
      hide FoundSpace, Grew, Pmm.AllocStep, NoFrame, Or, Took, TookFrame, Unmapped, UsedGrew, PageDirectory.Flat,
        PageDirectory.Entry;
      ghost var k, w := kernel.Flat(), pmm.words[..];
      var phys := pmm.AllocBlocks(1);
      AllocGrew(w, 1, phys, pmm.words[..]);
      AllocNone(w, phys, pmm.words[..]);
      if phys.Stopped? || phys.value == 0 {
        return false, 0;
      }
      var virt := FindVspace(kernel, 1);
      if virt.value == NONE {
        SpaceGone(k, kernel.Flat());
        return false, 0;
      }
      FrameEntries(w, phys.value, pmm.words[..]);
      FoundMapped(k, virt.value, kernel.Flat(), Or(phys.value, PRESENT + READWRITE));
      SplitPage(virt.value / PAGE_SIZE, virt.value / PAGE_SIZE);
      kernel.MapPage(virt.value / PAGE_SIZE, phys.value, PRESENT + READWRITE);
      return true, phys.value;
    }

    /** Enter a zeroed table into `dir` and map it for the kernel at page `v`. */
    method InstallTable(i: nat, dir: PageDirectory, phys: nat, v: nat)
      requires Ready(dir) && dir != kernel && i < ENTRIES && i !in dir.Present() && v < PAGES
      modifies dir, dir.tables, dir.physicalTables, kernel.Tabs
      ensures Ready(dir) && dir.Present() == old(dir.Present()) + {i}
      ensures dir.Flat() == old(dir.Flat()) && fresh(dir.Tabs - old(dir.Tabs))
      ensures kernel.Flat() == old(kernel.Flat())[v := Or(phys, PRESENT + READWRITE)]
      ensures dir.physicalTables[..] == old(dir.physicalTables[..])[i := Or(phys, 7)]
    {
      SplitPage(v, v);
      dir.physicalTables[i] := Or(phys, 7);
      kernel.MapPage(v, phys, PRESENT + READWRITE);
      dir.AddTable(i);
    }

    /** Map one page of a directory that has the table for it. */
    method MapIn(dir: PageDirectory, p: nat, phys: nat, flags: nat)
      requires Ready(dir) && p < PAGES && p / ENTRIES in dir.Present()
      modifies dir.Tabs
      ensures Ready(dir) && dir.Flat() == old(dir.Flat())[p := Or(phys, flags)]
      ensures dir.Present() == old(dir.Present())
      ensures dir != kernel ==> kernel.Flat() == old(kernel.Flat())
    {
      SplitPage(p, p);
      dir.MapPage(p, phys, flags);
    }

    /** Map one page of the kernel's directory; any other directory stays as it is. */
    method MapKernel(p: nat, phys: nat, flags: nat, ghost user: PageDirectory)
      requires Ready(user) && user != kernel && p < PAGES
      modifies kernel.Tabs
      ensures Ready(user) && user.Flat() == old(user.Flat()) && user.Present() == old(user.Present())
      ensures kernel.Flat() == old(kernel.Flat())[p := Or(phys, flags)]
    {
      SplitPage(p, p);
      kernel.MapPage(p, phys, flags);
    }

    /** `find_vspace(kernel_directory, n)`, which touches no other directory. */
    method KernelSpace(n: nat, ghost user: PageDirectory) returns (r: nat)
      requires Ready(user) && user != kernel && n != 0
      modifies kernel, kernel.tables, kernel.physicalTables, kernel.Tabs, pmm.words
      ensures Ready(user) && user.Flat() == old(user.Flat()) && user.Present() == old(user.Present())
      ensures unchanged(kernel, kernel.tables, kernel.physicalTables) && pmm.words[..] == old(pmm.words[..])
      ensures FoundSpace(old(kernel.Flat()), n, r, kernel.Flat())
      decreases false, 4
    {
      hide FoundSpace;
      ghost var f := user.Flat();
      var found := FindVspace(kernel, n);
      r := found.value;
    }

    /** The inner loop of the search: how many of the `n` pages from `i` on are unmapped. */
    method RunLength(i: nat, n: nat, dir: PageDirectory) returns (r: Outcome<nat>)
      requires Ready(dir) && n != 0 && i < PAGES && Unmapped(dir.Flat(), i) && i / ENTRIES in dir.Present()
      modifies dir, dir.tables, dir.physicalTables
      modifies kernel, kernel.tables, kernel.physicalTables, kernel.Tabs, pmm.words
      ensures Ready(dir) && unchanged(kernel, kernel.tables, kernel.physicalTables)
      ensures dir.Flat() == old(dir.Flat()) && fresh(dir.Tabs - old(dir.Tabs))
      ensures dir == kernel ==> r.Done? && pmm.words[..] == old(pmm.words[..])
      ensures r.Done? ==> Grew(old(kernel.Flat()), kernel.Flat())
      ensures r.Stopped? ==> Exhausted(pmm.words[..], kernel.Flat())
      ensures r.Done? ==> TablesGrew(old(dir.physicalTables[..]), old(dir.Present()), dir.physicalTables[..],
                                     dir.Present(), old(pmm.words[..]), pmm.words[..])
      ensures UsedGrew(old(pmm.words[..]), pmm.words[..])
      ensures r.Done? ==> 1 <= r.value <= n && RunFree(dir.Flat(), i, r.value) && TablesFor(dir.Present(), i, r.value)
      ensures r.Done? && r.value < n ==> !Unmapped(dir.Flat(), i + r.value)
      decreases dir != kernel, 1
    {
      hide Ready, Valid, PageDirectory.Valid, PageDirectory.Present, PageDirectory.Flat, PageDirectory.Entry, Grew,
        UsedGrew, RunFree, TablesFor, Unmapped, Exhausted, Gained, TablesGrew;
      ghost var f, k, w := dir.Flat(), kernel.Flat(), pmm.words[..];
      ghost var pt, have := dir.physicalTables[..], dir.Present();
      GrewRefl(k, w);
      TablesSame(pt, have, w);
      RunStart(f, i, dir.Present());
      var length: nat := 1;
      while length < n
        invariant Ready(dir) && dir.Flat() == f && fresh(dir.Tabs - old(dir.Tabs))
        invariant unchanged(kernel, kernel.tables, kernel.physicalTables)
        invariant dir == kernel ==> pmm.words[..] == w
        invariant Grew(k, kernel.Flat()) && UsedGrew(w, pmm.words[..])
        invariant 1 <= length <= n && RunFree(f, i, length) && TablesFor(dir.Present(), i, length)
        invariant TablesGrew(pt, have, dir.physicalTables[..], dir.Present(), w, pmm.words[..])
      {
        ghost var k', w' := kernel.Flat(), pmm.words[..];
        ghost var pt', present := dir.physicalTables[..], dir.Present();
        var page := (i + length) % PAGES;
        var ok := GetTableAlloc(page, dir);
        GrewTrans(k, k', kernel.Flat(), w, w', pmm.words[..]);
        if !ok {
          return Stopped;
        }
        TablesGained(page / ENTRIES, k', kernel.Flat(), pt', present, dir.physicalTables[..], w', pmm.words[..]);
        TablesTrans(pt, have, pt', present, dir.physicalTables[..], dir.Present(), w, w', pmm.words[..]);
        var entry := dir.GetPage(page);
        RunExtend(f, i, length, present, dir.Present());
        if entry != 0 {
          break;
        }
        length := length + 1;
      }
      return Done(length);
    }

    /** The reservation loop, from page `lo` up to the wrapped end `hi`. */
    method ReserveRange(lo: nat, hi: nat, ghost n: nat, dir: PageDirectory)
      requires Ready(dir) && lo < PAGES && hi == (lo + n) % PAGES && TablesFor(dir.Present(), lo, n)
      modifies dir.Tabs
      ensures Ready(dir) && dir.Flat() == Reserve(old(dir.Flat()), lo, hi) && dir.Present() == old(dir.Present())
      ensures dir != kernel ==> kernel.Flat() == old(kernel.Flat())
    {
      hide Ready, Valid, PageDirectory.Valid, PageDirectory.Present, PageDirectory.Flat, PageDirectory.Entry, Reserve,
        TablesFor, Or;
      ghost var f := dir.Flat();
      WithZero(RESERVED);
      ReserveNone(f, lo);
      var i := lo;
      while i < hi
        invariant Ready(dir) && lo <= i && dir.Flat() == Reserve(f, lo, i)
        invariant if lo < hi then i <= hi else i == lo
        invariant dir.Present() == old(dir.Present())
        invariant dir != kernel ==> kernel.Flat() == old(kernel.Flat())
      {
        TableOf(dir.Present(), lo, n, i);
        ReserveSteps(f, lo, i);
        MapIn(dir, i, RESERVED, 0);
        i := i + 1;
      }
      ReserveEnds(f, lo, i, hi);
    }

    /** One round of the outer loop: how many of the `n` pages from `i` on are unmapped, which is none when
        page `i` itself is mapped. */
    method Probe(i: nat, n: nat, dir: PageDirectory) returns (r: Outcome<nat>)
      requires Ready(dir) && n != 0 && i < PAGES
      modifies dir, dir.tables, dir.physicalTables
      modifies kernel, kernel.tables, kernel.physicalTables, kernel.Tabs, pmm.words
      ensures Ready(dir) && unchanged(kernel, kernel.tables, kernel.physicalTables)
      ensures dir.Flat() == old(dir.Flat()) && fresh(dir.Tabs - old(dir.Tabs))
      ensures dir == kernel ==> r.Done? && pmm.words[..] == old(pmm.words[..])
      ensures r.Done? ==> Grew(old(kernel.Flat()), kernel.Flat())
      ensures r.Stopped? ==> Exhausted(pmm.words[..], kernel.Flat())
      ensures r.Done? ==> TablesGrew(old(dir.physicalTables[..]), old(dir.Present()), dir.physicalTables[..],
                                     dir.Present(), old(pmm.words[..]), pmm.words[..])
      ensures UsedGrew(old(pmm.words[..]), pmm.words[..])
      ensures r.Done? ==> r.value <= n
      ensures r.Done? && r.value > 0 ==> RunFree(dir.Flat(), i, r.value) && TablesFor(dir.Present(), i, r.value)
      ensures r.Done? && r.value < n ==> !Unmapped(dir.Flat(), i + r.value)
      decreases dir != kernel, 2
    {
      hide Ready, Valid, PageDirectory.Valid, PageDirectory.Present, PageDirectory.Flat, PageDirectory.Entry, Grew,
        UsedGrew, RunFree, TablesFor, Exhausted, Gained, TablesGrew;
      ghost var k, w := kernel.Flat(), pmm.words[..];
      ghost var pt, have := dir.physicalTables[..], dir.Present();
      var ok := GetTableAlloc(i, dir);
      if !ok {
        return Stopped;
      }
      TablesGained(i / ENTRIES, k, kernel.Flat(), pt, have, dir.physicalTables[..], w, pmm.words[..]);
      var entry := dir.GetPage(i);
      if entry != 0 {
        return Done(0);
      }
      ghost var k', w' := kernel.Flat(), pmm.words[..];
      ghost var pt', present := dir.physicalTables[..], dir.Present();
      r := RunLength(i, n, dir);
      GrewTrans(k, k', kernel.Flat(), w, w', pmm.words[..]);
      if r.Done? {
        TablesTrans(pt, have, pt', present, dir.physicalTables[..], dir.Present(), w, w', pmm.words[..]);
      }
    }

    /** The first `n` unmapped pages from page 1 on, reserved; `NONE` if there are none. */
    method FindVspace(dir: PageDirectory, n: nat) returns (r: Outcome<nat>)
      requires Ready(dir) && n != 0
      modifies dir, dir.tables, dir.physicalTables, dir.Tabs
      modifies kernel, kernel.tables, kernel.physicalTables, kernel.Tabs, pmm.words
      ensures Ready(dir) && unchanged(kernel, kernel.tables, kernel.physicalTables)
      ensures fresh(dir.Tabs - old(dir.Tabs))
      ensures dir == kernel ==> r.Done? && pmm.words[..] == old(pmm.words[..])
      ensures r.Done? ==> FoundSpace(old(dir.Flat()), n, r.value, dir.Flat())
      ensures dir != kernel && r.Done? ==> Grew(old(kernel.Flat()), kernel.Flat())
      ensures r.Stopped? ==> Exhausted(pmm.words[..], kernel.Flat())
      ensures r.Done? ==> TablesGrew(old(dir.physicalTables[..]), old(dir.Present()), dir.physicalTables[..],
                                     dir.Present(), old(pmm.words[..]), pmm.words[..])
      ensures UsedGrew(old(pmm.words[..]), pmm.words[..])
      decreases dir != kernel, 3
    {
      hide Ready, Valid, PageDirectory.Valid, PageDirectory.Present, PageDirectory.Flat, PageDirectory.Entry, Grew,
        UsedGrew, RunFree, FoundSpace, Reserve, NoneBelow, TablesFor, Exhausted, TablesGrew;
      ghost var f, k, w := dir.Flat(), kernel.Flat(), pmm.words[..];
      ghost var pt, have := dir.physicalTables[..], dir.Present();
      GrewRefl(k, w);
      TablesSame(pt, have, w);
      FoundNone(f, n);
      var i: nat := 1;
      while i < PAGES
        invariant Ready(dir) && dir.Flat() == f && fresh(dir.Tabs - old(dir.Tabs))
        invariant unchanged(kernel, kernel.tables, kernel.physicalTables)
        invariant dir == kernel ==> pmm.words[..] == w
        invariant Grew(k, kernel.Flat()) && UsedGrew(w, pmm.words[..])
        invariant NoneBelow(f, i, n)
        invariant TablesGrew(pt, have, dir.physicalTables[..], dir.Present(), w, pmm.words[..])
        decreases PAGES - i
      {
        ghost var k', w' := kernel.Flat(), pmm.words[..];
        ghost var pt', present := dir.physicalTables[..], dir.Present();
        var run := Probe(i, n, dir);
        GrewTrans(k, k', kernel.Flat(), w, w', pmm.words[..]);
        if run.Stopped? {
          return Stopped;
        }
        TablesTrans(pt, have, pt', present, dir.physicalTables[..], dir.Present(), w, w', pmm.words[..]);
        var length := run.value;
        if length == n {
          ReserveRange(i, (i + length) % PAGES, length, dir);
          FoundAt(f, i, n);
          return Done(i * PAGE_SIZE);
        }
        MappedBlocks(f, i, length, n);
        i := i + length + 1;
      }
      FoundNoneAt(f, i, n);
      return Done(NONE);
    }
  }

  /** Every one of the `n` pages from `s` on has a page table. */
  ghost predicate TablesFor(present: set<nat>, s: nat, n: nat) {
    forall q: nat | s <= q < s + n :: HasTable(present, q)
  }

  ghost predicate HasTable(present: set<nat>, q: nat) {
    q % PAGES / ENTRIES in present
  }

  lemma RunStart(f: seq<nat>, s: nat, present: set<nat>)
    requires Unmapped(f, s) && s < PAGES && s / ENTRIES in present
    ensures RunFree(f, s, 1) && TablesFor(present, s, 1)
  {
    forall q: nat | s <= q < s + 1
      ensures Unmapped(f, q) && HasTable(present, q)
    {
    }
  }

  lemma RunExtend(f: seq<nat>, s: nat, n: nat, present: set<nat>, present': set<nat>)
    requires RunFree(f, s, n) && TablesFor(present, s, n) && |f| == PAGES
    requires present <= present' && (s + n) % PAGES / ENTRIES in present'
    ensures f[(s + n) % PAGES] == 0 <==> Unmapped(f, s + n)
    ensures Unmapped(f, s + n) ==> RunFree(f, s, n + 1)
    ensures TablesFor(present', s, n) && TablesFor(present', s, n + 1)
  {
    forall q: nat | s <= q < s + n + 1
      ensures HasTable(present', q)
      ensures Unmapped(f, s + n) ==> Unmapped(f, q)
    {
      if q < s + n { assert HasTable(present, q) && Unmapped(f, q); }
    }
  }

  lemma TableOf(present: set<nat>, s: nat, n: nat, q: nat)
    requires TablesFor(present, s, n) && q < PAGES && s <= q < (s + n) % PAGES
    ensures q / ENTRIES in present
  {
    assert q < s + n;
    assert HasTable(present, q);
  }

  lemma ReserveSteps(f: seq<nat>, lo: nat, i: nat)
    requires lo <= i
    ensures i < |f| ==> Reserve(f, lo, i)[i := RESERVED] == Reserve(f, lo, i + 1)
  {
  }

  lemma ReserveNone(f: seq<nat>, lo: nat)
    ensures Reserve(f, lo, lo) == f
  {
  }

  lemma ReserveEnds(f: seq<nat>, lo: nat, i: nat, hi: nat)
    requires if lo < hi then i == hi else i == lo
    ensures Reserve(f, lo, i) == Reserve(f, lo, hi)
  {
  }

  lemma FoundNone(f: seq<nat>, n: nat)
    ensures NoneBelow(f, 1, n)
  {
  }

  lemma FoundNoneAt(f: seq<nat>, i: nat, n: nat)
    requires NoneBelow(f, i, n) && i >= PAGES
    ensures FoundSpace(f, n, NONE, f)
  {
    hide RunFree;
  }

  lemma FoundAt(f: seq<nat>, s: nat, n: nat)
    requires 1 <= s < PAGES && RunFree(f, s, n) && NoneBelow(f, s, n)
    ensures FoundSpace(f, n, s * PAGE_SIZE, Reserve(f, s, (s + n) % PAGES))
  {
    hide RunFree;
  }

  /** A mapped page `s + length` rules out every start up to and including itself. */
  lemma MappedBlocks(f: seq<nat>, s: nat, length: nat, n: nat)
    requires NoneBelow(f, s, n) && !Unmapped(f, s + length) && length < n
    ensures NoneBelow(f, s + length + 1, n)
  {
    forall t: nat | s <= t <= s + length
      ensures !RunFree(f, t, n)
    {
      assert t <= s + length < t + n;
    }
  }

  /** No run of `n` unmapped pages starts below `i`. */
  ghost predicate NoneBelow(f: seq<nat>, i: nat, n: nat) {
    forall t: nat | 1 <= t < i && t < PAGES :: !RunFree(f, t, n)
  }

  lemma GrewRefl(f: seq<nat>, w: seq<uint32>)
    ensures Grew(f, f) && UsedGrew(w, w)
  {
  }

  lemma GrewTrans(f: seq<nat>, g: seq<nat>, h: seq<nat>, w: seq<uint32>, v: seq<uint32>, u: seq<uint32>)
    ensures Grew(f, g) && Grew(g, h) ==> Grew(f, h)
    ensures UsedGrew(w, v) && UsedGrew(v, u) ==> UsedGrew(w, u)
  {
    hide Pmm.UsedAt;
  }

  lemma AllocGrew(w: seq<uint32>, n: nat, r: Outcome<nat>, v: seq<uint32>)
    requires Pmm.AllocStep(w, n, r, v)
    ensures UsedGrew(w, v)
  {
  }

  lemma FoundMapped(f: seq<nat>, r: nat, g: seq<nat>, entry: nat)
    requires FoundSpace(f, 1, r, g) && r != NONE && |f| == PAGES && entry % 2 == 1
    ensures r / PAGE_SIZE < PAGES
    ensures Grew(f, g[r / PAGE_SIZE := entry]) && Took(f, g[r / PAGE_SIZE := entry], entry)
  {
    var q, h := r / PAGE_SIZE, g[r / PAGE_SIZE := entry];
    FoundFirstFree(f, r, g);
    assert h == f[q := entry];
  }

  /** The entries that are made for a fresh frame. */
  lemma FrameEntries(w: seq<uint32>, phys: nat, w': seq<uint32>)
    requires Pmm.AllocStep(w, 1, Done(phys), w') && phys != 0
    ensures var b := phys / PAGE_SIZE;
            && phys == b * PAGE_SIZE && TookFrame(w, b, w')
            && Or(phys, 3) == b * PAGE_SIZE + 3 && Or(phys, 3) % 2 == 1
            && Or(phys, 7) == b * PAGE_SIZE + 7 && Or(phys, 7) / PAGE_SIZE == b
  {
    hide Or, Pmm.Fits, Pmm.Marked, Pmm.AllocStep;
    AllocOne(w, phys, w');
    FlagsKeepFrame(phys, 3);
    FlagsKeepFrame(phys, 7);
  }

  /** A search for one page finds the first that is unmapped, and reserves it unless it is the last. */
  lemma FoundFirstFree(f: seq<nat>, r: nat, g: seq<nat>)
    requires FoundSpace(f, 1, r, g) && r != NONE && |f| == PAGES
    ensures FirstFree(f, r / PAGE_SIZE)
    ensures g == if r / PAGE_SIZE == PAGES - 1 then f else f[r / PAGE_SIZE := RESERVED]
  {
    var q := r / PAGE_SIZE;
    assert Unmapped(f, q);
    forall t | 1 <= t < q
      ensures f[t] != 0
    {
      if f[t] == 0 { OneFree(f, t); }
    }
  }

  // ----- runs that may wrap -----

  /** Page `p` is one of the `n` from `k` on, which may wrap at the end of the address space. */
  predicate InRun(p: nat, k: nat, n: nat) {
    k <= p < k + n || p + PAGES < k + n
  }

  /** `g` is `f` except in the `n` pages from `k` on. */
  ghost predicate SameOutside(f: seq<nat>, g: seq<nat>, k: nat, n: nat) {
    |g| == |f| == PAGES && forall p: nat | p < PAGES && !InRun(p, k, n) :: g[p] == f[p]
  }

  /** Another page of the run. */
  lemma NextOfRun(k: nat, n: nat)
    requires k < PAGES && n < PAGES
    ensures forall p: nat | p < PAGES :: InRun(p, k, n + 1) <==> InRun(p, k, n) || p == (k + n) % PAGES
    ensures !InRun((k + n) % PAGES, k, n)
  {
    Wrapped(k, n);
  }

  lemma Wrapped(k: nat, i: nat)
    requires k < PAGES && i < PAGES
    ensures (k + i) % PAGES == if k + i < PAGES then k + i else k + i - PAGES
  {
  }

  /** A change in a page of the run. */
  lemma ChangedInRun(f: seq<nat>, g: seq<nat>, k: nat, i: nat, n: nat, entry: nat)
    requires SameOutside(f, g, k, n) && i < n <= PAGES && k < PAGES
    ensures SameOutside(f, g[(k + i) % PAGES := entry], k, n)
  {
    NextOfRun(k, i);
    assert InRun((k + i) % PAGES, k, i + 1);
  }

  lemma SpaceNone(g: seq<nat>, n: nat, g1: seq<nat>)
    requires FoundSpace(g, n, NONE, g1)
    ensures forall s: nat | 1 <= s < PAGES :: !RunFree(g, s, n)
  {
  }

  lemma SpaceSome(g: seq<nat>, n: nat, r: nat, g1: seq<nat>)
    requires FoundSpace(g, n, r, g1) && r != NONE
    requires n <= PAGES
    ensures r == r / PAGE_SIZE * PAGE_SIZE && r / PAGE_SIZE < PAGES
    ensures RunFree(g, r / PAGE_SIZE, n) && exists s: nat :: 1 <= s < PAGES && RunFree(g, s, n)
    ensures |g| == PAGES ==> SameOutside(g, g1, r / PAGE_SIZE, n)
  {
    hide RunFree;
    var k := r / PAGE_SIZE;
    if k + n >= PAGES { WrapsBelow(k, n); }
  }

  lemma SameSelf(g: seq<nat>, k: nat, n: nat)
    requires |g| == PAGES
    ensures SameOutside(g, g, k, n)
  {
  }

  // ----- when the reservation is exact -----

  /** With the last page mapped a run cannot wrap: the search returns the least start at or above page 1
      of `n` unmapped pages, and exactly those `n` entries become reserved. */
  lemma FoundExactly(f: seq<nat>, n: nat, r: nat, g: seq<nat>)
    requires |f| == PAGES && f[PAGES - 1] != 0 && n != 0
    requires FoundSpace(f, n, r, g) && r != NONE
    ensures var s := r / PAGE_SIZE;
            && 1 <= s && s + n < PAGES
            && (forall p | s <= p < s + n :: f[p] == 0)
            && g == Reserve(f, s, s + n)
            && forall t: nat | 1 <= t < s :: MappedIn(f, t, n)
  {
    var s := r / PAGE_SIZE;
    NoWrap(f, s, n);
    forall p: nat | s <= p < s + n
      ensures f[p] == 0
    {
      assert Unmapped(f, p);
    }
    forall t: nat | 1 <= t < s
      ensures MappedIn(f, t, n)
    {
      assert !RunFree(f, t, n);
      var q: nat :| t <= q < t + n && !Unmapped(f, q);
      var p := if q < PAGES then q else PAGES - 1;
      assert f[p] != 0;
    }
  }

  /** Some page among `t .. t + n` is mapped. */
  ghost predicate MappedIn(f: seq<nat>, t: nat, n: nat) {
    exists p: nat :: t <= p < t + n && p < |f| && f[p] != 0
  }

  lemma NoWrap(f: seq<nat>, s: nat, n: nat)
    requires |f| == PAGES && f[PAGES - 1] != 0 && s < PAGES && RunFree(f, s, n)
    ensures s + n < PAGES
  {
    if s + n >= PAGES { RunFreeAt(f, s, n, PAGES - 1); }
  }

  lemma RunFreeAt(f: seq<nat>, s: nat, n: nat, q: nat)
    requires RunFree(f, s, n) && s <= q < s + n
    ensures |f| == PAGES && f[q % PAGES] == 0
  {
    assert Unmapped(f, q);
  }

  ghost predicate ReservedAt(g: seq<nat>, q: nat) {
    |g| == PAGES && g[q % PAGES] == RESERVED
  }

  /** In general, for `n` up to the whole address space, the `n` pages found are all reserved if and only
      if the run ends before the last page; a run that reaches or wraps past the end of the address
      space gets nothing reserved, because the end address of the reservation loop overflows. */
  lemma ReservedExactlyBelowEnd(f: seq<nat>, n: nat, r: nat, g: seq<nat>)
    requires |f| == PAGES && 0 < n <= PAGES
    requires FoundSpace(f, n, r, g) && r != NONE
    ensures var s := r / PAGE_SIZE;
            && ((forall q: nat | s <= q < s + n :: ReservedAt(g, q)) <==> s + n < PAGES)
            && (s + n >= PAGES ==> g == f)
  {
    var s := r / PAGE_SIZE;
    assert Unmapped(f, s);
    if s + n < PAGES {
      forall q: nat | s <= q < s + n
        ensures ReservedAt(g, q)
      {
      }
    } else {
      WrapsBelow(s, n);
      assert g == f;
      assert !ReservedAt(g, s);
    }
  }

  /** Before the call: all pages that will be found will also be reserved, if and only if the directory
      has a run that ends before the last page; and if it has none, nothing is reserved at all. */
  lemma ReservedExactlyWhenRoom(f: seq<nat>, n: nat, r: nat, g: seq<nat>)
    requires |f| == PAGES && 0 < n <= PAGES && FoundSpace(f, n, r, g)
    ensures RoomBelowEnd(f, n) <==>
              r != NONE && forall q: nat | r / PAGE_SIZE <= q < r / PAGE_SIZE + n :: ReservedAt(g, q)
    ensures !RoomBelowEnd(f, n) ==> g == f
  {
    hide RunFree, ReservedAt;
    if r != NONE {
      ReservedExactlyBelowEnd(f, n, r, g);
      assert forall s: nat | 1 <= s && s + n < PAGES && RunFree(f, s, n) :: r / PAGE_SIZE <= s;
    }
  }

  /** With only the last page unmapped that page is found, and not reserved. */
  lemma LastPageNotReserved()
    ensures var f := seq(PAGES, p => if p == PAGES - 1 then 0 else PRESENT);
            FoundSpace(f, 1, (PAGES - 1) * PAGE_SIZE, f) && !RoomBelowEnd(f, 1) && f[PAGES - 1] != RESERVED
  {
    var f := seq(PAGES, p => if p == PAGES - 1 then 0 else PRESENT);
    forall t: nat | 1 <= t < PAGES - 1
      ensures !RunFree(f, t, 1)
    {
      assert !Unmapped(f, t);
    }
    OneFree(f, PAGES - 1);
    WrapsBelow(PAGES - 1, 1);
    assert Reserve(f, PAGES - 1, 0) == f;
  }

  /** Two searches for one page in a row find the same page if and only if the last page is the only one
      that is unmapped, page 0 aside. */
  lemma SamePageExactly(f: seq<nat>, r: nat, g: seq<nat>, r': nat, g': seq<nat>)
    requires |f| == PAGES && FoundSpace(f, 1, r, g) && r != NONE && FoundSpace(g, 1, r', g')
    ensures r' == r <==> FirstFree(f, PAGES - 1)
  {
    hide FoundSpace;
    FoundFirstFree(f, r, g);
    FoundIs(f, r, g);
    if r' != NONE {
      FoundFirstFree(g, r', g');
      FoundIs(g, r', g');
    } else {
      SpaceGone(g, g');
      NothingFound(g, g');
    }
  }

  lemma FoundIs(f: seq<nat>, r: nat, g: seq<nat>)
    requires FoundSpace(f, 1, r, g) && r != NONE
    ensures r == r / PAGE_SIZE * PAGE_SIZE
  {
    hide RunFree;
  }

  lemma NothingFound(f: seq<nat>, g: seq<nat>)
    requires FoundSpace(f, 1, NONE, g)
    ensures g == f
  {
    hide RunFree;
  }

  /** Some run of `n` unmapped pages from page 1 on ends before the last page. */
  ghost predicate RoomBelowEnd(f: seq<nat>, n: nat) {
    exists s: nat | 1 <= s && s + n < PAGES :: RunFree(f, s, n)
  }

  lemma WrapsBelow(s: nat, n: nat)
    requires s < PAGES <= s + n && n <= PAGES
    ensures (s + n) % PAGES <= s
  {
  }

  lemma SplitPage(p: nat, q: nat)
    requires p < PAGES && q < PAGES
    ensures p / ENTRIES < ENTRIES && p % ENTRIES < ENTRIES
    ensures p != q ==> p / ENTRIES != q / ENTRIES || p % ENTRIES != q % ENTRIES
  {
  }
}
