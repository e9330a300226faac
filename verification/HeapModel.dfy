/** What the kernel heap (kernel/liballoc.c) holds: page regions ("majors") in list order, each with its
allocated blocks ("minors") in address order.  The linked header records of the C code are functions
of this sequence; module `Liballoc` keeps the two in step. */
module HeapModel {

  /** `sizeof(struct liballoc_major)` and `sizeof(struct liballoc_minor)` are both 24. */
  const HEADER: nat := 24
  const ALIGNMENT: nat := 16
  const ALIGN_INFO: nat := 16
  const PAGE_SIZE: nat := 4096
  const PAGE_COUNT: nat := 16
  const MAGIC: nat := 0xc001c0de
  const DEAD: nat := 0xdeaddead
  const SPACE: nat := 0x1_0000_0000

  datatype Block = Block(addr: nat, size: nat, req: nat)
  datatype Region = Region(addr: nat, pages: nat, blocks: seq<Block>)

  /** The header structures, with addresses for pointers and 0 for NULL. */
  datatype Major = Major(prev: nat, next: nat, pages: nat, size: nat, usage: nat, first: nat)
  datatype Minor = Minor(prev: nat, next: nat, block: nat, magic: nat, size: nat, req: nat)

  // ----- layout -----

  function Size(r: Region): nat {
    r.pages * PAGE_SIZE
  }

  function End(b: Block): nat {
    b.addr + HEADER + b.size
  }

  /** Gap `j` of a region lies before block `j`; the last one runs to the end of the region. */
  function GapStart(r: Region, j: nat): nat
    requires j <= |r.blocks|
  {
    if j == 0 then r.addr + HEADER else End(r.blocks[j - 1])
  }

  function GapEnd(r: Region, j: nat): nat
    requires j <= |r.blocks|
  {
    if j == |r.blocks| then r.addr + Size(r) else r.blocks[j].addr
  }

  predicate GapFits(r: Region, j: nat, need: nat) {
    j <= |r.blocks| && GapStart(r, j) + need <= GapEnd(r, j)
  }

  predicate HasGap(r: Region, need: nat) {
    exists j: nat | j <= |r.blocks| :: GapFits(r, j, need)
  }

  function SumSizes(blocks: seq<Block>): nat {
    if blocks == [] then 0 else SumSizes(blocks[..|blocks| - 1]) + blocks[|blocks| - 1].size
  }

  /** The bytes of a region taken by headers and blocks. */
  function Usage(r: Region): nat {
    HEADER + SumSizes(r.blocks) + HEADER * |r.blocks|
  }

  function InUse(rs: seq<Region>): nat {
    if rs == [] then 0 else InUse(rs[..|rs| - 1]) + SumSizes(rs[|rs| - 1].blocks)
  }

  function Allocated(rs: seq<Region>): nat {
    if rs == [] then 0 else Allocated(rs[..|rs| - 1]) + Size(rs[|rs| - 1])
  }

  ghost predicate Sorted(blocks: seq<Block>) {
    forall i, j | 0 <= i < j < |blocks| :: End(blocks[i]) <= blocks[j].addr
  }

  ghost predicate BlockOk(r: Region, b: Block) {
    && r.addr + HEADER <= b.addr && End(b) <= r.addr + Size(r)
    && b.req + ALIGNMENT + ALIGN_INFO <= b.size
  }

  ghost predicate RegionOk(r: Region) {
    && 0 < r.addr && 0 < r.pages && r.addr + Size(r) <= SPACE
    && (forall j | 0 <= j < |r.blocks| :: BlockOk(r, r.blocks[j]))
    && Sorted(r.blocks)
  }

  ghost predicate Apart(r: Region, s: Region) {
    r.addr + Size(r) <= s.addr || s.addr + Size(s) <= r.addr
  }

  ghost predicate RegionsOk(rs: seq<Region>) {
    && (forall i | 0 <= i < |rs| :: RegionOk(rs[i]))
    && forall i, j | 0 <= i < j < |rs| :: Apart(rs[i], rs[j])
  }

  // ----- the header records as functions of the layout -----

  function MajorRec(rs: seq<Region>, i: nat): Major
    requires i < |rs|
  {
    Major(
      if i == 0 then 0 else rs[i - 1].addr,
      if i + 1 == |rs| then 0 else rs[i + 1].addr,
      rs[i].pages, Size(rs[i]), Usage(rs[i]),
      if rs[i].blocks == [] then 0 else rs[i].blocks[0].addr)
  }

  function MinorRec(r: Region, j: nat): Minor
    requires j < |r.blocks|
  {
    Minor(
      if j == 0 then 0 else r.blocks[j - 1].addr,
      if j + 1 == |r.blocks| then 0 else r.blocks[j + 1].addr,
      r.addr, MAGIC, r.blocks[j].size, r.blocks[j].req)
  }

  ghost predicate MinorsLinked(minors: map<nat, Minor>, r: Region) {
    forall j | 0 <= j < |r.blocks| :: r.blocks[j].addr in minors && minors[r.blocks[j].addr] == MinorRec(r, j)
  }

  ghost predicate MajorsLinked(majors: map<nat, Major>, rs: seq<Region>) {
    forall i | 0 <= i < |rs| :: rs[i].addr in majors && majors[rs[i].addr] == MajorRec(rs, i)
  }

  ghost predicate Linked(majors: map<nat, Major>, minors: map<nat, Minor>, rs: seq<Region>) {
    MajorsLinked(majors, rs) && forall i | 0 <= i < |rs| :: MinorsLinked(minors, rs[i])
  }

  // ----- insertion and removal -----

  function InsertBlock(r: Region, j: nat, b: Block): (q: Region)
    requires j <= |r.blocks|
    ensures q.addr == r.addr && q.pages == r.pages && |q.blocks| == |r.blocks| + 1
  {
    r.(blocks := r.blocks[..j] + [b] + r.blocks[j..])
  }

  function RemoveBlock(r: Region, j: nat): (q: Region)
    requires j < |r.blocks|
    ensures q.addr == r.addr && q.pages == r.pages && |q.blocks| == |r.blocks| - 1
  {
    r.(blocks := r.blocks[..j] + r.blocks[j + 1..])
  }

  function RemoveRegion(rs: seq<Region>, k: nat): seq<Region>
    requires k < |rs|
  {
    rs[..k] + rs[k + 1..]
  }

  lemma SortedAddrs(r: Region, i: nat, j: nat)
    requires RegionOk(r) && i < j < |r.blocks|
    ensures r.blocks[i].addr < r.blocks[j].addr
  {
  }

  lemma InsertRegionOk(r: Region, j: nat, b: Block)
    requires RegionOk(r) && GapFits(r, j, b.size + HEADER) && b.addr == GapStart(r, j)
    requires b.req + ALIGNMENT + ALIGN_INFO <= b.size
    ensures RegionOk(InsertBlock(r, j, b))
  {
    hide Sorted, BlockOk;
    var q := InsertBlock(r, j, b);
    InsertedAt(r, j, b);
    GapBlockOk(r, j, b);
    GapOrder(r, j, b);
    InsertSorted(r.blocks, j, b);
    forall i | 0 <= i < |q.blocks|
      ensures BlockOk(q, q.blocks[i])
    {
      BlockOkMoves(r, q, q.blocks[i]);
    }
  }

  lemma BlockOkMoves(r: Region, q: Region, b: Block)
    requires q.addr == r.addr && q.pages == r.pages
    ensures BlockOk(r, b) == BlockOk(q, b)
  {
  }

  lemma GapOrder(r: Region, j: nat, b: Block)
    requires RegionOk(r) && GapFits(r, j, b.size + HEADER) && b.addr == GapStart(r, j)
    ensures forall i | 0 <= i < j :: End(r.blocks[i]) <= b.addr
    ensures forall i | j <= i < |r.blocks| :: End(b) <= r.blocks[i].addr
  {
    hide BlockOk;
    forall i | 0 <= i < |r.blocks|
      ensures i < j ==> End(r.blocks[i]) <= b.addr
      ensures i >= j ==> End(b) <= r.blocks[i].addr
    {
      if i < j - 1 { assert End(r.blocks[i]) <= r.blocks[j - 1].addr; }
      if i > j { assert End(r.blocks[j]) <= r.blocks[i].addr; }
    }
  }

  lemma GapBlockOk(r: Region, j: nat, b: Block)
    requires RegionOk(r) && GapFits(r, j, b.size + HEADER) && b.addr == GapStart(r, j)
    requires b.req + ALIGNMENT + ALIGN_INFO <= b.size
    ensures BlockOk(r, b)
  {
    if j > 0 { assert BlockOk(r, r.blocks[j - 1]); }
    if j < |r.blocks| { assert BlockOk(r, r.blocks[j]); }
  }

  lemma InsertSorted(blocks: seq<Block>, j: nat, b: Block)
    requires j <= |blocks| && Sorted(blocks)
    requires forall i | 0 <= i < j :: End(blocks[i]) <= b.addr
    requires forall i | j <= i < |blocks| :: End(b) <= blocks[i].addr
    ensures Sorted(blocks[..j] + [b] + blocks[j..])
  {
    hide End;
    var bs := blocks[..j] + [b] + blocks[j..];
    forall i, t | 0 <= i < t < |bs|
      ensures End(bs[i]) <= bs[t].addr
    {
      assert bs[i] == if i < j then blocks[i] else if i == j then b else blocks[i - 1];
      assert bs[t] == if t < j then blocks[t] else if t == j then b else blocks[t - 1];
    }
  }

  /** What the header writes of an insertion at position `j` amount to. */
  ghost predicate MinorsInserted(minors: map<nat, Minor>, v: map<nat, Minor>, r: Region, j: nat, b: Block)
    requires j <= |r.blocks|
  {
    && b.addr in v && v[b.addr] == MinorRec(InsertBlock(r, j, b), j)
    && (j > 0 ==> var a := r.blocks[j - 1].addr; a in v && a in minors && v[a] == minors[a].(next := b.addr))
    && (j < |r.blocks| ==> var a := r.blocks[j].addr; a in v && a in minors && v[a] == minors[a].(prev := b.addr))
    && forall a | a in minors && a != b.addr && (j > 0 ==> a != r.blocks[j - 1].addr) &&
                  (j < |r.blocks| ==> a != r.blocks[j].addr) :: a in v && v[a] == minors[a]
  }

  lemma InsertMinorsLinked(minors: map<nat, Minor>, v: map<nat, Minor>, r: Region, j: nat, b: Block)
    requires RegionOk(r) && MinorsLinked(minors, r)
    requires j <= |r.blocks| && RegionOk(InsertBlock(r, j, b))
    requires MinorsInserted(minors, v, r, j, b)
    ensures MinorsLinked(v, InsertBlock(r, j, b))
  {
    hide RegionOk, MinorsInserted;
    var q := InsertBlock(r, j, b);
    forall t | 0 <= t < |q.blocks|
      ensures q.blocks[t].addr in v && v[q.blocks[t].addr] == MinorRec(q, t)
    {
      if t < j {
        InsertLinkBefore(minors, v, r, j, b, t);
      } else if t > j {
        InsertLinkAfter(minors, v, r, j, b, t - 1);
      } else {
        assert q.blocks[j] == b && MinorsInserted(minors, v, r, j, b);
        InsertLinkNew(minors, v, r, j, b);
      }
    }
  }

  lemma InsertLinkNew(minors: map<nat, Minor>, v: map<nat, Minor>, r: Region, j: nat, b: Block)
    requires j <= |r.blocks| && MinorsInserted(minors, v, r, j, b)
    ensures b.addr in v && v[b.addr] == MinorRec(InsertBlock(r, j, b), j)
  {
  }

  lemma InsertedAt(r: Region, j: nat, b: Block)
    requires j <= |r.blocks|
    ensures var q := InsertBlock(r, j, b);
            && |q.blocks| == |r.blocks| + 1 && q.blocks[j] == b
            && (forall t | 0 <= t < j :: q.blocks[t] == r.blocks[t])
            && (forall t | j <= t < |r.blocks| :: q.blocks[t + 1] == r.blocks[t])
  {
  }

  lemma InsertRecBefore(r: Region, j: nat, b: Block, t: nat)
    requires t < j <= |r.blocks|
    ensures t < |InsertBlock(r, j, b).blocks|
    ensures MinorRec(InsertBlock(r, j, b), t) ==
            if t == j - 1 then MinorRec(r, t).(next := b.addr) else MinorRec(r, t)
  {
  }

  lemma InsertRecAfter(r: Region, j: nat, b: Block, t: nat)
    requires j <= t < |r.blocks|
    ensures t + 1 < |InsertBlock(r, j, b).blocks|
    ensures MinorRec(InsertBlock(r, j, b), t + 1) ==
            if t == j then MinorRec(r, t).(prev := b.addr) else MinorRec(r, t)
  {
  }

  lemma InsertRecNew(r: Region, j: nat, b: Block)
    requires j <= |r.blocks|
    ensures j < |InsertBlock(r, j, b).blocks|
    ensures MinorRec(InsertBlock(r, j, b), j) ==
            Minor(if j == 0 then 0 else r.blocks[j - 1].addr, if j == |r.blocks| then 0 else r.blocks[j].addr,
                  r.addr, MAGIC, b.size, b.req)
  {
  }

  lemma InsertLinkBefore(minors: map<nat, Minor>, v: map<nat, Minor>, r: Region, j: nat, b: Block, t: nat)
    requires RegionOk(r) && MinorsLinked(minors, r)
    requires t < j <= |r.blocks| && RegionOk(InsertBlock(r, j, b))
    requires MinorsInserted(minors, v, r, j, b)
    ensures r.blocks[t].addr in v && v[r.blocks[t].addr] == MinorRec(InsertBlock(r, j, b), t)
  {
    hide RegionOk, InsertBlock, MinorRec;
    var q := InsertBlock(r, j, b);
    InsertedAt(r, j, b);
    InsertRecBefore(r, j, b, t);
    SortedAddrs(q, t, j);
    if t < j - 1 { SortedAddrs(r, t, j - 1); }
    if j < |r.blocks| { SortedAddrs(r, t, j); }
  }

  lemma InsertLinkAfter(minors: map<nat, Minor>, v: map<nat, Minor>, r: Region, j: nat, b: Block, t: nat)
    requires RegionOk(r) && MinorsLinked(minors, r)
    requires j <= t < |r.blocks| && RegionOk(InsertBlock(r, j, b))
    requires MinorsInserted(minors, v, r, j, b)
    ensures r.blocks[t].addr in v && v[r.blocks[t].addr] == MinorRec(InsertBlock(r, j, b), t + 1)
  {
    hide RegionOk, InsertBlock, MinorRec;
    var q := InsertBlock(r, j, b);
    InsertedAt(r, j, b);
    InsertRecAfter(r, j, b, t);
    SortedAddrs(q, j, t + 1);
    if t > j { SortedAddrs(r, j, t); }
    if j > 0 { SortedAddrs(r, j - 1, t); }
  }

  // ----- removal -----

  ghost predicate MinorsRemoved(minors: map<nat, Minor>, v: map<nat, Minor>, r: Region, j: nat)
    requires j < |r.blocks|
  {
    && (j > 0 ==> var a := r.blocks[j - 1].addr;
                  a in v && a in minors && v[a] == minors[a].(next := MinorRec(r, j).next))
    && (j + 1 < |r.blocks| ==> var a := r.blocks[j + 1].addr;
                               a in v && a in minors && v[a] == minors[a].(prev := MinorRec(r, j).prev))
    && forall a | a in minors && a != r.blocks[j].addr && (j > 0 ==> a != r.blocks[j - 1].addr) &&
                  (j + 1 < |r.blocks| ==> a != r.blocks[j + 1].addr) :: a in v && v[a] == minors[a]
  }

  lemma RemoveRegionOk(r: Region, j: nat)
    requires RegionOk(r) && j < |r.blocks|
    ensures RegionOk(RemoveBlock(r, j))
  {
    var bs := RemoveBlock(r, j).blocks;
    forall i | 0 <= i < |bs|
      ensures bs[i] == r.blocks[if i < j then i else i + 1]
    {
    }
  }

  lemma RemoveMinorsLinked(minors: map<nat, Minor>, v: map<nat, Minor>, r: Region, j: nat)
    requires RegionOk(r) && MinorsLinked(minors, r)
    requires j < |r.blocks| && MinorsRemoved(minors, v, r, j)
    ensures MinorsLinked(v, RemoveBlock(r, j))
  {
    hide RegionOk, MinorsRemoved;
    var q := RemoveBlock(r, j);
    forall t | 0 <= t < |q.blocks|
      ensures q.blocks[t].addr in v && v[q.blocks[t].addr] == MinorRec(q, t)
    {
      if t < j { RemoveLinkBefore(minors, v, r, j, t); } else { RemoveLinkAfter(minors, v, r, j, t + 1); }
    }
  }

  lemma RemoveRecBefore(r: Region, j: nat, t: nat)
    requires t < j < |r.blocks|
    ensures t < |RemoveBlock(r, j).blocks|
    ensures MinorRec(RemoveBlock(r, j), t) ==
            if t == j - 1 then MinorRec(r, t).(next := MinorRec(r, j).next) else MinorRec(r, t)
  {
  }

  lemma RemoveRecAfter(r: Region, j: nat, t: nat)
    requires j < t < |r.blocks|
    ensures t - 1 < |RemoveBlock(r, j).blocks|
    ensures MinorRec(RemoveBlock(r, j), t - 1) ==
            if t == j + 1 then MinorRec(r, t).(prev := MinorRec(r, j).prev) else MinorRec(r, t)
  {
  }

  lemma RemoveLinkBefore(minors: map<nat, Minor>, v: map<nat, Minor>, r: Region, j: nat, t: nat)
    requires RegionOk(r) && MinorsLinked(minors, r)
    requires t < j < |r.blocks| && MinorsRemoved(minors, v, r, j)
    ensures r.blocks[t].addr in v && v[r.blocks[t].addr] == MinorRec(RemoveBlock(r, j), t)
  {
    hide RegionOk, RemoveBlock, MinorRec;
    RemoveRecBefore(r, j, t);
    SortedAddrs(r, t, j);
    if t < j - 1 { SortedAddrs(r, t, j - 1); }
    if j + 1 < |r.blocks| { SortedAddrs(r, t, j + 1); }
  }

  lemma RemoveLinkAfter(minors: map<nat, Minor>, v: map<nat, Minor>, r: Region, j: nat, t: nat)
    requires RegionOk(r) && MinorsLinked(minors, r)
    requires j < t < |r.blocks| && MinorsRemoved(minors, v, r, j)
    ensures r.blocks[t].addr in v && v[r.blocks[t].addr] == MinorRec(RemoveBlock(r, j), t - 1)
  {
    hide RegionOk, RemoveBlock, MinorRec;
    RemoveRecAfter(r, j, t);
    SortedAddrs(r, j, t);
    if t > j + 1 { SortedAddrs(r, j + 1, t); }
    if j > 0 { SortedAddrs(r, j - 1, t); }
  }

  // ----- the gaps of a region add up to its free bytes -----

  lemma {:induction false} SumSizesInsert(blocks: seq<Block>, j: nat, b: Block)
    requires j <= |blocks|
    ensures SumSizes(blocks[..j] + [b] + blocks[j..]) == SumSizes(blocks) + b.size
  {
    var bs := blocks[..j] + [b] + blocks[j..];
    var n := |blocks|;
    if j == n {
      assert bs[..n] == blocks;
    } else {
      assert bs[..n] == blocks[..n - 1][..j] + [b] + blocks[..n - 1][j..];
      SumSizesInsert(blocks[..n - 1], j, b);
    }
  }

  lemma SumSizesRemove(blocks: seq<Block>, j: nat)
    requires j < |blocks|
    ensures SumSizes(blocks[..j] + blocks[j + 1..]) + blocks[j].size == SumSizes(blocks)
  {
    hide SumSizes;
    var rest := blocks[..j] + blocks[j + 1..];
    SumSizesInsert(rest, j, blocks[j]);
    assert rest[..j] + [blocks[j]] + rest[j..] == blocks;
  }

  function Gap(r: Region, j: nat): int
    requires j <= |r.blocks|
  {
    GapEnd(r, j) - GapStart(r, j)
  }

  function SumGaps(r: Region, n: nat): int
    requires n <= |r.blocks| + 1
  {
    if n == 0 then 0 else SumGaps(r, n - 1) + Gap(r, n - 1)
  }

  lemma {:induction false} SumGapsPrefix(r: Region, n: nat)
    requires RegionOk(r) && n <= |r.blocks|
    ensures SumGaps(r, n) + SumSizes(r.blocks[..n]) + HEADER * n == GapStart(r, n) - (r.addr + HEADER)
  {
    if n > 0 {
      SumGapsPrefix(r, n - 1);
      assert r.blocks[..n][..n - 1] == r.blocks[..n - 1];
    }
  }

  /** `maj->size - maj->usage` is the sum of the gaps. */
  lemma FreeIsSumOfGaps(r: Region)
    requires RegionOk(r)
    ensures Size(r) - Usage(r) == SumGaps(r, |r.blocks| + 1)
  {
    SumGapsPrefix(r, |r.blocks|);
    assert r.blocks[..|r.blocks|] == r.blocks;
  }

  lemma GapNonNegative(r: Region, j: nat)
    requires RegionOk(r) && j <= |r.blocks|
    ensures Gap(r, j) >= 0
  {
    if j > 0 { assert BlockOk(r, r.blocks[j - 1]); }
    if j < |r.blocks| { assert BlockOk(r, r.blocks[j]); }
  }

  lemma {:induction false} GapWithinSum(r: Region, j: nat, n: nat)
    requires RegionOk(r) && n <= |r.blocks| + 1
    ensures 0 <= SumGaps(r, n)
    ensures j < n ==> Gap(r, j) <= SumGaps(r, n)
  {
    hide RegionOk, Gap;
    if n > 0 {
      GapWithinSum(r, j, n - 1);
      GapNonNegative(r, n - 1);
    }
  }

  /** Too little free memory in all rules out every gap. */
  lemma TooFullHasNoGap(r: Region, need: nat)
    requires RegionOk(r) && Size(r) - Usage(r) < need
    ensures !HasGap(r, need)
  {
    FreeIsSumOfGaps(r);
    forall j: nat | j <= |r.blocks|
      ensures !GapFits(r, j, need)
    {
      GapWithinSum(r, j, |r.blocks| + 1);
    }
  }

  lemma UsageBound(r: Region)
    requires RegionOk(r)
    ensures Usage(r) <= Size(r)
  {
    FreeIsSumOfGaps(r);
    GapWithinSum(r, 0, |r.blocks| + 1);
  }

  // ----- one region changes, the others keep their records -----

  /** Only headers inside region `r` were written. */
  ghost predicate MinorsKeptOutside(minors: map<nat, Minor>, v: map<nat, Minor>, r: Region) {
    forall a | a in minors && !(r.addr <= a < r.addr + Size(r)) :: a in v && v[a] == minors[a]
  }

  lemma InsertKeepsOutside(minors: map<nat, Minor>, v: map<nat, Minor>, r: Region, j: nat, b: Block)
    requires RegionOk(r) && j <= |r.blocks| && RegionOk(InsertBlock(r, j, b))
    requires MinorsInserted(minors, v, r, j, b)
    ensures MinorsKeptOutside(minors, v, r)
  {
    hide MinorRec;
    assert InsertBlock(r, j, b).blocks[j] == b;
    assert BlockOk(r, b);
    if j > 0 { assert BlockOk(r, r.blocks[j - 1]); }
    if j < |r.blocks| { assert BlockOk(r, r.blocks[j]); }
  }

  lemma RemoveKeepsOutside(minors: map<nat, Minor>, v: map<nat, Minor>, r: Region, j: nat)
    requires RegionOk(r) && j < |r.blocks|
    requires MinorsRemoved(minors, v, r, j)
    ensures MinorsKeptOutside(minors, v, r)
  {
    hide MinorRec;
    assert BlockOk(r, r.blocks[j]);
    if j > 0 { assert BlockOk(r, r.blocks[j - 1]); }
    if j + 1 < |r.blocks| { assert BlockOk(r, r.blocks[j + 1]); }
  }

  lemma KeptOutsideKeepsLinks(minors: map<nat, Minor>, v: map<nat, Minor>, r: Region, other: Region)
    requires RegionOk(other) && Apart(r, other)
    requires MinorsKeptOutside(minors, v, r) && MinorsLinked(minors, other)
    ensures MinorsLinked(v, other)
  {
    hide MinorRec;
    forall j | 0 <= j < |other.blocks|
      ensures other.blocks[j].addr in v && v[other.blocks[j].addr] == minors[other.blocks[j].addr]
    {
      assert BlockOk(other, other.blocks[j]);
    }
  }

  lemma RegionAddrsDiffer(rs: seq<Region>, i: nat, k: nat)
    requires RegionsOk(rs) && i < |rs| && k < |rs| && i != k
    ensures rs[i].addr != rs[k].addr && Apart(rs[i], rs[k])
  {
    assert RegionOk(rs[i]) && RegionOk(rs[k]);
    if i < k { assert Apart(rs[i], rs[k]); } else { assert Apart(rs[k], rs[i]); }
  }

  lemma ReplaceRegionsOk(rs: seq<Region>, k: nat, q: Region)
    requires RegionsOk(rs) && k < |rs|
    requires RegionOk(q) && q.addr == rs[k].addr && q.pages == rs[k].pages
    ensures RegionsOk(rs[k := q])
  {
    hide RegionOk;
    var ts := rs[k := q];
    forall i, j | 0 <= i < j < |ts|
      ensures Apart(ts[i], ts[j])
    {
      assert Apart(rs[i], rs[j]);
    }
  }

  lemma ReplaceRec(rs: seq<Region>, k: nat, q: Region, i: nat)
    requires k < |rs| && q.addr == rs[k].addr && i < |rs| && i != k
    ensures MajorRec(rs[k := q], i) == MajorRec(rs, i)
  {
  }

  /** Replacing the contents of region `k` and rewriting its major header keeps every list intact. */
  lemma ReplaceKeepsLinks(majors: map<nat, Major>, minors: map<nat, Minor>, v: map<nat, Minor>,
                          rs: seq<Region>, k: nat, q: Region)
    requires RegionsOk(rs) && Linked(majors, minors, rs) && k < |rs|
    requires q.addr == rs[k].addr && q.pages == rs[k].pages
    requires MinorsKeptOutside(minors, v, rs[k]) && MinorsLinked(v, q)
    ensures Linked(majors[q.addr := MajorRec(rs[k := q], k)], v, rs[k := q])
  {
    hide RegionOk, MajorRec, MinorsLinked, MinorsKeptOutside;
    var ts := rs[k := q];
    var majors' := majors[q.addr := MajorRec(ts, k)];
    forall i | 0 <= i < |ts|
      ensures ts[i].addr in majors' && majors'[ts[i].addr] == MajorRec(ts, i)
      ensures MinorsLinked(v, ts[i])
    {
      if i != k {
        RegionAddrsDiffer(rs, i, k);
        assert MinorsLinked(minors, rs[i]);
        KeptOutsideKeepsLinks(minors, v, rs[k], rs[i]);
        ReplaceRec(rs, k, q, i);
      }
    }
  }

  lemma MajorRecInsert(rs: seq<Region>, k: nat, j: nat, b: Block)
    requires k < |rs| && j <= |rs[k].blocks|
    ensures MajorRec(rs[k := InsertBlock(rs[k], j, b)], k) ==
            MajorRec(rs, k).(usage := Usage(rs[k]) + b.size + HEADER,
                             first := if j == 0 then b.addr else MajorRec(rs, k).first)
  {
    SumSizesInsert(rs[k].blocks, j, b);
  }

  lemma MajorRecRemove(rs: seq<Region>, k: nat, j: nat)
    requires k < |rs| && j < |rs[k].blocks|
    ensures Usage(rs[k]) >= rs[k].blocks[j].size + HEADER
    ensures MajorRec(rs[k := RemoveBlock(rs[k], j)], k) ==
            MajorRec(rs, k).(usage := Usage(rs[k]) - (rs[k].blocks[j].size + HEADER),
                             first := if j == 0 then MinorRec(rs[k], 0).next else MajorRec(rs, k).first)
  {
    SumSizesRemove(rs[k].blocks, j);
  }

  lemma {:induction false} SumsReplace(rs: seq<Region>, k: nat, q: Region)
    requires k < |rs| && q.pages == rs[k].pages
    ensures InUse(rs[k := q]) + SumSizes(rs[k].blocks) == InUse(rs) + SumSizes(q.blocks)
    ensures Allocated(rs[k := q]) == Allocated(rs)
  {
    hide SumSizes;
    var n := |rs| - 1;
    if k == n {
      assert rs[k := q][..n] == rs[..n];
    } else {
      assert rs[k := q][..n] == rs[..n][k := q];
      SumsReplace(rs[..n], k, q);
    }
  }

  lemma SumsAppend(rs: seq<Region>, q: Region)
    ensures InUse(rs + [q]) == InUse(rs) + SumSizes(q.blocks)
    ensures Allocated(rs + [q]) == Allocated(rs) + Size(q)
  {
    assert (rs + [q])[..|rs|] == rs;
  }

  lemma {:induction false} SumsRemove(rs: seq<Region>, k: nat)
    requires k < |rs|
    ensures InUse(RemoveRegion(rs, k)) + SumSizes(rs[k].blocks) == InUse(rs)
    ensures Allocated(RemoveRegion(rs, k)) + Size(rs[k]) == Allocated(rs)
  {
    hide SumSizes;
    var n := |rs| - 1;
    if k == n {
      assert RemoveRegion(rs, k) == rs[..n];
    } else {
      SumsRemove(rs[..n], k);
      assert RemoveRegion(rs, k)[..n - 1] == RemoveRegion(rs[..n], k);
    }
  }

  // ----- a region joins or leaves the list -----

  /** The major headers after a fresh region was linked behind the last one. */
  function MajorsAppended(majors: map<nat, Major>, rs: seq<Region>, q: Region): map<nat, Major>
    requires rs != [] && rs[|rs| - 1].addr in majors
  {
    var last := rs[|rs| - 1].addr;
    majors[q.addr := Major(last, 0, q.pages, Size(q), HEADER, 0)][last := majors[last].(next := q.addr)]
  }

  lemma AppendRec(rs: seq<Region>, q: Region, i: nat)
    requires i <= |rs| && rs != [] && q.blocks == []
    ensures MajorRec(rs + [q], i) ==
            if i == |rs| then Major(rs[|rs| - 1].addr, 0, q.pages, Size(q), HEADER, 0)
            else if i == |rs| - 1 then MajorRec(rs, i).(next := q.addr)
            else MajorRec(rs, i)
  {
  }

  lemma AppendKeepsLinks(majors: map<nat, Major>, minors: map<nat, Minor>, rs: seq<Region>, q: Region)
    requires RegionsOk(rs) && Linked(majors, minors, rs) && rs != []
    requires RegionOk(q) && q.blocks == [] && forall i | 0 <= i < |rs| :: Apart(rs[i], q)
    ensures RegionsOk(rs + [q]) && Linked(MajorsAppended(majors, rs, q), minors, rs + [q])
  {
    hide RegionOk, MajorRec;
    var ts := rs + [q];
    var majors' := MajorsAppended(majors, rs, q);
    assert RegionsOk(ts);
    assert MinorsLinked(minors, q);
    var n := |rs| - 1;
    forall i | 0 <= i < |ts|
      ensures ts[i].addr in majors' && majors'[ts[i].addr] == MajorRec(ts, i)
    {
      AppendRec(rs, q, i);
      assert i <= n ==> ts[i] == rs[i] && majors[rs[i].addr] == MajorRec(rs, i);
      RegionAddrsDiffer(ts, n, n + 1);
      if i < n { RegionAddrsDiffer(ts, i, n + 1); }
      if i < n { RegionAddrsDiffer(ts, i, n); }
    }
  }

  /** The major headers after region `k` was unlinked. */
  ghost predicate MajorsUnlinked(majors: map<nat, Major>, v: map<nat, Major>, rs: seq<Region>, k: nat)
    requires k < |rs|
  {
    && (k > 0 ==> var a := rs[k - 1].addr;
                  a in v && a in majors && v[a] == majors[a].(next := MajorRec(rs, k).next))
    && (k + 1 < |rs| ==> var a := rs[k + 1].addr;
                         a in v && a in majors && v[a] == majors[a].(prev := MajorRec(rs, k).prev))
    && forall a | a in majors && a != rs[k].addr && (k > 0 ==> a != rs[k - 1].addr) &&
                  (k + 1 < |rs| ==> a != rs[k + 1].addr) :: a in v && v[a] == majors[a]
  }

  lemma UnlinkKeepsLinks(majors: map<nat, Major>, v: map<nat, Major>, minors: map<nat, Minor>, w: map<nat, Minor>,
                         rs: seq<Region>, k: nat)
    requires RegionsOk(rs) && Linked(majors, minors, rs) && k < |rs|
    requires MinorsKeptOutside(minors, w, rs[k]) && MajorsUnlinked(majors, v, rs, k)
    ensures RegionsOk(RemoveRegion(rs, k)) && Linked(v, w, RemoveRegion(rs, k))
  {
    hide RegionOk, MajorsUnlinked, MajorRec, MinorsLinked, MinorsKeptOutside;
    var ts := RemoveRegion(rs, k);
    RemovedRegionsOk(rs, k);
    forall i | 0 <= i < |ts|
      ensures ts[i].addr in v && v[ts[i].addr] == MajorRec(ts, i) && MinorsLinked(w, ts[i])
    {
      var o := if i < k then i else i + 1;
      assert ts[i] == rs[o];
      RegionAddrsDiffer(rs, o, k);
      assert MinorsLinked(minors, rs[o]);
      KeptOutsideKeepsLinks(minors, w, rs[k], rs[o]);
      UnlinkedRecord(majors, v, rs, k, o);
    }
  }

  lemma RemovedRegionsOk(rs: seq<Region>, k: nat)
    requires RegionsOk(rs) && k < |rs|
    ensures RegionsOk(RemoveRegion(rs, k))
  {
    hide RegionOk, Apart;
    var ts := RemoveRegion(rs, k);
    assert forall i | 0 <= i < |ts| :: ts[i] == rs[if i < k then i else i + 1];
  }

  lemma UnlinkRec(rs: seq<Region>, k: nat, o: nat)
    requires k < |rs| && o < |rs| && o != k
    ensures var i := if o < k then o else o - 1;
            && i < |RemoveRegion(rs, k)|
            && MajorRec(RemoveRegion(rs, k), i) ==
               if o == k - 1 then MajorRec(rs, o).(next := MajorRec(rs, k).next)
               else if o == k + 1 then MajorRec(rs, o).(prev := MajorRec(rs, k).prev)
               else MajorRec(rs, o)
  {
    hide Usage, Size;
  }

  lemma UnlinkedRecord(majors: map<nat, Major>, v: map<nat, Major>, rs: seq<Region>, k: nat, o: nat)
    requires RegionsOk(rs) && MajorsLinked(majors, rs) && k < |rs| && o < |rs| && o != k
    requires MajorsUnlinked(majors, v, rs, k)
    ensures var i := if o < k then o else o - 1;
            rs[o].addr in v && i < |RemoveRegion(rs, k)| && v[rs[o].addr] == MajorRec(RemoveRegion(rs, k), i)
  {
    hide RegionOk, MajorRec, RemoveRegion;
    UnlinkRec(rs, k, o);
    RegionAddrsDiffer(rs, o, k);
    if k > 0 && o != k - 1 { RegionAddrsDiffer(rs, o, k - 1); }
    if k + 1 < |rs| && o != k + 1 { RegionAddrsDiffer(rs, o, k + 1); }
  }

  // ----- user pointers and the alignment byte in front of them -----

  /** The pointer handed to the user for a block header at `addr`: 16-byte aligned, with at least
      `ALIGN_INFO` bytes between the header and it. */
  function UserPtr(addr: nat): nat {
    var q := addr + HEADER + ALIGN_INFO;
    if q % ALIGNMENT == 0 then q else q + (ALIGNMENT - q % ALIGNMENT)
  }

  lemma UserPtrFacts(addr: nat)
    ensures UserPtr(addr) % ALIGNMENT == 0
    ensures addr + HEADER + ALIGN_INFO <= UserPtr(addr) < addr + HEADER + ALIGN_INFO + ALIGNMENT
  {
  }

  /** The byte 16 below the user pointer holds the distance back to the end of the header. */
  ghost predicate AlignByteOk(mem: seq<nat>, b: Block) {
    var p := UserPtr(b.addr);
    p <= |mem| && mem[p - ALIGN_INFO] == p - (b.addr + HEADER)
  }

  ghost predicate MemOk(mem: seq<nat>, rs: seq<Region>) {
    && |mem| == SPACE
    && forall i, j | 0 <= i < |rs| && 0 <= j < |rs[i].blocks| :: AlignByteOk(mem, rs[i].blocks[j])
  }

  /** `v` equals `mem` except possibly at addresses `lo .. hi`. */
  ghost predicate SameExcept(mem: seq<nat>, v: seq<nat>, lo: nat, hi: nat) {
    |v| == |mem| && forall a | 0 <= a < |mem| && !(lo <= a < hi) :: v[a] == mem[a]
  }

  lemma AlignByteKept(mem: seq<nat>, v: seq<nat>, b: Block, lo: nat, hi: nat)
    requires AlignByteOk(mem, b) && SameExcept(mem, v, lo, hi)
    requires b.size >= ALIGNMENT + ALIGN_INFO
    requires End(b) <= lo || hi <= b.addr + HEADER
    ensures AlignByteOk(v, b)
  {
    hide UserPtr;
    UserPtrFacts(b.addr);
  }

  predicate LiveAt(rs: seq<Region>, k: nat, j: nat) {
    k < |rs| && j < |rs[k].blocks|
  }

  /** Two different live blocks, wherever they are, do not overlap. */
  lemma BlocksApart(rs: seq<Region>, k: nat, j: nat, m: nat, n: nat)
    requires RegionsOk(rs) && LiveAt(rs, k, j) && LiveAt(rs, m, n) && (k != m || j != n)
    ensures End(rs[k].blocks[j]) <= rs[m].blocks[n].addr || End(rs[m].blocks[n]) <= rs[k].blocks[j].addr
  {
    if k != m {
      RegionAddrsDiffer(rs, k, m);
      assert BlockOk(rs[k], rs[k].blocks[j]) && BlockOk(rs[m], rs[m].blocks[n]);
    } else {
      assert RegionOk(rs[k]);
    }
  }

  lemma LiveBlockOk(rs: seq<Region>, k: nat, j: nat)
    requires RegionsOk(rs) && LiveAt(rs, k, j)
    ensures BlockOk(rs[k], rs[k].blocks[j]) && RegionOk(rs[k]) && End(rs[k].blocks[j]) <= SPACE
  {
    assert RegionOk(rs[k]);
  }

  /** The block that a request of `req` bytes puts into gap `j`. */
  function NewBlock(r: Region, j: nat, req: nat): Block
    requires j <= |r.blocks|
  {
    Block(GapStart(r, j), req + ALIGNMENT + ALIGN_INFO, req)
  }

  /** Writes inside one live block's payload leave every other alignment byte alone. */
  lemma InsertMemOk(mem: seq<nat>, rs: seq<Region>, k: nat, j: nat, b: Block)
    requires MemOk(mem, rs) && k < |rs| && j <= |rs[k].blocks|
    requires RegionsOk(rs[k := InsertBlock(rs[k], j, b)])
    requires b.size >= ALIGNMENT + ALIGN_INFO
    ensures UserPtr(b.addr) <= SPACE
    ensures MemOk(mem[UserPtr(b.addr) - ALIGN_INFO := UserPtr(b.addr) - (b.addr + HEADER)],
                  rs[k := InsertBlock(rs[k], j, b)])
  {
    hide RegionsOk, UserPtr, AlignByteOk, InsertBlock;
    var p := UserPtr(b.addr);
    var ts := rs[k := InsertBlock(rs[k], j, b)];
    InsertedAt(rs[k], j, b);
    LiveBlockOk(ts, k, j);
    UserPtrFacts(b.addr);
    var v := mem[p - ALIGN_INFO := p - (b.addr + HEADER)];
    forall m, n | 0 <= m < |ts| && 0 <= n < |ts[m].blocks|
      ensures AlignByteOk(v, ts[m].blocks[n])
    {
      if m == k && n == j {
        NewAlignByte(mem, b);
      } else {
        BlocksApart(ts, k, j, m, n);
        LiveBlockOk(ts, m, n);
        var n' := if m == k && n > j then n - 1 else n;
        assert ts[m].blocks[n] == rs[m].blocks[n'];
        AlignByteKept(mem, v, ts[m].blocks[n], p - ALIGN_INFO, p - ALIGN_INFO + 1);
      }
    }
  }

  lemma NewAlignByte(mem: seq<nat>, b: Block)
    requires |mem| == SPACE && UserPtr(b.addr) <= SPACE
    ensures AlignByteOk(mem[UserPtr(b.addr) - ALIGN_INFO := UserPtr(b.addr) - (b.addr + HEADER)], b)
  {
    hide UserPtr;
    UserPtrFacts(b.addr);
  }

  // ----- effects of freeing on memory -----

  lemma RemoveMemOk(mem: seq<nat>, v: seq<nat>, rs: seq<Region>, k: nat, j: nat)
    requires RegionsOk(rs) && MemOk(mem, rs) && LiveAt(rs, k, j)
    requires SameExcept(mem, v, rs[k].blocks[j].addr + HEADER, End(rs[k].blocks[j]))
    ensures MemOk(v, rs[k := RemoveBlock(rs[k], j)])
  {
    hide RegionsOk, UserPtr, AlignByteOk, SameExcept;
    var b := rs[k].blocks[j];
    var ts := rs[k := RemoveBlock(rs[k], j)];
    assert |v| == SPACE by { SameLength(mem, v, b.addr + HEADER, End(b)); }
    forall m, n | 0 <= m < |ts| && 0 <= n < |ts[m].blocks|
      ensures AlignByteOk(v, ts[m].blocks[n])
    {
      var n' := if m == k && n >= j then n + 1 else n;
      assert ts[m].blocks[n] == rs[m].blocks[n'];
      BlocksApart(rs, k, j, m, n');
      LiveBlockOk(rs, m, n');
      AlignByteKept(mem, v, ts[m].blocks[n], b.addr + HEADER, End(b));
    }
  }

  lemma SameLength(mem: seq<nat>, v: seq<nat>, lo: nat, hi: nat)
    requires SameExcept(mem, v, lo, hi)
    ensures |v| == |mem|
  {
  }

  lemma DropMemOk(mem: seq<nat>, rs: seq<Region>, k: nat)
    requires MemOk(mem, rs) && k < |rs|
    ensures MemOk(mem, RemoveRegion(rs, k))
  {
    hide AlignByteOk;
    var ts := RemoveRegion(rs, k);
    forall m, n | 0 <= m < |ts| && 0 <= n < |ts[m].blocks|
      ensures AlignByteOk(mem, ts[m].blocks[n])
    {
      var m' := if m < k then m else m + 1;
      assert ts[m] == rs[m'];
      assert AlignByteOk(mem, rs[m'].blocks[n]);
    }
  }

  /** `UNALIGN` followed by the step back over the header. */
  function HeaderOf(mem: seq<nat>, p: nat): int
    requires ALIGN_INFO <= p <= |mem|
  {
    var diff := mem[p - ALIGN_INFO];
    (if diff < ALIGNMENT + ALIGN_INFO then p - diff else p) - HEADER
  }

  /** Every live pointer leads back to its own header. */
  lemma UnalignRecovers(mem: seq<nat>, b: Block)
    requires AlignByteOk(mem, b)
    ensures ALIGN_INFO <= UserPtr(b.addr) <= |mem| && HeaderOf(mem, UserPtr(b.addr)) == b.addr
  {
    hide UserPtr;
    UserPtrFacts(b.addr);
  }

  // ----- in-bounds writes and shrinking requests -----

  /** Writes inside the bytes a client asked for leave every alignment byte alone. */
  lemma WriteMemOk(mem: seq<nat>, v: seq<nat>, rs: seq<Region>, k: nat, j: nat)
    requires RegionsOk(rs) && MemOk(mem, rs) && LiveAt(rs, k, j)
    requires var b := rs[k].blocks[j]; SameExcept(mem, v, UserPtr(b.addr), UserPtr(b.addr) + b.req)
    ensures MemOk(v, rs)
  {
    hide RegionsOk, UserPtr;
    var b := rs[k].blocks[j];
    LiveBlockOk(rs, k, j);
    UserPtrFacts(b.addr);
    forall m, n | 0 <= m < |rs| && 0 <= n < |rs[m].blocks|
      ensures AlignByteOk(v, rs[m].blocks[n])
    {
      assert AlignByteOk(mem, rs[m].blocks[n]);
      LiveBlockOk(rs, m, n);
      UserPtrFacts(rs[m].blocks[n].addr);
      if m != k || n != j { BlocksApart(rs, k, j, m, n); }
    }
  }

  function SetReq(r: Region, j: nat, req: nat): (q: Region)
    requires j < |r.blocks|
    ensures q.addr == r.addr && q.pages == r.pages && |q.blocks| == |r.blocks|
  {
    r.(blocks := r.blocks[j := r.blocks[j].(req := req)])
  }

  lemma SetReqRegionOk(r: Region, j: nat, req: nat)
    requires RegionOk(r) && j < |r.blocks| && req <= r.blocks[j].req
    ensures RegionOk(SetReq(r, j, req))
  {
    var q := SetReq(r, j, req);
    assert BlockOk(r, r.blocks[j]);
    assert forall i | 0 <= i < |q.blocks| ::
        q.blocks[i].addr == r.blocks[i].addr && End(q.blocks[i]) == End(r.blocks[i]);
  }

  lemma {:induction false} SetReqSum(blocks: seq<Block>, j: nat, req: nat)
    requires j < |blocks|
    ensures SumSizes(blocks[j := blocks[j].(req := req)]) == SumSizes(blocks)
  {
    var bs := blocks[j := blocks[j].(req := req)];
    var n := |blocks| - 1;
    if j == n {
      assert bs[..n] == blocks[..n];
    } else {
      assert bs[..n] == blocks[..n][j := blocks[..n][j].(req := req)];
      SetReqSum(blocks[..n], j, req);
    }
  }

  lemma SetReqMinorsLinked(minors: map<nat, Minor>, r: Region, j: nat, req: nat)
    requires RegionOk(r) && MinorsLinked(minors, r) && j < |r.blocks|
    ensures r.blocks[j].addr in minors
    ensures var a := r.blocks[j].addr;
            var v := minors[a := minors[a].(req := req)];
            MinorsLinked(v, SetReq(r, j, req)) && MinorsKeptOutside(minors, v, r)
  {
    hide RegionOk;
    var q := SetReq(r, j, req);
    var a := r.blocks[j].addr;
    var v := minors[a := minors[a].(req := req)];
    BlockInside(r, j);
    forall t | 0 <= t < |q.blocks|
      ensures q.blocks[t].addr in v && v[q.blocks[t].addr] == MinorRec(q, t)
    {
      if t < j { SortedAddrs(r, t, j); }
      if j < t { SortedAddrs(r, j, t); }
      SetReqRec(r, j, req, t);
    }
  }

  lemma BlockInside(r: Region, j: nat)
    requires RegionOk(r) && j < |r.blocks|
    ensures r.addr <= r.blocks[j].addr < r.addr + Size(r)
  {
    assert BlockOk(r, r.blocks[j]);
  }

  lemma SetReqRec(r: Region, j: nat, req: nat, t: nat)
    requires j < |r.blocks| && t < |r.blocks|
    ensures MinorRec(SetReq(r, j, req), t) == if t == j then MinorRec(r, t).(req := req) else MinorRec(r, t)
  {
  }

  lemma SetReqMemOk(mem: seq<nat>, rs: seq<Region>, k: nat, j: nat, req: nat)
    requires MemOk(mem, rs) && LiveAt(rs, k, j)
    ensures MemOk(mem, rs[k := SetReq(rs[k], j, req)])
  {
    hide UserPtr;
    var ts := rs[k := SetReq(rs[k], j, req)];
    forall m, n | 0 <= m < |ts| && 0 <= n < |ts[m].blocks|
      ensures AlignByteOk(mem, ts[m].blocks[n])
    {
      assert AlignByteOk(mem, rs[m].blocks[n]);
      assert ts[m].blocks[n].addr == rs[m].blocks[n].addr;
    }
  }
}
