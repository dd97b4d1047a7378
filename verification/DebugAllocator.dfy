/**
 * The PhysX debug allocator (code/addons/physx/memoryallocator.cc, _DEBUG build): a growable table of
 * the live blocks' addresses with a next-free cursor, and block headers whose word 4 points back into
 * the table.
 *
 * The values below follow the code literally, including the two flaws of the moving realloc: the slot
 * receives the old address (line 240), and header words 4 and 5 are written through a 32-bit pointer
 * (lines 228, 241, 267). `wordBytes` is sizeof(size_t).
 *
 * Addresses count size_t words; a user pointer is the block address plus HEADER_WORDS. The system
 * allocator's choices are parameters.
 */
module DebugAllocator {

  const MEMBLOCKSTART: nat := 64
  const HEADER_WORDS: nat := 6
  const NULL: nat := 0
  const POINTER_MARKER: nat := 0xbadbad00deadbabe

  /** The six words in front of every block. */
  datatype Header = Header(marker: nat, size: nat, file: nat, line: nat, index: nat, className: nat)

  /** mMemBlockList, mMemBlockFirstFree, mMemBlockUsed; mMemBlockListSize is |slots|. */
  datatype Table = Table(slots: seq<nat>, firstFree: nat, used: int)

  datatype Memory = Memory(
    table: Table, heap: map<nat, Header>,
    bytes: int, high: int, total: int, allocs: int, reallocs: int)

  function Max(a: int, b: int): int {
    if a < b then b else a
  }

  // ----- the table -----

  /** The first empty slot at or after `i`, or the table's size. */
  function FirstZero(slots: seq<nat>, i: nat): (r: nat)
    requires i <= |slots|
    ensures i <= r <= |slots|
    ensures forall k :: i <= k < r ==> slots[k] != 0
    ensures r < |slots| ==> slots[r] == 0
    decreases |slots| - i
  {
    if i == |slots| || slots[i] == 0 then i else FirstZero(slots, i + 1)
  }

  /** The cursor's next place: the next empty slot after `i`, else the first one of the table. */
  function NextFree(slots: seq<nat>, i: nat): nat
    requires i < |slots|
  {
    var r := FirstZero(slots, i + 1);
    if r == |slots| then FirstZero(slots, 0) else r
  }

  function Zeros(n: nat): (z: seq<nat>)
    ensures |z| == n && forall i :: 0 <= i < n ==> z[i] == 0
  {
    seq(n, i => 0)
  }

  function Insert(t: Table, entry: nat): Table
    requires t.firstFree < |t.slots|
  {
    var slots := t.slots[t.firstFree := entry];
    if t.used + 1 == |slots| then
      var grown := slots + Zeros(MEMBLOCKSTART);
      Table(grown, NextFree(grown, |slots| - 1), t.used + 1)
    else
      Table(slots, NextFree(slots, t.firstFree), t.used + 1)
  }

  function Clear(t: Table, i: nat): Table
    requires i < |t.slots|
  {
    Table(t.slots[i := 0], t.firstFree, t.used - 1)
  }

  /** The number of non-empty slots. */
  function InUse(slots: seq<nat>): (n: nat)
    ensures n <= |slots|
  {
    if slots == [] then 0 else InUse(slots[..|slots| - 1]) + if slots[|slots| - 1] == 0 then 0 else 1
  }

  lemma {:induction false} InUseUpdate(slots: seq<nat>, i: nat, v: nat)
    requires i < |slots|
    ensures InUse(slots[i := v]) == InUse(slots) - (if slots[i] == 0 then 0 else 1) + if v == 0 then 0 else 1
  {
    var last := |slots| - 1;
    if i < last {
      InUseUpdate(slots[..last], i, v);
      assert slots[i := v][..last] == slots[..last][i := v];
    } else {
      assert slots[i := v][..last] == slots[..last];
    }
  }

  lemma {:induction false} InUseZeros(slots: seq<nat>, n: nat)
    ensures InUse(slots + Zeros(n)) == InUse(slots)
  {
    var all := slots + Zeros(n);
    if n == 0 {
      assert all == slots;
    } else {
      InUseZeros(slots, n - 1);
      assert all[..|all| - 1] == slots + Zeros(n - 1);
    }
  }

  /** If no slot is empty, every slot is in use. */
  lemma {:induction false} FullTable(slots: seq<nat>)
    requires forall i :: 0 <= i < |slots| ==> slots[i] != 0
    ensures InUse(slots) == |slots|
  {
    if slots != [] {
      FullTable(slots[..|slots| - 1]);
    }
  }

  /** As long as one slot is empty the scan ends inside the table, on an empty slot. */
  lemma NextFreeIsEmpty(slots: seq<nat>, i: nat)
    requires i < |slots| && InUse(slots) < |slots|
    ensures NextFree(slots, i) < |slots| && slots[NextFree(slots, i)] == 0
  {
    if FirstZero(slots, 0) == |slots| {
      FullTable(slots);
    }
  }

  ghost predicate TableOk(t: Table) {
    t.firstFree < |t.slots| && t.slots[t.firstFree] == 0 && t.used == InUse(t.slots)
  }

  lemma InsertKeepsTable(t: Table, entry: nat)
    requires TableOk(t) && entry != 0
    ensures var u := Insert(t, entry);
      && TableOk(u)
      && |t.slots| <= |u.slots|
      && u.slots[..|t.slots|] == t.slots[t.firstFree := entry]
      && (forall i :: |t.slots| <= i < |u.slots| ==> u.slots[i] == 0)
      && |u.slots| == |t.slots| + (if t.used + 1 == |t.slots| then 64 else 0)
      && (if |u.slots| > |t.slots| then u.firstFree == |t.slots|
          else if u.firstFree > t.firstFree then forall i :: t.firstFree < i < u.firstFree ==> u.slots[i] != 0
          else forall i :: 0 <= i < |u.slots| && u.slots[i] == 0 ==> u.firstFree <= i < t.firstFree)
  {
    hide InUse;
    var slots := t.slots[t.firstFree := entry];
    InUseUpdate(t.slots, t.firstFree, entry);
    if t.used + 1 == |slots| {
      InUseZeros(slots, MEMBLOCKSTART);
      NextFreeIsEmpty(slots + Zeros(MEMBLOCKSTART), |slots| - 1);
    } else {
      NextFreeIsEmpty(slots, t.firstFree);
    }
  }

  /** The table after k allocations of blocks 1 to k. */
  function Filled(k: nat): (t: Table)
    requires k < MEMBLOCKSTART
    ensures |t.slots| == MEMBLOCKSTART && t.firstFree == k == t.used
    ensures forall i :: 0 <= i < MEMBLOCKSTART ==> t.slots[i] == if i < k then i + 1 else 0
  {
    if k == 0 then Table(Zeros(MEMBLOCKSTART), 0, 0) else Insert(Filled(k - 1), k)
  }

  /** 63 allocations, the first block freed, and one more allocation: its scan reads behind the table of 64 slots. */
  lemma ScanLeavesTable()
    ensures var t := Clear(Filled(63), 0);
      && t.firstFree == 63 && t.used + 1 < |t.slots| == 64
      && FirstZero(t.slots[t.firstFree := 64], t.firstFree + 1) == |t.slots|
      && Insert(t, 64).firstFree == 0
  {
    var slots := Clear(Filled(63), 0).slots[63 := 64];
    assert slots[0] == 0;
  }

  // ----- the operations -----

  function MallocSpec(m: Memory, size: nat, file: nat, line: nat, className: nat, block: nat): Memory
    requires m.table.firstFree < |m.table.slots|
  {
    if size == 0 then m
    else
      var bytes := m.bytes + size;
      Memory(Insert(m.table, block),
             m.heap[block := Header(POINTER_MARKER, size, file, line, m.table.firstFree, className)],
             bytes, Max(m.high, bytes), m.total + 1, m.allocs + 1, m.reallocs)
  }

  function ReallocSpec(wordBytes: nat, m: Memory, block: nat, size: nat, newBlock: nat): Memory
    requires block in m.heap && m.heap[block].index < |m.table.slots| && m.table.firstFree < |m.table.slots|
  {
    var was := m.heap[block];
    var bytes := m.bytes - was.size + size;
    var high := Max(m.high, bytes);
    if newBlock == block then
      m.(heap := m.heap[block := was.(size := size)], bytes := bytes, high := high, reallocs := m.reallocs + 1)
    else
      var free := m.table.firstFree;
      // 32-bit stores at indices 4 and 5 hit words 4 and 5, or both halves of word 2 when words have 8 bytes
      var header :=
        if wordBytes == 4 then Header(POINTER_MARKER, size, 0, 0, free, 0)
        else Header(POINTER_MARKER, size, free, 0, was.index, was.className);
      m.(table := Insert(Clear(m.table, was.index), block),
         heap := (m.heap - {block})[newBlock := header],
         bytes := bytes, high := high, reallocs := m.reallocs + 1)
  }

  function FreeSpec(m: Memory, block: nat): Memory
    requires block in m.heap && m.heap[block].index < |m.table.slots|
  {
    m.(table := Clear(m.table, m.heap[block].index), heap := m.heap - {block},
       bytes := m.bytes - m.heap[block].size, allocs := m.allocs - 1)
  }

  function ResetSpec(m: Memory): Memory {
    m.(bytes := 0, high := 0, allocs := 0)
  }

  const EMPTY: Memory := Memory(Table(Zeros(MEMBLOCKSTART), 0, 0), map[], 0, 0, 0, 0, 0)

  // ----- slots in use and live blocks correspond through header word 4 -----

  ghost predicate Linked(slots: seq<nat>, heap: map<nat, Header>) {
    && (forall p :: p in heap ==> p != NULL && heap[p].index < |slots| && slots[heap[p].index] != 0)
    && (forall p, q :: p in heap && q in heap && heap[p].index == heap[q].index ==> p == q)
    && (forall i :: 0 <= i < |slots| && slots[i] != 0 ==> Owned(heap, i))
  }

  ghost predicate Owned(heap: map<nat, Header>, i: nat) {
    exists p :: p in heap && heap[p].index == i
  }

  ghost predicate Inv(m: Memory) {
    TableOk(m.table) && Linked(m.table.slots, m.heap)
  }

  /** Linking a new block through slot `i`, empty so far, keeps the correspondence. */
  lemma LinkBlock(slots: seq<nat>, heap: map<nat, Header>, slots': seq<nat>, i: nat, entry: nat, block: nat, header: Header)
    requires Linked(slots, heap) && i < |slots| && slots[i] == 0 && entry != 0
    requires block != NULL && block !in heap && header.index == i
    requires |slots| <= |slots'| && slots'[..|slots|] == slots[i := entry]
    requires forall k :: |slots| <= k < |slots'| ==> slots'[k] == 0
    ensures Linked(slots', heap[block := header])
  {
    var heap' := heap[block := header];
    assert forall k :: 0 <= k < |slots| ==> slots'[k] == slots'[..|slots|][k];
    forall k | 0 <= k < |slots'| && slots'[k] != 0 ensures Owned(heap', k) {
      if k == i {
        assert heap'[block].index == i;
      } else {
        assert slots[k] != 0 && Owned(heap, k);
        var p :| p in heap && heap[p].index == k;
        assert p in heap' && heap'[p].index == k;
      }
    }
  }

  lemma UnlinkBlock(slots: seq<nat>, heap: map<nat, Header>, block: nat)
    requires Linked(slots, heap) && block in heap
    ensures Linked(slots[heap[block].index := 0], heap - {block})
  {
    var slots', heap' := slots[heap[block].index := 0], heap - {block};
    forall k | 0 <= k < |slots'| && slots'[k] != 0 ensures Owned(heap', k) {
      assert Owned(heap, k);
      var p :| p in heap && heap[p].index == k;
      assert p in heap' && heap'[p].index == k;
    }
  }

  lemma MallocKeepsInv(m: Memory, size: nat, file: nat, line: nat, className: nat, block: nat)
    requires Inv(m) && block != NULL && block !in m.heap
    ensures Inv(MallocSpec(m, size, file, line, className, block))
  {
    if size != 0 {
      InsertKeepsTable(m.table, block);
      var m' := MallocSpec(m, size, file, line, className, block);
      LinkBlock(m.table.slots, m.heap, m'.table.slots, m.table.firstFree, block, block, m'.heap[block]);
    }
  }

  lemma FreeKeepsInv(m: Memory, block: nat)
    requires Inv(m) && block in m.heap
    ensures Inv(FreeSpec(m, block))
  {
    UnlinkBlock(m.table.slots, m.heap, block);
    InUseUpdate(m.table.slots, m.heap[block].index, 0);
  }

  lemma ResizeInPlaceKeepsInv(wordBytes: nat, m: Memory, block: nat, size: nat)
    requires Inv(m) && block in m.heap
    ensures Inv(ReallocSpec(wordBytes, m, block, size, block))
  {
    var m' := ReallocSpec(wordBytes, m, block, size, block);
    forall k | 0 <= k < |m.table.slots| && m.table.slots[k] != 0 ensures Owned(m'.heap, k) {
      assert Owned(m.heap, k);
      var p :| p in m.heap && m.heap[p].index == k;
      assert p in m'.heap && m'.heap[p].index == k;
    }
  }

  /** The table after a moving realloc: same size, the old slot empty, the old address in the cursor's slot. */
  lemma MovedTable(m: Memory, block: nat)
    requires Inv(m) && block in m.heap
    ensures var cleared := Clear(m.table, m.heap[block].index);
      var t := Insert(cleared, block);
      && TableOk(cleared) && TableOk(t)
      && t.slots == cleared.slots[m.table.firstFree := block]
      && Linked(cleared.slots, m.heap - {block})
  {
    FreeKeepsInv(m, block);
    var cleared := Clear(m.table, m.heap[block].index);
    InUseUpdate(m.table.slots, m.heap[block].index, 0);
    InUseUpdate(m.table.slots, m.table.firstFree, 1);
    InsertKeepsTable(cleared, block);
    var t := Insert(cleared, block);
    assert t.slots[..|cleared.slots|] == t.slots;
  }

  /**
   * realloc keeps slots and blocks linked exactly when the block stays in place or the header words are
   * 32 bits wide. It never grows the table.
   */
  lemma ReallocKeepsInvIff(wordBytes: nat, m: Memory, block: nat, size: nat, newBlock: nat)
    requires Inv(m) && block in m.heap
    requires newBlock == block || (newBlock != NULL && newBlock !in m.heap)
    ensures var m' := ReallocSpec(wordBytes, m, block, size, newBlock);
      && (Inv(m') <==> newBlock == block || wordBytes == 4)
      && |m'.table.slots| == |m.table.slots|
  {
    if newBlock == block {
      ResizeInPlaceKeepsInv(wordBytes, m, block, size);
    } else {
      MovedTable(m, block);
      var m' := ReallocSpec(wordBytes, m, block, size, newBlock);
      if wordBytes == 4 {
        var cleared := Clear(m.table, m.heap[block].index);
        LinkBlock(cleared.slots, m.heap - {block}, m'.table.slots, m.table.firstFree, block, newBlock, m'.heap[newBlock]);
      } else {
        assert newBlock in m'.heap && m'.table.slots[m'.heap[newBlock].index] == 0;
      }
    }
  }

  // ----- runs: any sequence of calls, with the bookkeeping they should agree with -----

  datatype Call =
    | CallMalloc(size: nat, file: nat, line: nat, className: nat, block: nat)
    | CallRealloc(block: nat, newSize: nat, newBlock: nat)
    | CallFree(block: nat)
    | CallReset
    | CallNull // realloc or free of a null pointer

  /** What the caller and the system allocator owe: live blocks passed in, unused addresses handed out. */
  predicate Allowed(m: Memory, c: Call) {
    match c
    case CallMalloc(_, _, _, _, block) => block != NULL && block !in m.heap
    case CallRealloc(block, _, newBlock) => block in m.heap && (newBlock == block || (newBlock != NULL && newBlock !in m.heap))
    case CallFree(block) => block in m.heap
    case CallReset | CallNull => true
  }

  predicate Moves(c: Call) {
    c.CallRealloc? && c.newBlock != c.block
  }

  function Step(wordBytes: nat, m: Memory, c: Call): Memory
    requires m.table.firstFree < |m.table.slots| && Allowed(m, c)
    requires forall p :: p in m.heap ==> m.heap[p].index < |m.table.slots|
  {
    match c
    case CallMalloc(size, file, line, className, block) => MallocSpec(m, size, file, line, className, block)
    case CallRealloc(block, size, newBlock) => ReallocSpec(wordBytes, m, block, size, newBlock)
    case CallFree(block) => FreeSpec(m, block)
    case CallReset => ResetSpec(m)
    case CallNull => m
  }

  /** The total size of the live blocks. */
  ghost function SumSizes(heap: map<nat, Header>): nat {
    if heap == map[] then 0
    else var p :| p in heap; heap[p].size + SumSizes(heap - {p})
  }

  lemma {:induction false} SumWithout(heap: map<nat, Header>, p: nat)
    requires p in heap
    ensures SumSizes(heap) == heap[p].size + SumSizes(heap - {p})
    decreases |heap|
  {
    var q :| q in heap && SumSizes(heap) == heap[q].size + SumSizes(heap - {q});
    if q != p {
      SumWithout(heap - {q}, p);
      SumWithout(heap - {p}, q);
      assert heap - {q} - {p} == heap - {p} - {q};
    }
  }

  lemma SumWith(heap: map<nat, Header>, p: nat, header: Header)
    requires p !in heap
    ensures SumSizes(heap[p := header]) == header.size + SumSizes(heap)
  {
    SumWithout(heap[p := header], p);
    assert heap[p := header] - {p} == heap;
  }

  lemma SumUpdate(heap: map<nat, Header>, p: nat, header: Header)
    requires p in heap
    ensures SumSizes(heap[p := header]) == SumSizes(heap) - heap[p].size + header.size
  {
    SumWithout(heap, p);
    SumWithout(heap[p := header], p);
    assert heap[p := header] - {p} == heap - {p};
  }

  /**
   * A run's ledger: live bytes and blocks at the last reset (or at the start), the byte counts seen
   * after each call since then, and the live blocks that some realloc has moved.
   */
  datatype Ledger = Ledger(baseBytes: int, baseBlocks: int, seen: seq<int>, moved: set<nat>)

  ghost function Record(l: Ledger, m: Memory, c: Call, after: Memory): Ledger {
    var moved :=
      match c
      case CallRealloc(block, _, newBlock) => if newBlock == block then l.moved else l.moved - {block} + {newBlock}
      case CallFree(block) => l.moved - {block}
      case _ => l.moved;
    if c.CallReset? then Ledger(SumSizes(m.heap), |m.heap|, [0], moved)
    else Ledger(l.baseBytes, l.baseBlocks, l.seen + [SumSizes(after.heap) - l.baseBytes], moved)
  }

  ghost predicate IsMaximum(high: int, seen: seq<int>) {
    high in seen && forall i :: 0 <= i < |seen| ==> seen[i] <= high
  }

  /** The counters tell the truth. */
  ghost predicate Counted(m: Memory, l: Ledger) {
    && m.bytes == SumSizes(m.heap) - l.baseBytes
    && m.allocs == |m.heap| - l.baseBlocks
    && l.seen != [] && l.seen[|l.seen| - 1] == m.bytes
    && IsMaximum(m.high, l.seen)
  }

  /** A slot holds its own block's address exactly if that block never moved. */
  ghost predicate Named(m: Memory, moved: set<nat>) {
    && moved <= m.heap.Keys
    && forall p :: p in m.heap && m.heap[p].index < |m.table.slots| ==>
         (m.table.slots[m.heap[p].index] == p <==> p !in moved)
  }

  ghost predicate Truthful(m: Memory, l: Ledger) {
    Counted(m, l) && Named(m, l.moved)
  }

  lemma IsMaximumSnoc(high: int, seen: seq<int>, v: int)
    requires IsMaximum(high, seen)
    ensures IsMaximum(Max(high, v), seen + [v])
  {
    assert (seen + [v])[|seen|] == v;
    var i :| 0 <= i < |seen| && seen[i] == high;
    assert (seen + [v])[i] == high;
  }

  lemma CountedAfter(m: Memory, l: Ledger, m': Memory, moved: set<nat>)
    requires Counted(m, l)
    requires m'.bytes == SumSizes(m'.heap) - l.baseBytes && m'.allocs == |m'.heap| - l.baseBlocks
    requires m'.high == Max(m.high, m'.bytes)
    ensures Counted(m', Ledger(l.baseBytes, l.baseBlocks, l.seen + [m'.bytes], moved))
  {
    IsMaximumSnoc(m.high, l.seen, m'.bytes);
  }

  lemma BytesBelowHigh(m: Memory, l: Ledger)
    requires Counted(m, l)
    ensures m.bytes <= m.high
  {
  }

  lemma MallocIsTruthful(wordBytes: nat, m: Memory, l: Ledger, c: Call)
    requires Inv(m) && Truthful(m, l) && Allowed(m, c) && c.CallMalloc?
    ensures Truthful(Step(wordBytes, m, c), Record(l, m, c, Step(wordBytes, m, c)))
  {
    var m' := Step(wordBytes, m, c);
    if c.size != 0 {
      SumWith(m.heap, c.block, m'.heap[c.block]);
      MallocIsNamed(m, l.moved, c.size, c.file, c.line, c.className, c.block);
    }
    CountedAfter(m, l, m', l.moved);
  }

  lemma MallocIsNamed(m: Memory, moved: set<nat>, size: nat, file: nat, line: nat, className: nat, block: nat)
    requires Inv(m) && Named(m, moved) && size != 0 && block != NULL && block !in m.heap
    ensures Named(MallocSpec(m, size, file, line, className, block), moved)
  {
    InsertKeepsTable(m.table, block);
    var m' := MallocSpec(m, size, file, line, className, block);
    forall p | p in m'.heap && m'.heap[p].index < |m'.table.slots|
      ensures m'.table.slots[m'.heap[p].index] == p <==> p !in moved
    {
      var i := m'.heap[p].index;
      assert i < |m.table.slots|;
      assert m'.table.slots[i] == m'.table.slots[..|m.table.slots|][i];
      assert p != block ==> i != m.table.firstFree;
    }
  }

  lemma ResizeIsTruthful(wordBytes: nat, m: Memory, l: Ledger, block: nat, size: nat)
    requires Inv(m) && Truthful(m, l) && block in m.heap
    ensures var m' := ReallocSpec(wordBytes, m, block, size, block);
      Truthful(m', Ledger(l.baseBytes, l.baseBlocks, l.seen + [SumSizes(m'.heap) - l.baseBytes], l.moved))
  {
    hide SumSizes, InUse, Owned;
    var m' := ReallocSpec(wordBytes, m, block, size, block);
    SumUpdate(m.heap, block, m'.heap[block]);
    CountedAfter(m, l, m', l.moved);
  }

  lemma MoveIsCounted(m: Memory, l: Ledger, block: nat, size: nat, newBlock: nat, moved: set<nat>)
    requires Inv(m) && Counted(m, l) && block in m.heap && newBlock != NULL && newBlock !in m.heap
    ensures var m' := ReallocSpec(4, m, block, size, newBlock);
      Counted(m', Ledger(l.baseBytes, l.baseBlocks, l.seen + [SumSizes(m'.heap) - l.baseBytes], moved))
  {
    hide SumSizes, Insert, Clear, InUse, Owned, IsMaximum;
    var m' := ReallocSpec(4, m, block, size, newBlock);
    SumWithout(m.heap, block);
    SumWith(m.heap - {block}, newBlock, m'.heap[newBlock]);
    MoveKeepsCount(m.heap, block, newBlock, m'.heap[newBlock]);
    CountedAfter(m, l, m', moved);
  }

  lemma MoveKeepsCount(heap: map<nat, Header>, block: nat, newBlock: nat, header: Header)
    requires block in heap && newBlock !in heap
    ensures |(heap - {block})[newBlock := header]| == |heap|
  {
    var after := (heap - {block})[newBlock := header];
    assert after.Keys == heap.Keys - {block} + {newBlock};
    assert |after| == |after.Keys| && |heap| == |heap.Keys|;
  }

  lemma MoveIsNamed(m: Memory, moved: set<nat>, block: nat, size: nat, newBlock: nat)
    requires Inv(m) && Named(m, moved) && block in m.heap && newBlock != NULL && newBlock !in m.heap
    ensures Named(ReallocSpec(4, m, block, size, newBlock), moved - {block} + {newBlock})
  {
    hide Insert, InUse, Owned;
    MovedTable(m, block);
    var m' := ReallocSpec(4, m, block, size, newBlock);
    forall p | p in m'.heap
      ensures m'.table.slots[m'.heap[p].index] == p <==> p !in moved - {block} + {newBlock}
    {
      if p != newBlock {
        assert m'.heap[p] == m.heap[p] && m.heap[p].index != m.heap[block].index;
      }
    }
  }

  lemma FreeIsCounted(m: Memory, l: Ledger, block: nat, moved: set<nat>)
    requires Inv(m) && Counted(m, l) && block in m.heap
    ensures var m' := FreeSpec(m, block);
      Counted(m', Ledger(l.baseBytes, l.baseBlocks, l.seen + [SumSizes(m'.heap) - l.baseBytes], moved))
  {
    hide SumSizes, InUse, Owned, IsMaximum;
    var m' := FreeSpec(m, block);
    SumWithout(m.heap, block);
    BytesBelowHigh(m, l);
    assert m'.heap.Keys == m.heap.Keys - {block};
    assert |m'.heap| == |m'.heap.Keys| && |m.heap| == |m.heap.Keys|;
    CountedAfter(m, l, m', moved);
  }

  lemma FreeIsNamed(m: Memory, moved: set<nat>, block: nat)
    requires Inv(m) && Named(m, moved) && block in m.heap
    ensures Named(FreeSpec(m, block), moved - {block})
  {
    var m' := FreeSpec(m, block);
    forall p | p in m'.heap ensures m'.table.slots[m'.heap[p].index] == p <==> p !in moved - {block} {
      assert m'.heap[p] == m.heap[p] && m.heap[p].index != m.heap[block].index;
    }
  }

  lemma ResetIsTruthful(m: Memory, l: Ledger)
    requires Truthful(m, l)
    ensures Truthful(ResetSpec(m), Ledger(SumSizes(m.heap), |m.heap|, [0], l.moved))
  {
    assert [0][0] == 0;
  }

  lemma NullIsTruthful(m: Memory, l: Ledger)
    requires Truthful(m, l)
    ensures Truthful(m, Ledger(l.baseBytes, l.baseBlocks, l.seen + [m.bytes], l.moved))
  {
    hide SumSizes, Named;
    BytesBelowHigh(m, l);
    CountedAfter(m, l, m, l.moved);
  }

  /** Every call keeps the correspondence and the books, but for a moving realloc with words of other than 4 bytes. */
  lemma StepIsTruthful(wordBytes: nat, m: Memory, l: Ledger, c: Call)
    requires Inv(m) && Truthful(m, l) && Allowed(m, c) && (wordBytes == 4 || !Moves(c))
    ensures Inv(Step(wordBytes, m, c)) && Truthful(Step(wordBytes, m, c), Record(l, m, c, Step(wordBytes, m, c)))
  {
    hide Counted, Named, InUse, Owned, SumSizes, Insert, Clear;
    match c
    case CallMalloc(size, file, line, className, block) =>
      MallocKeepsInv(m, size, file, line, className, block);
      MallocIsTruthful(wordBytes, m, l, c);
    case CallRealloc(block, size, newBlock) =>
      ReallocIsTruthful(wordBytes, m, l, block, size, newBlock);
    case CallFree(block) =>
      FreeKeepsInv(m, block);
      FreeIsCounted(m, l, block, l.moved - {block});
      FreeIsNamed(m, l.moved, block);
    case CallReset =>
      ResetIsTruthful(m, l);
    case CallNull =>
      NullIsTruthful(m, l);
      BytesAreSum(m, l);
  }

  lemma ReallocIsTruthful(wordBytes: nat, m: Memory, l: Ledger, block: nat, size: nat, newBlock: nat)
    requires Inv(m) && Truthful(m, l) && Allowed(m, CallRealloc(block, size, newBlock))
    requires wordBytes == 4 || newBlock == block
    ensures var m' := ReallocSpec(wordBytes, m, block, size, newBlock);
      Inv(m') && Truthful(m', Record(l, m, CallRealloc(block, size, newBlock), m'))
  {
    hide Inv, Counted, Named, InUse, Owned, SumSizes, Insert, Clear;
    ReallocKeepsInvIff(wordBytes, m, block, size, newBlock);
    if newBlock == block {
      ResizeIsTruthful(wordBytes, m, l, block, size);
    } else {
      MoveIsCounted(m, l, block, size, newBlock, l.moved - {block} + {newBlock});
      MoveIsNamed(m, l.moved, block, size, newBlock);
    }
  }

  lemma BytesAreSum(m: Memory, l: Ledger)
    requires Counted(m, l)
    ensures m.bytes == SumSizes(m.heap) - l.baseBytes
  {
  }

  datatype RunResult = Refused | Broken(m: Memory) | Reached(m: Memory, l: Ledger)

  ghost predicate Sound(r: RunResult) {
    && (r.Reached? ==> Inv(r.m) && Truthful(r.m, r.l))
    && (r.Broken? ==> !Inv(r.m))
  }

  /** One call more; nothing is said of what follows a call that was not allowed or broke the correspondence. */
  ghost function Next(wordBytes: nat, before: RunResult, c: Call): (r: RunResult)
    requires Sound(before)
    ensures Sound(r)
  {
    if !before.Reached? then before
    else if !Allowed(before.m, c) then Refused
    else if wordBytes != 4 && Moves(c) then
      ReallocKeepsInvIff(wordBytes, before.m, c.block, c.newSize, c.newBlock);
      Broken(Step(wordBytes, before.m, c))
    else
      StepIsTruthful(wordBytes, before.m, before.l, c);
      Reached(Step(wordBytes, before.m, c), Record(before.l, before.m, c, Step(wordBytes, before.m, c)))
  }

  /**
   * Any sequence of calls from the empty allocator, with words of any size: `Refused` when one of them was
   * not allowed, `Broken` when one destroyed the correspondence.
   */
  ghost function AfterCalls(wordBytes: nat, calls: seq<Call>): (r: RunResult)
    ensures r.Reached? ==> Inv(r.m) && Truthful(r.m, r.l)
    ensures r.Broken? ==> !Inv(r.m)
  {
    if calls == [] then
      EmptyIsTruthful();
      Reached(EMPTY, Ledger(0, 0, [0], {}))
    else
      Next(wordBytes, AfterCalls(wordBytes, calls[..|calls| - 1]), calls[|calls| - 1])
  }

  /** A run of allowed calls breaks exactly if words have other than 4 bytes and some realloc moved its block. */
  lemma {:induction false} BreaksIff(wordBytes: nat, calls: seq<Call>)
    ensures var r := AfterCalls(wordBytes, calls);
      !r.Refused? ==> (r.Broken? <==> wordBytes != 4 && exists i :: 0 <= i < |calls| && Moves(calls[i]))
  {
    hide Inv, Truthful, Step, Record, Allowed;
    if calls != [] {
      BreaksIff(wordBytes, calls[..|calls| - 1]);
    }
  }

  lemma EmptyIsTruthful()
    ensures Inv(EMPTY) && Truthful(EMPTY, Ledger(0, 0, [0], {}))
  {
    InUseZeros([], MEMBLOCKSTART);
    assert [] + Zeros(MEMBLOCKSTART) == Zeros(MEMBLOCKSTART);
  }

  // ----- what headers and counters say of the calls -----

  /** What a block was asked for: the place that allocated it, and the size it was last given. */
  datatype Request = Request(size: nat, file: nat, line: nat, className: nat)

  /** Read off the calls, the last one first; a block that moved has lost its place. */
  function Asked(calls: seq<Call>, p: nat): Request {
    if calls == [] then Request(0, 0, 0, 0)
    else
      var before := calls[..|calls| - 1];
      match calls[|calls| - 1]
      case CallMalloc(size, file, line, className, block) =>
        if block == p && size > 0 then Request(size, file, line, className) else Asked(before, p)
      case CallRealloc(block, newSize, newBlock) =>
        if newBlock != p then Asked(before, p)
        else if newBlock == block then Asked(before, p).(size := newSize)
        else Request(newSize, 0, 0, 0)
      case _ => Asked(before, p)
  }

  /** After any run, every live block's header holds the marker and what the block was asked for. */
  lemma {:induction false} HeadersTell(wordBytes: nat, calls: seq<Call>, p: nat)
    requires AfterCalls(wordBytes, calls).Reached? && p in AfterCalls(wordBytes, calls).m.heap
    ensures var (h, asked) := (AfterCalls(wordBytes, calls).m.heap[p], Asked(calls, p));
      && h.marker == 0xbadbad00deadbabe && h.size == asked.size
      && h.file == asked.file && h.line == asked.line && h.className == asked.className
  {
    hide Inv, Truthful, Record, Insert, Clear, InUse, Linked;
    if calls != [] {
      var before := calls[..|calls| - 1];
      if p in AfterCalls(wordBytes, before).m.heap {
        HeadersTell(wordBytes, before, p);
      }
    }
  }

  function Mallocs(calls: seq<Call>): nat {
    if calls == [] then 0
    else
      var c := calls[|calls| - 1];
      Mallocs(calls[..|calls| - 1]) + if c.CallMalloc? && c.size > 0 then 1 else 0
  }

  function Reallocs(calls: seq<Call>): nat {
    if calls == [] then 0
    else Reallocs(calls[..|calls| - 1]) + if calls[|calls| - 1].CallRealloc? then 1 else 0
  }

  /** The two counters no reset touches count the allocations and the reallocs of the whole run. */
  lemma {:induction false} CallsAreCounted(wordBytes: nat, calls: seq<Call>)
    requires AfterCalls(wordBytes, calls).Reached?
    ensures AfterCalls(wordBytes, calls).m.total == Mallocs(calls)
    ensures AfterCalls(wordBytes, calls).m.reallocs == Reallocs(calls)
  {
    hide Inv, Truthful, Record, Insert, Clear, InUse, Linked;
    if calls != [] {
      CallsAreCounted(wordBytes, calls[..|calls| - 1]);
    }
  }

  // ----- the leak dump -----

  /** The non-empty slots of the table, each with the address it holds. */
  function UsedSlots(slots: seq<nat>): seq<(nat, nat)> {
    if slots == [] then []
    else
      var last := |slots| - 1;
      UsedSlots(slots[..last]) + if slots[last] == 0 then [] else [(last, slots[last])]
  }

  /** They are listed in ascending order, all of them, each once. */
  lemma {:induction false} UsedSlotsAscend(slots: seq<nat>)
    ensures var r := UsedSlots(slots);
      && |r| == InUse(slots)
      && (forall i :: 0 <= i < |r| ==> r[i].0 < |slots| && slots[r[i].0] == r[i].1 != 0)
      && (forall i, j :: 0 <= i < j < |r| ==> r[i].0 < r[j].0)
      && (forall k :: 0 <= k < |slots| && slots[k] != 0 ==> (k, slots[k]) in r)
  {
    if slots != [] {
      var last := |slots| - 1;
      var shorter := UsedSlots(slots[..last]);
      UsedSlotsAscend(slots[..last]);
      var r := UsedSlots(slots);
      forall k | 0 <= k < |slots| && slots[k] != 0 ensures (k, slots[k]) in r {
        if k < last {
          assert slots[..last][k] != 0 && (k, slots[k]) in shorter;
        } else {
          assert r[|shorter|] == (k, slots[k]);
        }
      }
    }
  }

  lemma UsedSlotsNone()
    ensures UsedSlots([]) == []
  {
  }

  lemma UsedSlotsNext(slots: seq<nat>, j: nat)
    requires j < |slots|
    ensures UsedSlots(slots[..j + 1]) == UsedSlots(slots[..j]) + if slots[j] == 0 then [] else [(j, slots[j])]
  {
    assert slots[..j + 1][..j] == slots[..j];
  }

  lemma {:induction false} UsedSlotsPrefix(slots: seq<nat>, j: nat)
    requires j <= |slots|
    ensures UsedSlots(slots[..j]) <= UsedSlots(slots)
    decreases |slots| - j
  {
    if j == |slots| {
      assert slots[..j] == slots;
    } else {
      UsedSlotsPrefix(slots, j + 1);
      assert slots[..j + 1][..j] == slots[..j];
    }
  }

  /**
   * After any run the dump lists every live block's slot exactly once; the addresses it reads through are
   * the blocks' own exactly if no live block was ever moved.
   */
  lemma DumpMeetsEveryBlock(wordBytes: nat, calls: seq<Call>)
    requires AfterCalls(wordBytes, calls).Reached?
    ensures var m, l := AfterCalls(wordBytes, calls).m, AfterCalls(wordBytes, calls).l;
      var dump := UsedSlots(m.table.slots);
      && |dump| == m.table.used
      && (forall i, j :: 0 <= i < j < |dump| ==> dump[i].0 < dump[j].0)
      && (forall i :: 0 <= i < |dump| ==> Owned(m.heap, dump[i].0))
      && (forall p :: p in m.heap ==> (m.heap[p].index, m.table.slots[m.heap[p].index]) in dump)
      && (l.moved == {} <==> forall p :: p in m.heap ==> (m.heap[p].index, p) in dump)
  {
    hide AfterCalls, Counted, InUse, UsedSlots;
    var m, l := AfterCalls(wordBytes, calls).m, AfterCalls(wordBytes, calls).l;
    UsedSlotsAscend(m.table.slots);
    if l.moved != {} {
      var p :| p in l.moved;
      assert p in m.heap && m.table.slots[m.heap[p].index] != p;
    }
  }

  /** One block, allocated and moved: the dump reads through its old address, which is no block any more. */
  lemma MovedBlockIsDumpedAtOldAddress()
    ensures var r := AfterCalls(4, [CallMalloc(1, 0, 0, 0, 8), CallRealloc(8, 1, 16)]);
      && r.Reached? && r.l.moved == {16} && r.m.heap.Keys == {16}
      && (r.m.heap[16].index, 8) in UsedSlots(r.m.table.slots)
  {
    hide AfterCalls, Next, Step, Record, Inv, Truthful, UsedSlots;
    var first, second := CallMalloc(1, 0, 0, 0, 8), CallRealloc(8, 1, 16);
    AfterNone(4);
    AfterOneMore(4, [], first);
    AfterOneMore(4, [first], second);
    assert [] + [first] == [first] && [first] + [second] == [first, second];
    var one, two := AfterCalls(4, [first]), AfterCalls(4, [first, second]);
    FirstBlock(4, one);
    SecondPlace(one, two);
    UsedSlotsAscend(two.m.table.slots);
  }

  lemma AfterNone(wordBytes: nat)
    ensures AfterCalls(wordBytes, []) == Reached(EMPTY, Ledger(0, 0, [0], {}))
  {
  }

  lemma AfterOneMore(wordBytes: nat, calls: seq<Call>, c: Call)
    ensures AfterCalls(wordBytes, calls + [c]) == Next(wordBytes, AfterCalls(wordBytes, calls), c)
  {
    assert (calls + [c])[..|calls|] == calls;
  }

  lemma FirstBlock(wordBytes: nat, one: RunResult)
    requires Sound(Reached(EMPTY, Ledger(0, 0, [0], {})))
    requires one == Next(wordBytes, Reached(EMPTY, Ledger(0, 0, [0], {})), CallMalloc(1, 0, 0, 0, 8))
    ensures one.Reached? && one.m.heap.Keys == {8} && one.l.moved == {}
  {
    hide Inv, Truthful, Insert;
  }

  lemma SecondPlace(one: RunResult, two: RunResult)
    requires Sound(one) && one.Reached? && one.m.heap.Keys == {8} && one.l.moved == {}
    requires two == Next(4, one, CallRealloc(8, 1, 16))
    ensures two.Reached? && two.l.moved == {16} && two.m.heap.Keys == {16} && two.m.heap[16].index < |two.m.table.slots|
    ensures two.m.table.slots[two.m.heap[16].index] == 8
  {
    hide Truthful, Insert, Clear, InUse, Owned;
    MovedSlot(4, one.m, 8, 1, 16);
  }

  /** With words of any other size than 4 bytes the same two calls break the back-index. */
  lemma MovedBlockIsLost(wordBytes: nat)
    requires wordBytes != 4
    ensures AfterCalls(wordBytes, [CallMalloc(1, 0, 0, 0, 8), CallRealloc(8, 1, 16)]).Broken?
  {
    hide AfterCalls, Next, Step, Record, Inv, Truthful;
    var first, second := CallMalloc(1, 0, 0, 0, 8), CallRealloc(8, 1, 16);
    AfterNone(wordBytes);
    AfterOneMore(wordBytes, [], first);
    AfterOneMore(wordBytes, [first], second);
    assert [] + [first] == [first] && [first] + [second] == [first, second];
    FirstBlock(wordBytes, AfterCalls(wordBytes, [first]));
    SecondPlaceBreaks(wordBytes, AfterCalls(wordBytes, [first]));
  }

  lemma SecondPlaceBreaks(wordBytes: nat, one: RunResult)
    requires Sound(one) && one.Reached? && one.m.heap.Keys == {8} && wordBytes != 4
    ensures Next(wordBytes, one, CallRealloc(8, 1, 16)).Broken?
  {
    hide Inv, Truthful, Step;
  }

  /** The stale address: line 240 stores the old pointer. */
  lemma MovedSlot(wordBytes: nat, m: Memory, block: nat, size: nat, newBlock: nat)
    requires Inv(m) && block in m.heap && newBlock != block && wordBytes == 4
    ensures var m' := ReallocSpec(wordBytes, m, block, size, newBlock);
      && newBlock in m'.heap && m'.heap[newBlock].index < |m'.table.slots| && block != 0
      && m'.table.slots[m'.heap[newBlock].index] == block
  {
    MovedTable(m, block);
  }

  // ----- the allocator object -----

  class MemoryAllocator {
    const wordBytes: nat
    var memBlockList: array<nat>
    var memBlockFirstFree: nat
    var memBlockUsed: int
    var nbAllocatedBytes: int
    var highWaterMark: int
    var totalNbAllocs: int
    var nbAllocs: int
    var nbReallocs: int
    /** The headers the system heap holds, by block address. */
    var heap: map<nat, Header>

    ghost function View(): Memory
      reads this, memBlockList
    {
      Memory(Table(memBlockList[..], memBlockFirstFree, memBlockUsed), heap,
             nbAllocatedBytes, highWaterMark, totalNbAllocs, nbAllocs, nbReallocs)
    }

    constructor (wordBytes: nat)
      ensures this.wordBytes == wordBytes && fresh(memBlockList) && View() == EMPTY && Inv(View())
    {
      this.wordBytes := wordBytes;
      memBlockList := new nat[MEMBLOCKSTART](i => 0);
      memBlockFirstFree, memBlockUsed := 0, 0;
      nbAllocatedBytes, highWaterMark, totalNbAllocs, nbAllocs, nbReallocs := 0, 0, 0, 0, 0;
      heap := map[];
      new;
      assert memBlockList[..] == Zeros(MEMBLOCKSTART);
      EmptyIsTruthful();
    }

    /**
     * Advance the cursor from `from` to the next empty slot, wrapping around once. The scan reads a slot
     * before it tests the bound; `beyond` is whatever lies behind the table, and has no influence.
     */
    method AdvanceFirstFree(from: nat, beyond: nat) returns (readsBeyond: bool)
      requires from < memBlockList.Length && InUse(memBlockList[..]) < memBlockList.Length
      modifies this`memBlockFirstFree
      ensures memBlockFirstFree == NextFree(memBlockList[..], from)
      ensures memBlockFirstFree < memBlockList.Length && memBlockList[memBlockFirstFree] == 0
      ensures readsBeyond <==> FirstZero(memBlockList[..], from + 1) == memBlockList.Length
    {
      NextFreeIsEmpty(memBlockList[..], from);
      var cursor;
      cursor, readsBeyond := Scan(from, beyond);
      if cursor == memBlockList.Length {
        var again;
        // The cursor is set to -1, which the increment makes 0.
        cursor, again := Scan(-1, beyond);
      }
      memBlockFirstFree := cursor;
    }

    /** `while (list[++cursor] && cursor < size);` */
    method Scan(from: int, beyond: nat) returns (cursor: int, readsBeyond: bool)
      requires -1 <= from < memBlockList.Length
      ensures cursor == FirstZero(memBlockList[..], from + 1)
      ensures readsBeyond <==> cursor == memBlockList.Length
    {
      cursor, readsBeyond := from, false;
      var goOn := true;
      while goOn
        invariant from <= cursor <= memBlockList.Length
        invariant goOn ==> cursor < memBlockList.Length && !readsBeyond
        invariant goOn ==> FirstZero(memBlockList[..], cursor + 1) == FirstZero(memBlockList[..], from + 1)
        invariant !goOn ==> cursor == FirstZero(memBlockList[..], from + 1) && (readsBeyond <==> cursor == memBlockList.Length)
        decreases memBlockList.Length - cursor + if goOn then 1 else 0
      {
        cursor := cursor + 1;
        readsBeyond := cursor == memBlockList.Length;
        var entry := if readsBeyond then beyond else memBlockList[cursor];
        goOn := entry != 0 && cursor < memBlockList.Length;
      }
    }

    /** Put `entry` into the next free slot; grow the table when that fills it, then move the cursor on. */
    method InsertBlock(entry: nat)
      requires TableOk(View().table) && entry != 0
      modifies this`memBlockList, this`memBlockFirstFree, this`memBlockUsed, memBlockList
      ensures View() == old(View()).(table := Insert(old(View().table), entry))
      ensures memBlockList == old(memBlockList) || fresh(memBlockList)
      ensures old(memBlockUsed) + 1 != old(memBlockList.Length) ==> memBlockList == old(memBlockList)
    {
      hide InUse, NextFree, FirstZero, Zeros;
      ghost var t := View().table;
      InsertKeepsTable(t, entry);
      InUseUpdate(t.slots, t.firstFree, entry);
      memBlockList[memBlockFirstFree] := entry;
      memBlockUsed := memBlockUsed + 1;
      assert memBlockList[..] == t.slots[t.firstFree := entry];
      var from := memBlockFirstFree;
      if memBlockUsed == memBlockList.Length {
        from := memBlockList.Length - 1;
        InUseZeros(memBlockList[..], MEMBLOCKSTART);
        Grow();
      }
      assert memBlockList[..] == Insert(t, entry).slots;
      var beyond := *;
      var _ := AdvanceFirstFree(from, beyond);
    }

    /** Move the table to one with MEMBLOCKSTART more, empty, slots. */
    method Grow()
      modifies this`memBlockList
      ensures memBlockList[..] == old(memBlockList[..]) + Zeros(MEMBLOCKSTART) && fresh(memBlockList)
    {
      var size := memBlockList.Length;
      var tps := new nat[size + MEMBLOCKSTART](i => 0);
      forall i | 0 <= i < size {
        tps[i] := memBlockList[i];
      }
      memBlockList := tps;
    }

    /** Returns the user address; `block` is the address the system allocator picks. */
    method MallocDebug(size: nat, file: nat, line: nat, className: nat, block: nat) returns (memory: nat)
      requires Inv(View()) && block != NULL && block !in heap
      modifies this, memBlockList
      ensures View() == MallocSpec(old(View()), size, file, line, className, block) && Inv(View())
      ensures memory == if size == 0 then 0 else block + 6
      ensures memBlockList == old(memBlockList) || fresh(memBlockList)
    {
      hide InUse, Linked, Insert;
      MallocKeepsInv(View(), size, file, line, className, block);
      if size == 0 {
        return NULL;
      }
      totalNbAllocs := totalNbAllocs + 1;
      nbAllocs := nbAllocs + 1;
      nbAllocatedBytes := nbAllocatedBytes + size;
      if nbAllocatedBytes > highWaterMark {
        highWaterMark := nbAllocatedBytes;
      }
      heap := heap[block := Header(POINTER_MARKER, size, file, line, memBlockFirstFree, className)];
      InsertBlock(block);
      memory := block + HEADER_WORDS;
    }

    /** `newBlock` is where the system allocator puts the resized block. */
    method Realloc(memory: nat, size: nat, newBlock: nat) returns (newMemory: nat)
      requires Inv(View())
      requires memory != NULL ==> memory >= HEADER_WORDS && memory - HEADER_WORDS in heap
      requires memory != NULL && newBlock != memory - HEADER_WORDS ==> newBlock != NULL && newBlock !in heap
      modifies this, memBlockList
      ensures memory == NULL ==> View() == old(View()) && newMemory == NULL
      ensures memory != NULL ==>
        && View() == ReallocSpec(wordBytes, old(View()), memory - HEADER_WORDS, size, newBlock)
        && newMemory == newBlock + 6
      ensures memBlockList == old(memBlockList) && memBlockList.Length == old(memBlockList.Length)
    {
      hide TableOk, Linked, Insert, Clear;
      if memory == NULL {
        return NULL;
      }
      var block := memory - HEADER_WORDS;
      var header := heap[block];
      nbAllocatedBytes := nbAllocatedBytes - header.size;
      nbAllocatedBytes := nbAllocatedBytes + size;
      if nbAllocatedBytes > highWaterMark {
        highWaterMark := nbAllocatedBytes;
      }
      nbReallocs := nbReallocs + 1;
      if newBlock == block {
        heap := heap[block := header.(size := size)];
        return memory;
      }
      MoveBlock(block, size, newBlock);
      newMemory := newBlock + HEADER_WORDS;
    }

    /** realloc once the counters are done and the system allocator has moved the block. */
    method MoveBlock(block: nat, size: nat, newBlock: nat)
      requires Inv(View()) && block in heap && newBlock != block
      modifies this`heap, this`memBlockList, this`memBlockFirstFree, this`memBlockUsed, memBlockList
      ensures var m := ReallocSpec(wordBytes, old(View()), block, size, newBlock);
        View() == old(View()).(table := m.table, heap := m.heap)
      ensures memBlockList == old(memBlockList)
    {
      MovedTable(View(), block);
      ghost var before := View();
      var header := heap[block];
      var free := memBlockFirstFree;
      var moved := if wordBytes == 4 then Header(POINTER_MARKER, size, 0, 0, free, 0)
                   else Header(POINTER_MARKER, size, free, 0, header.index, header.className);
      heap := (heap - {block})[newBlock := moved];
      memBlockList[header.index] := 0;
      memBlockUsed := memBlockUsed - 1;
      assert memBlockList[..] == before.table.slots[header.index := 0];
      assert View().table == Clear(before.table, header.index);
      InsertBlock(block);
    }

    method Free(memory: nat)
      requires Inv(View())
      requires memory != NULL ==> memory >= HEADER_WORDS && memory - HEADER_WORDS in heap
      modifies this, memBlockList
      ensures View() == if memory == NULL then old(View()) else FreeSpec(old(View()), memory - HEADER_WORDS)
      ensures Inv(View()) && memBlockList == old(memBlockList)
    {
      hide InUse, Owned;
      if memory == NULL {
        return;
      }
      var block := memory - HEADER_WORDS;
      FreeKeepsInv(View(), block);
      ghost var before := View();
      var header := heap[block];
      nbAllocatedBytes := nbAllocatedBytes - header.size;
      nbAllocs := nbAllocs - 1;
      memBlockList[header.index] := 0;
      memBlockUsed := memBlockUsed - 1;
      heap := heap - {block};
      assert memBlockList[..] == before.table.slots[header.index := 0];
    }

    method Reset()
      modifies this`nbAllocatedBytes, this`highWaterMark, this`nbAllocs
      ensures View() == ResetSpec(old(View()))
    {
      nbAllocatedBytes, highWaterMark, nbAllocs := 0, 0, 0;
    }

    /** The destructor's leak dump: the slots it stops at, with the addresses it reads there. */
    method DumpLeaks() returns (dump: seq<(nat, nat)>)
      requires TableOk(View().table)
      ensures dump == UsedSlots(memBlockList[..])
    {
      hide InUse, UsedSlots;
      dump := [];
      ghost var slots := memBlockList[..];
      UsedSlotsAscend(slots);
      UsedSlotsNone();
      assert slots[..|slots|] == slots;
      var i, j := 0, 0;
      while i < memBlockUsed
        invariant 0 <= i <= memBlockUsed && j <= memBlockList.Length
        invariant dump == UsedSlots(slots[..j]) && |dump| == i
      {
        while memBlockList[j] == 0
          invariant j < memBlockList.Length
          invariant dump == UsedSlots(slots[..j])
          decreases memBlockList.Length - j
        {
          UsedSlotsNext(slots, j);
          j := j + 1;
        }
        UsedSlotsNext(slots, j);
        dump := dump + [(j, memBlockList[j])];
        i, j := i + 1, j + 1;
      }
      UsedSlotsPrefix(slots, j);
    }
  }
}
