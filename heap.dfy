/**
 * The simulated heap of memory.go: one byte arena of PoolSize bytes, the free
 * list, and the table of allocated regions, with `Alloc`, `Malloc`, `Free`,
 * `coalesceFreeBlock`, `Read` and `Write`.
 */
module Heap {
  import opened FreeList

  /** The four ways an operation can fail. */
  datatype Error = OutOfMemory | InvalidFree | UnallocatedAccess | OutOfBoundsAccess

  /** The result of an operation that yields a value. */
  datatype Result<T> = Success(value: T) | Failure(error: Error)

  /** The result of an operation that yields nothing. */
  datatype Outcome = Pass | Fail(error: Error)

  // ---------------------------------------------------------------------------
  // The table of allocated regions: start address -> length

  /** Address `a` lies inside some allocated region. */
  ghost predicate InRegion(alloc: map<int, int>, a: int)
  {
    exists k :: k in alloc && k <= a < k + alloc[k]
  }

  lemma NoKeyIsEmpty(alloc: map<int, int>)
    ensures (forall k :: k !in alloc) ==> alloc == map[]
  {
    if forall k :: k !in alloc {
      assert alloc.Keys == {};
    }
  }

  lemma InRegionSplit(alloc: map<int, int>, k: int)
    requires k in alloc
    ensures forall a :: InRegion(alloc, a) <==> k <= a < k + alloc[k] || InRegion(alloc - {k}, a)
  {
    forall a | InRegion(alloc, a)
      ensures k <= a < k + alloc[k] || InRegion(alloc - {k}, a)
    {
      var l :| l in alloc && l <= a < l + alloc[l];
      if l != k {
        assert l in alloc - {k};
      }
    }
  }

  /** The addresses inside allocated regions. */
  ghost function AllocAddrs(alloc: map<int, int>): (r: set<int>)
    ensures forall a :: a in r <==> InRegion(alloc, a)
    decreases |alloc|
  {
    if alloc == map[] then {}
    else
      NoKeyIsEmpty(alloc);
      var k :| k in alloc;
      InRegionSplit(alloc, k);
      Span(k, k + alloc[k]) + AllocAddrs(alloc - {k})
  }

  /** Every region has a positive length and lies inside the arena. */
  ghost predicate RegionsInPool(alloc: map<int, int>)
  {
    forall k :: k in alloc ==> 0 <= k && 0 < alloc[k] && k + alloc[k] <= PoolSize
  }

  /** No two regions overlap. */
  ghost predicate RegionsApart(alloc: map<int, int>)
  {
    forall k, l :: k in alloc && l in alloc && k < l ==> k + alloc[k] <= l
  }

  /** The free blocks and the allocated regions together tile the arena
      `[0, PoolSize)` without gaps or overlaps, and the free list is fully
      merged: sorted, positive, no two blocks touching. */
  ghost predicate Tiles(free: seq<Block>, alloc: map<int, int>)
  {
    && Coalesced(free)
    && RegionsInPool(alloc)
    && RegionsApart(alloc)
    && Partition(Covered(free), AllocAddrs(alloc))
  }

  /** `f` and `a` split the addresses `[0, PoolSize)` between them. */
  ghost predicate Partition(f: set<int>, a: set<int>)
  {
    && f !! a
    && forall x :: x in f || x in a <==> 0 <= x < PoolSize
  }

  /** Recording a region whose start was not a key adds exactly its bytes. */
  lemma AllocAddrsInsert(alloc: map<int, int>, k: int, n: int)
    requires k !in alloc
    ensures AllocAddrs(alloc[k := n]) == AllocAddrs(alloc) + Span(k, k + n)
  {
    var m := alloc[k := n];
    InRegionSplit(m, k);
    assert m - {k} == alloc;
  }

  /** Dropping a region of a table whose regions do not overlap removes
      exactly its bytes. */
  lemma AllocAddrsRemove(alloc: map<int, int>, k: int)
    requires RegionsApart(alloc) && k in alloc
    ensures Span(k, k + alloc[k]) <= AllocAddrs(alloc)
    ensures AllocAddrs(alloc - {k}) == AllocAddrs(alloc) - Span(k, k + alloc[k])
  {
    InRegionSplit(alloc, k);
    OthersAvoid(alloc, k);
  }

  /** With no overlaps, the other regions miss every byte of region `k`. */
  lemma OthersAvoid(alloc: map<int, int>, k: int)
    requires RegionsApart(alloc) && k in alloc
    ensures forall a :: InRegion(alloc - {k}, a) ==> !(k <= a < k + alloc[k])
  {
    forall a | InRegion(alloc - {k}, a)
      ensures !(k <= a < k + alloc[k])
    {
      var l :| l in alloc - {k} && l <= a < l + alloc[l];
      assert l < k || k < l;
    }
  }

  /** The arena as seen from the tables: the free blocks lie inside it. */
  lemma BlocksInPool(free: seq<Block>, alloc: map<int, int>)
    requires Tiles(free, alloc)
    ensures forall j :: 0 <= j < |free| ==> 0 <= free[j].start && free[j].End() <= PoolSize
  {
    forall j | 0 <= j < |free|
      ensures 0 <= free[j].start && free[j].End() <= PoolSize
    {
      BlockCovered(free, j);
      assert free[j].start in Addrs(free[j]);
      assert free[j].End() - 1 in Addrs(free[j]);
    }
  }

  // ---------------------------------------------------------------------------
  // What each operation does to the tables

  /** The effect of `Alloc(n)` on the free list and the table: pick the best
      fitting block, carve `n` bytes off its front and record them, or fail
      and change nothing. */
  ghost predicate AllocEffect(free: seq<Block>, alloc: map<int, int>, n: int,
                              r: Result<int>, free': seq<Block>, alloc': map<int, int>): (b: bool)
    ensures b ==> (r.Failure? <==> forall j :: 0 <= j < |free| ==> !Candidate(free[j], n))
    ensures b && r.Failure? ==> r.error == OutOfMemory
    ensures b && r.Success? ==> r.value in alloc' && alloc'[r.value] == n && |free'| <= |free|
  {
    var i := BestFit(free, n);
    if i == -1 then
      r == Failure(OutOfMemory) && free' == free && alloc' == alloc
    else
      && 0 < n
      && r == Success(free[i].start)
      && free' == Carve(free, i, n)
      && alloc' == alloc[free[i].start := n]
  }

  /** What an allocation means for the caller: it fails exactly when no free
      block is large enough; otherwise the returned address was not in use,
      the region it starts lies inside the arena, and its bytes leave the free
      list. */
  lemma AllocOutcome(free: seq<Block>, alloc: map<int, int>, n: int,
                     r: Result<int>, free': seq<Block>, alloc': map<int, int>)
    requires Tiles(free, alloc) && 0 < n
    requires AllocEffect(free, alloc, n, r, free', alloc')
    ensures r.Failure? <==> forall j :: 0 <= j < |free| ==> free[j].size < n
    ensures r.Success? ==> r.value !in alloc && r.value in alloc' && alloc'[r.value] == n
    ensures r.Success? ==> 0 <= r.value && r.value + n <= PoolSize
    ensures r.Success? ==> Covered(free') == Covered(free) - Span(r.value, r.value + n)
    ensures r.Success? ==> TotalSize(free') == TotalSize(free) - n
    ensures r.Success? ==> Tiles(free', alloc')
  {
    BlocksInPool(free, alloc);
    var i := BestFit(free, n);
    if i != -1 {
      CarveKeepsTiling(free, alloc, i, n);
      CarveCovered(free, i, n);
      BlocksInPool(free', alloc');
    }
  }

  /** Freeing the address an allocation just returned puts both tables back
      as they were: the table loses exactly the new entry, and the merged
      free list, being determined by the addresses it covers, is the old one. */
  lemma FreeUndoesAlloc(free: seq<Block>, alloc: map<int, int>, n: int, r: Result<int>,
                        free': seq<Block>, alloc': map<int, int>, merged: seq<Block>)
    requires Tiles(free, alloc) && 0 < n
    requires AllocEffect(free, alloc, n, r, free', alloc') && r.Success?
    requires Coalesced(merged)
    requires Covered(merged) == Covered(free') + Span(r.value, r.value + n)
    ensures merged == free
    ensures alloc' - {r.value} == alloc
  {
    var i := BestFit(free, n);
    CarveThenReleaseRestores(free, i, n, merged);
    FreeStartUnused(free, alloc, i);
    RecordForgotten(alloc, free[i].start, n);
  }

  /** Recording a region at an unused start and deleting it again gives
      back the table. */
  lemma RecordForgotten(alloc: map<int, int>, st: int, n: int)
    requires st !in alloc
    ensures alloc[st := n] - {st} == alloc
  {
  }

  /** The first byte of a free block is not the start of a region. */
  lemma FreeStartUnused(free: seq<Block>, alloc: map<int, int>, i: int)
    requires Tiles(free, alloc) && 0 <= i < |free|
    ensures free[i].start !in alloc
  {
    BlockCovered(free, i);
    assert free[i].start in Addrs(free[i]);
    assert !InRegion(alloc, free[i].start);
  }

  /** Carving a request out of a free block keeps the arena tiled: the bytes
      move from the free list to a new region whose start was not in use. */
  lemma CarveKeepsTiling(free: seq<Block>, alloc: map<int, int>, i: int, n: int)
    requires Tiles(free, alloc) && 0 <= i < |free| && 0 < n <= free[i].size
    ensures free[i].start !in alloc
    ensures Tiles(Carve(free, i, n), alloc[free[i].start := n])
  {
    var st := free[i].start;
    var taken := Span(st, st + n);
    CarveLoses(free, i, n, taken);
    RecordGains(alloc, st, n, Covered(free), taken);
    SetsMoved(Covered(free), AllocAddrs(alloc), taken);
  }

  /** The free-list half of the carve: the list stays fully merged and
      gives up exactly the taken bytes, all of which it covered. */
  lemma CarveLoses(free: seq<Block>, i: int, n: int, taken: set<int>)
    requires Coalesced(free) && 0 <= i < |free| && 0 < n <= free[i].size
    requires taken == Span(free[i].start, free[i].start + n)
    ensures taken <= Covered(free)
    ensures Coalesced(Carve(free, i, n))
    ensures Covered(Carve(free, i, n)) == Covered(free) - taken
  {
    BlockCovered(free, i);
    CarveApart(free, i, n);
    CarveCovered(free, i, n);
  }

  /** The table half of the carve: recording bytes that were free adds a
      region apart from the others, inside the arena, covering exactly them. */
  lemma RecordGains(alloc: map<int, int>, st: int, n: int, f: set<int>, taken: set<int>)
    requires RegionsInPool(alloc) && RegionsApart(alloc) && Partition(f, AllocAddrs(alloc))
    requires 0 < n && taken == Span(st, st + n) && taken <= f
    ensures st !in alloc
    ensures RegionsApart(alloc[st := n]) && RegionsInPool(alloc[st := n])
    ensures AllocAddrs(alloc[st := n]) == AllocAddrs(alloc) + taken
  {
    NewRegionApart(alloc, st, n);
    AllocAddrsInsert(alloc, st, n);
    RegionWithinPool(alloc, st, n, taken);
  }

  lemma RegionWithinPool(alloc: map<int, int>, st: int, n: int, taken: set<int>)
    requires RegionsInPool(alloc) && 0 < n && taken == Span(st, st + n)
    requires forall x :: x in taken ==> 0 <= x < PoolSize
    ensures RegionsInPool(alloc[st := n])
  {
    assert st in taken && st + n - 1 in taken;
  }

  /** A new region made of bytes that no region covers overlaps none of them. */
  lemma NewRegionApart(alloc: map<int, int>, st: int, n: int)
    requires RegionsInPool(alloc) && RegionsApart(alloc) && 0 < n
    requires Span(st, st + n) !! AllocAddrs(alloc)
    ensures st !in alloc
    ensures RegionsApart(alloc[st := n])
  {
    assert st in Span(st, st + n);
    assert !InRegion(alloc, st);
    var alloc' := alloc[st := n];
    forall k, l | k in alloc' && l in alloc' && k < l
      ensures k + alloc'[k] <= l
    {
      if l == st {
        assert k in alloc;
      } else if k == st {
        assert l in alloc && InRegion(alloc, l);
        assert l !in Span(st, st + n);
      }
    }
  }

  /** Moving the bytes `t` from one side of a partition of the arena to the
      other leaves a partition of the arena. */
  lemma SetsMoved(f: set<int>, a: set<int>, t: set<int>)
    requires Partition(f, a)
    ensures t <= f ==> Partition(f - t, a + t)
    ensures t <= a ==> Partition(f + t, a - t)
  {
  }

  /** The list `Free` hands to `coalesceFreeBlock`: the old free list with the
      released region appended, still disjoint and positive. */
  lemma ReleaseAppends(free: seq<Block>, alloc: map<int, int>, addr: int)
    requires Tiles(free, alloc) && addr in alloc
    ensures Positive(free + [Block(addr, alloc[addr])])
    ensures Disjoint(free + [Block(addr, alloc[addr])])
    ensures Covered(free + [Block(addr, alloc[addr])]) == Covered(free) + Span(addr, addr + alloc[addr])
    ensures TotalSize(free + [Block(addr, alloc[addr])]) == TotalSize(free) + alloc[addr]
  {
    var b := Block(addr, alloc[addr]);
    AllocAddrsRemove(alloc, addr);
    CoveredConcat(free, [b]);
    CoveredOne(b);
    SeparatedIsDisjoint(free);
    DisjointSnoc(free, b);
  }

  /** Once the released bytes are merged back, the arena is tiled by the new
      free list and the table without the freed entry. */
  lemma ReleaseKeepsTiling(free: seq<Block>, alloc: map<int, int>, addr: int, merged: seq<Block>)
    requires Tiles(free, alloc) && addr in alloc
    requires Coalesced(merged)
    requires Covered(merged) == Covered(free) + Span(addr, addr + alloc[addr])
    ensures Tiles(merged, alloc - {addr})
  {
    AllocAddrsRemove(alloc, addr);
  }

  // ---------------------------------------------------------------------------
  // The heap object

  class Memory {
    /** The arena. */
    var pool: array<bv8>
    /** The free blocks. */
    var free: seq<Block>
    /** Start address -> length of every live allocation. */
    var alloc: map<int, int>

    ghost predicate Valid()
      reads this
    {
      pool.Length == PoolSize && Tiles(free, alloc)
    }

    /** A zeroed arena that is one free block. */
    constructor ()
      ensures Valid() && fresh(pool)
      ensures forall a :: 0 <= a < pool.Length ==> pool[a] == 0
      ensures free == [Block(0, PoolSize)] && alloc == map[]
    {
      pool := new bv8[PoolSize](_ => 0);
      free := [Block(0, PoolSize)];
      alloc := map[];
      CoveredOne(Block(0, PoolSize));
      assert AllocAddrs(map[]) == {};
    }

    /** Reserves `size` bytes by best fit without touching their contents. */
    method Alloc(size: int) returns (r: Result<int>)
      requires Valid() && size > 0
      modifies this`free, this`alloc
      ensures Valid() && unchanged(pool)
      ensures AllocEffect(old(free), old(alloc), size, r, free, alloc)
    {
      var idx := FindBestFit(free, size);
      if idx == -1 {
        return Failure(OutOfMemory);
      }
      var start := free[idx].start;
      CarveKeepsTiling(free, alloc, idx, size);
      free, alloc := Carve(free, idx, size), alloc[start := size];
      r := Success(start);
    }

    /** `Alloc`, then zero the reserved bytes. */
    method Malloc(size: int) returns (r: Result<int>)
      requires Valid() && size > 0
      modifies this`free, this`alloc, pool
      ensures Valid() && pool == old(pool)
      ensures AllocEffect(old(free), old(alloc), size, r, free, alloc)
      ensures r.Failure? ==> unchanged(pool)
      ensures r.Success? ==> forall a :: 0 <= a < pool.Length ==>
                pool[a] == if r.value <= a < r.value + size then 0 else old(pool[a])
    {
      r := Alloc(size);
      if r.Success? {
        var addr := r.value;
        assert 0 <= addr && addr + size <= pool.Length by {
          AllocOutcome(old(free), old(alloc), size, r, free, alloc);
        }
        ZeroFill(pool, addr, size);
      }
    }

    /** The zeroing loop of `Malloc`: clears `a[addr..addr + size]` and
        nothing else. */
    static method ZeroFill(a: array<bv8>, addr: int, size: int)
      requires 0 <= addr && 0 <= size && addr + size <= a.Length
      modifies a
      ensures forall p :: 0 <= p < a.Length ==>
                a[p] == if addr <= p < addr + size then 0 else old(a[p])
    {
      for i := 0 to size
        invariant forall p :: 0 <= p < a.Length ==>
                    a[p] == if addr <= p < addr + i then 0 else old(a[p])
      {
        a[addr + i] := 0;
      }
    }

    /** Returns the region starting at `addr` to the free list and merges it
        with its free neighbours. */
    method Free(addr: int) returns (r: Outcome)
      requires Valid()
      modifies this`free, this`alloc
      ensures Valid() && unchanged(pool)
      ensures r == if addr in old(alloc) then Pass else Fail(InvalidFree)
      ensures r.Fail? ==> free == old(free) && alloc == old(alloc)
      ensures r.Pass? ==> alloc == old(alloc) - {addr}
      ensures r.Pass? ==> Covered(free) == old(Covered(free)) + Span(addr, addr + old(alloc)[addr])
      ensures r.Pass? ==> TotalSize(free) == old(TotalSize(free)) + old(alloc)[addr]
    {
      if addr !in alloc {
        return Fail(InvalidFree);
      }
      var size := alloc[addr];
      ReleaseAppends(free, alloc, addr);
      alloc := alloc - {addr};
      free := free + [Block(addr, size)];
      CoalesceFreeBlocks();
      ReleaseKeepsTiling(old(free), old(alloc), addr, free);
      r := Pass;
    }

    /** Sorts the free list by start address and merges every run of touching
        blocks into one. */
    method CoalesceFreeBlocks()
      requires Positive(free) && Disjoint(free)
      modifies this`free
      ensures Coalesced(free)
      ensures Covered(free) == old(Covered(free))
      ensures TotalSize(free) == old(TotalSize(free))
      ensures |old(free)| <= 1 ==> free == old(free)
    {
      if |free| <= 1 {
        return;
      }
      var sorted := SortByStart(free);
      assert SortedByStart(sorted) && Positive(sorted) && Disjoint(sorted)
          && Covered(sorted) == Covered(free) && TotalSize(sorted) == TotalSize(free) by {
        SortKeepsBlocks(free);
      }
      free := MergeRuns(sorted);
    }

    /** The merge pass of `CoalesceFreeBlocks` over the sorted blocks: each
        block that starts where the previous output block ends grows that
        block, any other block is appended. */
    static method MergeRuns(sorted: seq<Block>) returns (merged: seq<Block>)
      requires sorted != [] && SortedByStart(sorted) && Positive(sorted) && Disjoint(sorted)
      ensures Coalesced(merged)
      ensures Covered(merged) == Covered(sorted)
      ensures TotalSize(merged) == TotalSize(sorted)
    {
      merged := [sorted[0]];
      assert sorted[..1] == merged;
      var i := 1;
      while i < |sorted|
        invariant MergedPrefix(sorted, i, merged)
      {
        var curr := sorted[i];
        var prev := merged[|merged| - 1];
        AdjacentInOrder(sorted, i);
        if prev.start + prev.size == curr.start {
          GrowStep(sorted, i, merged);
          merged := merged[|merged| - 1 := Block(prev.start, prev.size + curr.size)];
        } else {
          AppendStep(sorted, i, merged);
          merged := merged + [curr];
        }
        i := i + 1;
      }
      assert sorted[..i] == sorted;
    }

    /** Copies out `size` bytes of the region starting at `addr`. */
    method Read(addr: int, size: int) returns (r: Result<seq<bv8>>)
      requires Valid() && size >= 0
      ensures addr !in alloc ==> r == Failure(UnallocatedAccess)
      ensures addr in alloc && size > alloc[addr] ==> r == Failure(OutOfBoundsAccess)
      ensures addr in alloc && size <= alloc[addr] ==> r == Success(pool[addr..addr + size])
    {
      if addr !in alloc {
        return Failure(UnallocatedAccess);
      }
      if size > alloc[addr] {
        return Failure(OutOfBoundsAccess);
      }
      r := Success(pool[addr..addr + size]);
    }

    /** Copies `data` into the region starting at `addr`. */
    method Write(addr: int, data: seq<bv8>) returns (r: Outcome)
      requires Valid()
      modifies pool
      ensures Valid() && unchanged(this)
      ensures addr !in alloc ==> r == Fail(UnallocatedAccess)
      ensures addr in alloc && |data| > alloc[addr] ==> r == Fail(OutOfBoundsAccess)
      ensures addr in alloc && |data| <= alloc[addr] ==> r == Pass
      ensures r.Fail? ==> unchanged(pool)
      ensures r.Pass? ==> forall a :: 0 <= a < pool.Length ==>
                pool[a] == if addr <= a < addr + |data| then data[a - addr] else old(pool[a])
    {
      if addr !in alloc {
        return Fail(UnallocatedAccess);
      }
      if |data| > alloc[addr] {
        return Fail(OutOfBoundsAccess);
      }
      forall i | 0 <= i < |data| {
        pool[addr + i] := data[i];
      }
      r := Pass;
    }
  }
}
