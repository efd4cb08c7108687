/**
 * Clients of the simulated heap that run the sequences of calls the
 * repository's tests make (memory_test.go), with the outcomes those tests
 * expect stated as postconditions, plus two general round trips:
 * a write read back, and an allocation freed again.
 */
module Scenarios {
  import opened FreeList
  import opened Heap

  /** A list of two blocks covers the addresses of both. */
  lemma CoveredPair(a: Block, b: Block)
    ensures Covered([a, b]) == Addrs(a) + Addrs(b)
  {
    CoveredConcat([a], [b]);
    CoveredOne(a);
    CoveredOne(b);
    assert [a, b] == [a] + [b];
  }

  /** The only fully merged list covering `[0, PoolSize)` is the one block. */
  lemma WholeArena(s: seq<Block>)
    requires Coalesced(s) && Covered(s) == Span(0, PoolSize)
    ensures s == [Block(0, PoolSize)]
  {
    CoveredOne(Block(0, PoolSize));
    CoalescedUnique(s, [Block(0, PoolSize)]);
  }

  /** The free list holds a hole `[0, 100)` and the tail from 150 on. */
  lemma HoleAndTail(s: seq<Block>)
    requires Coalesced(s) && Covered(s) == Span(150, PoolSize) + Span(0, 100)
    ensures s == [Block(0, 100), Block(150, PoolSize - 150)]
  {
    var t := [Block(0, 100), Block(150, PoolSize - 150)];
    CoveredPair(t[0], t[1]);
    CoalescedUnique(s, t);
  }

  /** The first request on a fresh heap lands at address 0. */
  method FirstAlloc() returns (m: Memory, r: Result<int>)
    ensures fresh(m) && fresh(m.pool) && m.Valid()
    ensures r == Success(0)
    ensures m.free == [Block(100, PoolSize - 100)] && m.alloc == map[0 := 100]
  {
    m := new Memory();
    r := m.Alloc(100);
  }

  /** The first two requests of TestAlloc: one larger than the arena, which
      fails, and 50 bytes, placed right after the first region. */
  method SecondAlloc() returns (m: Memory, big: Result<int>, addr2: Result<int>)
    ensures fresh(m) && fresh(m.pool) && m.Valid()
    ensures big == Failure(OutOfMemory)
    ensures addr2 == Success(100)
    ensures m.free == [Block(150, PoolSize - 150)] && m.alloc == map[0 := 100, 100 := 50]
  {
    var addr1;
    m, addr1 := FirstAlloc();
    big := m.Alloc(PoolSize + 1);
    addr2 := m.Alloc(50);
  }

  /** TestAlloc: after freeing the first region, the best fit for 75 bytes
      is the 100-byte hole at 0, not the large tail, so the new region does
      not start where the second one does. */
  method AllocScenario() returns (addr2: Result<int>, freed: Outcome, addr3: Result<int>)
    ensures freed == Pass
    ensures addr3 == Success(0)
    ensures addr3 != addr2
  {
    var m, big;
    m, big, addr2 := SecondAlloc();
    CoveredOne(Block(150, PoolSize - 150));
    freed := m.Free(0);
    HoleAndTail(m.free);
    addr3 := m.Alloc(75);
  }

  /** TestMalloc: the bytes of a fresh `Malloc(100)` read back as zeros. */
  method MallocScenario() returns (r: Result<int>, data: Result<seq<bv8>>)
    ensures r == Success(0)
    ensures data.Success? && |data.value| == 100
    ensures forall i :: 0 <= i < |data.value| ==> data.value[i] == 0
  {
    var m := new Memory();
    r := m.Malloc(100);
    data := m.Read(0, 100);
  }

  /** TestFree: the first free succeeds and gives the whole arena back as
      one block; a second free of the same address and a free of an address
      outside the arena fail and leave the heap as the first one left it. */
  method FreeScenario() returns (m: Memory, first: Outcome, again: Outcome, outside: Outcome)
    ensures first == Pass
    ensures again == Fail(InvalidFree)
    ensures outside == Fail(InvalidFree)
    ensures m.free == [Block(0, PoolSize)] && m.alloc == map[]
  {
    var addr;
    m, addr := FirstAlloc();
    CoveredOne(Block(100, PoolSize - 100));
    first := m.Free(0);
    SpanJoin(0, 100, PoolSize);
    WholeArena(m.free);
    again := m.Free(0);
    outside := m.Free(PoolSize + 1);
  }

  /** Two adjacent allocations of 100 bytes at 0 and 100. */
  method TwoAdjacent() returns (m: Memory)
    ensures fresh(m) && fresh(m.pool) && m.Valid()
    ensures m.alloc == map[0 := 100, 100 := 100]
    ensures m.free == [Block(200, PoolSize - 200)]
  {
    var r;
    m, r := FirstAlloc();
    r := m.Alloc(100);
  }

  /** Three adjacent allocations of 100 bytes at 0, 100 and 200. */
  method ThreeAdjacent() returns (m: Memory)
    ensures fresh(m) && fresh(m.pool) && m.Valid()
    ensures m.alloc == map[0 := 100, 100 := 100, 200 := 100]
    ensures m.free == [Block(300, PoolSize - 300)]
  {
    m := TwoAdjacent();
    var r := m.Alloc(100);
  }

  /** The four pieces the coalescing test releases make up the arena. */
  lemma FourPieces()
    ensures Span(300, PoolSize) + Span(100, 200) + Span(0, 100) + Span(200, 300) == Span(0, PoolSize)
  {
    SpanJoin(0, 100, 200);
    SpanJoin(0, 200, 300);
    SpanJoin(0, 300, PoolSize);
  }

  /** Freeing the middle one of three adjacent regions. */
  method FreeMiddle() returns (m: Memory, r: Outcome)
    ensures fresh(m) && fresh(m.pool) && m.Valid()
    ensures r == Pass
    ensures m.alloc == map[0 := 100, 200 := 100]
    ensures Covered(m.free) == Span(300, PoolSize) + Span(100, 200)
  {
    m := ThreeAdjacent();
    CoveredOne(Block(300, PoolSize - 300));
    r := m.Free(100);
  }

  /** Freeing the middle and then the first of three adjacent regions. */
  method FreeMiddleThenFirst() returns (m: Memory, r1: Outcome, r2: Outcome)
    ensures fresh(m) && fresh(m.pool) && m.Valid()
    ensures r1 == Pass && r2 == Pass
    ensures m.alloc == map[200 := 100]
    ensures Covered(m.free) == Span(300, PoolSize) + Span(100, 200) + Span(0, 100)
  {
    m, r1 := FreeMiddle();
    r2 := m.Free(0);
  }

  /** TestCoalesceFreeBlocks: freeing the middle region first, then the
      first, then the last, leaves one free block spanning the arena. */
  method CoalesceScenario() returns (m: Memory, r: Outcome)
    ensures r == Pass
    ensures m.alloc == map[]
    ensures m.free == [Block(0, PoolSize)]
  {
    var r1, r2;
    m, r1, r2 := FreeMiddleThenFirst();
    r := m.Free(200);
    FourPieces();
    WholeArena(m.free);
  }

  /** "Hello, World!" as bytes. */
  function Greeting(): seq<bv8>
  {
    [72, 101, 108, 108, 111, 44, 32, 87, 111, 114, 108, 100, 33]
  }

  /** Writing into an allocated region and reading the same length back
      returns what was written. */
  method WriteThenRead(m: Memory, addr: int, data: seq<bv8>) returns (w: Outcome, r: Result<seq<bv8>>)
    requires m.Valid() && addr in m.alloc && |data| <= m.alloc[addr]
    modifies m.pool
    ensures m.Valid()
    ensures w == Pass && r == Success(data)
  {
    w := m.Write(addr, data);
    r := m.Read(addr, |data|);
    assert m.pool[addr..addr + |data|] == data;
  }

  /** TestReadWrite: a greeting written into a 100-byte region reads back
      unchanged, while writing or reading 101 bytes there fails. */
  method ReadWriteScenario() returns (w: Outcome, r: Result<seq<bv8>>, tooLong: Outcome,
                                      overRead: Result<seq<bv8>>)
    ensures w == Pass && r == Success(Greeting())
    ensures tooLong == Fail(OutOfBoundsAccess)
    ensures overRead == Failure(OutOfBoundsAccess)
  {
    var m, addr := FirstAlloc();
    w, r := WriteThenRead(m, 0, Greeting());
    tooLong := m.Write(0, seq(101, _ => 0));
    overRead := m.Read(0, 101);
  }

  /** Freeing what `Alloc` has just returned puts the free list and the
      table back exactly as they were. */
  method AllocThenFree(m: Memory, n: int) returns (r: Result<int>)
    requires m.Valid() && n > 0
    modifies m`free, m`alloc
    ensures m.Valid()
    ensures m.free == old(m.free) && m.alloc == old(m.alloc)
  {
    r := m.Alloc(n);
    if r.Success? {
      ghost var free', alloc' := m.free, m.alloc;
      assert r.value in alloc' && alloc'[r.value] == n by {
        AllocOutcome(old(m.free), old(m.alloc), n, r, free', alloc');
      }
      var f := m.Free(r.value);
      assert f == Pass;
      FreeUndoesAlloc(old(m.free), old(m.alloc), n, r, free', alloc', m.free);
    }
  }
}
