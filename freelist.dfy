/**
 * The free list of the simulated heap in memory.go: the `block` record, the
 * addresses a list of blocks covers, the best-fit scan that `Alloc` runs over
 * the list, the edit `Alloc` makes to it, and the sort that starts
 * `coalesceFreeBlock`.
 */
module FreeList {

  /** Capacity of the arena in bytes. */
  const PoolSize: int := 1024 * 1024

  /** `size` bytes starting at address `start`. */
  datatype Block = Block(start: int, size: int)
  {
    /** The first address past the block. */
    function End(): int { start + size }
  }

  /** `a` lies in the half-open interval `[lo, hi)`. Spelled as a predicate
      so that the comprehension in `Span` has a term to trigger on; bare
      comparisons give the verifier none. */
  ghost predicate Within(lo: int, a: int, hi: int)
  {
    lo <= a < hi
  }

  /** The addresses `lo <= a < hi`. */
  ghost function Span(lo: int, hi: int): (r: set<int>)
    ensures forall a :: a in r <==> lo <= a < hi
  {
    set a | lo <= a < hi && Within(lo, a, hi)
  }

  /** The addresses a block covers. */
  ghost function Addrs(b: Block): set<int>
  {
    Span(b.start, b.End())
  }

  /** The addresses covered by a list of blocks. */
  ghost function Covered(s: seq<Block>): set<int>
  {
    if s == [] then {} else Addrs(s[0]) + Covered(s[1..])
  }

  /** The number of bytes a list of blocks accounts for. */
  ghost function TotalSize(s: seq<Block>): int
  {
    if s == [] then 0 else s[0].size + TotalSize(s[1..])
  }

  ghost predicate Positive(s: seq<Block>)
  {
    forall i :: 0 <= i < |s| ==> s[i].size > 0
  }

  /** Ordered by start address, the order `coalesceFreeBlock` sorts into. */
  ghost predicate SortedByStart(s: seq<Block>)
  {
    forall i, j :: 0 <= i < j < |s| ==> s[i].start <= s[j].start
  }

  /** Each block ends strictly before every later one starts: the blocks are
      in address order, pairwise disjoint, and no two of them touch. */
  ghost predicate Separated(s: seq<Block>)
  {
    forall i, j :: 0 <= i < j < |s| ==> s[i].End() < s[j].start
  }

  /** The shape of a fully merged free list. */
  ghost predicate Coalesced(s: seq<Block>)
  {
    Positive(s) && Separated(s)
  }

  /** No address is covered by two blocks of the list. */
  ghost predicate Disjoint(s: seq<Block>)
  {
    s == [] || (Addrs(s[0]) !! Covered(s[1..]) && Disjoint(s[1..]))
  }

  // ---------------------------------------------------------------------------
  // Covered addresses

  lemma {:induction false} CoveredConcat(a: seq<Block>, b: seq<Block>)
    ensures Covered(a + b) == Covered(a) + Covered(b)
    ensures TotalSize(a + b) == TotalSize(a) + TotalSize(b)
    decreases |a|
  {
    if a == [] {
      assert a + b == b;
    } else {
      assert (a + b)[1..] == a[1..] + b;
      CoveredConcat(a[1..], b);
    }
  }

  lemma CoveredOne(b: Block)
    ensures Covered([b]) == Addrs(b)
    ensures TotalSize([b]) == b.size
  {
    assert [b][1..] == [];
  }

  lemma {:induction false} BlockCovered(s: seq<Block>, i: int)
    requires 0 <= i < |s|
    ensures Addrs(s[i]) <= Covered(s)
    decreases i
  {
    if i > 0 {
      BlockCovered(s[1..], i - 1);
    }
  }

  lemma {:induction false} CoveredBelow(s: seq<Block>, hi: int)
    requires forall j :: 0 <= j < |s| ==> s[j].End() <= hi
    ensures forall x :: x in Covered(s) ==> x < hi
    decreases |s|
  {
    if s != [] {
      CoveredBelow(s[1..], hi);
    }
  }

  lemma {:induction false} CoveredAbove(s: seq<Block>, lo: int)
    requires forall j :: 0 <= j < |s| ==> lo <= s[j].start
    ensures forall x :: x in Covered(s) ==> lo <= x
    decreases |s|
  {
    if s != [] {
      CoveredAbove(s[1..], lo);
    }
  }

  /** A list of positive blocks is empty exactly when it covers nothing. */
  lemma NoCoverIffEmpty(s: seq<Block>)
    requires Positive(s)
    ensures s == [] <==> Covered(s) == {}
  {
    if s != [] {
      assert s[0].start in Addrs(s[0]);
    }
  }

  lemma {:induction false} SeparatedIsDisjoint(s: seq<Block>)
    requires Separated(s)
    ensures Disjoint(s)
    decreases |s|
  {
    if s != [] {
      CoveredAbove(s[1..], s[0].End());
      SeparatedIsDisjoint(s[1..]);
    }
  }

  lemma {:induction false} DisjointPair(s: seq<Block>, i: int, j: int)
    requires Disjoint(s) && 0 <= i < j < |s|
    ensures Addrs(s[i]) !! Addrs(s[j])
    decreases i
  {
    if i == 0 {
      BlockCovered(s[1..], j - 1);
    } else {
      DisjointPair(s[1..], i - 1, j - 1);
    }
  }

  /** In a sorted list of disjoint positive blocks, each block ends no later
      than the next one starts: the only question left for the merge pass of
      `coalesceFreeBlock` is whether they touch. */
  lemma AdjacentInOrder(s: seq<Block>, i: int)
    requires SortedByStart(s) && Disjoint(s) && Positive(s) && 0 < i < |s|
    ensures s[i - 1].End() <= s[i].start
  {
    DisjointPair(s, i - 1, i);
    assert s[i].start in Addrs(s[i]);
  }

  /** Appending a block that overlaps none of the list keeps it disjoint
      (what `Free` does before it coalesces). */
  lemma {:induction false} DisjointSnoc(s: seq<Block>, b: Block)
    requires Disjoint(s) && Addrs(b) !! Covered(s)
    ensures Disjoint(s + [b])
    decreases |s|
  {
    if s == [] {
      assert s + [b] == [b];
      assert [b][1..] == [];
    } else {
      assert (s + [b])[1..] == s[1..] + [b];
      DisjointSnoc(s[1..], b);
      CoveredConcat(s[1..], [b]);
      CoveredOne(b);
    }
  }

  /** A fully merged list is determined by the addresses it covers. */
  lemma {:induction false} CoalescedUnique(s: seq<Block>, t: seq<Block>)
    requires Coalesced(s) && Coalesced(t) && Covered(s) == Covered(t)
    ensures s == t
    decreases |s|
  {
    if s == [] || t == [] {
      NoCoverIffEmpty(s);
      NoCoverIffEmpty(t);
    } else {
      var a, b := s[0], t[0];
      CoveredAbove(s[1..], a.End() + 1);
      CoveredAbove(t[1..], b.End() + 1);
      assert a.start in Addrs(a) && b.start in Addrs(b);
      assert a.start == b.start;
      assert a.End() !in Covered(s);
      assert b.End() !in Covered(t);
      assert a.End() == b.End();
      assert Covered(s[1..]) == Covered(s) - Addrs(a);
      assert Covered(t[1..]) == Covered(t) - Addrs(b);
      CoalescedUnique(s[1..], t[1..]);
      assert s == [a] + s[1..] && t == [b] + t[1..];
    }
  }

  // ---------------------------------------------------------------------------
  // Best fit (the scan of `Alloc`)

  /** A block the scan can pick for a request of `n` bytes: large enough, and
      smaller than the sentinel PoolSize + 1 the scan starts from. */
  predicate Candidate(b: Block, n: int)
  {
    n <= b.size < PoolSize + 1
  }

  /** The index the best-fit scan has settled on after visiting `s[..k]`, or -1.
      It replaces its pick only on a strictly smaller candidate, so among
      equally small candidates it keeps the first. */
  function ScanBestFit(s: seq<Block>, n: int, k: nat): (i: int)
    requires k <= |s|
    ensures -1 <= i < k
    ensures i == -1 <==> forall j :: 0 <= j < k ==> !Candidate(s[j], n)
    ensures i >= 0 ==> Candidate(s[i], n)
    ensures i >= 0 ==> forall j :: 0 <= j < k && Candidate(s[j], n) ==> s[i].size <= s[j].size
    ensures i >= 0 ==> forall j :: 0 <= j < i && Candidate(s[j], n) ==> s[i].size < s[j].size
  {
    if k == 0 then -1
    else
      var i := ScanBestFit(s, n, k - 1);
      var bestSize := if i == -1 then PoolSize + 1 else s[i].size;
      if n <= s[k - 1].size < bestSize then k - 1 else i
  }

  /** The block `Alloc` picks for `n` bytes, or -1 when none fits. */
  function BestFit(s: seq<Block>, n: int): (i: int)
    ensures -1 <= i < |s|
    ensures i == -1 <==> forall j :: 0 <= j < |s| ==> !Candidate(s[j], n)
    ensures i >= 0 ==> Candidate(s[i], n)
    ensures i >= 0 ==> forall j :: 0 <= j < |s| && Candidate(s[j], n) ==> s[i].size <= s[j].size
    ensures i >= 0 ==> forall j :: 0 <= j < i && Candidate(s[j], n) ==> s[i].size < s[j].size
  {
    ScanBestFit(s, n, |s|)
  }

  /** The scan as the source writes it: one pass keeping the best index and
      its size. */
  method FindBestFit(s: seq<Block>, n: int) returns (idx: int)
    ensures idx == BestFit(s, n)
  {
    idx := -1;
    var bestSize := PoolSize + 1;
    for i := 0 to |s|
      invariant idx == ScanBestFit(s, n, i)
      invariant bestSize == if idx == -1 then PoolSize + 1 else s[idx].size
    {
      if s[i].size >= n && s[i].size < bestSize {
        idx, bestSize := i, s[i].size;
      }
    }
  }

  /** On a list sorted by address, a tie between equally small blocks goes to
      the lowest address. */
  lemma BestFitLowestAddress(s: seq<Block>, n: int)
    requires SortedByStart(s) && BestFit(s, n) >= 0
    ensures forall j :: 0 <= j < |s| && Candidate(s[j], n) && s[j].size == s[BestFit(s, n)].size ==>
              s[BestFit(s, n)].start <= s[j].start
  {
  }

  // ---------------------------------------------------------------------------
  // Carving an allocation out of a free block

  /** The free list after `Alloc` takes `n` bytes from the front of block `i`:
      the block shrinks from the front, or is removed when it is used up. */
  function Carve(s: seq<Block>, i: int, n: int): (r: seq<Block>)
    requires 0 <= i < |s| && 0 < n <= s[i].size
    ensures s[i].size > n ==> |r| == |s| && r[i].start == s[i].start + n && r[i].End() == s[i].End()
    ensures s[i].size > n ==> forall j :: 0 <= j < |s| && j != i ==> r[j] == s[j]
    ensures s[i].size == n ==> |r| == |s| - 1
    ensures s[i].size == n ==> forall j :: 0 <= j < i ==> r[j] == s[j]
    ensures s[i].size == n ==> forall j :: i < j < |s| ==> r[j - 1] == s[j]
  {
    if s[i].size > n then s[i := Block(s[i].start + n, s[i].size - n)]
    else s[..i] + s[i + 1..]
  }

  /** Carving keeps the free list merged. */
  lemma CarveApart(s: seq<Block>, i: int, n: int)
    requires Coalesced(s) && 0 <= i < |s| && 0 < n <= s[i].size
    ensures Coalesced(Carve(s, i, n))
  {
    if s[i].size > n {
      ShrinkApart(s, i, n);
    } else {
      RemoveApart(s, i);
    }
  }

  lemma ShrinkApart(s: seq<Block>, i: int, n: int)
    requires Coalesced(s) && 0 <= i < |s| && 0 < n < s[i].size
    ensures Coalesced(s[i := Block(s[i].start + n, s[i].size - n)])
  {
    var r := s[i := Block(s[i].start + n, s[i].size - n)];
    forall p, q | 0 <= p < q < |r| ensures r[p].End() < r[q].start {
      assert s[p].End() < s[q].start;
    }
  }

  lemma RemoveApart(s: seq<Block>, i: int)
    requires Coalesced(s) && 0 <= i < |s|
    ensures Coalesced(s[..i] + s[i + 1..])
  {
    var r := s[..i] + s[i + 1..];
    assert forall p :: 0 <= p < |r| ==> r[p] == if p < i then s[p] else s[p + 1];
  }

  /** Carving takes exactly the first `n` bytes of block `i` off the list. */
  lemma CarveCovered(s: seq<Block>, i: int, n: int)
    requires Coalesced(s) && 0 <= i < |s| && 0 < n <= s[i].size
    ensures Covered(Carve(s, i, n)) == Covered(s) - Span(s[i].start, s[i].start + n)
    ensures TotalSize(Carve(s, i, n)) == TotalSize(s) - n
  {
    SplitAt(s, i);
    BlocksBefore(s, i);
    BlocksAfter(s, i);
    if s[i].size > n {
      ShrinkTakes(s, i, n);
    } else {
      RemoveTakes(s, i);
    }
  }

  lemma ShrinkTakes(s: seq<Block>, i: int, n: int)
    requires 0 <= i < |s| && 0 < n < s[i].size
    requires Covered(s[..i]) !! Addrs(s[i]) && Covered(s[i + 1..]) !! Addrs(s[i])
    ensures Covered(s[i := Block(s[i].start + n, s[i].size - n)])
              == Covered(s[..i]) + Addrs(s[i]) + Covered(s[i + 1..]) - Span(s[i].start, s[i].start + n)
    ensures TotalSize(s[i := Block(s[i].start + n, s[i].size - n)])
              == TotalSize(s[..i]) + s[i].size + TotalSize(s[i + 1..]) - n
  {
    var b := s[i];
    ShrinkCovered(s, i, n);
    SpanJoin(b.start, b.start + n, b.End());
    Excise(Covered(s[..i]), Addrs(b), Covered(s[i + 1..]),
           Span(b.start, b.start + n), Span(b.start + n, b.End()));
  }

  lemma RemoveTakes(s: seq<Block>, i: int)
    requires 0 <= i < |s|
    requires Covered(s[..i]) !! Addrs(s[i]) && Covered(s[i + 1..]) !! Addrs(s[i])
    ensures Covered(s[..i] + s[i + 1..])
              == Covered(s[..i]) + Addrs(s[i]) + Covered(s[i + 1..]) - Span(s[i].start, s[i].start + s[i].size)
    ensures TotalSize(s[..i] + s[i + 1..])
              == TotalSize(s[..i]) + s[i].size + TotalSize(s[i + 1..]) - s[i].size
  {
    CoveredConcat(s[..i], s[i + 1..]);
    Excise(Covered(s[..i]), Addrs(s[i]), Covered(s[i + 1..]), Addrs(s[i]), {});
  }

  /** Removing the part `t` of the middle set `b` of three disjoint sets leaves
      the rest `c` of it between the other two. */
  lemma Excise(l: set<int>, b: set<int>, r: set<int>, t: set<int>, c: set<int>)
    requires l !! b && r !! b && b == t + c && t !! c
    ensures (l + b + r) - t == l + c + r
  {
  }

  /** In a merged list, the blocks before block `i` miss its bytes. */
  lemma BlocksBefore(s: seq<Block>, i: int)
    requires Coalesced(s) && 0 <= i < |s|
    ensures Covered(s[..i]) !! Addrs(s[i])
  {
    CoveredBelow(s[..i], s[i].start);
  }

  /** In a merged list, the blocks after block `i` miss its bytes. */
  lemma BlocksAfter(s: seq<Block>, i: int)
    requires Coalesced(s) && 0 <= i < |s|
    ensures Covered(s[i + 1..]) !! Addrs(s[i])
  {
    CoveredAbove(s[i + 1..], s[i].End() + 1);
  }

  /** A list is its prefix, one block and its suffix. */
  lemma SplitAt(s: seq<Block>, i: int)
    requires 0 <= i < |s|
    ensures Covered(s) == Covered(s[..i]) + Addrs(s[i]) + Covered(s[i + 1..])
    ensures TotalSize(s) == TotalSize(s[..i]) + s[i].size + TotalSize(s[i + 1..])
  {
    assert s == (s[..i] + [s[i]]) + s[i + 1..];
    CoveredConcat(s[..i] + [s[i]], s[i + 1..]);
    CoveredSnoc(s[..i], s[i]);
  }

  lemma ShrinkCovered(s: seq<Block>, i: int, n: int)
    requires 0 <= i < |s| && 0 < n < s[i].size
    ensures Covered(s[i := Block(s[i].start + n, s[i].size - n)])
              == Covered(s[..i]) + Addrs(Block(s[i].start + n, s[i].size - n)) + Covered(s[i + 1..])
    ensures TotalSize(s[i := Block(s[i].start + n, s[i].size - n)])
              == TotalSize(s[..i]) + (s[i].size - n) + TotalSize(s[i + 1..])
  {
    var t := s[i := Block(s[i].start + n, s[i].size - n)];
    assert t[..i] == s[..i] && t[i + 1..] == s[i + 1..];
    SplitAt(t, i);
  }

  /** Returning the carved bytes and merging restores the free list exactly:
      an `Alloc` followed by the `Free` of its address leaves the free list as
      it was. */
  lemma CarveThenReleaseRestores(s: seq<Block>, i: int, n: int, merged: seq<Block>)
    requires Coalesced(s) && 0 <= i < |s| && 0 < n <= s[i].size
    requires Coalesced(merged)
    requires Covered(merged) == Covered(Carve(s, i, n)) + Span(s[i].start, s[i].start + n)
    ensures merged == s
  {
    CarveApart(s, i, n);
    CarveCovered(s, i, n);
    BlockCovered(s, i);
    assert Covered(merged) == Covered(s);
    CoalescedUnique(merged, s);
  }

  // ---------------------------------------------------------------------------
  // Sorting by start address (the `sort.Slice` call of `coalesceFreeBlock`)

  function Insert(s: seq<Block>, b: Block): (r: seq<Block>)
    requires SortedByStart(s)
    ensures SortedByStart(r)
    ensures multiset(r) == multiset(s) + multiset{b}
  {
    if s == [] || b.start <= s[0].start then
      [b] + s
    else
      var rest := Insert(s[1..], b);
      InsertBehindHead(s, b, rest);
      [s[0]] + rest
  }

  lemma InsertBehindHead(s: seq<Block>, b: Block, rest: seq<Block>)
    requires SortedByStart(s) && s != [] && s[0].start < b.start
    requires SortedByStart(rest) && multiset(rest) == multiset(s[1..]) + multiset{b}
    ensures SortedByStart([s[0]] + rest)
    ensures multiset([s[0]] + rest) == multiset(s) + multiset{b}
  {
    assert s == [s[0]] + s[1..];
    forall j | 0 <= j < |rest| ensures s[0].start <= rest[j].start {
      assert rest[j] in multiset(rest);
      if rest[j] != b {
        assert rest[j] in multiset(s[1..]);
        var k :| 0 <= k < |s[1..]| && s[1..][k] == rest[j];
        assert s[k + 1] == rest[j];
      }
    }
    var r := [s[0]] + rest;
    forall p, q | 0 <= p < q < |r| ensures r[p].start <= r[q].start {
      if p > 0 {
        assert r[p] == rest[p - 1] && r[q] == rest[q - 1];
      } else {
        assert r[q] == rest[q - 1];
      }
    }
  }

  /** Insertion sort by start address. */
  function SortByStart(s: seq<Block>): (r: seq<Block>)
    ensures SortedByStart(r)
    ensures multiset(r) == multiset(s)
  {
    if s == [] then []
    else
      assert s == [s[0]] + s[1..];
      Insert(SortByStart(s[1..]), s[0])
  }

  lemma {:induction false} InsertCovers(s: seq<Block>, b: Block)
    requires SortedByStart(s)
    ensures Covered(Insert(s, b)) == Addrs(b) + Covered(s)
    ensures TotalSize(Insert(s, b)) == b.size + TotalSize(s)
    ensures Disjoint(s) && Addrs(b) !! Covered(s) ==> Disjoint(Insert(s, b))
    decreases |s|
  {
    if s == [] || b.start <= s[0].start {
      assert ([b] + s)[1..] == s;
    } else {
      var rest := Insert(s[1..], b);
      assert ([s[0]] + rest)[1..] == rest;
      InsertCovers(s[1..], b);
    }
  }

  /** Sorting moves blocks around and changes nothing else. */
  lemma SortKeepsBlocks(s: seq<Block>)
    ensures Covered(SortByStart(s)) == Covered(s)
    ensures TotalSize(SortByStart(s)) == TotalSize(s)
    ensures Disjoint(s) ==> Disjoint(SortByStart(s))
    ensures Positive(s) ==> Positive(SortByStart(s))
  {
    SortCovers(s);
    if Positive(s) {
      SortPositive(s);
    }
  }

  lemma {:induction false} SortCovers(s: seq<Block>)
    ensures Covered(SortByStart(s)) == Covered(s)
    ensures TotalSize(SortByStart(s)) == TotalSize(s)
    ensures Disjoint(s) ==> Disjoint(SortByStart(s))
    decreases |s|
  {
    if s != [] {
      SortCovers(s[1..]);
      InsertCovers(SortByStart(s[1..]), s[0]);
    }
  }

  lemma SortPositive(s: seq<Block>)
    requires Positive(s)
    ensures Positive(SortByStart(s))
  {
    var r := SortByStart(s);
    forall j | 0 <= j < |r| ensures r[j].size > 0 {
      assert r[j] in multiset(r);
      assert r[j] in s;
    }
  }

  // ---------------------------------------------------------------------------
  // One step of the merge pass of `coalesceFreeBlock`

  /** Appending a block that starts beyond the last one's end keeps the list
      merged. */
  lemma AppendApart(m: seq<Block>, b: Block)
    requires Coalesced(m) && m != [] && m[|m| - 1].End() < b.start && b.size > 0
    ensures Coalesced(m + [b])
  {
    var r := m + [b];
    forall i, j | 0 <= i < j < |r| ensures r[i].End() < r[j].start {
      if j == |m| && i < |m| - 1 {
        assert m[i].End() < m[|m| - 1].start;
      }
    }
  }

  /** Appending a block adds exactly its bytes and its size. */
  lemma CoveredSnoc(m: seq<Block>, b: Block)
    ensures Covered(m + [b]) == Covered(m) + Addrs(b)
    ensures TotalSize(m + [b]) == TotalSize(m) + b.size
  {
    CoveredConcat(m, [b]);
    CoveredOne(b);
  }

  /** Growing the last block by a block that starts exactly at its end adds
      exactly that block's bytes and its size. */
  lemma MergeIntoLast(m: seq<Block>, b: Block)
    requires m != [] && m[|m| - 1].End() == b.start && m[|m| - 1].size >= 0 && b.size >= 0
    ensures Covered(m[|m| - 1 := Block(m[|m| - 1].start, m[|m| - 1].size + b.size)])
              == Covered(m) + Addrs(b)
    ensures TotalSize(m[|m| - 1 := Block(m[|m| - 1].start, m[|m| - 1].size + b.size)])
              == TotalSize(m) + b.size
  {
    var front, prev := m[..|m| - 1], m[|m| - 1];
    var grown := Block(prev.start, prev.size + b.size);
    assert m == front + [prev];
    assert m[|m| - 1 := grown] == front + [grown];
    CoveredSnoc(front, prev);
    CoveredSnoc(front, grown);
    SpanJoin(prev.start, b.start, b.End());
  }

  /** Two adjacent intervals make up their union interval. */
  lemma SpanJoin(lo: int, mid: int, hi: int)
    requires lo <= mid <= hi
    ensures Span(lo, mid) + Span(mid, hi) == Span(lo, hi)
    ensures Span(lo, mid) !! Span(mid, hi)
  {
  }

  /** Growing the last block in place keeps the list merged. */
  lemma GrownStaysApart(m: seq<Block>, grown: Block)
    requires Coalesced(m) && m != [] && grown.start == m[|m| - 1].start
    requires grown.size >= m[|m| - 1].size
    ensures Coalesced(m[|m| - 1 := grown])
  {
    var r := m[|m| - 1 := grown];
    forall i, j | 0 <= i < j < |r| ensures r[i].End() < r[j].start {
      assert r[i] == m[i];
    }
  }


  /** A prefix one block longer covers that block's bytes as well. */
  lemma PrefixGrows(s: seq<Block>, i: int)
    requires 0 <= i < |s|
    ensures Covered(s[..i + 1]) == Covered(s[..i]) + Addrs(s[i])
    ensures TotalSize(s[..i + 1]) == TotalSize(s[..i]) + s[i].size
  {
    assert s[..i + 1] == s[..i] + [s[i]];
    CoveredConcat(s[..i], [s[i]]);
    CoveredOne(s[i]);
  }

  /** The invariant of the merge pass after consuming `sorted[..i]`: the
      output `m` is merged, ends where the last consumed block ends, and
      covers exactly the consumed blocks. */
  ghost predicate MergedPrefix(sorted: seq<Block>, i: int, m: seq<Block>)
  {
    && 0 < i <= |sorted| && m != [] && Coalesced(m)
    && m[|m| - 1].End() == sorted[i - 1].End()
    && Covered(m) == Covered(sorted[..i]) && TotalSize(m) == TotalSize(sorted[..i])
  }

  /** An iteration of the merge pass that grows the last output block keeps
      the invariant. */
  lemma GrowStep(sorted: seq<Block>, i: int, m: seq<Block>)
    requires MergedPrefix(sorted, i, m) && i < |sorted| && sorted[i].size > 0
    requires m[|m| - 1].End() == sorted[i].start
    ensures MergedPrefix(sorted, i + 1,
              m[|m| - 1 := Block(m[|m| - 1].start, m[|m| - 1].size + sorted[i].size)])
  {
    PrefixGrows(sorted, i);
    GrownStaysApart(m, Block(m[|m| - 1].start, m[|m| - 1].size + sorted[i].size));
    MergeIntoLast(m, sorted[i]);
  }

  /** An iteration of the merge pass that appends its block keeps the
      invariant. */
  lemma AppendStep(sorted: seq<Block>, i: int, m: seq<Block>)
    requires MergedPrefix(sorted, i, m) && i < |sorted| && sorted[i].size > 0
    requires sorted[i - 1].End() <= sorted[i].start && m[|m| - 1].End() != sorted[i].start
    ensures MergedPrefix(sorted, i + 1, m + [sorted[i]])
  {
    PrefixGrows(sorted, i);
    AppendApart(m, sorted[i]);
    CoveredSnoc(m, sorted[i]);
  }
}
