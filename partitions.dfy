/**
 * The block list of the contiguous-partition allocator, as values.
 *
 * The memory manager of os.py keeps a Python list of `MemoryBlock`s and
 * changes it in place; this module gives the list's invariants, the
 * selection rules of first-fit and best-fit, and the value each in-place
 * operation (split, release, merge) leaves behind, with the lemmas that
 * say what those operations keep. The class in memory.dfy is proved
 * against these functions.
 */
module Partitions {
  import opened Wrappers

  /** A `MemoryBlock`: the range [start, start + size), free or owned by a pid. */
  datatype Block = Block(start: int, size: int, free: bool, owner: Option<int>)

  /**
   * The strategy string passed to `allocate`: "first_fit", "best_fit",
   * or any other string, which allocates nothing.
   */
  datatype Strategy = FirstFit | BestFit | Other

  function End(b: Block): int
  {
    b.start + b.size
  }

  /** A block as `MemoryBlock(start, size)` creates it: free, with no owner. */
  function FreeBlock(start: int, size: int): Block
  {
    Block(start, size, true, None)
  }

  // ---------------------------------------------------------------------
  // Invariants of the block list
  // ---------------------------------------------------------------------

  /** Each block ends where the next one starts. */
  predicate Contiguous(bs: seq<Block>)
  {
    forall i :: 0 <= i < |bs| - 1 ==> End(bs[i]) == bs[i + 1].start
  }

  /** The blocks are non-empty and tile the address range [lo, hi) in order. */
  predicate Covers(bs: seq<Block>, lo: int, hi: int)
  {
    && (forall i :: 0 <= i < |bs| ==> bs[i].size > 0)
    && Contiguous(bs)
    && (if bs == [] then lo == hi else bs[0].start == lo && End(bs[|bs| - 1]) == hi)
  }

  /** A block is free exactly when it has no owner. */
  predicate OwnerConsistent(bs: seq<Block>)
  {
    forall i :: 0 <= i < |bs| ==> (bs[i].free <==> bs[i].owner == None)
  }

  /** No two neighbouring blocks are both free. */
  predicate Coalesced(bs: seq<Block>)
  {
    forall i :: 0 <= i < |bs| - 1 ==> !(bs[i].free && bs[i + 1].free)
  }

  function Sum(bs: seq<Block>): int
  {
    if bs == [] then 0 else bs[0].size + Sum(bs[1..])
  }

  /** The owner pids of the blocks, in address order. */
  function Owners(bs: seq<Block>): seq<int>
  {
    if bs == [] then []
    else if bs[0].owner.Some? then [bs[0].owner.value] + Owners(bs[1..])
    else Owners(bs[1..])
  }

  /** The blocks that are not free, in address order. */
  function Allocated(bs: seq<Block>): seq<Block>
  {
    if bs == [] then []
    else if bs[0].free then Allocated(bs[1..])
    else [bs[0]] + Allocated(bs[1..])
  }

  predicate Distinct(s: seq<int>)
  {
    forall i, j :: 0 <= i < j < |s| ==> s[i] != s[j]
  }

  /** Every pid owns at most one block. */
  predicate OwnersUnique(bs: seq<Block>)
  {
    Distinct(Owners(bs))
  }

  /** `s` with every occurrence of `x` removed. */
  function Remove(s: seq<int>, x: int): (r: seq<int>)
    ensures x !in r
    ensures forall y :: y in r ==> y in s
    ensures multiset(r) == multiset(s)[x := 0]
  {
    if s == [] then []
    else
      assert s == [s[0]] + s[1..];
      if s[0] == x then Remove(s[1..], x) else [s[0]] + Remove(s[1..], x)
  }

  lemma {:induction false} CoversTail(bs: seq<Block>, lo: int, hi: int)
    requires Covers(bs, lo, hi) && bs != []
    ensures Covers(bs[1..], End(bs[0]), hi)
  {
    if |bs| > 1 {
      assert End(bs[0]) == bs[1].start;
    }
  }

  lemma {:induction false} CoversCons(b: Block, bs: seq<Block>, lo: int, hi: int)
    requires b.start == lo && b.size > 0 && Covers(bs, End(b), hi)
    ensures Covers([b] + bs, lo, hi)
  {
    var r := [b] + bs;
    forall i | 0 <= i < |r| - 1
      ensures End(r[i]) == r[i + 1].start
    {
      if i > 0 {
        assert r[i] == bs[i - 1] && r[i + 1] == bs[i];
      }
    }
  }

  /** The sizes of a tiling of [lo, hi) add up to hi - lo. */
  lemma {:induction false} CoversSum(bs: seq<Block>, lo: int, hi: int)
    requires Covers(bs, lo, hi)
    ensures Sum(bs) == hi - lo
  {
    if bs != [] {
      CoversTail(bs, lo, hi);
      CoversSum(bs[1..], End(bs[0]), hi);
    }
  }

  /**
   * A tiling is address-ordered and non-overlapping: an earlier block lies
   * wholly below a later one, and both lie inside [lo, hi).
   */
  lemma {:induction false} CoversOrdered(bs: seq<Block>, lo: int, hi: int, i: nat, j: nat)
    requires Covers(bs, lo, hi) && i < j < |bs|
    ensures lo <= bs[i].start < End(bs[i]) <= bs[j].start < End(bs[j]) <= hi
    decreases |bs|
  {
    CoversTail(bs, lo, hi);
    if i == 0 {
      if j > 1 {
        CoversOrdered(bs[1..], End(bs[0]), hi, 0, j - 1);
      } else if j < |bs| - 1 {
        CoversOrdered(bs[1..], End(bs[0]), hi, 0, 1);
      }
    } else {
      CoversOrdered(bs[1..], End(bs[0]), hi, i - 1, j - 1);
    }
  }

  lemma {:induction false} OwnersAppend(a: seq<Block>, b: seq<Block>)
    ensures Owners(a + b) == Owners(a) + Owners(b)
  {
    if a == [] {
      assert a + b == b;
    } else {
      assert (a + b)[1..] == a[1..] + b;
      OwnersAppend(a[1..], b);
    }
  }

  lemma {:induction false} OwnersNone(bs: seq<Block>)
    requires forall i :: 0 <= i < |bs| ==> bs[i].owner == None
    ensures Owners(bs) == []
  {
    if bs != [] {
      OwnersNone(bs[1..]);
    }
  }

  lemma {:induction false} DistinctInsert(a: seq<int>, x: int, b: seq<int>)
    requires Distinct(a + b) && x !in a + b
    ensures Distinct(a + [x] + b)
  {
    var s, t := a + b, a + [x] + b;
    forall i, j | 0 <= i < j < |t|
      ensures t[i] != t[j]
    {
      if j < |a| {
        assert t[i] == s[i] && t[j] == s[j];
      } else if j == |a| {
        assert t[i] == s[i];
      } else if i < |a| {
        assert t[i] == s[i] && t[j] == s[j - 1];
      } else if i == |a| {
        assert t[j] == s[j - 1];
      } else {
        assert t[i] == s[i - 1] && t[j] == s[j - 1];
      }
    }
  }

  lemma {:induction false} DistinctRemove(s: seq<int>, x: int)
    requires Distinct(s)
    ensures Distinct(Remove(s, x))
  {
    if s != [] {
      assert Distinct(s[1..]) by {
        forall i, j | 0 <= i < j < |s| - 1 ensures s[1..][i] != s[1..][j] {
          assert s[1..][i] == s[i + 1] && s[1..][j] == s[j + 1];
        }
      }
      DistinctRemove(s[1..], x);
      if s[0] != x {
        var r := Remove(s[1..], x);
        assert s[0] !in s[1..] by {
          forall k | 0 <= k < |s| - 1 ensures s[1..][k] != s[0] {
            assert s[1..][k] == s[k + 1];
          }
        }
        assert s[0] !in r;
        DistinctInsert([], s[0], r);
        assert [] + [s[0]] + r == [s[0]] + r;
      }
    }
  }

  // ---------------------------------------------------------------------
  // Selection: first-fit and best-fit
  // ---------------------------------------------------------------------

  /** A block can take a request of `req` units: it is free and large enough. */
  predicate Fits(b: Block, req: int)
  {
    b.free && b.size >= req
  }

  /**
   * First-fit: the lowest index of a block that fits, or None when no
   * single block does (whatever the total free memory).
   */
  function FirstFitIndex(bs: seq<Block>, req: int): (r: Option<nat>)
    ensures r.Some? ==> r.value < |bs| && Fits(bs[r.value], req)
    ensures r.Some? ==> forall j :: 0 <= j < r.value ==> !Fits(bs[j], req)
    ensures r.None? <==> forall j :: 0 <= j < |bs| ==> !Fits(bs[j], req)
  {
    if bs == [] then None
    else if Fits(bs[0], req) then Some(0)
    else match FirstFitIndex(bs[1..], req)
      case None => None
      case Some(k) => Some(k + 1)
  }

  /**
   * Best-fit: among the blocks that fit, one of least size; of several
   * such, the first in address order (Python's `min` keeps the first
   * minimum it meets). None when no block fits.
   */
  function BestFitIndex(bs: seq<Block>, req: int): (r: Option<nat>)
    ensures r.None? <==> forall j :: 0 <= j < |bs| ==> !Fits(bs[j], req)
    ensures r.Some? ==> r.value < |bs| && Fits(bs[r.value], req)
    ensures r.Some? ==> forall j :: 0 <= j < |bs| && Fits(bs[j], req) ==> bs[r.value].size <= bs[j].size
    ensures r.Some? ==> forall j :: 0 <= j < r.value && Fits(bs[j], req) ==> bs[r.value].size < bs[j].size
  {
    if bs == [] then None
    else
      var last := |bs| - 1;
      var r := BestFitIndex(bs[..last], req);
      assert forall j :: 0 <= j < last ==> bs[..last][j] == bs[j];
      if Fits(bs[last], req) && (r.None? || bs[last].size < bs[r.value].size) then Some(last)
      else r
  }

  /** The block `allocate` would hand out under `strategy`, if any. */
  function Select(bs: seq<Block>, req: int, strategy: Strategy): (r: Option<nat>)
    ensures r.Some? ==> r.value < |bs| && Fits(bs[r.value], req)
    ensures r.None? <==> strategy == Other || forall j :: 0 <= j < |bs| ==> !Fits(bs[j], req)
  {
    match strategy
    case FirstFit => FirstFitIndex(bs, req)
    case BestFit => BestFitIndex(bs, req)
    case Other => None
  }

  // ---------------------------------------------------------------------
  // Splitting a block on allocation
  // ---------------------------------------------------------------------

  /**
   * The list after block `i` is given to `pid`: the block shrinks to `req`
   * units and becomes owned, and when it was larger a free remainder
   * block follows it directly.
   */
  function Split(bs: seq<Block>, i: nat, req: int, pid: int): seq<Block>
    requires i < |bs|
  {
    var b := bs[i];
    var rest := if b.size > req then [FreeBlock(b.start + req, b.size - req)] else [];
    bs[..i] + [Block(b.start, req, false, Some(pid))] + rest + bs[i + 1..]
  }

  /** Two tilings of neighbouring ranges join into a tiling of their union. */
  lemma {:induction false} CoversAppend(a: seq<Block>, b: seq<Block>, lo: int, mid: int, hi: int)
    requires Covers(a, lo, mid) && Covers(b, mid, hi)
    ensures Covers(a + b, lo, hi)
  {
    var r := a + b;
    if a == [] {
      assert r == b;
    } else if b == [] {
      assert r == a;
    } else {
      forall j | 0 <= j < |r| - 1
        ensures End(r[j]) == r[j + 1].start
      {
        if j < |a| - 1 {
          assert r[j] == a[j] && r[j + 1] == a[j + 1];
        } else if j == |a| - 1 {
          assert r[j] == a[j] && r[j + 1] == b[0];
        } else {
          assert r[j] == b[j - |a|] && r[j + 1] == b[j + 1 - |a|];
        }
      }
      forall j | 0 <= j < |r|
        ensures r[j].size > 0
      {
        if j < |a| {
          assert r[j] == a[j];
        } else {
          assert r[j] == b[j - |a|];
        }
      }
    }
  }

  /** The blocks before and after block `i` tile the ranges below and above it. */
  lemma {:induction false} CoversAround(bs: seq<Block>, lo: int, hi: int, i: nat)
    requires Covers(bs, lo, hi) && i < |bs|
    ensures Covers(bs[..i], lo, bs[i].start)
    ensures Covers(bs[i + 1..], End(bs[i]), hi)
  {
    var p, q := bs[..i], bs[i + 1..];
    assert forall j :: 0 <= j < |p| ==> p[j] == bs[j];
    assert forall j :: 0 <= j < |q| ==> q[j] == bs[j + i + 1];
    if i > 0 {
      assert End(bs[i - 1]) == bs[i].start;
    }
    if i < |bs| - 1 {
      assert End(bs[i]) == bs[i + 1].start;
    }
  }

  /**
   * Splitting keeps the tiling: the list still covers [lo, hi) in order,
   * and the sizes still add up to the same total.
   */
  lemma {:induction false} SplitLayout(bs: seq<Block>, i: nat, req: int, pid: int, lo: int, hi: int)
    requires Covers(bs, lo, hi) && i < |bs| && 0 < req <= bs[i].size
    ensures Covers(Split(bs, i, req, pid), lo, hi)
    ensures Sum(Split(bs, i, req, pid)) == Sum(bs)
  {
    var b := bs[i];
    var rest := if b.size > req then [FreeBlock(b.start + req, b.size - req)] else [];
    var mid := [Block(b.start, req, false, Some(pid))] + rest;
    CoversAround(bs, lo, hi, i);
    assert Covers(rest, b.start + req, End(b));
    CoversCons(Block(b.start, req, false, Some(pid)), rest, b.start, End(b));
    CoversAppend(mid, bs[i + 1..], b.start, End(b), hi);
    CoversAppend(bs[..i], mid + bs[i + 1..], lo, b.start, hi);
    assert Split(bs, i, req, pid) == bs[..i] + (mid + bs[i + 1..]);
    CoversSum(bs, lo, hi);
    CoversSum(Split(bs, i, req, pid), lo, hi);
  }

  /**
   * Splitting a free block of a coalesced list keeps it coalesced: the
   * remainder inherits the original block's right neighbour, which is
   * not free.
   */
  lemma {:induction false} SplitCoalesced(bs: seq<Block>, i: nat, req: int, pid: int)
    requires Coalesced(bs) && i < |bs| && bs[i].free
    ensures Coalesced(Split(bs, i, req, pid))
  {
    var b := bs[i];
    var r := Split(bs, i, req, pid);
    var k := if b.size > req then 2 else 1;
    assert forall j :: 0 <= j < i ==> r[j] == bs[j];
    assert forall j :: i < j < |bs| ==> r[j + k - 1] == bs[j];
    forall j | 0 <= j < |r| - 1
      ensures !(r[j].free && r[j + 1].free)
    {
      if j < i - 1 {
      } else if j == i - 1 || j == i {
      } else if j == i + 1 && k == 2 {
        assert r[j + 1] == bs[i + 1];
      } else {
        assert r[j] == bs[j - k + 1] && r[j + 1] == bs[j - k + 2];
      }
    }
  }

  /**
   * Splitting a free block gives its pid exactly one more block: the
   * owner list gains `pid` once and keeps every other entry, so a pid
   * that owned nothing owns exactly one block afterwards.
   */
  lemma {:induction false} SplitOwners(bs: seq<Block>, i: nat, req: int, pid: int)
    requires OwnerConsistent(bs) && i < |bs| && bs[i].free
    ensures OwnerConsistent(Split(bs, i, req, pid))
    ensures multiset(Owners(Split(bs, i, req, pid))) == multiset(Owners(bs)) + multiset{pid}
    ensures OwnersUnique(bs) && pid !in Owners(bs) ==> OwnersUnique(Split(bs, i, req, pid))
  {
    var A, B := Owners(bs[..i]), Owners(bs[i + 1..]);
    SplitOwnerList(bs, i, req, pid);
    assert multiset(A + [pid] + B) == multiset(A + B) + multiset{pid};
    if OwnersUnique(bs) && pid !in Owners(bs) {
      DistinctInsert(A, pid, B);
    }
  }

  /** The owners around a split block, before and after the split. */
  lemma {:induction false} SplitOwnerList(bs: seq<Block>, i: nat, req: int, pid: int)
    requires i < |bs| && bs[i].owner == None
    ensures Owners(bs) == Owners(bs[..i]) + Owners(bs[i + 1..])
    ensures Owners(Split(bs, i, req, pid)) == Owners(bs[..i]) + [pid] + Owners(bs[i + 1..])
  {
    var b := bs[i];
    var rest := if b.size > req then [FreeBlock(b.start + req, b.size - req)] else [];
    var mid := [Block(b.start, req, false, Some(pid))] + rest;
    var before, after := bs[..i], bs[i + 1..];
    var A, B := Owners(before), Owners(after);
    assert Split(bs, i, req, pid) == before + (mid + after);
    assert bs == before + ([b] + after);
    OwnersAppend(before, [b] + after);
    assert ([b] + after)[1..] == after;
    OwnersAppend(before, mid + after);
    OwnersAppend(mid, after);
    OwnersNone(rest);
    assert mid[1..] == rest;
    assert Owners(mid) == [pid];
    assert A + ([pid] + B) == A + [pid] + B;
  }

  // ---------------------------------------------------------------------
  // Releasing a pid's blocks
  // ---------------------------------------------------------------------

  function ReleaseBlock(b: Block, pid: int): Block
  {
    if !b.free && b.owner == Some(pid) then b.(free := true, owner := None) else b
  }

  /** The list after every block owned by `pid` is marked free. */
  function Release(bs: seq<Block>, pid: int): seq<Block>
  {
    seq(|bs|, k requires 0 <= k < |bs| => ReleaseBlock(bs[k], pid))
  }

  /** Releasing changes no address range. */
  lemma {:induction false} ReleaseLayout(bs: seq<Block>, pid: int, lo: int, hi: int)
    requires Covers(bs, lo, hi)
    ensures Covers(Release(bs, pid), lo, hi)
  {
    var r := Release(bs, pid);
    assert forall k :: 0 <= k < |bs| ==> r[k].start == bs[k].start && r[k].size == bs[k].size;
  }

  /**
   * Releasing keeps flags and owners in step; afterwards `pid` owns
   * nothing and every other owner keeps its block.
   */
  lemma {:induction false} ReleaseOwners(bs: seq<Block>, pid: int)
    requires OwnerConsistent(bs)
    ensures OwnerConsistent(Release(bs, pid))
    ensures Owners(Release(bs, pid)) == Remove(Owners(bs), pid)
  {
    if bs != [] {
      var r, tail := Release(bs, pid), bs[1..];
      assert OwnerConsistent(tail) by {
        forall i | 0 <= i < |tail| ensures tail[i].free <==> tail[i].owner == None {
          assert tail[i] == bs[i + 1];
        }
      }
      ReleaseOwners(tail, pid);
      assert r[1..] == Release(tail, pid);
      var rest := Remove(Owners(tail), pid);
      if bs[0].owner == Some(pid) {
        assert r[0].owner == None;
        assert Owners(bs) == [pid] + Owners(tail);
        assert Owners(r) == rest;
      } else if bs[0].owner.Some? {
        assert r[0] == bs[0];
        assert Owners(bs) == [bs[0].owner.value] + Owners(tail);
        assert Owners(r) == [bs[0].owner.value] + rest;
      } else {
        assert r[0].owner == None;
        assert Owners(r) == rest;
      }
    }
  }

  /** Releasing a pid that owns nothing changes nothing. */
  lemma {:induction false} ReleaseAbsent(bs: seq<Block>, pid: int)
    requires pid !in Owners(bs)
    ensures Release(bs, pid) == bs
  {
    forall k | 0 <= k < |bs|
      ensures ReleaseBlock(bs[k], pid) == bs[k]
    {
      OwnersAppend(bs[..k], bs[k..]);
      assert bs == bs[..k] + bs[k..];
      assert bs[k..] == [bs[k]] + bs[k + 1..];
    }
  }

  // ---------------------------------------------------------------------
  // Coalescing neighbouring free blocks
  // ---------------------------------------------------------------------

  /** `a` grown by the size of its right neighbour `b`. */
  function Absorb(a: Block, b: Block): Block
  {
    a.(size := a.size + b.size)
  }

  /**
   * The list with every run of neighbouring free blocks merged into its
   * first block. The first block keeps its start, flag and owner.
   */
  function Coalesce(bs: seq<Block>): (r: seq<Block>)
    ensures |r| <= |bs|
    ensures bs != [] ==> r != [] && r[0] == bs[0].(size := r[0].size)
    decreases |bs|
  {
    if |bs| <= 1 then bs
    else
      var rest := Coalesce(bs[1..]);
      if bs[0].free && rest[0].free then [Absorb(bs[0], rest[0])] + rest[1..]
      else [bs[0]] + rest
  }

  /** Merging the first two free blocks first leads to the same coalesced list. */
  lemma {:induction false} MergeFirst(bs: seq<Block>)
    requires |bs| >= 2 && bs[0].free && bs[1].free
    ensures Coalesce([Absorb(bs[0], bs[1])] + bs[2..]) == Coalesce(bs)
  {
    var m := [Absorb(bs[0], bs[1])] + bs[2..];
    assert m[1..] == bs[2..];
    assert bs[1..][1..] == bs[2..];
  }

  /** A block that does not merge with its right neighbour stays as it is. */
  lemma {:induction false} KeepFirst(bs: seq<Block>)
    requires |bs| >= 2 && !(bs[0].free && bs[1].free)
    ensures Coalesce(bs) == [bs[0]] + Coalesce(bs[1..])
  {
  }

  /**
   * Merging the free blocks at `i` and `i + 1` of `m` leaves the coalesced
   * view from `i` on unchanged.
   */
  lemma {:induction false} MergeAt(m: seq<Block>, i: nat)
    requires i + 1 < |m| && m[i].free && m[i + 1].free
    ensures var merged := m[..i] + [Absorb(m[i], m[i + 1])] + m[i + 2..];
      merged[..i] + Coalesce(merged[i..]) == m[..i] + Coalesce(m[i..])
  {
    var merged := m[..i] + [Absorb(m[i], m[i + 1])] + m[i + 2..];
    var tail := m[i..];
    assert merged[..i] == m[..i];
    assert merged[i..] == [Absorb(tail[0], tail[1])] + tail[2..];
    MergeFirst(tail);
  }

  /** Stepping past a block that is not merged keeps the coalesced view. */
  lemma {:induction false} KeepAt(m: seq<Block>, i: nat)
    requires i + 1 < |m| && !(m[i].free && m[i + 1].free)
    ensures m[..i + 1] + Coalesce(m[i + 1..]) == m[..i] + Coalesce(m[i..])
  {
    var tail := m[i..];
    KeepFirst(tail);
    assert tail[1..] == m[i + 1..];
    assert m[..i + 1] == m[..i] + [tail[0]];
  }

  /** Coalescing keeps the tiling and the total size. */
  lemma {:induction false} CoalesceLayout(bs: seq<Block>, lo: int, hi: int)
    requires Covers(bs, lo, hi)
    ensures Covers(Coalesce(bs), lo, hi)
    ensures Sum(Coalesce(bs)) == Sum(bs)
    decreases |bs|
  {
    if |bs| > 1 {
      CoversTail(bs, lo, hi);
      CoalesceLayout(bs[1..], End(bs[0]), hi);
      var rest := Coalesce(bs[1..]);
      if bs[0].free && rest[0].free {
        CoversTail(rest, End(bs[0]), hi);
        CoversCons(Absorb(bs[0], rest[0]), rest[1..], lo, hi);
      } else {
        CoversCons(bs[0], rest, lo, hi);
      }
      CoversSum(bs, lo, hi);
      CoversSum(Coalesce(bs), lo, hi);
    }
  }

  /** The coalesced list has no two neighbouring free blocks. */
  lemma {:induction false} CoalesceCoalesced(bs: seq<Block>)
    ensures Coalesced(Coalesce(bs))
    decreases |bs|
  {
    if |bs| > 1 {
      CoalesceCoalesced(bs[1..]);
      var rest := Coalesce(bs[1..]);
      var r := Coalesce(bs);
      if bs[0].free && rest[0].free {
        assert forall j :: 1 <= j < |r| ==> r[j] == rest[j];
      } else {
        assert forall j :: 1 <= j < |r| ==> r[j] == rest[j - 1];
      }
    }
  }

  /** A list that is already coalesced is left as it is. */
  lemma {:induction false} CoalesceIdentity(bs: seq<Block>)
    requires Coalesced(bs)
    ensures Coalesce(bs) == bs
    decreases |bs|
  {
    if |bs| > 1 {
      assert Coalesced(bs[1..]) by {
        forall j | 0 <= j < |bs| - 2 ensures !(bs[1..][j].free && bs[1..][j + 1].free) {
          assert bs[1..][j] == bs[j + 1] && bs[1..][j + 1] == bs[j + 2];
        }
      }
      CoalesceIdentity(bs[1..]);
      assert !(bs[0].free && bs[1].free);
    }
  }

  /**
   * Coalescing touches only free blocks: the allocated blocks stay, with
   * their ranges and owners, in the same order.
   */
  lemma {:induction false} CoalesceKeepsAllocated(bs: seq<Block>)
    ensures Allocated(Coalesce(bs)) == Allocated(bs)
    decreases |bs|
  {
    if |bs| > 1 {
      CoalesceKeepsAllocated(bs[1..]);
      var rest := Coalesce(bs[1..]);
      if bs[0].free && rest[0].free {
        var r := [Absorb(bs[0], rest[0])] + rest[1..];
        assert r[1..] == rest[1..];
        assert rest == [rest[0]] + rest[1..];
      } else {
        assert ([bs[0]] + rest)[1..] == rest;
      }
    }
  }

  /**
   * Coalescing a consistent list keeps it consistent and keeps its owner
   * list: no pid gains or loses a block.
   */
  lemma {:induction false} CoalesceOwners(bs: seq<Block>)
    requires OwnerConsistent(bs)
    ensures OwnerConsistent(Coalesce(bs))
    ensures Owners(Coalesce(bs)) == Owners(bs)
    decreases |bs|
  {
    if |bs| > 1 {
      CoalesceOwners(bs[1..]);
      var rest := Coalesce(bs[1..]);
      var r := Coalesce(bs);
      if bs[0].free && rest[0].free {
        assert r[1..] == rest[1..];
        assert rest == [rest[0]] + rest[1..];
        assert forall j :: 1 <= j < |r| ==> r[j] == rest[j];
      } else {
        assert r[1..] == rest;
        assert forall j :: 1 <= j < |r| ==> r[j] == rest[j - 1];
      }
    }
  }

  // ---------------------------------------------------------------------
  // Deallocation as a whole
  // ---------------------------------------------------------------------

  /**
   * `deallocate(pid)` on a consistent list: the list still tiles the same
   * range, no two neighbours are free, `pid` owns nothing, every other
   * owner keeps its block, and at most one block per pid still holds.
   */
  lemma {:induction false} Deallocation(bs: seq<Block>, pid: int, lo: int, hi: int)
    requires OwnerConsistent(bs)
    ensures Covers(bs, lo, hi) ==> Covers(Coalesce(Release(bs, pid)), lo, hi)
    ensures Coalesced(Coalesce(Release(bs, pid)))
    ensures OwnerConsistent(Coalesce(Release(bs, pid)))
    ensures Owners(Coalesce(Release(bs, pid))) == Remove(Owners(bs), pid)
    ensures OwnersUnique(bs) ==> OwnersUnique(Coalesce(Release(bs, pid)))
  {
    ReleaseOwners(bs, pid);
    if Covers(bs, lo, hi) {
      ReleaseLayout(bs, pid, lo, hi);
      CoalesceLayout(Release(bs, pid), lo, hi);
    }
    CoalesceCoalesced(Release(bs, pid));
    CoalesceOwners(Release(bs, pid));
    if OwnersUnique(bs) {
      DistinctRemove(Owners(bs), pid);
    }
  }

  /**
   * Deallocating a pid that owns nothing on a coalesced list leaves it
   * identical; in particular a second `deallocate` of the same pid is a
   * no-op.
   */
  lemma {:induction false} DeallocateIdempotent(bs: seq<Block>, pid: int)
    requires OwnerConsistent(bs)
    ensures Coalesced(bs) && pid !in Owners(bs) ==> Coalesce(Release(bs, pid)) == bs
    ensures var once := Coalesce(Release(bs, pid)); Coalesce(Release(once, pid)) == once
  {
    if Coalesced(bs) && pid !in Owners(bs) {
      ReleaseAbsent(bs, pid);
      CoalesceIdentity(bs);
    }
    var once := Coalesce(Release(bs, pid));
    Deallocation(bs, pid, 0, 0);
    ReleaseAbsent(once, pid);
    CoalesceIdentity(once);
  }
}
