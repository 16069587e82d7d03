/** The priority queue of cursors: `fileHeap` with `Len`, `Less`, `Swap`, `Push` and
    `Pop`, and the `container/heap` operations `heap.Push` and `heap.Pop` that drive it,
    written out as an array-backed binary min-heap ordered by the cursors' timestamps. */
module FileHeaps {
  import opened Types
  import opened FileUnits

  /** The parent of heap position `k > 0`. */
  function Parent(k: nat): (p: nat)
    requires k > 0
  {
    (k - 1) / 2
  }

  /** Position `c` is a child of position `p` in the binary heap layout. */
  predicate IsChild(p: nat, c: nat)
  {
    c == 2 * p + 1 || c == 2 * p + 2
  }

  /** A position and its parent. */
  lemma ParentIsParent(k: nat)
    requires k > 0
    ensures IsChild(Parent(k), k) && Parent(k) < k
  {
  }

  /** The timestamps of a sequence of cursors, position by position. */
  ghost function Keys(s: seq<FileUnit>): (ks: seq<int64>)
    reads s
    ensures |ks| == |s| && forall k :: 0 <= k < |s| ==> ks[k] == s[k].timestamp
  {
    seq(|s|, k requires 0 <= k < |s| reads s => s[k].timestamp)
  }

  /** No timestamp is below its parent's. */
  predicate HeapOrdered(ks: seq<int64>)
  {
    forall p, c {:trigger IsChild(p, c)} :: 0 <= p < |ks| && 0 <= c < |ks| && IsChild(p, c) ==>
      ks[p] <= ks[c]
  }

  /** The root of a heap-ordered sequence has the least timestamp. */
  lemma {:induction false} RootIsMin(ks: seq<int64>, k: nat)
    requires HeapOrdered(ks)
    requires k < |ks|
    ensures ks[0] <= ks[k]
    decreases k
  {
    if k > 0 {
      ParentIsParent(k);
      RootIsMin(ks, Parent(k));
    }
  }

  /** Heap order holds on every edge except the one into position `j`, and `j`'s
      parent is no later than `j`'s children: the state `up` works on. */
  predicate OrderedExceptUp(ks: seq<int64>, j: nat)
  {
    (forall p, c {:trigger IsChild(p, c)} :: 0 <= p < |ks| && 0 <= c < |ks| && IsChild(p, c) && c != j ==>
      ks[p] <= ks[c]) &&
    (0 < j < |ks| && 2 * j + 1 < |ks| ==> ks[Parent(j)] <= ks[2 * j + 1]) &&
    (0 < j < |ks| && 2 * j + 2 < |ks| ==> ks[Parent(j)] <= ks[2 * j + 2])
  }

  /** Heap order holds on every edge except those out of position `i`, and `i`'s
      parent is no later than `i`'s children: the state `down` works on. */
  predicate OrderedExceptDown(ks: seq<int64>, i: nat)
  {
    (forall p, c {:trigger IsChild(p, c)} :: 0 <= p < |ks| && 0 <= c < |ks| && IsChild(p, c) && p != i ==>
      ks[p] <= ks[c]) &&
    (0 < i < |ks| && 2 * i + 1 < |ks| ==> ks[Parent(i)] <= ks[2 * i + 1]) &&
    (0 < i < |ks| && 2 * i + 2 < |ks| ==> ks[Parent(i)] <= ks[2 * i + 2])
  }

  /** `fileHeap`, a slice of cursors kept as a binary heap: `data[..size]` is the slice. */
  class FileHeap {
    var data: array<FileUnit>
    var size: nat
    /** The slice's contents (specification only). */
    ghost var elems: seq<FileUnit>

    ghost predicate Valid()
      reads this, data, elems
    {
      size <= data.Length && elems == data[..size] && HeapOrdered(Keys(elems))
    }

    /** The cursors in the heap, as a multiset. */
    ghost function Bag(): (b: multiset<FileUnit>)
      reads this
    {
      multiset(elems)
    }

    /** `new(fileHeap)` followed by `heap.Init` on the empty slice. */
    constructor ()
      ensures Valid() && fresh(data) && elems == []
    {
      data := new FileUnit[0];
      size := 0;
      elems := [];
    }

    /** `Len`: the number of cursors in the heap. */
    function Len(): (n: int)
      requires Valid()
      reads this, data, elems
      ensures n == |elems|
    {
      size
    }

    /** `Less`: strict comparison of the timestamps at two positions. A cursor is never
        `Less` than itself, and of any two positions either the first is `Less` or the
        second is no later: the ordering `container/heap` requires of `Less`. */
    function Less(i: nat, j: nat): (less: bool)
      requires i < data.Length && j < data.Length
      reads this, data, data[i], data[j]
      ensures less ==> data[i] != data[j]
      ensures less || data[j].timestamp <= data[i].timestamp
    {
      data[i].timestamp < data[j].timestamp
    }

    /** In a valid heap no cursor is `Less` than its parent: the order `container/heap`
        keeps with `Less`, and the reason `up` and `down` stop at equal timestamps. */
    lemma NoChildLess(p: nat, c: nat)
      requires Valid() && c < size && IsChild(p, c)
      ensures p < data.Length && c < data.Length && !Less(c, p)
    {
      assert p < c;
      var ks := Keys(elems);
      assert ks[p] <= ks[c];
    }

    /** `Swap`: exchange the cursors at two positions. */
    method Swap(i: nat, j: nat)
      requires i < data.Length && j < data.Length
      modifies data
      ensures data[..] == old(data[..])[i := old(data[j])][j := old(data[i])]
    {
      data[i], data[j] := data[j], data[i];
    }

    /** `fileHeap.Push`: append a cursor to the slice, growing its backing array when full. */
    method Append(x: FileUnit)
      requires size <= data.Length
      modifies this, data
      ensures size == old(size) + 1 && size <= data.Length
      ensures data[..size] == old(data[..size]) + [x]
      ensures data == old(data) || fresh(data)
      ensures elems == old(elems)
    {
      if size == data.Length {
        var grown := new FileUnit[2 * data.Length + 1](_ => x);
        for k := 0 to size
          invariant grown[..k] == data[..k]
          modifies grown
        {
          grown[k] := data[k];
        }
        data := grown;
      }
      data[size] := x;
      size := size + 1;
    }

    /** `fileHeap.Pop`: remove and return the slice's last cursor. */
    method RemoveLast() returns (x: FileUnit)
      requires 0 < size <= data.Length
      modifies this
      ensures size == old(size) - 1 && size < data.Length && x == data[size]
      ensures data == old(data) && elems == old(elems)
    {
      size := size - 1;
      x := data[size];
    }

    /** `ks` lists the timestamps of the first `|ks|` cursors of the backing array. */
    ghost predicate KeysAre(ks: seq<int64>)
      reads this, data, data[..]
    {
      |ks| <= data.Length && forall k :: 0 <= k < |ks| ==> ks[k] == data[k].timestamp
    }

    /** `Swap` within the first `n` positions, with the timestamps swapped alongside. */
    method SwapKeys(i: nat, j: nat, n: nat, ghost ks0: seq<int64>) returns (ghost ks: seq<int64>)
      requires n <= data.Length && i < n && j < n
      requires |ks0| == n && KeysAre(ks0)
      modifies data
      ensures |ks| == n && KeysAre(ks) && ks == ks0[i := ks0[j]][j := ks0[i]]
      ensures data[..n] == old(data[..n])[i := old(data[j])][j := old(data[i])]
      ensures multiset(data[..n]) == old(multiset(data[..n]))
      ensures forall k :: n <= k < data.Length ==> data[k] == old(data[k])
    {
      ghost var s := data[..n];
      Swap(i, j);
      assert data[..n] == s[i := s[j]][j := s[i]];
      ks := ks0[i := ks0[j]][j := ks0[i]];
    }

    /** `up`: move the cursor at `j` towards the root while it is strictly earlier
        than its parent. */
    method Up(j: nat, ghost ks0: seq<int64>) returns (ghost ks: seq<int64>)
      requires size <= data.Length && j < size
      requires |ks0| == size && KeysAre(ks0) && OrderedExceptUp(ks0, j)
      modifies data
      ensures |ks| == size && KeysAre(ks) && HeapOrdered(ks)
      ensures multiset(data[..size]) == old(multiset(data[..size]))
      ensures forall k :: size <= k < data.Length ==> data[k] == old(data[k])
    {
      var i: nat := j;
      ks := ks0;
      while i > 0 && Less(i, Parent(i))
        invariant i < size
        invariant |ks| == size && KeysAre(ks) && OrderedExceptUp(ks, i)
        invariant multiset(data[..size]) == old(multiset(data[..size]))
        invariant forall k :: size <= k < data.Length ==> data[k] == old(data[k])
        decreases i
      {
        var p := Parent(i);
        UpStep(ks, i);
        ks := SwapKeys(p, i, size, ks);
        i := p;
      }
      UpDone(ks, i);
    }

    /** `down`: move the cursor at `i` away from the root, within the first `n`
        positions, while its earlier child is strictly earlier than it. */
    method Down(i0: nat, n: nat, ghost ks0: seq<int64>) returns (ghost ks: seq<int64>)
      requires n <= data.Length && i0 <= n
      requires |ks0| == n && KeysAre(ks0) && OrderedExceptDown(ks0, i0)
      modifies data
      ensures |ks| == n && KeysAre(ks) && HeapOrdered(ks)
      ensures multiset(data[..n]) == old(multiset(data[..n]))
      ensures forall k :: n <= k < data.Length ==> data[k] == old(data[k])
    {
      var i: nat := i0;
      ks := ks0;
      while true
        invariant i <= n
        invariant |ks| == n && KeysAre(ks) && OrderedExceptDown(ks, i)
        invariant multiset(data[..n]) == old(multiset(data[..n]))
        invariant forall k :: n <= k < data.Length ==> data[k] == old(data[k])
        decreases n - i
      {
        var j1 := 2 * i + 1;
        if j1 >= n {
          DownDone(ks, i);
          break;
        }
        var j := j1;
        if j1 + 1 < n && Less(j1 + 1, j1) {
          j := j1 + 1;
        }
        if !Less(j, i) {
          DownDone(ks, i);
          break;
        }
        DownStep(ks, i, j);
        ks := SwapKeys(i, j, n, ks);
        i := j;
      }
    }

    /** `heap.Push`: add a cursor and restore heap order. */
    method Push(x: FileUnit)
      requires Valid()
      modifies this, data
      ensures Valid() && (data == old(data) || fresh(data))
      ensures Bag() == old(Bag()) + multiset{x}
    {
      ghost var ks := AppendUp(x, Keys(elems));
      elems := data[..size];
      KeysOf(ks);
    }

    /** `heap.Push` on the array: append, then move the new last cursor up. */
    method AppendUp(x: FileUnit, ghost ks0: seq<int64>) returns (ghost ks: seq<int64>)
      requires size <= data.Length && |ks0| == size && KeysAre(ks0) && HeapOrdered(ks0)
      modifies this, data
      ensures size == old(size) + 1 && |ks| == size && KeysAre(ks) && HeapOrdered(ks)
      ensures multiset(data[..size]) == old(multiset(data[..size])) + multiset{x}
      ensures data == old(data) || fresh(data)
      ensures elems == old(elems)
    {
      Append(x);
      AppendKeepsOrder(ks0, x.timestamp);
      ks := Up(size - 1, ks0 + [x.timestamp]);
    }

    /** `heap.Pop`: remove and return a cursor whose timestamp is least in the heap. */
    method PopMin() returns (x: FileUnit)
      requires Valid() && Len() > 0
      modifies this, data
      ensures Valid() && data == old(data)
      ensures x == old(elems)[0] && x in old(elems)
      ensures Bag() == old(Bag()) - multiset{x}
      ensures forall y :: y in old(elems) ==> x.timestamp <= y.timestamp
    {
      ghost var before := elems;
      RootIsLeast(before);
      var n := size - 1;
      ghost var ks := SwapRootDown(n, Keys(before));
      x := RemoveLast();
      assert x == before[0];
      elems := data[..n];
      KeysOf(ks);
    }

    /** The first half of `heap.Pop`: swap the root with position `n`, the last one,
        and move the new root down within the first `n` positions. */
    method SwapRootDown(n: nat, ghost ks0: seq<int64>) returns (ghost ks: seq<int64>)
      requires n < data.Length && |ks0| == n + 1 && KeysAre(ks0) && HeapOrdered(ks0)
      modifies data
      ensures |ks| == n && KeysAre(ks) && HeapOrdered(ks)
      ensures data[n] == old(data[0])
      ensures multiset(data[..n]) == old(multiset(data[..n + 1])) - multiset{old(data[0])}
    {
      SwapRootKeepsOrder(ks0);
      ghost var swappedKeys := SwapKeys(0, n, n + 1, ks0);
      LastSwapped(old(data[..n + 1]), data[..n + 1]);
      ks := Down(0, n, swappedKeys[..n]);
    }

    /** The timestamps the array holds are those `Keys` reads from its prefix. */
    lemma KeysOf(ks: seq<int64>)
      requires KeysAre(ks)
      ensures Keys(data[..|ks|]) == ks
    {
    }
  }

  /** The cursor at the root of a heap-ordered slice is no later than any cursor in it. */
  lemma RootIsLeast(s: seq<FileUnit>)
    requires |s| > 0 && HeapOrdered(Keys(s))
    ensures forall y :: y in s ==> s[0].timestamp <= y.timestamp
  {
    forall y | y in s
      ensures s[0].timestamp <= y.timestamp
    {
      var k :| 0 <= k < |s| && s[k] == y;
      RootIsMin(Keys(s), k);
    }
  }

  /** After swapping the root with the last element, the prefix holds all but the old root. */
  lemma LastSwapped(s: seq<FileUnit>, t: seq<FileUnit>)
    requires |s| > 0 && t == s[0 := s[|s| - 1]][|s| - 1 := s[0]]
    ensures t[|t| - 1] == s[0]
    ensures multiset(t[..|t| - 1]) == multiset(s) - multiset{s[0]}
  {
    assert t == t[..|t| - 1] + [s[0]];
    assert multiset(t) == multiset(s);
  }

  /** One swap of `up` re-establishes its invariant one level higher. */
  lemma UpStep(ks: seq<int64>, i: nat)
    requires 0 < i < |ks| && OrderedExceptUp(ks, i)
    requires ks[i] < ks[Parent(i)]
    ensures OrderedExceptUp(ks[Parent(i) := ks[i]][i := ks[Parent(i)]], Parent(i))
  {
    var p := Parent(i);
    var t := ks[p := ks[i]][i := ks[p]];
    ParentIsParent(i);
    forall q, c | 0 <= q < |t| && 0 <= c < |t| && IsChild(q, c) && c != p
      ensures t[q] <= t[c]
    {
      if q == p {
      } else if q == i {
        assert t[c] == ks[c];
      } else {
        assert t[q] == ks[q] && t[c] == ks[c];
      }
    }
    if p > 0 {
      ParentIsParent(p);
      assert IsChild(p, 2 * p + 1) && IsChild(p, 2 * p + 2);
      assert t[Parent(p)] == ks[Parent(p)];
    }
  }

  /** One swap of `down` re-establishes its invariant one level lower. */
  lemma DownStep(ks: seq<int64>, i: nat, j: nat)
    requires j < |ks| && OrderedExceptDown(ks, i)
    requires j == 2 * i + 1 || j == 2 * i + 2
    requires j == 2 * i + 1 && j + 1 < |ks| ==> ks[j] <= ks[j + 1]
    requires j == 2 * i + 2 ==> ks[j] < ks[j - 1]
    requires ks[j] < ks[i]
    ensures OrderedExceptDown(ks[i := ks[j]][j := ks[i]], j)
  {
    var t := ks[i := ks[j]][j := ks[i]];
    assert Parent(j) == i;
    forall p, c | 0 <= p < |t| && 0 <= c < |t| && IsChild(p, c) && p != j
      ensures t[p] <= t[c]
    {
      if p == i {
      } else if c == i {
        assert p == Parent(i);
      } else {
        assert t[p] == ks[p] && t[c] == ks[c];
      }
    }
    assert IsChild(j, 2 * j + 1) && IsChild(j, 2 * j + 2);
    if 2 * j + 1 < |ks| {
      assert t[2 * j + 1] == ks[2 * j + 1];
    }
    if 2 * j + 2 < |ks| {
      assert t[2 * j + 2] == ks[2 * j + 2];
    }
  }

  /** `up` stops at the root or below a parent that is no later: the heap is ordered. */
  lemma UpDone(ks: seq<int64>, i: nat)
    requires i < |ks| && OrderedExceptUp(ks, i)
    requires i > 0 ==> ks[Parent(i)] <= ks[i]
    ensures HeapOrdered(ks)
  {
    forall p, c | 0 <= p < |ks| && 0 <= c < |ks| && IsChild(p, c)
      ensures ks[p] <= ks[c]
    {
      if c == i {
        assert p == Parent(i);
      }
    }
  }

  /** `down` stops at a leaf or above children that are no earlier: the heap is ordered. */
  lemma DownDone(ks: seq<int64>, i: nat)
    requires OrderedExceptDown(ks, i)
    requires 2 * i + 1 < |ks| ==> ks[i] <= ks[2 * i + 1]
    requires 2 * i + 2 < |ks| ==> ks[i] <= ks[2 * i + 2]
    ensures HeapOrdered(ks)
  {
  }

  /** Appending to a heap leaves it ordered except at the new last position. */
  lemma AppendKeepsOrder(ks: seq<int64>, x: int64)
    requires HeapOrdered(ks)
    ensures OrderedExceptUp(ks + [x], |ks|)
  {
    var t := ks + [x];
    forall p, c | 0 <= p < |t| && 0 <= c < |t| && IsChild(p, c) && c != |ks|
      ensures t[p] <= t[c]
    {
      assert t[p] == ks[p] && t[c] == ks[c];
    }
  }

  /** Moving the last timestamp of a heap to its root leaves the rest ordered except below the root. */
  lemma SwapRootKeepsOrder(ks: seq<int64>)
    requires HeapOrdered(ks) && |ks| > 0
    ensures OrderedExceptDown(ks[0 := ks[|ks| - 1]][|ks| - 1 := ks[0]][..|ks| - 1], 0)
  {
    var u := ks[0 := ks[|ks| - 1]][|ks| - 1 := ks[0]][..|ks| - 1];
    forall p, c | 0 <= p < |u| && 0 <= c < |u| && IsChild(p, c) && p != 0
      ensures u[p] <= u[c]
    {
      assert u[p] == ks[p] && u[c] == ks[c];
    }
  }
}
