/**
  The indexable binary min-heap that backs the A* open list.

  The heap keeps a dense heap of slots ordered by `f` and a map from a
  node's id to the slot that holds it, so that a node can be found and
  moved up by id. Both the Go `MinHeap` and the Python `MinHeap` are this
  structure; the children of slot `i` are `2i+1` and `2i+2`.
 */
module IndexedMinHeap {
  import opened Wrappers

  /** A heap slot: the id of a search node and the priority `f` it is ordered by. */
  datatype HeapNode = HeapNode(id: nat, f: int)

  function Parent(c: nat): (p: nat)
    requires c > 0
    ensures p < c
    ensures c == 2 * p + 1 || c == 2 * p + 2
  {
    (c - 1) / 2
  }

  /** Every non-root slot has a parent whose `f` is not larger. */
  ghost predicate IsMinHeap(a: seq<HeapNode>) {
    forall c {:trigger Parent(c)} :: 0 < c < |a| ==> a[Parent(c)].f <= a[c].f
  }

  /**
    The parent/child pairs inside the prefix `a[..n]` whose parent slot is at
    least `lo` and is not `skip` are ordered. This is what sift-down assumes
    of the subtree it works on and restores with `skip == -1`.
   */
  ghost predicate OrderedBelow(a: seq<HeapNode>, lo: nat, n: nat, skip: int)
    requires n <= |a|
  {
    forall c {:trigger Parent(c)} :: 0 < c < n && lo <= Parent(c) && Parent(c) != skip ==> a[Parent(c)].f <= a[c].f
  }

  /**
    The heap is a min-heap except that slot `k` may be smaller than its
    parent; the parent of `k` is still no larger than the children of `k`.
    This is what sift-up assumes and repairs.
   */
  ghost predicate OrderedExceptAt(a: seq<HeapNode>, k: nat)
    requires k < |a|
  {
    && (forall c {:trigger Parent(c)} :: 0 < c < |a| && c != k ==> a[Parent(c)].f <= a[c].f)
    && (k > 0 ==> forall c {:trigger Parent(c)} :: 0 < c < |a| && Parent(c) == k ==> a[Parent(k)].f <= a[c].f)
  }

  /** `pos` is exactly the inverse of `a`: it maps the id in each slot to that slot, and nothing else. */
  ghost predicate IsInverse(a: seq<HeapNode>, pos: map<nat, nat>) {
    && (forall i :: 0 <= i < |a| ==> a[i].id in pos && pos[a[i].id] == i)
    && (forall id {:trigger pos[id]} :: id in pos ==> pos[id] < |a| && a[pos[id]].id == id)
  }

  /** In a min-heap the root has the smallest `f` of all slots. */
  lemma {:induction false} RootIsMinimum(a: seq<HeapNode>, i: nat)
    requires IsMinHeap(a) && i < |a|
    ensures a[0].f <= a[i].f
    decreases i
  {
    if i > 0 {
      RootIsMinimum(a, Parent(i));
    }
  }

  /** An inverse map forces the ids in the slots to be pairwise distinct. */
  lemma InverseHasDistinctIds(a: seq<HeapNode>, pos: map<nat, nat>, i: nat, j: nat)
    requires IsInverse(a, pos) && i < |a| && j < |a|
    ensures a[i].id == a[j].id ==> i == j
  {
  }

  /**
    The slots `a`, the id-to-slot map `pos` and the id-to-priority map
    `contents` describe the same heap.
   */
  ghost predicate Represents(a: seq<HeapNode>, pos: map<nat, nat>, contents: map<nat, int>) {
    && IsInverse(a, pos)
    && pos.Keys == contents.Keys
    && forall i :: 0 <= i < |a| ==> a[i].id in contents && contents[a[i].id] == a[i].f
  }

  /** In a min-heap the root has the smallest priority of all ids. */
  lemma RootIsMinimal(a: seq<HeapNode>, pos: map<nat, nat>, contents: map<nat, int>)
    requires Represents(a, pos, contents) && IsMinHeap(a) && |a| > 0
    ensures a[0].id in contents && contents[a[0].id] == a[0].f
    ensures forall id :: id in contents ==> a[0].f <= contents[id]
  {
    forall id | id in contents ensures a[0].f <= contents[id] {
      RootIsMinimum(a, pos[id]);
    }
  }

  /** Dropping the last slot and its id keeps the three views in agreement. */
  lemma DropLastKeepsRepresents(a: seq<HeapNode>, pos: map<nat, nat>, contents: map<nat, int>)
    requires Represents(a, pos, contents) && |a| > 0
    ensures var id := a[|a| - 1].id;
      Represents(a[..|a| - 1], pos - {id}, contents - {id})
  {
    var last := |a| - 1;
    forall i | 0 <= i < last ensures a[i].id != a[last].id {
      InverseHasDistinctIds(a, pos, i, last);
    }
  }

  /** Writing a node with the same id into its own slot keeps the views in agreement. */
  lemma ReplaceKeepsRepresents(a: seq<HeapNode>, pos: map<nat, nat>, contents: map<nat, int>, idx: nat, node: HeapNode)
    requires Represents(a, pos, contents) && node.id in pos && idx == pos[node.id]
    requires IsMinHeap(a) && node.f <= a[idx].f
    ensures idx < |a|
    ensures Represents(a[idx := node], pos, contents[node.id := node.f])
    ensures OrderedExceptAt(a[idx := node], idx)
  {
    forall i | 0 <= i < |a| && i != idx ensures a[i].id != node.id {
      InverseHasDistinctIds(a, pos, i, idx);
    }
  }

  /**
    Moving the last slot of a heap to the root and dropping the old root
    leaves every parent/child pair ordered except those at the root.
   */
  lemma RootSwappedOut(a: seq<HeapNode>)
    requires IsMinHeap(a) && |a| > 0
    ensures var b := a[0 := a[|a| - 1]][|a| - 1 := a[0]][..|a| - 1];
      OrderedBelow(b, 0, |b|, 0)
  {
  }

  class MinHeap {
    /** The slots, in heap order on `f` (`array` in Go, `heap` in Python). */
    var heap: seq<HeapNode>
    /** The id-to-slot map (`nodePositionInHeap`). */
    var position: map<nat, nat>
    /** The public view: the priority `f` of every node in the heap, by id. */
    ghost var Contents: map<nat, int>

    /** The map is the inverse of the slots, and both agree with `Contents`. */
    ghost predicate Indexed()
      reads this
    {
      Represents(heap, position, Contents)
    }

    ghost predicate Valid()
      reads this
    {
      Indexed() && IsMinHeap(heap)
    }

    /**
      `newMinHeap` / `MinHeap.__init__`: records the slot of every node, then
      heapifies the slots bottom-up.
     */
    constructor (nodes: seq<HeapNode>)
      requires forall i, j :: 0 <= i < j < |nodes| ==> nodes[i].id != nodes[j].id
      ensures Valid()
      ensures |heap| == |nodes|
      ensures Contents.Keys == set x | x in nodes :: x.id
      ensures forall i :: 0 <= i < |nodes| ==> Contents[nodes[i].id] == nodes[i].f
    {
      var pos: map<nat, nat> := map[];
      ghost var contents: map<nat, int> := map[];
      for idx := 0 to |nodes|
        invariant Represents(nodes[..idx], pos, contents)
      {
        pos := pos[nodes[idx].id := idx];
        contents := contents[nodes[idx].id := nodes[idx].f];
        assert nodes[..idx + 1] == nodes[..idx] + [nodes[idx]];
      }
      assert nodes[..|nodes|] == nodes;
      heap := nodes;
      position := pos;
      Contents := contents;
      new;
      BuildHeap();
    }

    /**
      `buildHeap`: sift down every internal slot, from the last parent back
      to the root.
     */
    method BuildHeap()
      requires Indexed()
      modifies this
      ensures Valid()
      ensures |heap| == |old(heap)| && Contents == old(Contents)
    {
      // (len - 2) / 2 as in min_heap.py:8; Go's truncating division gives 0
      // instead of -1 for one element, which only adds a sift-down that does nothing.
      var currentIdx := (|heap| - 2) / 2;
      while currentIdx >= 0
        invariant -1 <= currentIdx < |heap|
        invariant Indexed()
        invariant |heap| == |old(heap)| && Contents == old(Contents)
        invariant OrderedBelow(heap, currentIdx + 1, |heap|, -1)
        decreases currentIdx
      {
        SiftDown(currentIdx, |heap| - 1);
        currentIdx := currentIdx - 1;
      }
    }

    /**
      `remove`: takes the root out. On an empty heap nothing changes and there
      is no result; otherwise the root is swapped with the last slot, the last
      slot is dropped together with its map entry, and the new root is sifted down.
     */
    method Remove() returns (r: Option<HeapNode>)
      requires Valid()
      modifies this
      ensures Valid()
      ensures old(heap) == [] ==> r == None && heap == old(heap) && position == old(position)
      ensures old(heap) != [] ==>
        && r == Some(old(heap)[0])
        && |heap| == |old(heap)| - 1
        && r.value.id in old(Contents) && old(Contents)[r.value.id] == r.value.f
        && (forall id :: id in old(Contents) ==> r.value.f <= old(Contents)[id])
        && Contents == old(Contents) - {r.value.id}
    {
      var empty := IsEmpty();
      if empty {
        return None;
      }
      RootIsMinimal(heap, position, Contents);
      ghost var root := heap[0];
      Swap(0, |heap| - 1);
      RootSwappedOut(old(heap));
      DropLastKeepsRepresents(heap, position, Contents);
      var nodeToRemove := heap[|heap| - 1];
      assert nodeToRemove == root;
      heap := heap[..|heap| - 1];
      position := position - {nodeToRemove.id};
      Contents := Contents - {nodeToRemove.id};
      SiftDown(0, |heap| - 1);
      r := Some(nodeToRemove);
    }

    /**
      `insert`: appends the node, records its slot and sifts it up. Inserting
      an id that is already present is a contract violation of the source.
     */
    method Insert(node: HeapNode)
      requires Valid()
      requires node.id !in Contents
      modifies this
      ensures Valid()
      ensures |heap| == |old(heap)| + 1
      ensures Contents == old(Contents)[node.id := node.f]
    {
      heap := heap + [node];
      position := position[node.id := |heap| - 1];
      Contents := Contents[node.id := node.f];
      SiftUp(|heap| - 1);
    }

    /**
      `siftDown`: moves the node in `currentIdx` down, swapping it with its
      smaller child (`2i+1` or `2i+2`, both within `endIdx`) while that child
      is strictly smaller. Slots before `currentIdx` and after `endIdx` are untouched.

      min_heap.py:34 computes the second child as `2i+1` again; the model
      uses `2i+2`, as astar_algo.go:158 does (see `SiftDownAsWritten`).
     */
    method SiftDown(currentIdx: nat, endIdx: int)
      requires Indexed()
      requires currentIdx <= |heap| && -1 <= endIdx < |heap|
      requires OrderedBelow(heap, currentIdx, endIdx + 1, currentIdx)
      modifies this
      ensures Indexed()
      ensures |heap| == |old(heap)| && Contents == old(Contents)
      ensures heap[..currentIdx] == old(heap)[..currentIdx] && heap[endIdx + 1..] == old(heap)[endIdx + 1..]
      ensures OrderedBelow(heap, currentIdx, endIdx + 1, -1)
    {
      var cur := currentIdx;
      var childOneIdx := cur * 2 + 1;
      while childOneIdx <= endIdx
        invariant childOneIdx == cur * 2 + 1
        invariant Indexed() && Contents == old(Contents)
        invariant SiftingDown(heap, old(heap), currentIdx, endIdx, cur)
        decreases endIdx - cur
      {
        var idxToSwap := SmallerChild(heap, cur, endIdx);
        if heap[idxToSwap].f < heap[cur].f {
          SiftDownStep(heap, old(heap), cur, idxToSwap, currentIdx, endIdx);
          Swap(idxToSwap, cur);
          cur := idxToSwap;
          childOneIdx := cur * 2 + 1;
        } else {
          SiftDownDone(heap, old(heap), cur, idxToSwap, currentIdx, endIdx);
          return;
        }
      }
    }

    /**
      `siftUp`: swaps the node in `currentIdx` with its parent while it is
      strictly smaller, stopping at the root.
     */
    method SiftUp(currentIdx: nat)
      requires Indexed()
      requires currentIdx < |heap| && OrderedExceptAt(heap, currentIdx)
      modifies this
      ensures Valid()
      ensures |heap| == |old(heap)| && Contents == old(Contents)
    {
      var cur: nat := currentIdx;
      var parentIdx: int := (cur - 1) / 2;
      while cur > 0 && heap[cur].f < heap[parentIdx].f
        invariant cur < |heap| && (cur > 0 ==> parentIdx == Parent(cur))
        invariant Indexed()
        invariant |heap| == |old(heap)| && Contents == old(Contents)
        invariant OrderedExceptAt(heap, cur)
        decreases cur
      {
        SiftUpStep(heap, cur);
        Swap(parentIdx, cur);
        cur := parentIdx;
        parentIdx := (cur - 1) / 2;
      }
    }

    /** `containsNode`: whether a node with this id is in the heap. */
    method ContainsNode(id: nat) returns (found: bool)
      requires Indexed()
      ensures found <==> id in Contents
      ensures found <==> exists i :: 0 <= i < |heap| && heap[i].id == id
    {
      found := id in position;
      if found {
        assert heap[position[id]].id == id;
      }
    }

    /** `isEmpty`. */
    method IsEmpty() returns (empty: bool)
      requires Indexed()
      ensures empty <==> |heap| == 0
      ensures empty <==> Contents == map[]
    {
      empty := |heap| == 0;
      if !empty {
        assert heap[0].id in Contents;
      }
    }

    /**
      `update`: the node's `f` has decreased since it was placed, so it is
      moved towards the root by sift-up only. The heap keeps a copy of each
      node's `f`, so the new value comes with the node and is written to its
      slot first.
     */
    method Update(node: HeapNode)
      requires Valid()
      requires node.id in Contents && node.f <= Contents[node.id]
      modifies this
      ensures Valid()
      ensures |heap| == |old(heap)|
      ensures Contents == old(Contents)[node.id := node.f]
    {
      var idx := position[node.id];
      ReplaceKeepsRepresents(heap, position, Contents, idx, node);
      heap := heap[idx := node];
      Contents := Contents[node.id := node.f];
      SiftUp(idx);
    }

    /**
      `swap`: exchanges two slots and rewrites both map entries together, so
      the map stays the inverse of the slots and nothing else changes.
     */
    method Swap(i: nat, j: nat)
      requires Indexed() && i < |heap| && j < |heap|
      modifies this
      ensures heap == old(heap)[i := old(heap)[j]][j := old(heap)[i]]
      ensures position == old(position)[old(heap)[i].id := j][old(heap)[j].id := i]
      ensures Contents == old(Contents)
      ensures Indexed()
    {
      position := position[heap[i].id := j][heap[j].id := i];
      heap := heap[i := heap[j]][j := heap[i]];
    }
  }

  /**
    The child of `cur` that sift-down swaps with: the second child
    (`2i+2`) when it lies within `endIdx` and is strictly smaller than the
    first, otherwise the first (`2i+1`).
   */
  function SmallerChild(a: seq<HeapNode>, cur: nat, endIdx: int): (m: nat)
    requires 2 * cur + 1 <= endIdx < |a|
    ensures m == 2 * cur + 1 || m == 2 * cur + 2
    ensures m <= endIdx
    ensures a[m].f <= a[2 * cur + 1].f
    ensures 2 * cur + 2 <= endIdx ==> a[m].f <= a[2 * cur + 2].f
  {
    var childTwoIdx := if cur * 2 + 2 > endIdx then -1 else cur * 2 + 2;
    if childTwoIdx != -1 && a[childTwoIdx].f < a[cur * 2 + 1].f then childTwoIdx else cur * 2 + 1
  }

  /**
    The state of sift-down at slot `cur`, started at `lo` on `a0`: only slots
    in `lo..endIdx` have moved, every pair below `lo` is ordered except those
    whose parent is `cur`, and the parent of `cur` is no larger than the
    children of `cur`.
   */
  ghost predicate SiftingDown(a: seq<HeapNode>, a0: seq<HeapNode>, lo: nat, endIdx: int, cur: nat) {
    && |a| == |a0| && lo <= cur && lo <= |a| && -1 <= endIdx < |a|
    && a[..lo] == a0[..lo] && a[endIdx + 1..] == a0[endIdx + 1..]
    && OrderedBelow(a, lo, endIdx + 1, cur)
    && (cur != lo ==>
      cur <= endIdx && forall c {:trigger Parent(c)} :: 0 < c <= endIdx && Parent(c) == cur ==> a[Parent(cur)].f <= a[c].f)
  }

  /** One swap of sift-down keeps the invariant of its loop. */
  lemma SiftDownStep(a: seq<HeapNode>, a0: seq<HeapNode>, cur: nat, m: nat, lo: nat, endIdx: int)
    requires SiftingDown(a, a0, lo, endIdx, cur)
    requires m == 2 * cur + 1 || m == 2 * cur + 2
    requires m <= endIdx && a[m].f < a[cur].f
    requires 2 * cur + 2 <= endIdx ==> a[m].f <= a[2 * cur + 1].f && a[m].f <= a[2 * cur + 2].f
    ensures SiftingDown(a[m := a[cur]][cur := a[m]], a0, lo, endIdx, m)
  {
    var b := a[m := a[cur]][cur := a[m]];
    assert Parent(m) == cur;
    forall c | 0 < c < endIdx + 1 && lo <= Parent(c) && Parent(c) != m
      ensures b[Parent(c)].f <= b[c].f
    {
      var p := Parent(c);
      if p == cur {
      } else if c == cur {
      } else {
      }
    }
    assert b[..lo] == a[..lo] && b[endIdx + 1..] == a[endIdx + 1..];
  }

  /** Sift-down stops: neither child of `cur` is smaller, so every pair is ordered. */
  lemma SiftDownDone(a: seq<HeapNode>, a0: seq<HeapNode>, cur: nat, m: nat, lo: nat, endIdx: int)
    requires SiftingDown(a, a0, lo, endIdx, cur)
    requires m == 2 * cur + 1 || m == 2 * cur + 2
    requires m <= endIdx && a[cur].f <= a[m].f
    requires 2 * cur + 2 <= endIdx ==> a[m].f <= a[2 * cur + 1].f && a[m].f <= a[2 * cur + 2].f
    ensures OrderedBelow(a, lo, endIdx + 1, -1)
  {
  }

  /** One swap of sift-up keeps the invariant of its loop. */
  lemma SiftUpStep(heap: seq<HeapNode>, cur: nat)
    requires 0 < cur < |heap| && OrderedExceptAt(heap, cur)
    requires heap[cur].f < heap[Parent(cur)].f
    ensures var p := Parent(cur);
      OrderedExceptAt(heap[p := heap[cur]][cur := heap[p]], p)
  {
    var p := Parent(cur);
    var b := heap[p := heap[cur]][cur := heap[p]];
    forall c | 0 < c < |b| && c != p ensures b[Parent(c)].f <= b[c].f {
      if Parent(c) == p && c != cur {
        assert heap[p].f <= heap[c].f;
      }
    }
    if p > 0 {
      forall c | 0 < c < |b| && Parent(c) == p ensures b[Parent(p)].f <= b[c].f {
        assert heap[Parent(p)].f <= heap[p].f;
        if c != cur {
          assert heap[p].f <= heap[c].f;
        }
      }
    }
  }

  /**
    The sift-down of min_heap.py:31-44 as written: its second child index is
    `2i+1`, the same slot as the first child, so the right child is never
    looked at. Only the order of the slots is modelled here, not the map.
   */
  function SiftDownAsWritten(a: seq<HeapNode>, currentIdx: nat, endIdx: int): (r: seq<HeapNode>)
    requires endIdx < |a|
    ensures |r| == |a| && multiset(r) == multiset(a)
    decreases |a| - currentIdx
  {
    var childOneIdx := currentIdx * 2 + 1;
    if childOneIdx > endIdx then a
    else
      var childTwoIdx := if currentIdx * 2 + 1 <= endIdx then currentIdx * 2 + 1 else -1;
      var idxToSwap := if childTwoIdx != -1 && a[childTwoIdx].f < a[childOneIdx].f then childTwoIdx else childOneIdx;
      if a[idxToSwap].f < a[currentIdx].f then
        SiftDownAsWritten(a[idxToSwap := a[currentIdx]][currentIdx := a[idxToSwap]], idxToSwap, endIdx)
      else
        a
  }

  /**
    With `f` values 3, 2, 1 the Python `buildHeap` (one sift-down from slot 0)
    swaps the root with the left child only and leaves 2 above 1: the result
    is not a min-heap.
   */
  lemma PythonBuildHeapNotAHeap()
    ensures var a := [HeapNode(0, 3), HeapNode(1, 2), HeapNode(2, 1)];
      && SiftDownAsWritten(a, 0, 2) == [HeapNode(1, 2), HeapNode(0, 3), HeapNode(2, 1)]
      && !IsMinHeap(SiftDownAsWritten(a, 0, 2))
  {
    var a := [HeapNode(0, 3), HeapNode(1, 2), HeapNode(2, 1)];
    var b := [HeapNode(1, 2), HeapNode(0, 3), HeapNode(2, 1)];
    assert a[1 := a[0]][0 := a[1]] == b;
    assert SiftDownAsWritten(b, 1, 2) == b;
    assert Parent(2) == 0 && b[0].f > b[2].f;
  }
}
