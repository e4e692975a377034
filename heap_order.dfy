/** The order kept by the array-backed binary min-heap of nodes, keyed on
    frequency. The parent of slot i is slot (i - 1) / 2; its children are
    slots 2i + 1 and 2i + 2. */
module HeapOrder {
  import opened Nodes

  /** The node in slot i (not the first) is no lighter than its parent. */
  ghost predicate ParentOk(h: seq<Node>, i: nat)
    requires 0 < i < |h|
  {
    h[(i - 1) / 2].freq <= h[i].freq
  }

  /** Every node is no lighter than its parent. */
  ghost predicate IsHeap(h: seq<Node>)
  {
    forall i :: 0 < i < |h| ==> ParentOk(h, i)
  }

  /** The parent of slot k, if any, is no heavier than k's children. */
  ghost predicate GrandparentOk(h: seq<Node>, k: nat)
  {
    k > 0 && k < |h| ==>
      && (2 * k + 1 < |h| ==> h[(k - 1) / 2].freq <= h[2 * k + 1].freq)
      && (2 * k + 2 < |h| ==> h[(k - 1) / 2].freq <= h[2 * k + 2].freq)
  }

  /** The state while a node at slot k moves up: the order holds everywhere
      except between k and its parent, and k's parent is no heavier than
      k's children. */
  ghost predicate HeapAbove(h: seq<Node>, k: nat)
  {
    && k < |h|
    && (forall i :: 0 < i < |h| && i != k ==> ParentOk(h, i))
    && GrandparentOk(h, k)
  }

  /** The state while a node at slot k moves down: the order holds everywhere
      except between k and its children, and k's parent is no heavier than
      k's children. */
  ghost predicate HeapBelow(h: seq<Node>, k: nat)
  {
    && k < |h|
    && (forall i :: 0 < i < |h| && (i - 1) / 2 != k ==> ParentOk(h, i))
    && GrandparentOk(h, k)
  }

  /** The node in slot 0 of a heap has the least frequency. */
  lemma {:induction false} RootIsMin(h: seq<Node>, i: nat)
    requires IsHeap(h)
    requires i < |h|
    ensures h[0].freq <= h[i].freq
    decreases i
  {
    if i > 0 {
      assert ParentOk(h, i);
      RootIsMin(h, (i - 1) / 2);
    }
  }

  /** Popping the least node twice in a row: the second is no lighter than
      the first, whatever heap the first pop left behind. */
  lemma PopsInOrder(h: seq<Node>, rest: seq<Node>)
    requires IsHeap(h) && h != []
    requires multiset(h) == multiset(rest) + multiset{h[0]}
    requires rest != []
    ensures h[0].freq <= rest[0].freq
  {
    assert rest[0] in multiset(h);
    var i :| 0 <= i < |h| && h[i] == rest[0];
    RootIsMin(h, i);
  }

  /** Two pops in a row take out the root of the heap and then the root of
      what is left: the first weighs no more than the second, and together
      they are what the two pops removed. */
  lemma TwoLightest(full: seq<Node>, mid: seq<Node>, rest: seq<Node>)
    requires IsHeap(full) && |full| > 1
    requires multiset(mid) + multiset{full[0]} == multiset(full)
    requires mid != [] && multiset(rest) + multiset{mid[0]} == multiset(mid)
    ensures full[0].freq <= mid[0].freq
    ensures multiset(full) == multiset(rest) + multiset{full[0], mid[0]}
    ensures multiset(full) - multiset{full[0]} == multiset(mid)
    ensures multiset{full[0], mid[0]} <= multiset(full)
  {
    PopsInOrder(full, mid);
  }

  /** Taking two nodes out of a collection and putting one in, as one round
      of the build loop does. */
  lemma Replaced(full: multiset<Node>, rest: multiset<Node>, grown: multiset<Node>,
                  l: Node, r: Node, p: Node)
    requires full == rest + multiset{l, r}
    requires grown == rest + multiset{p}
    ensures grown == full - multiset{l, r} + multiset{p}
  {
  }

  /** Swapping two slots keeps the nodes of the heap. */
  lemma SwapKeeps(h: seq<Node>, i: nat, j: nat)
    requires i < |h| && j < |h|
    ensures |h[i := h[j]][j := h[i]]| == |h|
    ensures multiset(h[i := h[j]][j := h[i]]) == multiset(h)
  {
  }

  /** Slot c is a child of slot k exactly when it is slot 2k + 1 or 2k + 2. */
  lemma ChildOf(c: nat, k: nat)
    requires c > 0
    ensures (c - 1) / 2 == k <==> c == 2 * k + 1 || c == 2 * k + 2
  {
  }

  /** One step of moving up: swapping the node at k with its heavier parent
      moves the exception to the parent's slot. */
  lemma UpStep(h: seq<Node>, k: nat)
    requires HeapAbove(h, k) && k > 0
    requires h[k].freq < h[(k - 1) / 2].freq
    ensures HeapAbove(h[k := h[(k - 1) / 2]][(k - 1) / 2 := h[k]], (k - 1) / 2)
  {
    var p := (k - 1) / 2;
    var h' := h[k := h[p]][p := h[k]];
    forall i | 0 < i < |h'| && i != p
      ensures ParentOk(h', i)
    {
      ChildOf(i, p);
      ChildOf(i, k);
      if i == k {
      } else if (i - 1) / 2 == p {
        assert ParentOk(h, i);
      } else if (i - 1) / 2 == k {
      } else {
        assert ParentOk(h, i);
      }
    }
    if p > 0 {
      assert ParentOk(h, p);
      if 2 * p + 1 < |h| && 2 * p + 1 != k {
        assert ParentOk(h, 2 * p + 1);
      }
      if 2 * p + 2 < |h| && 2 * p + 2 != k {
        assert ParentOk(h, 2 * p + 2);
      }
    }
  }

  /** Moving up stops at slot 0 or below a parent that is no heavier. */
  lemma UpDone(h: seq<Node>, k: nat)
    requires HeapAbove(h, k)
    requires k == 0 || h[(k - 1) / 2].freq <= h[k].freq
    ensures IsHeap(h)
  {
  }

  /** One step of moving down: swapping the node at k with its lightest
      child, which is strictly lighter, moves the exception to that child's
      slot. */
  lemma DownStep(h: seq<Node>, k: nat, small: nat)
    requires HeapBelow(h, k)
    requires small == 2 * k + 1 || small == 2 * k + 2
    requires small < |h| && h[small].freq < h[k].freq
    requires 2 * k + 1 < |h| ==> h[small].freq <= h[2 * k + 1].freq
    requires 2 * k + 2 < |h| ==> h[small].freq <= h[2 * k + 2].freq
    ensures HeapBelow(h[k := h[small]][small := h[k]], small)
  {
    var h' := h[k := h[small]][small := h[k]];
    ChildOf(small, k);
    forall i | 0 < i < |h'| && (i - 1) / 2 != small
      ensures ParentOk(h', i)
    {
      ChildOf(i, k);
      if i == small {
      } else if i == k {
      } else if (i - 1) / 2 == k {
      } else {
        assert ParentOk(h, i);
      }
    }
    ChildOf(2 * small + 1, small);
    ChildOf(2 * small + 2, small);
    if 2 * small + 1 < |h| {
      assert ParentOk(h, 2 * small + 1);
    }
    if 2 * small + 2 < |h| {
      assert ParentOk(h, 2 * small + 2);
    }
  }

  /** Moving down stops where no child is strictly lighter. */
  lemma DownDone(h: seq<Node>, k: nat)
    requires HeapBelow(h, k)
    requires 2 * k + 1 < |h| ==> h[k].freq <= h[2 * k + 1].freq
    requires 2 * k + 2 < |h| ==> h[k].freq <= h[2 * k + 2].freq
    ensures IsHeap(h)
  {
  }

  /** A node appended to a heap starts moving up from the last slot. */
  lemma PushAbove(h: seq<Node>, x: Node)
    requires IsHeap(h)
    ensures HeapAbove(h + [x], |h|)
  {
    var h' := h + [x];
    forall i | 0 < i < |h'| && i != |h|
      ensures ParentOk(h', i)
    {
      assert ParentOk(h, i);
    }
  }

  /** Moving the last node into slot 0 and dropping the last slot removes
      the node in slot 0 and leaves a heap whose only exception is below
      slot 0. */
  lemma LastToRoot(h: seq<Node>)
    requires IsHeap(h) && |h| > 0
    ensures var h' := h[0 := h[|h| - 1]][..|h| - 1];
            && multiset(h') == multiset(h[1..])
            && (h' != [] ==> HeapBelow(h', 0))
  {
    var n := |h|;
    var h' := h[0 := h[n - 1]][..n - 1];
    if n > 1 {
      forall i | 0 < i < |h'| && (i - 1) / 2 != 0
        ensures ParentOk(h', i)
      {
        assert ParentOk(h, i);
      }
      assert h' == [h[n - 1]] + h[1..n - 1];
      assert h[1..] == h[1..n - 1] + [h[n - 1]];
    }
  }
}
