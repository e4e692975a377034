/** The Huffman tree session: a min-heap of nodes keyed on frequency, the
    loop that merges the two lightest nodes until one is left, and the
    decoder that walks the finished tree. */
module Huffman {
  import opened Nodes
  import opened HeapOrder
  import opened Codes

  /** What the heap keeps between operations: it is ordered, every node in
      it is well formed, and it holds exactly the leaves of `inserted` and
      their total frequency. */
  ghost predicate Holds(h: seq<Node>, inserted: seq<Node>)
  {
    && IsHeap(h)
    && (forall x | x in h :: WellFormed(x))
    && (forall x | x in inserted :: x.Leaf?)
    && Bag(h) == Bag(inserted)
    && Total(h) == Total(inserted)
  }

  /** Adding a leaf to the heap and to the inserted leaves keeps Holds. */
  lemma InsertHolds(before: seq<Node>, after: seq<Node>, inserted: seq<Node>, node: Node)
    requires Holds(before, inserted) && node.Leaf?
    requires IsHeap(after) && multiset(after) == multiset(before) + multiset{node}
    ensures Holds(after, inserted + [node])
  {
    Pushed(inserted, node, inserted + [node]);
    Pushed(before, node, after);
  }

  /** One round of the build loop, from the heap `full` through the heap
      `mid` left by the first pop and the heap `rest` left by the second to
      the heap `grown` after the push, keeps Holds; the two popped nodes
      came out of `full` and the pushed node replaces them. */
  lemma MergeHolds(full: seq<Node>, mid: seq<Node>, rest: seq<Node>, grown: seq<Node>,
                   inserted: seq<Node>)
    requires Holds(full, inserted) && |full| > 1
    requires multiset(mid) + multiset{full[0]} == multiset(full)
    requires mid != [] && multiset(rest) + multiset{mid[0]} == multiset(mid)
    requires IsHeap(grown)
    requires multiset(grown) == multiset(rest) + multiset{Internal(full[0].freq + mid[0].freq, full[0], mid[0])}
    ensures Holds(grown, inserted)
    ensures multiset(full) - multiset{full[0]} == multiset(mid)
    ensures multiset{full[0], mid[0]} <= multiset(full)
    ensures multiset(grown) == multiset(full) - multiset{full[0], mid[0]}
                               + multiset{Internal(full[0].freq + mid[0].freq, full[0], mid[0])}
  {
    TwoLightest(full, mid, rest);
    assert Holds(grown, inserted) by {
      MergeKeeps(full, rest, grown, full[0], mid[0]);
    }
    Replaced(multiset(full), multiset(rest), multiset(grown), full[0], mid[0],
             Internal(full[0].freq + mid[0].freq, full[0], mid[0]));
  }

  /** When the build loop stops, the heap is empty exactly when nothing was
      inserted, and otherwise its one node is a well-formed tree over exactly
      the inserted leaves whose frequency is their total; a single inserted
      leaf is the tree itself. */
  lemma Finished(h: seq<Node>, inserted: seq<Node>)
    requires Holds(h, inserted) && |h| <= 1
    ensures |h| == if inserted == [] then 0 else 1
    ensures inserted != [] ==>
              && WellFormed(h[0])
              && Leaves(h[0]) == multiset(inserted)
              && h[0].freq == Total(inserted)
    ensures |inserted| == 1 ==> h[0] == inserted[0]
  {
    BagEmpty(h);
    BagEmpty(inserted);
    if h != [] {
      assert h == [h[0]];
      SoleNode(h[0], inserted);
    }
  }

  class HuffmanTree {
    /** The finished tree; None until a build has found a node in the heap. */
    var root: Option<Node>
    /** The heap array (a growable vector in the source). */
    var heap: seq<Node>

    /** The leaves handed to InsertFreq so far, in order. */
    ghost var Inserted: seq<Node>
    /** Whether BuildTree has been called. */
    ghost var Built: bool

    /** The session invariant: the heap is ordered, every node in it is well
        formed, the heap holds exactly the inserted leaves and their total
        frequency, and once built the root is the one node left in it. */
    ghost predicate Valid()
      reads this
    {
      && Holds(heap, Inserted)
      && (Built ==> |heap| <= 1)
      && (root.Some? <==> Built && |heap| == 1)
      && (root.Some? ==> root.value == heap[0])
    }

    constructor ()
      ensures Valid()
      ensures root == None && heap == [] && Inserted == [] && !Built
    {
      root := None;
      heap := [];
      Inserted := [];
      Built := false;
    }

    /** Moves the node at `index` towards slot 0 while it is strictly lighter
        than its parent. */
    method BubbleUp(index: nat)
      requires HeapAbove(heap, index)
      modifies this`heap
      ensures IsHeap(heap)
      ensures |heap| == old(|heap|)
      ensures multiset(heap) == old(multiset(heap))
    {
      var i: nat := index;
      while i > 0
        invariant |heap| == old(|heap|)
        invariant HeapAbove(heap, i)
        invariant multiset(heap) == old(multiset(heap))
      {
        var parent: nat := (i - 1) / 2;
        if heap[i].freq < heap[parent].freq {
          UpStep(heap, i);
          SwapKeeps(heap, i, parent);
          heap := heap[i := heap[parent]][parent := heap[i]];
          i := parent;
        } else {
          break;
        }
      }
      UpDone(heap, i);
    }

    /** Moves the node at `index` away from slot 0, swapping it with its
        lighter child while that child is strictly lighter than it. */
    method BubbleDown(index: nat)
      requires HeapBelow(heap, index)
      modifies this`heap
      ensures IsHeap(heap)
      ensures |heap| == old(|heap|)
      ensures multiset(heap) == old(multiset(heap))
    {
      var size := |heap|;
      var i: nat := index;
      while true
        invariant |heap| == size
        invariant HeapBelow(heap, i)
        invariant multiset(heap) == old(multiset(heap))
        decreases size - i
      {
        var small := i;
        var left := 2 * i + 1;
        var right := 2 * i + 2;
        if left < size && heap[left].freq < heap[small].freq {
          small := left;
        }
        if right < size && heap[right].freq < heap[small].freq {
          small := right;
        }
        if small != i {
          DownStep(heap, i, small);
          SwapKeeps(heap, i, small);
          heap := heap[i := heap[small]][small := heap[i]];
          i := small;
        } else {
          break;
        }
      }
      DownDone(heap, i);
    }

    /** Adds a node to the heap. */
    method HeapInsert(node: Node)
      requires IsHeap(heap)
      modifies this`heap
      ensures IsHeap(heap)
      ensures |heap| == old(|heap|) + 1
      ensures multiset(heap) == old(multiset(heap)) + multiset{node}
    {
      PushAbove(heap, node);
      heap := heap + [node];
      BubbleUp(|heap| - 1);
    }

    /** Removes and returns the lightest node, or None when the heap is empty. */
    method Pop() returns (min: Option<Node>)
      requires IsHeap(heap)
      modifies this`heap
      ensures IsHeap(heap)
      ensures old(heap) == [] ==> min == None && heap == old(heap)
      ensures old(heap) != [] ==>
                && min == Some(old(heap)[0])
                && |heap| == old(|heap|) - 1
                && multiset(heap) + multiset{min.value} == old(multiset(heap))
                && (forall x | x in old(heap) :: min.value.freq <= x.freq)
    {
      if heap == [] {
        return None;
      }
      var m := heap[0];
      forall i | 0 <= i < |heap| ensures m.freq <= heap[i].freq {
        RootIsMin(heap, i);
      }
      LastToRoot(heap);
      heap := heap[0 := heap[|heap| - 1]];
      heap := heap[..|heap| - 1];
      if heap != [] {
        BubbleDown(0);
      }
      min := Some(m);
      assert old(heap) == [m] + old(heap)[1..];
    }

    /** Adds a leaf for symbol `c` with frequency `freq` to the heap. Must not
        be called once the tree is built. */
    method InsertFreq(c: char, freq: int)
      requires Valid() && !Built
      modifies this`heap, this`Inserted
      ensures Valid() && !Built && root == None
      ensures Inserted == old(Inserted) + [Leaf(c, freq)]
      ensures multiset(heap) == old(multiset(heap)) + multiset{Leaf(c, freq)}
    {
      var node := Leaf(c, freq);
      HeapInsert(node);
      InsertHolds(old(heap), heap, Inserted, node);
      Inserted := Inserted + [node];
    }

    /** One round of the build loop: pops the two lightest nodes and pushes
        the node that joins them, the first popped as its left child. */
    method MergeLightest() returns (parent: Node)
      requires Holds(heap, Inserted) && |heap| > 1
      modifies this`heap
      ensures Holds(heap, Inserted)
      ensures |heap| == old(|heap|) - 1
      ensures parent.Internal? && parent.left == old(heap)[0]
      ensures parent.freq == parent.left.freq + parent.right.freq
      ensures multiset{parent.left, parent.right} <= old(multiset(heap))
      ensures multiset(heap) == old(multiset(heap)) - multiset{parent.left, parent.right} + multiset{parent}
      ensures forall x | x in old(heap) :: parent.left.freq <= x.freq
      ensures forall x | x in old(multiset(heap)) - multiset{parent.left} :: parent.right.freq <= x.freq
    {
      ghost var full := heap;
      var left := Pop();
      ghost var mid := heap;
      var right := Pop();
      ghost var rest := heap;
      parent := Internal(left.value.freq + right.value.freq, left.value, right.value);
      HeapInsert(parent);
      MergeHolds(full, mid, rest, heap, Inserted);
      forall x | x in multiset(full) - multiset{left.value}
        ensures right.value.freq <= x.freq
      {
        assert x in mid;
      }
    }

    /** Merges the two lightest nodes, the first popped as the left child and
        the second as the right, until at most one node is left; that node
        becomes the root. */
    method BuildTree()
      requires Valid()
      modifies this`heap, this`root, this`Built
      ensures Valid() && Built && Inserted == old(Inserted)
      ensures |heap| == if Inserted == [] then 0 else 1
      ensures Inserted == [] ==> root == None
      ensures Inserted != [] ==>
                && root == Some(heap[0])
                && WellFormed(root.value)
                && Leaves(root.value) == multiset(Inserted)
                && root.value.freq == Total(Inserted)
      ensures |Inserted| == 1 ==> root == Some(Inserted[0])
      ensures old(Built) ==> heap == old(heap) && root == old(root)
    {
      while |heap| > 1
        invariant Holds(heap, Inserted)
        invariant old(|heap|) <= 1 ==> heap == old(heap)
        modifies this`heap
        decreases |heap|
      {
        var _ := MergeLightest();
      }
      if heap != [] {
        root := Some(heap[0]);
      }
      Built := true;
      Finished(heap, Inserted);
    }

    /** Decodes `bits` against the built tree, one symbol per completed
        root-to-leaf path (see Codes.Walk and Codes.DecodeTree). */
    method Decode(bits: seq<bool>) returns (r: Result<seq<char>>)
      ensures r == DecodeTree(root, bits)
    {
      if |bits| == 0 {
        return Ok([]);
      }
      if root.None? {
        return Err(EmptyTree);
      }
      if root.value.Leaf? {
        return Err(SingleLeafTree);
      }
      var t := root.value;
      var current := t;
      var out: seq<char> := [];
      var i := 0;
      assert bits[i..] == bits;
      while i < |bits|
        invariant i <= |bits|
        invariant current.Internal?
        invariant out + Walk(t, current, bits[i..]) == Walk(t, t, bits)
      {
        ghost var from := current;
        assert bits[i..][1..] == bits[i + 1..];
        if bits[i] {
          current := current.right;
        } else {
          current := current.left;
        }
        if current.Leaf? {
          ghost var tail := Walk(t, t, bits[i + 1..]);
          assert Walk(t, from, bits[i..]) == [current.sym] + tail;
          assert out + [current.sym] + tail == out + ([current.sym] + tail);
          out := out + [current.sym];
          current := t;
        } else {
          assert Walk(t, from, bits[i..]) == Walk(t, current, bits[i + 1..]);
        }
        i := i + 1;
      }
      assert bits[i..] == [] && out + [] == out;
      r := Ok(out);
    }

    /** Decodes a string of bit characters: '1' is a one, any other character
        a zero. */
    method DecodeHelper(bitstring: string) returns (r: Result<seq<char>>)
      ensures r == DecodeTree(root, BitsOf(bitstring))
    {
      var n := |bitstring|;
      if n == 0 {
        return Ok([]);
      }
      var bools := new bool[n];
      for i := 0 to n
        invariant forall j | 0 <= j < i :: bools[j] == (bitstring[j] == '1')
      {
        bools[i] := bitstring[i] == '1';
      }
      assert bools[..] == BitsOf(bitstring);
      r := Decode(bools[..]);
    }
  }
}
