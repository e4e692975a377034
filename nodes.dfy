/** Nodes of the Huffman code tree, and what a collection of them holds. */
module Nodes {

  datatype Option<T> = None | Some(value: T)

  /** A code-tree node. The tag says whether it is a leaf; the source marks
      internal nodes instead by the character '\0' (see module Codes). A node
      never changes once its children are set, so it is a value here. */
  datatype Node =
    | Leaf(sym: char, freq: int)
    | Internal(freq: int, left: Node, right: Node)

  /** The leaves under `n`, with multiplicity. */
  function Leaves(n: Node): multiset<Node>
  {
    match n
    case Leaf(_, _) => multiset{n}
    case Internal(_, l, r) => Leaves(l) + Leaves(r)
  }

  /** Sum of the frequencies of the leaves under `n`. */
  function LeafTotal(n: Node): int
  {
    match n
    case Leaf(_, f) => f
    case Internal(_, l, r) => LeafTotal(l) + LeafTotal(r)
  }

  /** What the build loop guarantees of every node it creates: the node's
      frequency is the sum of its children's, and the left child (popped
      first) weighs no more than the right child (popped second). */
  predicate WellFormed(n: Node)
  {
    match n
    case Leaf(_, _) => true
    case Internal(f, l, r) =>
      f == l.freq + r.freq && l.freq <= r.freq && WellFormed(l) && WellFormed(r)
  }

  /** Every internal node's frequency is the total of the leaves beneath it. */
  lemma {:induction false} WellFormedFreq(n: Node)
    requires WellFormed(n)
    ensures n.freq == LeafTotal(n)
  {
    match n
    case Leaf(_, _) =>
    case Internal(_, l, r) =>
      WellFormedFreq(l);
      WellFormedFreq(r);
  }

  /** Only leaves are in a leaf bag; a leaf has one leaf, an internal node at least two. */
  lemma {:induction false} LeafCount(n: Node)
    ensures forall x | x in Leaves(n) :: x.Leaf?
    ensures n.Leaf? ==> |Leaves(n)| == 1
    ensures n.Internal? ==> |Leaves(n)| >= 2
  {
    match n
    case Leaf(_, _) =>
    case Internal(_, l, r) =>
      LeafCount(l);
      LeafCount(r);
  }

  /** The leaves under all nodes of `s`. */
  function Bag(s: seq<Node>): multiset<Node>
  {
    if s == [] then multiset{} else Leaves(s[0]) + Bag(s[1..])
  }

  /** Sum of the frequencies of the nodes of `s` themselves. */
  function Total(s: seq<Node>): int
  {
    if s == [] then 0 else s[0].freq + Total(s[1..])
  }

  /** Appending collections appends their leaves and adds their totals. */
  lemma {:induction false} BagTotalAppend(a: seq<Node>, b: seq<Node>)
    ensures Bag(a + b) == Bag(a) + Bag(b)
    ensures Total(a + b) == Total(a) + Total(b)
  {
    if a == [] {
      assert a + b == b;
    } else {
      assert (a + b)[1..] == a[1..] + b;
      BagTotalAppend(a[1..], b);
    }
  }

  /** The leaves and the total frequency of a collection do not depend on its order. */
  lemma {:induction false} BagTotalPerm(a: seq<Node>, b: seq<Node>)
    requires multiset(a) == multiset(b)
    ensures Bag(a) == Bag(b)
    ensures Total(a) == Total(b)
    decreases |a|
  {
    if a == [] {
      assert |multiset(b)| == 0;
    } else {
      var k := FindIn(b, a[0]);
      TailPerm(a, b, k);
      BagTotalPerm(a[1..], b[..k] + b[k + 1..]);
      BagTotalSplit(b, k);
    }
  }

  /** A slot of `s` that holds `x`. */
  lemma FindIn(s: seq<Node>, x: Node) returns (k: nat)
    requires x in multiset(s)
    ensures k < |s| && s[k] == x
  {
    k :| 0 <= k < |s| && s[k] == x;
  }

  /** Taking the first node out of `a` and the same node out of slot `k` of
      `b` leaves equal multisets. */
  lemma TailPerm(a: seq<Node>, b: seq<Node>, k: nat)
    requires multiset(a) == multiset(b) && a != []
    requires k < |b| && b[k] == a[0]
    ensures multiset(a[1..]) == multiset(b[..k] + b[k + 1..])
  {
    RemoveAt(a, 0);
    RemoveAt(b, k);
    assert a[..0] + a[1..] == a[1..];
  }

  /** Taking the node at `k` out of a collection takes out its leaves and its frequency. */
  lemma BagTotalSplit(s: seq<Node>, k: nat)
    requires k < |s|
    ensures Bag(s) == Leaves(s[k]) + Bag(s[..k] + s[k + 1..])
    ensures Total(s) == s[k].freq + Total(s[..k] + s[k + 1..])
  {
    assert s == s[..k] + s[k..];
    assert s[k..][1..] == s[k + 1..];
    BagTotalAppend(s[..k], s[k..]);
    BagTotalAppend(s[..k], s[k + 1..]);
  }

  /** Cutting slot k out of a sequence takes one copy of its node out of the multiset. */
  lemma RemoveAt(s: seq<Node>, k: nat)
    requires k < |s|
    ensures multiset(s[..k] + s[k + 1..]) == multiset(s) - multiset{s[k]}
  {
    assert s == s[..k] + [s[k]] + s[k + 1..];
  }

  /** Adding a node to a collection, in any order, adds its leaves and its
      frequency and nothing else. */
  lemma Pushed(before: seq<Node>, node: Node, after: seq<Node>)
    requires multiset(after) == multiset(before + [node])
    ensures Bag(after) == Bag(before) + Leaves(node)
    ensures Total(after) == Total(before) + node.freq
    ensures forall x | x in after :: x in before || x == node
  {
    var grown := before + [node];
    assert Bag(after) == Bag(grown) && Total(after) == Total(grown) by {
      BagTotalPerm(after, grown);
    }
    assert Bag(grown) == Bag(before) + Leaves(node) && Total(grown) == Total(before) + node.freq by {
      BagTotalAppend(before, [node]);
      BagSingle(node);
    }
    forall x | x in after
      ensures x in before || x == node
    {
      assert x in multiset(grown);
    }
  }

  /** One merge of the build loop: taking out `l` and `r` and putting back
      the node that joins them keeps the leaves, the total frequency and the
      well-formedness of a collection, provided `l` weighs no more than `r`. */
  lemma MergeKeeps(full: seq<Node>, rest: seq<Node>, grown: seq<Node>, l: Node, r: Node)
    requires forall x | x in full :: WellFormed(x)
    requires l.freq <= r.freq
    requires multiset(full) == multiset(rest) + multiset{l, r}
    requires multiset(grown) == multiset(rest) + multiset{Internal(l.freq + r.freq, l, r)}
    ensures Bag(grown) == Bag(full) && Total(grown) == Total(full)
    ensures forall x | x in grown :: WellFormed(x)
  {
    var p := Internal(l.freq + r.freq, l, r);
    MergeBagTotal(full, rest, grown, l, r);
    assert l in multiset(full) && r in multiset(full);
    forall x | x in grown
      ensures WellFormed(x)
    {
      assert x in multiset(grown);
      if x != p {
        assert x in multiset(rest);
        assert x in multiset(full);
      }
    }
  }

  /** The leaves and total frequency half of MergeKeeps. */
  lemma MergeBagTotal(full: seq<Node>, rest: seq<Node>, grown: seq<Node>, l: Node, r: Node)
    requires multiset(full) == multiset(rest) + multiset{l, r}
    requires multiset(grown) == multiset(rest) + multiset{Internal(l.freq + r.freq, l, r)}
    ensures Bag(grown) == Bag(full) && Total(grown) == Total(full)
  {
    var p := Internal(l.freq + r.freq, l, r);
    assert Bag(full) == Bag([l, r] + rest) && Total(full) == Total([l, r] + rest) by {
      assert multiset(full) == multiset([l, r] + rest);
      BagTotalPerm(full, [l, r] + rest);
    }
    assert Bag(grown) == Bag([p] + rest) && Total(grown) == Total([p] + rest) by {
      assert multiset(grown) == multiset([p] + rest);
      BagTotalPerm(grown, [p] + rest);
    }
    assert Bag([l, r] + rest) == Leaves(l) + Leaves(r) + Bag(rest)
        && Total([l, r] + rest) == l.freq + r.freq + Total(rest) by {
      BagTotalAppend([l, r], rest);
      BagPair(l, r);
    }
    assert Bag([p] + rest) == Leaves(l) + Leaves(r) + Bag(rest)
        && Total([p] + rest) == l.freq + r.freq + Total(rest) by {
      BagTotalAppend([p], rest);
      BagSingle(p);
    }
  }

  /** A collection of one node holds that node's leaves and frequency. */
  lemma BagSingle(x: Node)
    ensures Bag([x]) == Leaves(x) && Total([x]) == x.freq
  {
    assert [x][1..] == [];
  }

  /** A collection of two nodes holds both nodes' leaves and frequencies. */
  lemma BagPair(x: Node, y: Node)
    ensures Bag([x, y]) == Leaves(x) + Leaves(y) && Total([x, y]) == x.freq + y.freq
  {
    assert [x, y][1..] == [y];
    BagSingle(y);
  }

  /** A well-formed node holding exactly the leaves of `inserted` has their
      total frequency, and when there is one leaf it is that leaf. */
  lemma SoleNode(n: Node, inserted: seq<Node>)
    requires WellFormed(n)
    requires forall x | x in inserted :: x.Leaf?
    requires Bag([n]) == Bag(inserted) && Total([n]) == Total(inserted)
    ensures Leaves(n) == multiset(inserted)
    ensures n.freq == Total(inserted)
    ensures |inserted| == 1 ==> n == inserted[0]
  {
    assert [n][1..] == [];
    BagOfLeaves(inserted);
    if |inserted| == 1 {
      LeafCount(n);
      assert inserted == [inserted[0]];
    }
  }

  /** A collection has leaves exactly when it has nodes. */
  lemma BagEmpty(s: seq<Node>)
    ensures Bag(s) == multiset{} <==> s == []
  {
    if s != [] {
      LeafCount(s[0]);
    }
  }

  /** A collection made of leaves only is its own leaf bag. */
  lemma {:induction false} BagOfLeaves(s: seq<Node>)
    requires forall x | x in s :: x.Leaf?
    ensures Bag(s) == multiset(s)
  {
    if s != [] {
      BagOfLeaves(s[1..]);
      assert s == [s[0]] + s[1..];
    }
  }
}
