/** Decoding a bit stream against a code tree, the tree's own codes, and the
    round trip between them. */
module Codes {
  import opened Nodes

  datatype DecodeError =
    | EmptyTree       // no tree has been built
    | SingleLeafTree  // the root is a leaf: there is no child to step into

  datatype Result<T> = Ok(value: T) | Err(error: DecodeError)

  /** The symbols decoded from `bits` when the walk stands at `cur`: 1 steps
      right, 0 steps left; reaching a leaf emits its symbol and puts the walk
      back at `root`. Bits left over on an unfinished path emit nothing. */
  function Walk(root: Node, cur: Node, bits: seq<bool>): (out: seq<char>)
    requires root.Internal? && cur.Internal?
    ensures |out| <= |bits|
    decreases |bits|
  {
    if bits == [] then []
    else
      var next := if bits[0] then cur.right else cur.left;
      if next.Leaf? then [next.sym] + Walk(root, root, bits[1..])
      else Walk(root, next, bits[1..])
  }

  /** Decoding against the tree held as `root`. With no bits nothing is
      stepped into, so nothing can go wrong; otherwise an absent root or a
      root that is a leaf is an error. */
  function DecodeTree(root: Option<Node>, bits: seq<bool>): Result<seq<char>>
  {
    if bits == [] then Ok([])
    else match root
      case None => Err(EmptyTree)
      case Some(t) => if t.Leaf? then Err(SingleLeafTree) else Ok(Walk(t, t, bits))
  }

  /** The bits a string of '0'/'1' characters stands for: '1' is a one and
      every other character a zero. */
  function BitsOf(s: string): seq<bool>
  {
    seq(|s|, i requires 0 <= i < |s| => s[i] == '1')
  }

  /** The symbols on the leaves of `t`. */
  function Symbols(t: Node): set<char>
  {
    match t
    case Leaf(c, _) => {c}
    case Internal(_, l, r) => Symbols(l) + Symbols(r)
  }

  /** The node reached from `t` along the path `p`, if the path never tries
      to step out of a leaf. */
  function Follow(t: Node, p: seq<bool>): Option<Node>
    decreases |p|
  {
    if p == [] then Some(t)
    else if t.Leaf? then None
    else Follow(if p[0] then t.right else t.left, p[1..])
  }

  /** The path from `t` to the leftmost leaf that holds `c`. */
  function Code(t: Node, c: char): Option<seq<bool>>
  {
    match t
    case Leaf(s, _) => if s == c then Some([]) else None
    case Internal(_, l, r) =>
      match Code(l, c)
      case Some(p) => Some([false] + p)
      case None =>
        match Code(r, c)
        case Some(p) => Some([true] + p)
        case None => None
  }

  /** The concatenated codes of the symbols of `msg`. */
  function Encode(t: Node, msg: seq<char>): Option<seq<bool>>
  {
    if msg == [] then Some([])
    else match (Code(t, msg[0]), Encode(t, msg[1..]))
      case (Some(p), Some(q)) => Some(p + q)
      case _ => None
  }

  /** A symbol has a code exactly when it is on a leaf, and its code leads to
      a leaf that holds it. */
  lemma {:induction false} CodeLeadsToLeaf(t: Node, c: char)
    ensures Code(t, c).Some? <==> c in Symbols(t)
    ensures Code(t, c).Some? ==>
              var n := Follow(t, Code(t, c).value);
              n.Some? && n.value.Leaf? && n.value.sym == c
  {
    match t
    case Leaf(_, _) =>
    case Internal(_, l, r) =>
      CodeLeadsToLeaf(l, c);
      CodeLeadsToLeaf(r, c);
      match Code(l, c)
      case Some(p) =>
        assert ([false] + p)[1..] == p;
      case None =>
        if Code(r, c).Some? {
          assert ([true] + Code(r, c).value)[1..] == Code(r, c).value;
        }
  }

  /** A message can be encoded exactly when all its symbols are on leaves. */
  lemma {:induction false} EncodeDefined(t: Node, msg: seq<char>)
    ensures Encode(t, msg).Some? <==> forall i | 0 <= i < |msg| :: msg[i] in Symbols(t)
  {
    if msg != [] {
      EncodeDefined(t, msg[1..]);
      CodeLeadsToLeaf(t, msg[0]);
      if forall i | 0 <= i < |msg| :: msg[i] in Symbols(t) {
        assert forall i | 0 <= i < |msg| - 1 :: msg[1..][i] == msg[i + 1];
      } else {
        var i :| 0 <= i < |msg| && msg[i] !in Symbols(t);
        if i > 0 {
          assert msg[1..][i - 1] == msg[i];
        }
      }
    }
  }

  /** The code of a symbol, read from an internal node, emits that symbol and
      puts the walk back at the root. */
  lemma {:induction false} WalkCode(root: Node, cur: Node, c: char, rest: seq<bool>)
    requires root.Internal? && cur.Internal?
    requires Code(cur, c).Some?
    ensures Walk(root, cur, Code(cur, c).value + rest) == [c] + Walk(root, root, rest)
  {
    var l, r := cur.left, cur.right;
    match Code(l, c)
    case Some(p) =>
      assert ([false] + p + rest)[1..] == p + rest;
      if l.Internal? {
        WalkCode(root, l, c, rest);
      } else {
        assert p == [] && l.sym == c;
      }
    case None =>
      var p := Code(r, c).value;
      assert ([true] + p + rest)[1..] == p + rest;
      if r.Internal? {
        WalkCode(root, r, c, rest);
      } else {
        assert p == [] && r.sym == c;
      }
  }

  /** Decoding an encoded message, followed by any further bits, gives the
      message back followed by whatever those bits decode to. */
  lemma {:induction false} WalkEncode(t: Node, msg: seq<char>, rest: seq<bool>)
    requires t.Internal?
    requires Encode(t, msg).Some?
    ensures Walk(t, t, Encode(t, msg).value + rest) == msg + Walk(t, t, rest)
  {
    if msg != [] {
      var p := Code(t, msg[0]).value;
      var q := Encode(t, msg[1..]).value;
      assert Encode(t, msg) == Some(p + q);
      assert p + q + rest == p + (q + rest);
      WalkCode(t, t, msg[0], q + rest);
      WalkEncode(t, msg[1..], rest);
      calc {
        Walk(t, t, p + (q + rest));
        [msg[0]] + Walk(t, t, q + rest);
        [msg[0]] + (msg[1..] + Walk(t, t, rest));
        { assert msg == [msg[0]] + msg[1..]; }
        msg + Walk(t, t, rest);
      }
    } else {
      assert Encode(t, msg).value + rest == rest;
    }
  }

  /** Bits that stop part-way down a path, on an internal node, emit nothing. */
  lemma {:induction false} UnfinishedPathSilent(root: Node, cur: Node, q: seq<bool>)
    requires root.Internal? && cur.Internal?
    requires Follow(cur, q).Some? && Follow(cur, q).value.Internal?
    ensures Walk(root, cur, q) == []
    decreases |q|
  {
    if q != [] {
      var next := if q[0] then cur.right else cur.left;
      if next.Leaf? {
        assert false;
      }
      UnfinishedPathSilent(root, next, q[1..]);
    }
  }

  /** The round trip: for a tree with an internal root, a message whose
      symbols are all on leaves is encoded, and the encoding followed by an
      unfinished path decodes to exactly that message. */
  lemma DecodeRoundTrip(t: Node, msg: seq<char>, tail: seq<bool>)
    requires t.Internal?
    requires forall i | 0 <= i < |msg| :: msg[i] in Symbols(t)
    requires Follow(t, tail).Some? && Follow(t, tail).value.Internal?
    ensures Encode(t, msg).Some?
    ensures DecodeTree(Some(t), Encode(t, msg).value + tail) == Ok(msg)
  {
    EncodeDefined(t, msg);
    WalkEncode(t, msg, tail);
    UnfinishedPathSilent(t, t, tail);
    assert msg + [] == msg;
  }

  /** No leaf's path is a proper prefix of another path: once a walk reaches
      a leaf there is nothing further to follow. */
  lemma {:induction false} PrefixFree(t: Node, p: seq<bool>, q: seq<bool>)
    requires Follow(t, p).Some? && Follow(t, p).value.Leaf?
    requires q != []
    ensures Follow(t, p + q).None?
    decreases |p|
  {
    if p != [] {
      assert (p + q)[1..] == p[1..] + q;
      PrefixFree(if p[0] then t.right else t.left, p[1..], q);
    } else {
      assert p + q == q;
    }
  }

  // The source does not tag its nodes: an internal node is one whose
  // character is '\0'. A leaf that holds '\0' is therefore taken for an
  // internal node.

  /** The character the source stores in a node. */
  function Data(n: Node): char
  {
    match n
    case Leaf(c, _) => c
    case Internal(_, _, _) => '\0'
  }

  /** The decode walk as the source runs it: the node stepped into counts as
      a leaf when its character is not '\0'. Stepping out of a node that has
      no children (a leaf taken for internal) is a fault, here None. */
  function WalkAsWritten(root: Node, cur: Node, bits: seq<bool>): Option<seq<char>>
    decreases |bits|
  {
    if bits == [] then Some([])
    else if cur.Leaf? then None
    else
      var next := if bits[0] then cur.right else cur.left;
      if Data(next) != '\0' then
        match WalkAsWritten(root, root, bits[1..])
        case Some(out) => Some([Data(next)] + out)
        case None => None
      else WalkAsWritten(root, next, bits[1..])
  }

  /** When no leaf holds '\0' the source's walk and the tagged walk agree. */
  lemma {:induction false} WalkAsWrittenAgrees(root: Node, cur: Node, bits: seq<bool>)
    requires root.Internal? && cur.Internal?
    requires '\0' !in Symbols(root) && '\0' !in Symbols(cur)
    ensures WalkAsWritten(root, cur, bits) == Some(Walk(root, cur, bits))
    decreases |bits|
  {
    if bits != [] {
      var next := if bits[0] then cur.right else cur.left;
      if next.Leaf? {
        WalkAsWrittenAgrees(root, root, bits[1..]);
      } else {
        WalkAsWrittenAgrees(root, next, bits[1..]);
      }
    }
  }

  /** A leaf that holds '\0' breaks the round trip of the source's walk: its
      one-bit code decodes to nothing, and a second bit faults. */
  lemma NulLeafLost()
    ensures var t := Internal(1, Leaf('\0', 0), Leaf('a', 1));
            && Encode(t, ['\0']) == Some([false])
            && Walk(t, t, [false]) == ['\0']
            && WalkAsWritten(t, t, [false]) == Some([])
            && WalkAsWritten(t, t, [false, false]) == None
  {
    var t := Internal(1, Leaf('\0', 0), Leaf('a', 1));
    assert [false][1..] == [];
    assert [false, false][1..] == [false];
    assert Encode(t, ['\0'][1..]) == Some([]);
    assert Code(t, '\0') == Some([false] + []);
    assert [false] + [] + [] == [false];
  }
}
