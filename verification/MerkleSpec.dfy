/** The dense commitment tree: what the sparse computations stand for. */
module MerkleSpec {
  import opened Basics
  import opened ModArith
  import opened Fields
  import Constants

  /** The two-input node hash, an arbitrary function on field elements. */
  type NodeHash = (Fr, Fr) -> Fr

  function Combine(h: NodeHash, left: Fr, right: Fr): Fr {
    h(left, right)
  }

  type Leaves = map<int, Bytes>

  function FromBytes(b: Bytes): Fr {
    LeValue(b) % FR_MODULUS
  }

  function ToBytes(v: Fr): Bytes {
    LeBytes(v, 32)
  }

  /** A field element survives its 32-byte form. */
  lemma BytesRoundTrip(v: Fr)
    ensures FromBytes(ToBytes(v)) == v
  {
    Constants.FieldSize();
    Pow2Monotone(255, 256);
    hide LeBytes, LeValue, Pow2;
    LeValueOfBytes(v, 32);
    RemainderUnique(FR_MODULUS, v, 0, v);
  }

  // ---------------------------------------------------------------- the dense tree

  /** An index without a commitment holds zero. */
  function Leaf(leaves: Leaves, i: int): Fr {
    if i in leaves then FromBytes(leaves[i]) else 0
  }

  /** The root of an empty subtree of the given height. */
  function Zero(h: NodeHash, level: nat): Fr {
    if level == 0 then 0 else Combine(h, Zero(h, level - 1), Zero(h, level - 1))
  }

  function Node(h: NodeHash, leaves: Leaves, level: nat, i: int): Fr {
    if level == 0 then Leaf(leaves, i)
    else Combine(h, Node(h, leaves, level - 1, 2 * i), Node(h, leaves, level - 1, 2 * i + 1))
  }

  /** A parent is the hash of its even child and its odd child, in this order. */
  lemma ParentIsHash(h: NodeHash, leaves: Leaves, level: nat, i: int)
    ensures Node(h, leaves, level + 1, i) == h(Node(h, leaves, level, 2 * i), Node(h, leaves, level, 2 * i + 1))
  {
  }

  /** The ancestor of a leaf index. */
  function Up(i: int, level: nat): int {
    if level == 0 then i else Up(i, level - 1) / 2
  }

  function Sibling(i: int): int {
    if i % 2 == 0 then i + 1 else i - 1
  }

  lemma {:induction false} UpShift(i: int, level: nat)
    ensures Up(i / 2, level) == Up(i, level + 1)
  {
    if level == 0 {
    } else {
      UpShift(i, level - 1);
    }
  }

  /** The ancestor is zero exactly for the indices of the tree; it is never past it below the bound. */
  lemma {:induction false} UpRange(i: int, level: nat)
    ensures Up(i, level) == 0 <==> 0 <= i < Pow2(level)
    decreases level
  {
    if level == 0 {
    } else {
      UpShift(i, level - 1);
      UpRange(i / 2, level - 1);
    }
  }

  /** A node with no leaf below it is an empty subtree. */
  lemma {:induction false} EmptySubtree(h: NodeHash, leaves: Leaves, level: nat, i: int)
    requires forall j :: j in leaves ==> Up(j, level) != i
    ensures Node(h, leaves, level, i) == Zero(h, level)
  {
    if level == 0 {
    } else {
      forall j | j in leaves ensures Up(j, level - 1) != 2 * i && Up(j, level - 1) != 2 * i + 1 {
        assert Up(j, level) == Up(j, level - 1) / 2;
      }
      EmptySubtree(h, leaves, level - 1, 2 * i);
      EmptySubtree(h, leaves, level - 1, 2 * i + 1);
    }
  }

  // ---------------------------------------------------------------- sparse levels

  ghost function Ancestors(leaves: Leaves, level: nat): set<int> {
    set j | j in leaves :: Up(j, level)
  }

  /** A sparse level holds exactly the ancestors of the leaves, with their dense values. */
  ghost predicate IsLevel(h: NodeHash, leaves: Leaves, level: nat, nodes: map<int, Fr>) {
    && nodes.Keys == Ancestors(leaves, level)
    && forall i :: i in nodes ==> nodes[i] == Node(h, leaves, level, i)
  }

  function Lookup(nodes: map<int, Fr>, i: int, default: Fr): Fr {
    if i in nodes then nodes[i] else default
  }

  lemma LookupIsNode(h: NodeHash, leaves: Leaves, level: nat, nodes: map<int, Fr>, i: int)
    requires IsLevel(h, leaves, level, nodes)
    ensures Lookup(nodes, i, Zero(h, level)) == Node(h, leaves, level, i)
  {
    if i !in nodes {
      forall j | j in leaves ensures Up(j, level) != i {
        assert Up(j, level) in Ancestors(leaves, level);
      }
      EmptySubtree(h, leaves, level, i);
    }
  }

  ghost function Parents(s: set<int>): set<int> {
    set i | i in s :: i / 2
  }

  lemma ParentsOfAncestors(leaves: Leaves, level: nat)
    ensures Parents(Ancestors(leaves, level)) == Ancestors(leaves, level + 1)
  {
    forall x | x in Ancestors(leaves, level + 1) ensures x in Parents(Ancestors(leaves, level)) {
      var j :| j in leaves && Up(j, level + 1) == x;
      assert Up(j, level) in Ancestors(leaves, level);
    }
  }

  lemma ParentsAdd(s: set<int>, i: int)
    ensures Parents(s + {i}) == Parents(s) + {i / 2}
  {
    var l, r := Parents(s + {i}), Parents(s) + {i / 2};
    forall x | x in l ensures x in r {
      var j :| j in s + {i} && j / 2 == x;
    }
    forall x | x in r ensures x in l {
      if x == i / 2 {
        assert i in s + {i};
      } else {
        var j :| j in s && j / 2 == x;
        assert j in s + {i};
      }
    }
  }

  lemma {:induction false} ParentsShrink(s: set<int>)
    ensures |Parents(s)| <= |s|
  {
    if s == {} {
      assert Parents(s) == {};
    } else {
      var i := AMember(s);
      ParentsShrink(s - {i});
      assert s == (s - {i}) + {i};
      ParentsAdd(s - {i}, i);
    }
  }

  lemma AncestorsAtLeaves(leaves: Leaves)
    ensures Ancestors(leaves, 0) == leaves.Keys
  {
    forall j | j in leaves ensures j in Ancestors(leaves, 0) {
      assert Up(j, 0) == j;
    }
  }

  lemma {:induction false} AncestorsBound(leaves: Leaves, level: nat)
    ensures |Ancestors(leaves, level)| <= |leaves|
  {
    if level == 0 {
      AncestorsAtLeaves(leaves);
    } else {
      AncestorsBound(leaves, level - 1);
      ParentsOfAncestors(leaves, level - 1);
      ParentsShrink(Ancestors(leaves, level - 1));
    }
  }

  // ---------------------------------------------------------------- paths

  /** The sibling values from a leaf to the root. */
  function Path(h: NodeHash, leaves: Leaves, depth: nat, index: int): (r: seq<Fr>)
    ensures |r| == depth
    ensures forall k: nat :: k < depth ==> r[k] == Node(h, leaves, k, Sibling(Up(index, k)))
  {
    seq(depth, (k: int) requires 0 <= k < depth => Node(h, leaves, k, Sibling(Up(index, k))))
  }

  /** Hashing a value up a path; the parity of the index says on which side it stands. */
  function Fold(h: NodeHash, value: Fr, index: int, path: seq<Fr>): Fr
    decreases |path|
  {
    if path == [] then value
    else Fold(h, if index % 2 == 0 then Combine(h, value, path[0]) else Combine(h, path[0], value), index / 2, path[1..])
  }

  /** One step of a fold: a value of even index is hashed on the left, one of odd index on the right. */
  lemma FoldStep(h: NodeHash, value: Fr, index: int, sibling: Fr, rest: seq<Fr>)
    ensures Fold(h, value, index, [sibling] + rest)
         == Fold(h, if index % 2 == 0 then h(value, sibling) else h(sibling, value), index / 2, rest)
    ensures Fold(h, value, index, []) == value
  {
    assert ([sibling] + rest)[1..] == rest;
  }

  /** A node's parent is the hash of the node and its sibling, in index order. */
  lemma ParentNode(h: NodeHash, leaves: Leaves, level: nat, i: int)
    ensures var v, w := Node(h, leaves, level, i), Node(h, leaves, level, Sibling(i));
            Node(h, leaves, level + 1, i / 2) == if i % 2 == 0 then Combine(h, v, w) else Combine(h, w, v)
  {
    assert 2 * (i / 2) == if i % 2 == 0 then i else i - 1;
  }

  /** Folding a node along the rest of a path gives the ancestor at the end of it. */
  lemma {:induction false} FoldSegment(h: NodeHash, leaves: Leaves, depth: nat, index: int, lo: nat, hi: nat)
    requires lo <= hi <= depth
    ensures Fold(h, Node(h, leaves, lo, Up(index, lo)), Up(index, lo), Path(h, leaves, depth, index)[lo..hi])
         == Node(h, leaves, hi, Up(index, hi))
    decreases hi - lo
  {
    hide Node, Path;
    if lo >= hi {
    } else {
      var path := Path(h, leaves, depth, index);
      var seg := path[lo..hi];
      ParentNode(h, leaves, lo, Up(index, lo));
      FoldSegment(h, leaves, depth, index, lo + 1, hi);
      assert seg[0] == Node(h, leaves, lo, Sibling(Up(index, lo)));
      assert seg[1..] == path[lo + 1..hi];
    }
  }

  /** For every index of the tree, occupied or empty, the leaf folds with its path to the root. */
  lemma PathFoldsToRoot(h: NodeHash, leaves: Leaves, depth: nat, index: int)
    requires 0 <= index < Pow2(depth)
    ensures Fold(h, Leaf(leaves, index), index, Path(h, leaves, depth, index)) == Node(h, leaves, depth, 0)
  {
    UpRange(index, depth);
    FoldSegment(h, leaves, depth, index, 0, depth);
    assert Path(h, leaves, depth, index)[0..depth] == Path(h, leaves, depth, index);
  }

  // ---------------------------------------------------------------- locality of insertion

  lemma {:induction false} InsertElsewhere(h: NodeHash, leaves: Leaves, i: int, c: Bytes, level: nat, n: int)
    requires Up(i, level) != n
    ensures Node(h, leaves[i := c], level, n) == Node(h, leaves, level, n)
  {
    if level == 0 {
    } else {
      assert Up(i, level) == Up(i, level - 1) / 2;
      InsertElsewhere(h, leaves, i, c, level - 1, 2 * n);
      InsertElsewhere(h, leaves, i, c, level - 1, 2 * n + 1);
    }
  }

  /** Inserting at i does not touch the path of i. */
  lemma InsertKeepsOwnPath(h: NodeHash, leaves: Leaves, depth: nat, i: int, c: Bytes)
    ensures Path(h, leaves[i := c], depth, i) == Path(h, leaves, depth, i)
  {
    forall k: nat | k < depth
      ensures Path(h, leaves[i := c], depth, i)[k] == Path(h, leaves, depth, i)[k]
    {
      InsertElsewhere(h, leaves, i, c, k, Sibling(Up(i, k)));
    }
  }

  /** Every node above i becomes the new leaf folded along the old path. */
  lemma InsertedAncestor(h: NodeHash, leaves: Leaves, depth: nat, i: int, c: Bytes, level: nat)
    requires level <= depth
    ensures Node(h, leaves[i := c], level, Up(i, level)) == Fold(h, FromBytes(c), i, Path(h, leaves, depth, i)[..level])
  {
    InsertKeepsOwnPath(h, leaves, depth, i, c);
    FoldSegment(h, leaves[i := c], depth, i, 0, level);
    assert Path(h, leaves, depth, i)[0..level] == Path(h, leaves, depth, i)[..level];
  }

  /** The new root is the new leaf folded with the old path. */
  lemma InsertedRoot(h: NodeHash, leaves: Leaves, depth: nat, i: int, c: Bytes)
    requires 0 <= i < Pow2(depth)
    ensures Node(h, leaves[i := c], depth, 0) == Fold(h, FromBytes(c), i, Path(h, leaves, depth, i))
  {
    UpRange(i, depth);
    InsertedAncestor(h, leaves, depth, i, c, depth);
    assert Path(h, leaves, depth, i)[..depth] == Path(h, leaves, depth, i);
  }

  lemma {:induction false} MeetAbove(i: int, j: int, low: nat, high: nat)
    requires low <= high && Up(i, low) == Up(j, low)
    ensures Up(i, high) == Up(j, high)
  {
    if low >= high {
    } else {
      MeetAbove(i, j, low, high - 1);
    }
  }

  /** Two different indices meet at exactly one level, where their ancestors are siblings. */
  lemma {:induction false} MeetingLevel(i: int, j: int, depth: nat) returns (k: nat)
    requires i != j && Up(i, depth) == Up(j, depth)
    ensures k < depth && Up(i, k) == Sibling(Up(j, k))
    ensures forall m: nat :: m < depth && m != k ==> Up(i, m) != Sibling(Up(j, m))
  {
    if Up(i, depth - 1) != Up(j, depth - 1) {
      k := depth - 1;
      forall m: nat | m < depth - 1 ensures Up(i, m) != Sibling(Up(j, m)) {
        if Up(i, m) == Sibling(Up(j, m)) {
          MeetAbove(i, j, m + 1, depth - 1);
        }
      }
    } else {
      k := MeetingLevel(i, j, depth - 1);
    }
  }

  /** Inserting at i changes the path of another index j at one level only, where the two paths meet;
      the new sibling there is the new leaf folded along the old path of i. */
  lemma InsertChangesOneSibling(h: NodeHash, leaves: Leaves, depth: nat, i: int, j: int, c: Bytes) returns (k: nat)
    requires 0 <= i < Pow2(depth) && 0 <= j < Pow2(depth) && i != j
    ensures k < depth && Up(i, k) == Sibling(Up(j, k))
    ensures Path(h, leaves[i := c], depth, j)
         == Path(h, leaves, depth, j)[k := Fold(h, FromBytes(c), i, Path(h, leaves, depth, i)[..k])]
  {
    UpRange(i, depth);
    UpRange(j, depth);
    k := MeetingLevel(i, j, depth);
    var old', new' := Path(h, leaves, depth, j), Path(h, leaves[i := c], depth, j);
    InsertedAncestor(h, leaves, depth, i, c, k);
    forall m: nat | m < depth && m != k ensures new'[m] == old'[m] {
      InsertElsewhere(h, leaves, i, c, m, Sibling(Up(j, m)));
    }
  }

  /** A run of insertions. */
  function InsertAll(leaves: Leaves, entries: seq<(int, Bytes)>): Leaves
    decreases |entries|
  {
    if entries == [] then leaves else InsertAll(leaves[entries[0].0 := entries[0].1], entries[1..])
  }

  ghost predicate DistinctIndices(entries: seq<(int, Bytes)>) {
    forall a, b :: 0 <= a < b < |entries| ==> entries[a].0 != entries[b].0
  }

  lemma {:induction false} InsertAllContents(leaves: Leaves, entries: seq<(int, Bytes)>)
    requires DistinctIndices(entries)
    ensures forall e :: e in entries ==> e.0 in InsertAll(leaves, entries) && InsertAll(leaves, entries)[e.0] == e.1
    ensures forall i :: i in InsertAll(leaves, entries) <==> i in leaves || exists e :: e in entries && e.0 == i
    ensures forall i :: i in leaves && (forall e :: e in entries ==> e.0 != i) ==> InsertAll(leaves, entries)[i] == leaves[i]
    decreases |entries|
  {
    if entries == [] {
    } else {
      var e, rest := entries[0], entries[1..];
      assert entries == [e] + rest;
      forall f | f in rest ensures f.0 != e.0 {
        var k :| 0 <= k < |rest| && rest[k] == f;
        assert entries[k + 1] == f;
      }
      InsertAllContents(leaves[e.0 := e.1], rest);
    }
  }

  /** Insertions at distinct indices commute: any order of them gives the same tree. */
  lemma InsertOrderFree(h: NodeHash, leaves: Leaves, depth: nat, a: seq<(int, Bytes)>, b: seq<(int, Bytes)>)
    requires DistinctIndices(a) && DistinctIndices(b) && multiset(a) == multiset(b)
    ensures InsertAll(leaves, a) == InsertAll(leaves, b)
    ensures Node(h, InsertAll(leaves, a), depth, 0) == Node(h, InsertAll(leaves, b), depth, 0)
  {
    forall e ensures e in a <==> e in b {
      assert e in multiset(a) <==> e in multiset(b);
    }
    InsertAllContents(leaves, a);
    InsertAllContents(leaves, b);
    var x, y := InsertAll(leaves, a), InsertAll(leaves, b);
    forall i ensures i in x <==> i in y {
      assert (exists e :: e in a && e.0 == i) <==> (exists e :: e in b && e.0 == i);
    }
    forall i | i in x ensures x[i] == y[i] {
      if e :| e in a && e.0 == i {
        assert x[i] == e.1 && y[i] == e.1;
      }
    }
  }

  // ---------------------------------------------------------------- binding

  datatype Collision = Collision(a: (Fr, Fr), b: (Fr, Fr))

  function Children(h: NodeHash, leaves: Leaves, level: nat, i: int): (Fr, Fr)
    requires level > 0
  {
    (Node(h, leaves, level - 1, 2 * i), Node(h, leaves, level - 1, 2 * i + 1))
  }

  /** The first pair of differing children on the way down to leaf j. */
  function FindCollision(h: NodeHash, x: Leaves, y: Leaves, level: nat, j: int): Collision {
    if level == 0 then Collision((0, 0), (0, 0)) else
    var a, b := Children(h, x, level, Up(j, level)), Children(h, y, level, Up(j, level));
    if a != b then Collision(a, b) else FindCollision(h, x, y, level - 1, j)
  }

  lemma {:induction false} NodeBindsLeaves(h: NodeHash, x: Leaves, y: Leaves, level: nat, j: int)
    requires Leaf(x, j) != Leaf(y, j)
    requires Node(h, x, level, Up(j, level)) == Node(h, y, level, Up(j, level))
    ensures var c := FindCollision(h, x, y, level, j); c.a != c.b && h(c.a.0, c.a.1) == h(c.b.0, c.b.1)
  {
    if level == 0 {
    } else {
      var i := Up(j, level);
      if Children(h, x, level, i) == Children(h, y, level, i) {
        assert Up(j, level - 1) == 2 * i || Up(j, level - 1) == 2 * i + 1;
        NodeBindsLeaves(h, x, y, level - 1, j);
      }
    }
  }

  /** The root binds the leaves: equal roots with a differing leaf yield an explicit hash collision. */
  lemma RootBindsLeaves(h: NodeHash, x: Leaves, y: Leaves, depth: nat, j: int)
    requires 0 <= j < Pow2(depth) && Leaf(x, j) != Leaf(y, j)
    requires Node(h, x, depth, 0) == Node(h, y, depth, 0)
    ensures var c := FindCollision(h, x, y, depth, j); c.a != c.b && h(c.a.0, c.a.1) == h(c.b.0, c.b.1)
  {
    UpRange(j, depth);
    NodeBindsLeaves(h, x, y, depth, j);
  }

  function Pair(value: Fr, index: int, sibling: Fr): (Fr, Fr) {
    if index % 2 == 0 then (value, sibling) else (sibling, value)
  }

  function PathCollision(h: NodeHash, v: Fr, p: seq<Fr>, w: Fr, q: seq<Fr>, index: int): Collision
    requires |p| == |q|
    decreases |p|
  {
    if p == [] then Collision((0, 0), (0, 0)) else
    var a, b := Pair(v, index, p[0]), Pair(w, index, q[0]);
    if Combine(h, a.0, a.1) == Combine(h, b.0, b.1) then Collision(a, b)
    else PathCollision(h, Combine(h, a.0, a.1), p[1..], Combine(h, b.0, b.1), q[1..], index / 2)
  }

  /** A path binds its leaf: two values that fold to one root at one index yield a collision,
      whatever the two paths are. */
  lemma {:induction false} PathBindsLeaf(h: NodeHash, v: Fr, p: seq<Fr>, w: Fr, q: seq<Fr>, index: int)
    requires |p| == |q| && v != w && Fold(h, v, index, p) == Fold(h, w, index, q)
    ensures var c := PathCollision(h, v, p, w, q, index); c.a != c.b && h(c.a.0, c.a.1) == h(c.b.0, c.b.1)
    decreases |p|
  {
    if p == [] {
    } else {
      var a, b := Pair(v, index, p[0]), Pair(w, index, q[0]);
      if Combine(h, a.0, a.1) != Combine(h, b.0, b.1) {
        PathBindsLeaf(h, Combine(h, a.0, a.1), p[1..], Combine(h, b.0, b.1), q[1..], index / 2);
      }
    }
  }
}
