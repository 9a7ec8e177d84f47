/** The sparse commitment tree of the wallet. */
module Merkle {
  import opened Basics
  import opened Fields
  import opened MerkleSpec

  lemma {:induction false} ZeroBytes(n: nat)
    ensures LeBytes(0, n) == seq(n, _ => 0)
  {
    if n == 0 {
    } else {
      ZeroBytes(n - 1);
    }
  }

  lemma LowestZero(h: NodeHash)
    ensures ToBytes(Zero(h, 0)) == seq(32, _ => 0)
  {
    hide LeBytes;
    ZeroBytes(32);
  }

  lemma NextZero(h: NodeHash, level: nat)
    ensures Zero(h, level + 1) == h(Zero(h, level), Zero(h, level))
  {
  }

  /** Some commitment sits at an index of the tree. */
  ghost predicate HasLeafInRange(leaves: Leaves) {
    exists i :: i in leaves && 0 <= i
  }

  lemma RootIsPresent(leaves: Leaves, depth: nat)
    requires forall i :: i in leaves ==> i < Pow2(depth)
    ensures 0 in Ancestors(leaves, depth) <==> HasLeafInRange(leaves)
  {
    forall i | i in leaves ensures Up(i, depth) == 0 <==> 0 <= i {
      UpRange(i, depth);
    }
    if i :| i in leaves && 0 <= i {
      assert Up(i, depth) in Ancestors(leaves, depth);
    }
  }

  /** An empty tree and a tree whose commitments are all at negative indices have the empty root. */
  lemma EmptyRoot(h: NodeHash, leaves: Leaves, depth: nat)
    requires !HasLeafInRange(leaves)
    ensures Node(h, leaves, depth, 0) == Zero(h, depth)
  {
    forall j | j in leaves ensures Up(j, depth) != 0 {
      UpRange(j, depth);
    }
    EmptySubtree(h, leaves, depth, 0);
  }

  /** A leaf at index -1, which insertion accepts, leaves a tree that is not empty and has no leaf in range. */
  lemma NegativeLeafOnly(c: Bytes)
    ensures var leaves: Leaves := map[-1 := c]; leaves != map[] && !HasLeafInRange(leaves)
  {
    var leaves: Leaves := map[-1 := c];
    assert -1 in leaves;
  }

  /** The leaf dictionary read as field elements is the sparse level 0. */
  lemma LevelZero(h: NodeHash, leaves: Leaves)
    ensures IsLevel(h, leaves, 0, map i | i in leaves :: FromBytes(leaves[i]))
  {
    AncestorsAtLeaves(leaves);
  }

  /** Part of the next sparse level: the parents of some of the nodes, with their dense values. */
  ghost predicate IsPartOfLevel(h: NodeHash, leaves: Leaves, level: nat, done: set<int>, next: map<int, Fr>) {
    && next.Keys == done
    && forall i :: i in next ==> next[i] == Node(h, leaves, level, i)
  }

  lemma EmptyPart(h: NodeHash, leaves: Leaves, level: nat)
    ensures IsPartOfLevel(h, leaves, level, {}, map[])
    ensures Parents({}) == {}
  {
  }

  lemma ParentsBody(s: set<int>, all: set<int>)
    requires all == set i | i in s :: i / 2
    ensures all == Parents(s)
  {
  }

  lemma AlreadyThere(h: NodeHash, leaves: Leaves, level: nat, done: set<int>, next: map<int, Fr>, p: int)
    requires IsPartOfLevel(h, leaves, level, done, next) && p in next
    ensures IsPartOfLevel(h, leaves, level, done + {p}, next)
  {
    assert done + {p} == done;
  }

  lemma ExtendPart(h: NodeHash, leaves: Leaves, level: nat, done: set<int>, next: map<int, Fr>, p: int, v: Fr)
    requires IsPartOfLevel(h, leaves, level, done, next) && v == Node(h, leaves, level, p)
    ensures IsPartOfLevel(h, leaves, level, done + {p}, next[p := v])
  {
  }

  /** Hashing every parent of a sparse level yields the next sparse level. */
  lemma NextLevel(h: NodeHash, leaves: Leaves, level: nat, nodes: map<int, Fr>, next: map<int, Fr>)
    requires IsLevel(h, leaves, level, nodes)
    requires IsPartOfLevel(h, leaves, level + 1, Parents(nodes.Keys), next)
    ensures IsLevel(h, leaves, level + 1, next)
  {
    ParentsOfAncestors(leaves, level);
  }

  /** A parent is hashed from its two children, each taken from the sparse level or from the zero node. */
  lemma ParentHash(h: NodeHash, leaves: Leaves, level: nat, nodes: map<int, Fr>, p: int, zero: Fr)
    requires IsLevel(h, leaves, level, nodes) && zero == Zero(h, level)
    ensures Combine(h, Lookup(nodes, 2 * p, zero), Lookup(nodes, 2 * p + 1, zero)) == Node(h, leaves, level + 1, p)
  {
    LookupIsNode(h, leaves, level, nodes, 2 * p);
    LookupIsNode(h, leaves, level, nodes, 2 * p + 1);
  }

  lemma PartStep(h: NodeHash, leaves: Leaves, level: nat, nodes: map<int, Fr>, all: set<int>, parents: set<int>,
                 next: map<int, Fr>, p: int, zero: Fr)
    requires IsLevel(h, leaves, level, nodes) && zero == Zero(h, level) && p in parents && parents <= all
    requires IsPartOfLevel(h, leaves, level + 1, all - parents, next)
    ensures var v := Combine(h, Lookup(nodes, 2 * p, zero), Lookup(nodes, 2 * p + 1, zero));
            IsPartOfLevel(h, leaves, level + 1, all - (parents - {p}), next[p := v])
  {
    ParentHash(h, leaves, level, nodes, p, zero);
    ExtendPart(h, leaves, level + 1, all - parents, next, p, Node(h, leaves, level + 1, p));
    assert all - (parents - {p}) == (all - parents) + {p};
  }

  lemma UpAtLeaf(i: int)
    ensures Up(i, 0) == i
  {
  }

  /** The sibling read from a sparse level is the next entry of the path. */
  lemma PathStep(h: NodeHash, leaves: Leaves, depth: nat, index: int, level: nat, nodes: map<int, Fr>, curr: int, zero: Fr)
    requires IsLevel(h, leaves, level, nodes) && zero == Zero(h, level) && level < depth && curr == Up(index, level)
    ensures Lookup(nodes, if curr % 2 == 0 then curr + 1 else curr - 1, zero) == Path(h, leaves, depth, index)[level]
    ensures curr / 2 == Up(index, level + 1)
  {
    hide IsLevel, Node, Zero, Lookup, Path;
    LookupIsNode(h, leaves, level, nodes, Sibling(curr));
  }

  lemma LevelSize(h: NodeHash, leaves: Leaves, level: nat, nodes: map<int, Fr>)
    requires IsLevel(h, leaves, level, nodes)
    ensures |Parents(nodes.Keys)| <= |leaves|
  {
    ParentsShrink(nodes.Keys);
    AncestorsBound(leaves, level);
  }

  lemma TopLevel(h: NodeHash, leaves: Leaves, depth: nat, nodes: map<int, Fr>)
    requires IsLevel(h, leaves, depth, nodes) && forall i :: i in leaves ==> i < Pow2(depth)
    ensures 0 in nodes <==> HasLeafInRange(leaves)
    ensures 0 in nodes ==> nodes[0] == Node(h, leaves, depth, 0)
  {
    RootIsPresent(leaves, depth);
  }

  class MerkleTree {
    const h: NodeHash
    const depth: nat
    var leaves: Leaves
    var zeroNodes: seq<Bytes>

    /** One precomputed zero node a level, and no index at or past 2^depth. Negative indices pass the
        only check that insertion makes. */
    ghost predicate Valid()
      reads this
    {
      && |zeroNodes| == depth + 1
      && (forall k :: 0 <= k <= depth ==> zeroNodes[k] == ToBytes(Zero(h, k)))
      && (forall i :: i in leaves ==> i < Pow2(depth))
    }

    constructor (h: NodeHash, depth: nat)
      ensures Valid() && this.h == h && this.depth == depth && leaves == map[]
    {
      this.h := h;
      this.depth := depth;
      leaves := map[];
      var zeros := PrecomputeZeroNodes(h, depth);
      zeroNodes := zeros;
    }

    static method PrecomputeZeroNodes(h: NodeHash, depth: nat) returns (zeros: seq<Bytes>)
      ensures |zeros| == depth + 1
      ensures forall k :: 0 <= k <= depth ==> zeros[k] == ToBytes(Zero(h, k))
    {
      hide ToBytes, FromBytes, Zero, Combine;
      zeros := seq(depth + 1, _ => seq(32, _ => 0));
      LowestZero(h);
      for i := 0 to depth
        invariant |zeros| == depth + 1
        invariant forall k :: 0 <= k <= i ==> zeros[k] == ToBytes(Zero(h, k))
      {
        BytesRoundTrip(Zero(h, i));
        NextZero(h, i);
        var f := FromBytes(zeros[i]);
        var parent := h(f, f);
        zeros := zeros[i + 1 := ToBytes(parent)];
      }
    }

    /** Fails exactly for indices at or past 2^depth, leaving the tree alone. */
    method Insert(index: int, commitment: Bytes) returns (ok: bool)
      requires Valid()
      modifies this`leaves
      ensures Valid()
      ensures ok <==> index < Pow2(depth)
      ensures leaves == if ok then old(leaves)[index := commitment] else old(leaves)
    {
      ok := index < Pow2(depth);
      if ok {
        leaves := leaves[index := commitment];
      }
    }

    lemma ZeroNode(level: nat)
      requires Valid() && level <= depth
      ensures FromBytes(zeroNodes[level]) == Zero(h, level)
    {
      BytesRoundTrip(Zero(h, level));
    }

    /** The level-by-level root is the dense root, in whatever order the parents are visited, with at
        most one hash a leaf at every level. It fails (a missing node 0) exactly when the tree holds
        commitments, but none of them at an index of the tree. */
    method Root() returns (r: Option<Bytes>, ghost hashes: seq<nat>)
      requires Valid()
      ensures r.Some? <==> leaves == map[] || HasLeafInRange(leaves)
      ensures r.Some? ==> r.value == ToBytes(Node(h, leaves, depth, 0))
      ensures |hashes| <= depth && forall n :: n in hashes ==> n <= |leaves|
    {
      if leaves == map[] {
        EmptyRoot(h, leaves, depth);
        return Some(zeroNodes[depth]), [];
      }
      var current := map i | i in leaves :: FromBytes(leaves[i]);
      LevelZero(h, leaves);
      hide ToBytes, FromBytes, IsLevel, Node, HasLeafInRange;
      hashes := [];
      for level := 0 to depth
        invariant IsLevel(h, leaves, level, current)
        invariant |hashes| == level && forall n :: n in hashes ==> n <= |leaves|
      {
        ghost var count: nat;
        current, count := HashLevel(level, current);
        hashes := hashes + [count];
      }
      TopLevel(h, leaves, depth, current);
      r := if 0 in current then Some(ToBytes(current[0])) else None;
    }

    /** One level of the root: every parent is hashed once, in any order. */
    method HashLevel(level: nat, current: map<int, Fr>) returns (next: map<int, Fr>, ghost count: nat)
      requires Valid() && level < depth && IsLevel(h, leaves, level, current)
      ensures IsLevel(h, leaves, level + 1, next) && count <= |leaves|
    {
      next := map[];
      var parents := set i | i in current :: i / 2;
      ghost var all := parents;
      count := 0;
      ParentsBody(current.Keys, all);
      LevelSize(h, leaves, level, current);
      EmptyPart(h, leaves, level + 1);
      assert all - parents == {};
      ZeroNode(level);
      hide FromBytes, IsLevel, IsPartOfLevel, Node, Zero, Parents, ToBytes, Lookup;
      while parents != {}
        invariant parents <= all && IsPartOfLevel(h, leaves, level + 1, all - parents, next)
        invariant count + |parents| == |all|
        decreases parents
      {
        ghost var some := AMember(parents);
        var p :| p in parents;
        var zero := FromBytes(zeroNodes[level]);
        var left := Lookup(current, 2 * p, zero);
        var right := Lookup(current, 2 * p + 1, zero);
        PartStep(h, leaves, level, current, all, parents, next, p, zero);
        next := next[p := h(left, right)];
        count := count + 1;
        parents := parents - {p};
      }
      assert all - parents == all;
      NextLevel(h, leaves, level, current, next);
    }

    /** The node table of a proof, level by level; a parent is hashed only once. */
    method BuildTable() returns (table: seq<map<int, Fr>>)
      requires Valid()
      ensures |table| == depth + 1
      ensures forall k :: 0 <= k <= depth ==> IsLevel(h, leaves, k, table[k])
    {
      hide ToBytes, FromBytes, IsLevel, IsPartOfLevel, Node, Zero, Parents, Pow2, Lookup;
      table := seq(depth + 1, _ => map[]);
      table := table[0 := map i | i in leaves :: FromBytes(leaves[i])];
      LevelZero(h, leaves);
      for level := 0 to depth
        invariant |table| == depth + 1
        invariant forall k :: 0 <= k <= level ==> IsLevel(h, leaves, k, table[k])
        invariant forall k :: level < k <= depth ==> table[k] == map[]
      {
        var current, next: map<int, Fr> := table[level], table[level + 1];
        var keys := current.Keys;
        ghost var all := keys;
        EmptyPart(h, leaves, level + 1);
        assert all - keys == {};
        ZeroNode(level);
        while keys != {}
          invariant keys <= all && IsPartOfLevel(h, leaves, level + 1, Parents(all - keys), next)
          decreases keys
        {
          ghost var some := AMember(keys);
          var i :| i in keys;
          var p := i / 2;
          ParentsAdd(all - keys, i);
          assert all - (keys - {i}) == (all - keys) + {i};
          var zero := FromBytes(zeroNodes[level]);
          ParentHash(h, leaves, level, current, p, zero);
          if p !in next {
            var left := Lookup(current, 2 * p, zero);
            var right := Lookup(current, 2 * p + 1, zero);
            ExtendPart(h, leaves, level + 1, Parents(all - keys), next, p, Combine(h, left, right));
            next := next[p := h(left, right)];
          } else {
            AlreadyThere(h, leaves, level + 1, Parents(all - keys), next, p);
          }
          keys := keys - {i};
        }
        assert all - keys == all;
        NextLevel(h, leaves, level, current, next);
        table := table[level + 1 := next];
      }
    }

    /** The sibling path, computed from a node table of its own. It fails exactly for indices at or
        past 2^depth. */
    method Proof(index: int) returns (r: Option<seq<Bytes>>)
      requires Valid()
      ensures r.Some? <==> index < Pow2(depth)
      ensures r.Some? ==> |r.value| == depth
      ensures r.Some? ==> forall k :: 0 <= k < depth ==> r.value[k] == ToBytes(Path(h, leaves, depth, index)[k])
    {
      hide ToBytes, FromBytes, IsLevel, Node, Zero, Pow2, Path, Up, Sibling, Lookup;
      if index >= Pow2(depth) {
        return None;
      }
      var table := BuildTable();
      UpAtLeaf(index);
      ghost var full := Path(h, leaves, depth, index);
      var path: seq<Bytes> := [];
      var curr := index;
      for level := 0 to depth
        invariant curr == Up(index, level) && |path| == level
        invariant forall k :: 0 <= k < level ==> path[k] == ToBytes(full[k])
      {
        var siblingIndex := if curr % 2 == 0 then curr + 1 else curr - 1;
        ZeroNode(level);
        var zero := FromBytes(zeroNodes[level]);
        var sibling := Lookup(table[level], siblingIndex, zero);
        PathStep(h, leaves, depth, index, level, table[level], curr, zero);
        path := path + [ToBytes(sibling)];
        curr := curr / 2;
      }
      r := Some(path);
    }
  }

  /** What a verifier of a path computes from its byte strings. */
  function FoldBytes(h: NodeHash, value: Fr, index: int, path: seq<Bytes>): Fr {
    Fold(h, value, index, seq(|path|, (k: int) requires 0 <= k < |path| => FromBytes(path[k])))
  }

  /** Any byte path that encodes the path of an index folds from its leaf to the root, though root and
      path come from separate tables. */
  lemma ProofFoldsToRoot(h: NodeHash, leaves: Leaves, depth: nat, index: int, path: seq<Bytes>)
    requires 0 <= index < Pow2(depth) && |path| == depth
    requires forall k :: 0 <= k < depth ==> path[k] == ToBytes(Path(h, leaves, depth, index)[k])
    ensures FoldBytes(h, Leaf(leaves, index), index, path) == Node(h, leaves, depth, 0)
  {
    hide ToBytes, FromBytes, Node, Path;
    var p := Path(h, leaves, depth, index);
    forall k | 0 <= k < depth ensures FromBytes(path[k]) == p[k] {
      BytesRoundTrip(p[k]);
    }
    PathFoldsToRoot(h, leaves, depth, index);
    assert seq(|path|, (k: int) requires 0 <= k < |path| => FromBytes(path[k])) == p;
  }

  /** Two leaves under one root: the even index stands on the left of the hash. */
  method TwoLeafRoot(h: NodeHash, a: Bytes, b: Bytes) returns (root: Option<Bytes>)
    ensures root == Some(ToBytes(h(FromBytes(a), FromBytes(b))))
  {
    hide ToBytes, FromBytes;
    assert Pow2(1) == 2;
    var tree := new MerkleTree(h, 1);
    var ok := tree.Insert(0, a);
    ok := tree.Insert(1, b);
    ghost var leaves := tree.leaves;
    assert 0 in leaves && leaves[0] == a && leaves[1] == b;
    ParentIsHash(h, leaves, 0, 0);
    assert Node(h, leaves, 0, 0) == FromBytes(a) && Node(h, leaves, 0, 1) == FromBytes(b);
    ghost var hashes;
    root, hashes := tree.Root();
  }

  /** Insertion accepts index -1, and the tree that it leaves cannot state its root. */
  method RootAfterNegativeInsert(h: NodeHash, depth: nat, c: Bytes) returns (ok: bool, root: Option<Bytes>)
    ensures ok && root.None?
  {
    var tree := new MerkleTree(h, depth);
    ok := tree.Insert(-1, c);
    NegativeLeafOnly(c);
    ghost var hashes;
    root, hashes := tree.Root();
  }
}
