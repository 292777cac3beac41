/**
 Neighbour relations of the ring and binary-tree broadcasts, as pure
 functions of a rank and the group size N (ranks are 0 .. N-1, rank 0 is the
 root).
 */
module Topology {
  import opened Wrappers
  import CInts

  ghost predicate IsRank(r: int, n: int) { 0 <= r < n }

  /** Ring predecessor: a non-root rank receives from `rank-1`. */
  function RingPredecessor(rank: int): int { rank - 1 }

  /** Send target of a ring rank exactly as the code decides it: root always
      sends to `rank+1`; any other rank sends to `rank+1` unless it is
      `num_procs-1`. */
  function RingForwardAsWritten(rank: int, n: int): (t: Option<int>)
    ensures t.Some? ==> t.value == rank + 1
    ensures rank == 0 ==> t == Some(1)
    ensures rank > 0 ==> (t.None? <==> rank == n - 1)
  {
    if rank == 0 then Some(rank + 1)
    else if rank != n - 1 then Some(rank + 1)
    else None
  }

  /** With one process, the root of every ring variant sends to rank 1, which
      does not exist. */
  lemma RingRootSendsOutsideGroup()
    ensures RingForwardAsWritten(0, 1) == Some(1) && !IsRank(1, 1)
  {
  }

  /** Corrected send target: `rank+1` exactly when it is a rank. */
  function RingForward(rank: int, n: int): (t: Option<int>)
    requires IsRank(rank, n)
    ensures t.Some? ==> t.value == rank + 1 && IsRank(t.value, n)
    ensures t.None? <==> rank == n - 1
  {
    if rank + 1 < n then Some(rank + 1) else None
  }

  /** The corrected target agrees with the code whenever the group has at least
      two ranks; ranks 0 .. N-2 forward to their successor and rank N-1 never
      sends; each non-root rank is the target of its predecessor alone. */
  lemma RingForwardMatches(rank: int, n: int)
    requires n >= 2 && IsRank(rank, n)
    ensures RingForward(rank, n) == RingForwardAsWritten(rank, n)
    ensures rank < n - 1 ==> RingForward(rank, n) == Some(rank + 1)
    ensures rank > 0 ==> RingForward(RingPredecessor(rank), n) == Some(rank)
  {
  }

  /** Tree parent `(rank-1)/2`, with C's truncating division. */
  function Parent(rank: int): int
  {
    CInts.CDiv(rank - 1, 2)
  }

  function LeftChild(rank: int): int { rank * 2 + 1 }

  function RightChild(rank: int): int { rank * 2 + 2 }

  /** Children of `rank` that exist in a group of N, as the two range checks
      of the tree broadcast select them. */
  function Children(rank: nat, n: int): (cs: set<int>)
    ensures forall c :: c in cs ==> IsRank(c, n) && (c == LeftChild(rank) || c == RightChild(rank))
    ensures LeftChild(rank) < n ==> LeftChild(rank) in cs
    ensures RightChild(rank) < n ==> RightChild(rank) in cs
  {
    (if LeftChild(rank) < n then {LeftChild(rank)} else {})
    + (if RightChild(rank) < n then {RightChild(rank)} else {})
  }

  /** Every child's parent is the rank that sends to it. */
  lemma ParentOfChild(rank: nat)
    ensures Parent(LeftChild(rank)) == rank
    ensures Parent(RightChild(rank)) == rank
  {
  }

  /** Every non-root rank has exactly one parent: it is a child of p if and only
      if p is its parent, and that parent is a smaller rank. */
  lemma {:induction false} UniqueParent(r: int, p: nat, n: int)
    requires 0 < r < n && IsRank(p, n)
    ensures r in Children(p, n) <==> p == Parent(r)
    ensures 0 <= Parent(r) < r
  {
    if p == Parent(r) {
      assert r == LeftChild(p) || r == RightChild(p);
    }
  }

  /** The root and leaves: rank 0 is no one's child, and a rank whose left child
      index is out of range has no children. */
  lemma RootHasNoParent(p: nat, n: int)
    requires IsRank(p, n)
    ensures 0 !in Children(p, n)
    ensures LeftChild(p) >= n ==> Children(p, n) == {}
  {
  }
}
