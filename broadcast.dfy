/**
 The broadcast strategies of the benchmark, run as a sequential simulation.
 Rank r's buffer is `bufs[r]`; every message "rank a sends bytes [j, j+len)
 to rank b, which receives them into the same place of its buffer" is a
 `Transfer` of that slice. Each strategy performs its transfers in an order
 that respects its dependencies (a rank forwards a chunk only after it has
 received it), and is proved to leave every rank's buffer equal to the
 root's buffer at the start.
 */
module Broadcast {
  import opened Wrappers
  import opened CInts
  import opened Chunks
  import opened Topology

  /** The six broadcast implementations the benchmark accepts by name. */
  datatype Algorithm =
    | Naive
    | Default
    | Ring
    | PipelinedRing
    | AsyncPipelinedRing
    | AsyncPipelinedBintree

  datatype UsageError = MissingName | UnknownName(name: string)

  function Name(a: Algorithm): string
  {
    match a
    case Naive => "naive_bcast"
    case Default => "default_bcast"
    case Ring => "ring_bcast"
    case PipelinedRing => "pipelined_ring_bcast"
    case AsyncPipelinedRing => "asynchronous_pipelined_ring_bcast"
    case AsyncPipelinedBintree => "asynchronous_pipelined_bintree_bcast"
  }

  const ValidNames: set<string> := {
    "naive_bcast", "default_bcast", "ring_bcast", "pipelined_ring_bcast",
    "asynchronous_pipelined_ring_bcast", "asynchronous_pipelined_bintree_bcast" }

  /** The chain of `strcmp` tests: a name is accepted only when it is one of
      the six literals, and it then denotes the algorithm of that name. */
  function ParseAlgorithm(name: string): (r: Option<Algorithm>)
    ensures r.Some? ==> Name(r.value) == name
    ensures r.None? ==> forall a: Algorithm :: Name(a) != name
  {
    if name == "naive_bcast" then Some(Naive)
    else if name == "default_bcast" then Some(Default)
    else if name == "ring_bcast" then Some(Ring)
    else if name == "pipelined_ring_bcast" then Some(PipelinedRing)
    else if name == "asynchronous_pipelined_ring_bcast" then Some(AsyncPipelinedRing)
    else if name == "asynchronous_pipelined_bintree_bcast" then Some(AsyncPipelinedBintree)
    else None
  }

  /** Exactly six names are accepted, and each algorithm is found again from
      its own name. */
  lemma AcceptsExactlySixNames(name: string, a: Algorithm)
    ensures ParseAlgorithm(name).Some? <==> name in ValidNames
    ensures ParseAlgorithm(Name(a)) == Some(a)
    ensures |ValidNames| == 6
  {
  }

  /** Argument checks of `main`: a missing name and an unknown name abort the
      whole group before anything else happens. */
  function SelectAlgorithm(args: seq<string>): (r: Result<Algorithm, UsageError>)
    ensures r.Success? ==> |args| >= 2 && Name(r.value) == args[1]
    ensures r == Failure(MissingName) <==> |args| < 2
    ensures r.Failure? && |args| >= 2 ==> r.error == UnknownName(args[1]) && args[1] !in ValidNames
  {
    if |args| < 2 then Failure(MissingName)
    else match ParseAlgorithm(args[1])
      case Some(a) => Success(a)
      case None =>
        assert args[1] !in ValidNames by {
          if args[1] in ValidNames {
            AcceptsExactlySixNames(args[1], Naive);
          }
        }
        Failure(UnknownName(args[1]))
  }

  /** The buffers of a group of ranks: at least the root, all of `total` bytes,
      and owned by one rank each. */
  ghost predicate Group(bufs: seq<array<int8>>, total: nat)
  {
    && |bufs| >= 1
    && (forall r :: 0 <= r < |bufs| ==> bufs[r].Length == total)
    && (forall r, s :: 0 <= r < s < |bufs| ==> bufs[r] != bufs[s])
  }

  /** Bytes [0, hi) of `a` are those of `orig`. */
  ghost predicate HoldsPrefix(a: array<int8>, orig: seq<int8>, hi: int)
    reads a
  {
    && a.Length == |orig|
    && 0 <= hi <= a.Length
    && forall t :: 0 <= t < hi ==> a[t] == orig[t]
  }

  /** Every rank's buffer equals `orig`. */
  ghost predicate AllEqualTo(bufs: seq<array<int8>>, orig: seq<int8>)
    reads set r | 0 <= r < |bufs| :: bufs[r]
  {
    forall r :: 0 <= r < |bufs| ==> bufs[r][..] == orig
  }

  lemma HoldsAll(bufs: seq<array<int8>>, orig: seq<int8>)
    requires forall r :: 0 <= r < |bufs| ==> HoldsPrefix(bufs[r], orig, |orig|)
    ensures AllEqualTo(bufs, orig)
  {
    forall r | 0 <= r < |bufs| ensures bufs[r][..] == orig {
      assert forall t :: 0 <= t < |orig| ==> bufs[r][..][t] == orig[t];
    }
  }

  /** One message: bytes [j, j+len) of `src` land at the same place in `dst`,
      and nothing else of `dst` changes. */
  method Transfer(src: array<int8>, dst: array<int8>, j: int, len: int)
    requires src != dst && src.Length == dst.Length
    requires 0 <= j && 0 <= len && j + len <= dst.Length
    modifies dst
    ensures forall t :: 0 <= t < dst.Length ==>
      dst[t] == if j <= t < j + len then src[t] else old(dst[t])
  {
    forall t | j <= t < j + len {
      dst[t] := src[t];
    }
  }

  /** naive_bcast: the root sends the whole buffer to ranks 1, 2, ..., N-1 in
      turn; each of them receives it from the root. */
  method NaiveBcast(bufs: seq<array<int8>>, total: nat)
    requires Group(bufs, total)
    modifies bufs
    ensures AllEqualTo(bufs, old(bufs[0][..]))
  {
    ghost var orig := bufs[0][..];
    var n := |bufs|;
    var j := 1;
    while j < n
      invariant 1 <= j <= n
      invariant forall r :: 0 <= r < j ==> HoldsPrefix(bufs[r], orig, total)
    {
      Transfer(bufs[0], bufs[j], 0, total);
      j := j + 1;
    }
    HoldsAll(bufs, orig);
  }

  /** One pass of bytes [j, j+len) down the ring, in rank order: each rank
      forwards the range it has just received to its successor. */
  method RingPass(bufs: seq<array<int8>>, total: nat, ghost orig: seq<int8>, j: nat, len: nat)
    requires Group(bufs, total) && j + len <= total
    requires HoldsPrefix(bufs[0], orig, total)
    requires forall r :: 0 <= r < |bufs| ==> HoldsPrefix(bufs[r], orig, j)
    modifies bufs
    ensures HoldsPrefix(bufs[0], orig, total)
    ensures forall r :: 0 <= r < |bufs| ==> HoldsPrefix(bufs[r], orig, j + len)
    ensures bufs[0][..] == old(bufs[0][..])
    ensures forall r, t :: 0 <= r < |bufs| && 0 <= t < total && !(j <= t < j + len) ==> bufs[r][t] == old(bufs[r][t])
  {
    var n := |bufs|;
    var rank := 0;
    while rank < n
      invariant 0 <= rank <= n
      invariant HoldsPrefix(bufs[0], orig, total)
      invariant bufs[0][..] == old(bufs[0][..])
      invariant forall r, t :: 0 <= r < n && 0 <= t < total && !(j <= t < j + len) ==> bufs[r][t] == old(bufs[r][t])
      invariant forall r :: 0 <= r < n ==> HoldsPrefix(bufs[r], orig, j)
      invariant forall r :: 0 <= r <= rank && r < n ==> HoldsPrefix(bufs[r], orig, j + len)
    {
      match RingForward(rank, n) {
        case Some(next) =>
          Transfer(bufs[rank], bufs[next], j, len);
        case None =>
      }
      rank := rank + 1;
    }
  }

  /** ring_bcast: the whole buffer travels 0 -> 1 -> ... -> N-1; each rank
      forwards it only once it has received all of it. */
  method RingBcast(bufs: seq<array<int8>>, total: nat)
    requires Group(bufs, total)
    modifies bufs
    ensures AllEqualTo(bufs, old(bufs[0][..]))
  {
    ghost var orig := bufs[0][..];
    RingPass(bufs, total, orig, 0, total);
    HoldsAll(bufs, orig);
  }

  /** pipelined_ring_bcast: the chunk loop; each chunk goes all the way down
      the ring (receive from the predecessor, then blocking send to the
      successor) before the next chunk starts. Returns the final `chunk_size`. */
  method PipelinedRingBcast(bufs: seq<array<int8>>, total: nat, c: nat) returns (chunkSize: nat)
    requires Group(bufs, total) && c > 0
    modifies bufs
    ensures AllEqualTo(bufs, old(bufs[0][..]))
    ensures chunkSize == FinalChunkSize(total, c)
  {
    ghost var orig := bufs[0][..];
    var j := 0;
    chunkSize := c;
    while j < total
      invariant LoopAt(total, c, j, chunkSize)
      invariant HoldsPrefix(bufs[0], orig, total)
      invariant forall r :: 0 <= r < |bufs| ==> HoldsPrefix(bufs[r], orig, j)
      decreases total - j
    {
      LoopStep(total, c, j, chunkSize);
      if j > total - chunkSize {
        chunkSize := total % chunkSize;
      }
      RingPass(bufs, total, orig, j, chunkSize);
      j := j + chunkSize;
    }
    HoldsAll(bufs, orig);
  }

  /** The chunk loop of one rank of the asynchronous ring, with that rank's own
      `chunk_size`: every chunk it holds is posted to its successor. Returns
      the rank's final `chunk_size`. */
  method AsyncRingRank(bufs: seq<array<int8>>, total: nat, ghost orig: seq<int8>, rank: nat, c: nat)
    returns (chunkSize: nat)
    requires Group(bufs, total) && c > 0 && rank < |bufs| && |orig| == total
    requires forall r :: 0 <= r <= rank ==> HoldsPrefix(bufs[r], orig, total)
    modifies bufs
    ensures forall r :: 0 <= r <= rank ==> HoldsPrefix(bufs[r], orig, total)
    ensures rank + 1 < |bufs| ==> HoldsPrefix(bufs[rank + 1], orig, total)
    ensures forall r :: 0 <= r < |bufs| && r != rank + 1 ==> bufs[r][..] == old(bufs[r][..])
    ensures chunkSize == FinalChunkSize(total, c)
  {
    var n := |bufs|;
    chunkSize := c;
    var j := 0;
    while j < total
      invariant LoopAt(total, c, j, chunkSize)
      invariant forall r :: 0 <= r < n && r != rank + 1 ==> bufs[r][..] == old(bufs[r][..])
      invariant forall r :: 0 <= r <= rank ==> HoldsPrefix(bufs[r], orig, total)
      invariant rank + 1 < n ==> HoldsPrefix(bufs[rank + 1], orig, j)
      decreases total - j
    {
      LoopStep(total, c, j, chunkSize);
      if j > total - chunkSize {
        chunkSize := total % chunkSize;
      }
      match RingForward(rank, n) {
        case Some(next) =>
          Transfer(bufs[rank], bufs[next], j, chunkSize);
        case None =>
      }
      j := j + chunkSize;
    }
  }

  /** asynchronous_pipelined_ring_bcast: every rank runs its own chunk loop and
      posts non-blocking sends to its successor. The simulation takes the most
      asynchronous order: a rank posts all its chunks before its successor
      handles any of them. Returns the root's final `chunk_size`. */
  method AsyncPipelinedRingBcast(bufs: seq<array<int8>>, total: nat, c: nat) returns (chunkSize: nat)
    requires Group(bufs, total) && c > 0
    modifies bufs
    ensures AllEqualTo(bufs, old(bufs[0][..]))
    ensures chunkSize == FinalChunkSize(total, c)
  {
    ghost var orig := bufs[0][..];
    var n := |bufs|;
    chunkSize := AsyncRingRank(bufs, total, orig, 0, c);
    var rank := 1;
    while rank < n
      invariant 1 <= rank <= n
      invariant forall r :: 0 <= r <= rank && r < n ==> HoldsPrefix(bufs[r], orig, total)
    {
      var _ := AsyncRingRank(bufs, total, orig, rank, c);
      rank := rank + 1;
    }
    HoldsAll(bufs, orig);
  }

  /** asynchronous_pipelined_bintree_bcast: for each chunk, a rank receives it
      from its parent and sends it to each child index below N. Ranks act in
      increasing order, so a parent always holds a chunk before it sends it. */
  method AsyncPipelinedBintreeBcast(bufs: seq<array<int8>>, total: nat, c: nat) returns (chunkSize: nat)
    requires Group(bufs, total) && c > 0
    modifies bufs
    ensures AllEqualTo(bufs, old(bufs[0][..]))
    ensures chunkSize == FinalChunkSize(total, c)
  {
    ghost var orig := bufs[0][..];
    var n := |bufs|;
    var j := 0;
    chunkSize := c;
    while j < total
      invariant LoopAt(total, c, j, chunkSize)
      invariant HoldsPrefix(bufs[0], orig, total)
      invariant forall r :: 0 <= r < n ==> HoldsPrefix(bufs[r], orig, j)
      decreases total - j
    {
      LoopStep(total, c, j, chunkSize);
      if j > total - chunkSize {
        chunkSize := total % chunkSize;
      }
      var rank := 0;
      while rank < n
        invariant 0 <= rank <= n
        invariant HoldsPrefix(bufs[0], orig, total)
        invariant forall r :: 0 <= r < n ==> HoldsPrefix(bufs[r], orig, j)
        invariant forall r :: 0 <= r < n && r < 2 * rank + 1 ==> HoldsPrefix(bufs[r], orig, j + chunkSize)
      {
        if LeftChild(rank) < n {
          Transfer(bufs[rank], bufs[LeftChild(rank)], j, chunkSize);
        }
        if RightChild(rank) < n {
          Transfer(bufs[rank], bufs[RightChild(rank)], j, chunkSize);
        }
        rank := rank + 1;
      }
      j := j + chunkSize;
    }
    HoldsAll(bufs, orig);
  }

  /** The `chunk_size` the root reports: the given one for the unchunked
      strategies, the value the chunk loop leaves behind for the others. */
  function ReportedChunkSize(alg: Algorithm, total: nat, c: nat): nat
    requires c > 0
  {
    match alg
    case Naive | Default | Ring => c
    case _ => FinalChunkSize(total, c)
  }

  /** Dispatch on the selected algorithm. */
  method Dispatch(alg: Algorithm, bufs: seq<array<int8>>, total: nat, c: nat) returns (chunkSize: nat)
    requires Group(bufs, total) && c > 0 && alg != Default
    modifies bufs
    ensures AllEqualTo(bufs, old(bufs[0][..]))
    ensures chunkSize == ReportedChunkSize(alg, total, c)
  {
    chunkSize := c;
    match alg
    case Naive =>
      NaiveBcast(bufs, total);
    case Ring =>
      RingBcast(bufs, total);
    case PipelinedRing =>
      chunkSize := PipelinedRingBcast(bufs, total, c);
    case AsyncPipelinedRing =>
      chunkSize := AsyncPipelinedRingBcast(bufs, total, c);
    case AsyncPipelinedBintree =>
      chunkSize := AsyncPipelinedBintreeBcast(bufs, total, c);
  }
}
