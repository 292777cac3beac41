/**
 The benchmark's `main`, with the transport taken out: argument checks, the
 root filling its buffer, the selected broadcast, every non-root rank's
 checksum and the root's comparison of the checksums it receives.
 */
module Harness {
  import opened Wrappers
  import opened CInts
  import opened Chunks
  import opened Checksums
  import opened Broadcast

  /** What the root reports after the final barrier; the timing line is
      printed only when `allOk` holds. */
  datatype Report = Report(name: string, chunkSize: int, allOk: bool)

  /** One run of the benchmark. `c` is the chunk size from `-c` (or
      NUM_BYTES), `rand` the values `random()` returns to the root, and
      `arrival` the order in which the non-root ranks' checksums reach the
      root's wildcard receive: each non-root rank sends exactly one, so
      `arrival` lists each of them once. */
  method Benchmark(args: seq<string>, c: nat, bufs: seq<array<int8>>, rand: seq<nat>, arrival: seq<nat>)
    returns (r: Result<Report, UsageError>)
    requires c > 0 && Group(bufs, NUM_BYTES) && |rand| == NUM_BYTES
    requires |args| >= 2 ==> args[1] != Name(Default)
    requires |arrival| == |bufs| - 1
    requires forall i :: 0 <= i < |arrival| ==> 0 < arrival[i] < |bufs|
    requires forall i, j :: 0 <= i < j < |arrival| ==> arrival[i] != arrival[j]
    modifies bufs
    ensures r.Failure? <==> SelectAlgorithm(args).Failure?
    ensures r.Failure? ==> r.error == SelectAlgorithm(args).error
    ensures r.Failure? ==> forall k :: 0 <= k < |bufs| ==> bufs[k][..] == old(bufs[k][..])
    ensures r.Success? ==> r.value.allOk && r.value.name == args[1]
    ensures r.Success? ==> r.value.chunkSize == ReportedChunkSize(SelectAlgorithm(args).value, NUM_BYTES, c)
    ensures r.Success? ==> forall k, t :: 0 <= k < |bufs| && 0 <= t < NUM_BYTES ==>
      bufs[k][t] == ToSignedChar(rand[t] % 256)
  {
    var sel := SelectAlgorithm(args);
    if sel.Failure? {
      return Failure(sel.error);
    }
    var alg := sel.value;
    var checksum := FillRoot(bufs[0], rand);
    ghost var payload := bufs[0][..];
    assert forall t :: 0 <= t < NUM_BYTES ==> payload[t] == ToSignedChar(rand[t] % 256);
    var chunkSize := Dispatch(alg, bufs, NUM_BYTES, c);
    // sums[k] is the checksum rank k computes; slot 0 stands for the root,
    // which sends none.
    var sums: seq<int32> := [checksum];
    var rank := 1;
    while rank < |bufs|
      invariant 1 <= rank <= |bufs| && |sums| == rank
      invariant AllEqualTo(bufs, payload)
      invariant forall k :: 1 <= k < rank ==> sums[k] == checksum
    {
      var s := Checksum(bufs[rank]);
      sums := sums + [s];
      rank := rank + 1;
    }
    var received := seq(|arrival|, i requires 0 <= i < |arrival| => sums[arrival[i]]);
    var allOk, _ := CollectAllChecksums(checksum, received);
    r := Success(Report(args[1], chunkSize, allOk));
    forall k, t | 0 <= k < |bufs| && 0 <= t < NUM_BYTES
      ensures bufs[k][t] == ToSignedChar(rand[t] % 256)
    {
      assert bufs[k][..][t] == payload[t];
    }
  }
}
