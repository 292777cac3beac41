/**
 The end-to-end correctness oracle of the broadcast benchmark: a 32-bit
 wrapping sum of the buffer's signed bytes, computed by the root while it
 fills its buffer and by every other rank after the broadcast, and the root's
 loop that compares the checksums it receives with its own.
 */
module Checksums {
  import opened CInts

  /** Exact (unbounded) sum of the bytes, each read as a signed `char`. */
  function ByteSum(s: seq<int8>): int
  {
    if s == [] then 0 else ByteSum(s[..|s| - 1]) + s[|s| - 1]
  }

  /** The checksum the program computes: the byte sum in a wrapping 32-bit
      `int`. */
  function ChecksumOf(s: seq<int8>): int32
  {
    Wrap32(ByteSum(s))
  }

  /** The checksum loop `for (j...) checksum += buffer[j];` of the non-root
      ranks, with the accumulator wrapping at 32 bits. */
  method Checksum(buffer: array<int8>) returns (sum: int32)
    ensures sum == ChecksumOf(buffer[..])
    ensures (sum - ByteSum(buffer[..])) % TWO_TO_32 == 0
  {
    sum := 0;
    var j := 0;
    while j < buffer.Length
      invariant 0 <= j <= buffer.Length
      invariant sum == ChecksumOf(buffer[..j])
    {
      assert buffer[..j + 1][..j] == buffer[..j];
      Wrap32Add(ByteSum(buffer[..j]), buffer[j]);
      sum := Wrap32(sum + buffer[j]);
      j := j + 1;
    }
    assert buffer[..j] == buffer[..];
  }

  /** The root's fill loop: byte j becomes `(char)(random() % 256)`, where
      `rand[j]` stands for the j-th value `random()` returns, and the checksum
      is accumulated on the way. */
  method FillRoot(buffer: array<int8>, rand: seq<nat>) returns (sum: int32)
    requires |rand| == buffer.Length
    modifies buffer
    ensures forall j :: 0 <= j < buffer.Length ==> buffer[j] == ToSignedChar(rand[j] % 256)
    ensures sum == ChecksumOf(buffer[..])
  {
    sum := 0;
    var j := 0;
    while j < buffer.Length
      invariant 0 <= j <= buffer.Length
      invariant forall k :: 0 <= k < j ==> buffer[k] == ToSignedChar(rand[k] % 256)
      invariant sum == ChecksumOf(buffer[..j])
    {
      buffer[j] := ToSignedChar(rand[j] % 256);
      assert buffer[..j + 1][..j] == buffer[..j];
      Wrap32Add(ByteSum(buffer[..j]), buffer[j]);
      sum := Wrap32(sum + buffer[j]);
      j := j + 1;
    }
    assert buffer[..j] == buffer[..];
  }

  /** Changing one byte changes the exact sum by the difference of the two
      byte values. */
  lemma {:induction false} ByteSumUpdate(s: seq<int8>, i: nat, v: int8)
    requires i < |s|
    ensures ByteSum(s[i := v]) == ByteSum(s) - s[i] + v
    decreases |s|
  {
    var t := s[i := v];
    if i < |s| - 1 {
      assert t[..|t| - 1] == s[..|s| - 1][i := v];
      ByteSumUpdate(s[..|s| - 1], i, v);
    } else {
      assert t[..|t| - 1] == s[..|s| - 1];
    }
  }

  /** Two byte-identical buffers have equal checksums, and corrupting a single
      byte of a buffer always changes its checksum: the difference of two
      signed bytes is never a nonzero multiple of 2^32. */
  lemma SingleByteCorruptionDetected(s: seq<int8>, i: nat, v: int8)
    requires i < |s|
    ensures ChecksumOf(s[i := v]) == ChecksumOf(s) <==> v == s[i]
  {
    ByteSumUpdate(s, i, v);
  }

  /** How many checksums the root's loop receives from message i on, when
      the earlier ones all matched: up to and including the first mismatch,
      or all of them. */
  function ReceivedFrom(checksum: int32, received: seq<int32>, i: nat): nat
    requires i <= |received|
    decreases |received| - i
  {
    if i == |received| then i
    else if received[i] != checksum then i + 1
    else ReceivedFrom(checksum, received, i + 1)
  }

  /** The root's collection loop: `received[i]` is the (i+1)-th checksum to
      arrive, from whichever rank sent it. The loop leaves with `allOk` false
      and stops receiving at the first mismatch (the `break`); `consumed` is
      the number of checksums it received. */
  method CollectChecksums(checksum: int32, received: seq<int32>) returns (allOk: bool, consumed: nat)
    ensures allOk <==> forall i :: 0 <= i < |received| ==> received[i] == checksum
    ensures consumed == ReceivedFrom(checksum, received, 0)
    ensures consumed <= |received|
    ensures forall i :: 0 <= i < consumed - 1 ==> received[i] == checksum
    ensures allOk ==> consumed == |received|
    ensures !allOk ==> consumed > 0 && received[consumed - 1] != checksum
  {
    allOk := true;
    consumed := 0;
    var j := 1;
    while j < |received| + 1
      invariant 1 <= j <= |received| + 1
      invariant allOk && consumed == j - 1
      invariant forall i :: 0 <= i < j - 1 ==> received[i] == checksum
      invariant ReceivedFrom(checksum, received, j - 1) == ReceivedFrom(checksum, received, 0)
    {
      var receivedChecksum := received[j - 1];
      consumed := consumed + 1;
      if allOk && checksum != receivedChecksum {
        allOk := false;
        break;
      }
      j := j + 1;
    }
  }

  /** The comment above the loop says the root keeps receiving after a
      mismatch so that every rank reaches `MPI_Finalize`; the `break` stops
      it instead. When the first checksum to arrive mismatches and another
      rank is still to report, that rank's checksum is never received. */
  lemma {:induction false} BreakLeavesChecksumsUnreceived(checksum: int32, received: seq<int32>)
    requires |received| >= 2 && received[0] != checksum
    ensures ReceivedFrom(checksum, received, 0) == 1 < |received|
  {
  }

  /** The loop the comment describes: every checksum is received, and
      `all_ok` still records whether they all matched. */
  method CollectAllChecksums(checksum: int32, received: seq<int32>) returns (allOk: bool, consumed: nat)
    ensures allOk <==> forall i :: 0 <= i < |received| ==> received[i] == checksum
    ensures consumed == |received|
  {
    allOk := true;
    consumed := 0;
    var j := 1;
    while j < |received| + 1
      invariant 1 <= j <= |received| + 1 && consumed == j - 1
      invariant allOk <==> forall i :: 0 <= i < j - 1 ==> received[i] == checksum
    {
      var receivedChecksum := received[j - 1];
      consumed := consumed + 1;
      if allOk && checksum != receivedChecksum {
        allOk := false;
      }
      j := j + 1;
    }
  }
}
