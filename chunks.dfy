/**
 The chunk planner of the pipelined broadcasts: the loop

     for (j = 0; j < NUM_BYTES; j += chunk_size)
       if (j > NUM_BYTES - chunk_size) chunk_size = NUM_BYTES % chunk_size;

 which every chunked strategy runs, and which overwrites `chunk_size` with the
 remainder on the last chunk.
 */
module Chunks {
  import CInts

  /** Number of bytes broadcast by the benchmark. */
  const NUM_BYTES: nat := 100000000

  /** The byte range [offset, offset + len) of the payload sent as one message. */
  datatype Chunk = Chunk(offset: int, len: int)

  /** Reference plan for a payload of `total` bytes cut into chunks of `c`
      bytes starting at offset `j`: full chunks, then whatever is left. It does
      not use the in-place update of `chunk_size`. */
  function PlanFrom(j: nat, total: nat, c: nat): seq<Chunk>
    requires c > 0
    decreases total - j
  {
    if j >= total then []
    else if j > total - c then [Chunk(j, total - j)]
    else [Chunk(j, c)] + PlanFrom(j + c, total, c)
  }

  function Plan(total: nat, c: nat): seq<Chunk>
    requires c > 0
  {
    PlanFrom(0, total, c)
  }

  /** The value `chunk_size` holds once the loop has ended. */
  function FinalChunkSize(total: nat, c: nat): nat
    requires c > 0
  {
    if total % c == 0 then c else total % c
  }

  /** Number of chunks: the ceiling of total / c. */
  function NumChunks(total: nat, c: nat): nat
    requires c > 0
  {
    if total == 0 then 0 else (total - 1) / c + 1
  }

  function SumLens(p: seq<Chunk>): int
  {
    if p == [] then 0 else p[0].len + SumLens(p[1..])
  }

  /** Closed form of the plan from offset j: chunk i starts at j + i*c and is
      c bytes long unless fewer than c bytes are left. */
  lemma {:induction false} PlanFromAt(j: nat, total: nat, c: nat, i: nat)
    requires c > 0 && i < |PlanFrom(j, total, c)|
    ensures j + i * c < total
    ensures PlanFrom(j, total, c)[i] == Chunk(j + i * c, CInts.Min(c, total - (j + i * c)))
    decreases i
  {
    if i > 0 {
      PlanFromAt(j + c, total, c, i - 1);
      assert (j + c) + (i - 1) * c == j + i * c;
    }
  }

  lemma {:induction false} PlanFromLength(j: nat, total: nat, c: nat)
    requires c > 0
    ensures |PlanFrom(j, total, c)| == if j >= total then 0 else (total - j - 1) / c + 1
    decreases total - j
  {
    if j < total && j <= total - c {
      PlanFromLength(j + c, total, c);
      var a := total - j - 1;
      if j + c < total {
        var q := (a - c) / c;
        var r := (a - c) % c;
        assert a == (q + 1) * c + r;
        CInts.DivModUnique(a, q + 1, r, c);
      } else {
        CInts.DivModUnique(a, 0, a, c);
      }
    } else if j < total {
      CInts.DivModUnique(total - j - 1, 0, total - j - 1, c);
    }
  }

  lemma {:induction false} PlanFromSum(j: nat, total: nat, c: nat)
    requires c > 0 && j <= total
    ensures SumLens(PlanFrom(j, total, c)) == total - j
    decreases total - j
  {
    if j < total && j <= total - c {
      PlanFromSum(j + c, total, c);
    }
  }

  /** Chunk i of the plan starts at i*c, and every chunk but the last is c
      bytes long. */
  lemma PlanOffset(total: nat, c: nat, i: nat)
    requires c > 0 && i < |Plan(total, c)|
    ensures Plan(total, c)[i].offset == i * c
    ensures i < |Plan(total, c)| - 1 ==> Plan(total, c)[i].len == c
  {
    PlanFromAt(0, total, c, i);
    if i < |Plan(total, c)| - 1 {
      PlanFromAt(0, total, c, i + 1);
      assert (i + 1) * c == i * c + c;
    }
  }

  /** The last chunk is as long as the value `chunk_size` keeps after the
      loop. */
  lemma PlanLast(total: nat, c: nat)
    requires c > 0 && total > 0
    ensures |Plan(total, c)| == NumChunks(total, c) > 0
    ensures Plan(total, c)[|Plan(total, c)| - 1].len == FinalChunkSize(total, c)
  {
    PlanFromLength(0, total, c);
    var n := |Plan(total, c)|;
    var q := (total - 1) / c;
    assert n - 1 == q;
    PlanFromAt(0, total, c, q);
    var last := total - q * c;
    assert 0 < last <= c by {
      CInts.DivModParts(total - 1, c);
    }
    if last == c {
      assert total == (q + 1) * c + 0 by {
        CInts.MulSubRight(q + 1, 1, c);
      }
      CInts.DivModUnique(total, q + 1, 0, c);
    } else {
      CInts.DivModUnique(total, q, last, c);
    }
  }

  /** Shape of the plan: offsets 0, c, 2c, ..., every chunk but the last of
      length c, and the last one of length `total % c`, or c when c divides
      `total` (the value `chunk_size` keeps after the loop). */
  lemma PlanShape(total: nat, c: nat)
    requires c > 0
    ensures |Plan(total, c)| == NumChunks(total, c)
    ensures forall i :: 0 <= i < |Plan(total, c)| ==> Plan(total, c)[i].offset == i * c
    ensures forall i :: 0 <= i < |Plan(total, c)| - 1 ==> Plan(total, c)[i].len == c
    ensures total > 0 ==> Plan(total, c)[|Plan(total, c)| - 1].len == FinalChunkSize(total, c)
    ensures SumLens(Plan(total, c)) == total
  {
    PlanFromLength(0, total, c);
    PlanFromSum(0, total, c);
    forall i | 0 <= i < |Plan(total, c)|
      ensures Plan(total, c)[i].offset == i * c
      ensures i < |Plan(total, c)| - 1 ==> Plan(total, c)[i].len == c
    {
      PlanOffset(total, c, i);
    }
    if total > 0 {
      PlanLast(total, c);
    }
  }

  /** The chunks tile [0, total) exactly once: byte t lies in chunk t / c and
      in no other. */
  lemma PlanTiles(total: nat, c: nat, t: int)
    requires c > 0 && 0 <= t < total
    ensures t / c < |Plan(total, c)|
    ensures var ch := Plan(total, c)[t / c]; ch.offset <= t < ch.offset + ch.len
    ensures forall i :: 0 <= i < |Plan(total, c)| && Plan(total, c)[i].offset <= t < Plan(total, c)[i].offset + Plan(total, c)[i].len
               ==> i == t / c
  {
    var p := Plan(total, c);
    var k := t / c;
    assert k < |p| by {
      PlanFromLength(0, total, c);
      CInts.DivMono(t, total - 1, c);
    }
    assert p[k].offset <= t < p[k].offset + p[k].len by {
      PlanFromAt(0, total, c, k);
      CInts.DivModParts(t, c);
    }
    forall i | 0 <= i < |p| && p[i].offset <= t < p[i].offset + p[i].len
      ensures i == k
    {
      PlanFromAt(0, total, c, i);
      CInts.DivModUnique(t, i, t - i * c, c);
    }
  }

  /** Offsets strictly increase along the plan. */
  lemma PlanIncreasing(total: nat, c: nat, i: nat, k: nat)
    requires c > 0 && i < k < |Plan(total, c)|
    ensures Plan(total, c)[i].offset + Plan(total, c)[i].len <= Plan(total, c)[k].offset
  {
    PlanFromAt(0, total, c, i);
    PlanFromAt(0, total, c, k);
    CInts.MulMono(i + 1, k, c);
  }

  /** A chunk size at least the payload length gives one transfer of all of it. */
  lemma PlanSingleChunk(total: nat, c: nat)
    requires 0 < total <= c
    ensures Plan(total, c) == [Chunk(0, total)]
    ensures FinalChunkSize(total, c) == total
  {
    if c == total {
      assert PlanFrom(total, total, c) == [];
      assert total % c == 0 by { CInts.DivModUnique(total, 1, 0, c); }
    } else {
      CInts.DivModUnique(total, 0, total, c);
    }
  }

  /** State of the source loop before an iteration: j is the next offset and
      `cs` the current value of `chunk_size`. */
  ghost predicate LoopAt(total: nat, c: nat, j: int, cs: int)
    requires c > 0
  {
    && 0 <= j <= total
    && (j < total ==> cs == c && j % c == 0)
    && (j == total ==> cs == FinalChunkSize(total, c))
  }

  /** One iteration of the source loop: it visits the first chunk of the
      remaining plan and leaves the loop state consistent. */
  lemma LoopStep(total: nat, c: nat, j: int, cs: int)
    requires c > 0 && LoopAt(total, c, j, cs) && j < total
    ensures var cs' := if j > total - cs then total % cs else cs;
      && 0 < cs' && j + cs' <= total
      && PlanFrom(j, total, c) == [Chunk(j, cs')] + PlanFrom(j + cs', total, c)
      && LoopAt(total, c, j + cs', cs')
  {
    var m := j / c;
    assert j == m * c;
    if j > total - c {
      var r := total - j;
      assert total == m * c + r;
      CInts.DivModUnique(total, m, r, c);
    } else {
      assert (j + c) == (m + 1) * c;
      CInts.DivModUnique(j + c, m + 1, 0, c);
      if j + c == total {
        assert total % c == 0;
      }
    }
  }

  lemma LoopInit(total: nat, c: nat)
    requires c > 0
    ensures LoopAt(total, c, 0, c)
  {
  }

  /** The loop of the chunked strategies, run on its own: it returns the chunks
      it visits, in order, and the final value of `chunk_size`. */
  method PlanChunks(total: nat, c: nat) returns (visited: seq<Chunk>, chunkSize: nat)
    requires c > 0
    ensures visited == Plan(total, c)
    ensures chunkSize == FinalChunkSize(total, c)
  {
    var j := 0;
    chunkSize := c;
    visited := [];
    while j < total
      invariant LoopAt(total, c, j, chunkSize)
      invariant visited + PlanFrom(j, total, c) == Plan(total, c)
      decreases total - j
    {
      LoopStep(total, c, j, chunkSize);
      if j > total - chunkSize {
        chunkSize := total % chunkSize;
      }
      visited := visited + [Chunk(j, chunkSize)];
      j := j + chunkSize;
    }
  }
}
