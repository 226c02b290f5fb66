/**
 The two range planners: the flat plan of BufferMode.Fetch and the sliced plan of
 ConsistentHashingMode.Fetch and downloadRemainingChunks.
 */
module Planner {
  import opened Ranges

  const MAX_INT64: int := 0x7FFF_FFFF_FFFF_FFFF
  const TWO_TO_63: int := 0x8000_0000_0000_0000
  const TWO_TO_64: int := 0x1_0000_0000_0000_0000
  const DEFAULT_CHUNK_SIZE: int := 125 * 1024 * 1024

  /** Two's complement wrap-around of an int64 result: whole turns of 2^64 are taken off. */
  function Wrap(x: int): (w: int)
    ensures -TWO_TO_63 <= w <= MAX_INT64
    decreases if x > MAX_INT64 then x else if x < -TWO_TO_63 then -x else 0
  {
    if x > MAX_INT64 then Wrap(x - TWO_TO_64)
    else if x < -TWO_TO_63 then Wrap(x + TWO_TO_64)
    else x
  }

  lemma WrapPeriod(x: int)
    ensures Wrap(x + TWO_TO_64) == Wrap(x)
  {
  }

  /** Wrapping after each of two additions is wrapping once. */
  lemma {:induction false} WrapTwice(x: int, y: int)
    ensures Wrap(Wrap(x) + y) == Wrap(x + y)
    decreases if x > MAX_INT64 then x else if x < -TWO_TO_63 then -x else 0
  {
    if x > MAX_INT64 {
      WrapTwice(x - TWO_TO_64, y);
      WrapPeriod(x - TWO_TO_64 + y);
    } else if x < -TWO_TO_63 {
      WrapTwice(x + TWO_TO_64, y);
      WrapPeriod(x + y);
    }
  }

  /** One int64 overflow above the top of the range lands among the negatives. */
  lemma {:induction false} WrapOverflow(x: int)
    requires MAX_INT64 < x <= MAX_INT64 + TWO_TO_63
    ensures Wrap(x) == x - TWO_TO_64 < 0
  {
  }

  /** The chunk size in force when the option is zero: both chunkSize methods. */
  function BufferChunkSize(option: nat): (c: nat)
    ensures c > 0
    ensures c == option || (option == 0 && c == 125 * 1024 * 1024)
  {
    if option == 0 then DEFAULT_CHUNK_SIZE else option
  }

  function HashingChunkSize(option: nat, sliceSize: nat): (c: nat)
    requires sliceSize > 0
    ensures 0 < c <= sliceSize
    ensures c <= BufferChunkSize(option)
    ensures c == sliceSize || c == BufferChunkSize(option)
  {
    Min(BufferChunkSize(option), sliceSize)
  }

  // ---- arithmetic of rounding up ----

  /** The number of pieces of at most `chunk` bytes that `size` bytes need. */
  function Pieces(size: int, chunk: int): (n: nat)
    requires size > 0 && chunk > 0
    ensures n >= 1
    decreases size
  {
    if size <= chunk then 1 else Pieces(size - chunk, chunk) + 1
  }

  lemma {:induction false} PiecesCover(size: int, chunk: int)
    requires size > 0 && chunk > 0
    ensures (Pieces(size, chunk) - 1) * chunk < size <= Pieces(size, chunk) * chunk
    decreases size
  {
    if size > chunk {
      PiecesCover(size - chunk, chunk);
      var n := Pieces(size - chunk, chunk);
      assert n * chunk == (n - 1) * chunk + chunk;
      assert (n + 1) * chunk == n * chunk + chunk;
    }
  }

  /** The source rounds up with "(size - 1) / chunk + 1". */
  lemma {:induction false} RoundUpByDivision(size: int, chunk: int)
    requires size > 0 && chunk > 0
    ensures (size - 1) / chunk + 1 == Pieces(size, chunk)
  {
    PiecesCover(size, chunk);
    DivOfBounds(size - 1, Pieces(size, chunk) - 1, chunk);
  }

  lemma MulMonotone(a: int, b: int, c: int)
    requires a <= b && c >= 0
    ensures a * c <= b * c
  {
  }

  // ---- the flat plan ----

  /** The ranges BufferMode asks for, in reader order. */
  function BufferRanges(fileSize: int, chunk: int): (rs: seq<Range>)
    requires chunk > 0
    ensures |rs| >= 1 && rs[0] == Range(0, chunk - 1)
  {
    if fileSize <= chunk then [Range(0, chunk - 1)]
    else
      var n := Pieces(fileSize - chunk, chunk);
      [Range(0, chunk - 1)] + seq(n, i requires 0 <= i < n => FlatRange(fileSize, chunk, n, i))
  }

  function FlatRange(fileSize: int, chunk: int, n: nat, i: nat): Range
    requires chunk > 0 && i < n
  {
    var start := chunk + chunk * i;
    Range(start, if i == n - 1 then fileSize - 1 else start + chunk - 1)
  }

  /** The flat plan partitions the file: the served stretches are non-empty, at most a chunk
      each, adjacent in order and exactly [0, fileSize), and with more than one range none
      reaches past the end of the file. */
  lemma {:induction false} FlatPlanPartition(fileSize: nat, chunk: int)
    requires chunk > 0 && fileSize > 0
    ensures var rs := BufferRanges(fileSize, chunk);
            && (forall i :: 0 <= i < |rs| ==> Satisfiable(rs[i], fileSize))
            && Tiles(ServedAll(rs, fileSize), 0, fileSize)
            && (forall i :: 0 <= i < |rs| ==> Served(rs[i], fileSize).hi - Served(rs[i], fileSize).lo <= chunk)
            && (fileSize > chunk ==>
                && |rs| == 1 + Pieces(fileSize - chunk, chunk)
                && forall i :: 0 <= i < |rs| ==> rs[i].end < fileSize)
  {
    if fileSize > chunk {
      var rs := BufferRanges(fileSize, chunk);
      forall j | 0 < j < |rs|
        ensures Satisfiable(rs[j], fileSize)
        ensures rs[j].start == chunk + chunk * (j - 1)
        ensures rs[j].end == if j == |rs| - 1 then fileSize - 1 else chunk + chunk * j - 1
        ensures rs[j].end < fileSize && rs[j].end - rs[j].start < chunk
      {
        FlatRangeAt(fileSize, chunk, j);
      }
      var spans := ServedAll(rs, fileSize);
      forall i | 0 < i < |spans|
        ensures Adjacent(spans, i)
      {
        assert chunk + chunk * (i - 1 - 1) + chunk == chunk + chunk * (i - 1);
      }
    }
  }

  lemma FlatRangeAt(fileSize: nat, chunk: int, j: nat)
    requires 0 < chunk < fileSize && 0 < j < |BufferRanges(fileSize, chunk)|
    ensures var rs := BufferRanges(fileSize, chunk);
            && Satisfiable(rs[j], fileSize)
            && rs[j].start == chunk + chunk * (j - 1)
            && rs[j].end == (if j == |rs| - 1 then fileSize - 1 else chunk + chunk * j - 1)
            && rs[j].end < fileSize && rs[j].end - rs[j].start < chunk
  {
    var n := Pieces(fileSize - chunk, chunk);
    PiecesCover(fileSize - chunk, chunk);
    FlatRangeFits(fileSize, chunk, n, j - 1);
  }

  lemma FlatRangeFits(fileSize: int, chunk: int, n: nat, i: nat)
    requires 0 < chunk < fileSize && i < n
    requires (n - 1) * chunk < fileSize - chunk <= n * chunk
    ensures var r := FlatRange(fileSize, chunk, n, i);
            && r.start == chunk + chunk * i
            && r.end == (if i == n - 1 then fileSize - 1 else chunk + chunk * (i + 1) - 1)
            && chunk <= r.start <= r.end < fileSize
            && r.end - r.start < chunk
  {
    MulMonotone(0, i, chunk);
    assert chunk * i == i * chunk;
    assert chunk * (i + 1) == chunk * i + chunk;
    if i < n - 1 {
      MulMonotone(i + 1, n - 1, chunk);
    } else {
      assert n * chunk == (n - 1) * chunk + chunk;
    }
  }

  /** FlatRange as the source computes it, in wrapping int64 arithmetic. */
  function WrappedFlatRange(fileSize: int, chunk: int, n: nat, i: nat): Range {
    var start := Wrap(chunk + Wrap(chunk * i));
    var end := Wrap(Wrap(start + chunk) - 1);
    Range(start, if i == Wrap(n - 1) then Wrap(fileSize - 1) else end)
  }

  lemma WrappedFlatRangeExact(fileSize: int, chunk: int, n: nat, i: nat)
    requires 0 < chunk < fileSize <= MAX_INT64 && i < n <= MAX_INT64
    requires (n - 1) * chunk < fileSize - chunk <= n * chunk
    ensures WrappedFlatRange(fileSize, chunk, n, i) == FlatRange(fileSize, chunk, n, i)
  {
    FlatRangeFits(fileSize, chunk, n, i);
    MulMonotone(0, i, chunk);
    var r := FlatRange(fileSize, chunk, n, i);
    if i < n - 1 {
      assert r.end == r.start + chunk - 1;
      WrapTwice(r.start + chunk, -1);
    }
  }

  /** BufferMode.Fetch computes the flat plan, with every operation done in wrapping int64
      arithmetic, for every file size and chunk size: the one sum that can overflow, the
      provisional end of the last chunk, is discarded. */
  method PlanBuffer(fileSize: int, chunk: int) returns (plan: seq<Range>)
    requires 0 <= fileSize <= MAX_INT64 && 0 < chunk <= MAX_INT64
    ensures plan == BufferRanges(fileSize, chunk)
  {
    plan := [Range(0, Wrap(chunk - 1))];
    if fileSize <= chunk {
      return;
    }
    var remainingBytes := Wrap(fileSize - chunk);
    ghost var n := Pieces(fileSize - chunk, chunk);
    PiecesCover(fileSize - chunk, chunk);
    RoundUpByDivision(remainingBytes, chunk);
    PiecesAtMost(remainingBytes, chunk);
    var numChunks := Wrap((remainingBytes - 1) / chunk + 1);
    ghost var rs := BufferRanges(fileSize, chunk);
    assert forall k :: 0 <= k < n ==> rs[k + 1] == FlatRange(fileSize, chunk, n, k);
    var i := 0;
    while i < numChunks
      invariant 0 <= i <= numChunks == n && |rs| == n + 1
      invariant plan == rs[..i + 1]
    {
      WrappedFlatRangeExact(fileSize, chunk, n, i);
      plan := plan + [WrappedFlatRange(fileSize, chunk, numChunks, i)];
      i := i + 1;
    }
  }

  lemma {:induction false} PiecesAtMost(size: int, chunk: int)
    requires size > 0 && chunk > 0
    ensures Pieces(size, chunk) <= size
    decreases size
  {
    if size > chunk {
      PiecesAtMost(size - chunk, chunk);
    }
  }

  // ---- the sliced plan ----

  function SliceCount(fileSize: int, slice: int): nat
    requires fileSize > 0 && slice > 0
  {
    Pieces(fileSize, slice)
  }

  /** The bytes of slice k: a full slice, or the remainder for the last one. */
  function SliceLength(fileSize: int, slice: int, k: nat): (n: int)
    requires fileSize > 0 && slice > 0
    ensures 0 < n <= slice
  {
    if k == SliceCount(fileSize, slice) - 1 then
      LastSliceLength(fileSize, slice)
    else slice
  }

  function LastSliceLength(fileSize: int, slice: int): (n: int)
    requires fileSize > 0 && slice > 0
    ensures 0 < n <= slice
    decreases fileSize
  {
    if fileSize <= slice then fileSize else LastSliceLength(fileSize - slice, slice)
  }

  lemma {:induction false} LastSliceIsRemainder(fileSize: int, slice: int)
    requires fileSize > 0 && slice > 0
    ensures (Pieces(fileSize, slice) - 1) * slice + LastSliceLength(fileSize, slice) == fileSize
    decreases fileSize
  {
    if fileSize > slice {
      LastSliceIsRemainder(fileSize - slice, slice);
      var n := Pieces(fileSize - slice, slice);
      assert n * slice == (n - 1) * slice + slice;
    }
  }

  /** The source takes the last slice as "(fileSize - 1) % sliceSize + 1". */
  lemma {:induction false} LastSliceByModulo(fileSize: int, slice: int)
    requires fileSize > 0 && slice > 0
    ensures (fileSize - 1) % slice + 1 == LastSliceLength(fileSize, slice)
  {
    LastSliceIsRemainder(fileSize, slice);
    RoundUpByDivision(fileSize, slice);
    var q := (fileSize - 1) / slice;
    assert fileSize - 1 == q * slice + (fileSize - 1) % slice;
  }

  lemma SliceBounds(fileSize: int, slice: int, k: nat)
    requires fileSize > 0 && slice > 0 && k < SliceCount(fileSize, slice)
    ensures k * slice + SliceLength(fileSize, slice, k) == Min((k + 1) * slice, fileSize)
    ensures k * slice < fileSize
    ensures (k + 1) * slice == k * slice + slice
    ensures k == SliceCount(fileSize, slice) - 1 <==> (k + 1) * slice >= fileSize
  {
    PiecesCover(fileSize, slice);
    var t := SliceCount(fileSize, slice);
    assert (k + 1) * slice == k * slice + slice;
    if k < t - 1 {
      MulMonotone(k + 1, t - 1, slice);
    } else {
      LastSliceIsRemainder(fileSize, slice);
    }
  }

  /** Chunk i of slice k, cut off at the slice end and not at the file end. */
  function SlicedRange(chunk: int, slice: int, k: nat, i: nat): Range {
    CutRange(k * slice, (k + 1) * slice, i * chunk, chunk)
  }

  function CutRange(sliceBase: int, sliceTop: int, offset: int, chunk: int): Range {
    Range(sliceBase + offset, Min(sliceBase + offset + chunk - 1, sliceTop - 1))
  }

  lemma CutRangeFacts(fileSize: nat, chunk: int, base: int, top: int, offset: int)
    requires 0 <= base && chunk > 0 && 0 <= offset && base + offset < Min(top, fileSize)
    ensures var r := CutRange(base, top, offset, chunk);
            && Satisfiable(r, fileSize)
            && r.start == base + offset < Min(top, fileSize)
            && base <= r.start <= r.end < top
            && r.end - r.start < chunk
            && Served(r, fileSize).hi == Min(r.start + chunk, Min(top, fileSize))
            && (r.end >= fileSize ==> top > fileSize && r.start + chunk > fileSize)
  {
  }

  function SliceRanges(fileSize: int, chunk: int, slice: int, k: nat): seq<Range>
    requires fileSize > 0 && chunk > 0 && slice > 0
  {
    var n := Pieces(SliceLength(fileSize, slice, k), chunk);
    seq(n, i requires 0 <= i < n => SlicedRange(chunk, slice, k, i))
  }

  function SlicesUpTo(fileSize: int, chunk: int, slice: int, k: nat): seq<Range>
    requires fileSize > 0 && chunk > 0 && slice > 0
  {
    if k == 0 then []
    else SlicesUpTo(fileSize, chunk, slice, k - 1) + SliceRanges(fileSize, chunk, slice, k - 1)
  }

  /** The ranges ConsistentHashingMode asks for, in reader order. */
  function HashingRanges(fileSize: int, chunk: int, slice: int): seq<Range>
    requires chunk > 0 && slice > 0
  {
    if fileSize <= chunk then [Range(0, chunk - 1)]
    else SlicesUpTo(fileSize, chunk, slice, SliceCount(fileSize, slice))
  }

  /** One chunk of one slice: where it starts, what the server sends for it. */
  lemma {:induction false} SlicedRangeFacts(fileSize: nat, chunk: int, slice: int, k: nat, i: nat)
    requires fileSize > 0 && chunk > 0 && slice > 0
    requires k < SliceCount(fileSize, slice)
    requires i < Pieces(SliceLength(fileSize, slice, k), chunk)
    ensures var r := SlicedRange(chunk, slice, k, i);
            var top := Min((k + 1) * slice, fileSize);
            && r.start == k * slice + i * chunk < top
            && k * slice <= r.start <= r.end < (k + 1) * slice
            && r.end - r.start < chunk
            && Served(r, fileSize).hi == Min(r.start + chunk, top)
            && (i < Pieces(SliceLength(fileSize, slice, k), chunk) - 1 <==> r.start + chunk < top)
            && (r.end >= fileSize ==>
                && k == SliceCount(fileSize, slice) - 1
                && i == Pieces(SliceLength(fileSize, slice, k), chunk) - 1)
  {
    var len := SliceLength(fileSize, slice, k);
    SliceBounds(fileSize, slice, k);
    MulMonotone(0, k, slice);
    ChunkOffsets(len, chunk, i);
    CutRangeFacts(fileSize, chunk, k * slice, (k + 1) * slice, i * chunk);
  }

  /** The offset of chunk i in a stretch of len bytes. */
  lemma {:induction false} ChunkOffsets(len: int, chunk: int, i: nat)
    requires len > 0 && chunk > 0 && i < Pieces(len, chunk)
    ensures 0 <= i * chunk < len
    ensures i < Pieces(len, chunk) - 1 <==> i * chunk + chunk < len
  {
    var n := Pieces(len, chunk);
    PiecesCover(len, chunk);
    MulMonotone(0, i, chunk);
    MulMonotone(i, n - 1, chunk);
    assert (i + 1) * chunk == i * chunk + chunk;
    if i < n - 1 {
      MulMonotone(i + 1, n - 1, chunk);
    }
  }

  lemma SliceTiles(fileSize: nat, chunk: int, slice: int, k: nat)
    requires fileSize > 0 && chunk > 0 && slice > 0
    requires k < SliceCount(fileSize, slice)
    ensures var rs := SliceRanges(fileSize, chunk, slice, k);
            && (forall i :: 0 <= i < |rs| ==> Satisfiable(rs[i], fileSize))
            && 0 <= k * slice
            && Tiles(ServedAll(rs, fileSize), k * slice, Min((k + 1) * slice, fileSize))
  {
    var rs := SliceRanges(fileSize, chunk, slice, k);
    MulMonotone(0, k, slice);
    forall i | 0 <= i < |rs|
      ensures rs[i].start == k * slice + i * chunk
      ensures Satisfiable(rs[i], fileSize)
      ensures Served(rs[i], fileSize).hi == Min(rs[i].start + chunk, Min((k + 1) * slice, fileSize))
      ensures i < |rs| - 1 <==> rs[i].start + chunk < Min((k + 1) * slice, fileSize)
      ensures rs[i].start < Min((k + 1) * slice, fileSize)
    {
      SlicedRangeFacts(fileSize, chunk, slice, k, i);
    }
    var spans := ServedAll(rs, fileSize);
    forall i | 0 < i < |spans|
      ensures Adjacent(spans, i)
    {
      assert (i - 1) * chunk + chunk == i * chunk;
    }
    assert 0 * chunk == 0;
  }

  lemma {:induction false} SlicesUpToTile(fileSize: nat, chunk: int, slice: int, k: nat)
    requires fileSize > 0 && chunk > 0 && slice > 0
    requires 0 < k <= SliceCount(fileSize, slice)
    ensures var rs := SlicesUpTo(fileSize, chunk, slice, k);
            && (forall i :: 0 <= i < |rs| ==> Satisfiable(rs[i], fileSize))
            && 0 <= Min(k * slice, fileSize)
            && Tiles(ServedAll(rs, fileSize), 0, Min(k * slice, fileSize))
  {
    SliceTiles(fileSize, chunk, slice, k - 1);
    SliceBounds(fileSize, slice, k - 1);
    MulMonotone(0, k, slice);
    var last := SliceRanges(fileSize, chunk, slice, k - 1);
    if k == 1 {
      assert SlicesUpTo(fileSize, chunk, slice, 0) == [];
      assert SlicesUpTo(fileSize, chunk, slice, 1) == last;
      assert 0 * slice == 0;
    } else {
      SlicesUpToTile(fileSize, chunk, slice, k - 1);
      var front := SlicesUpTo(fileSize, chunk, slice, k - 1);
      ServedAllAppend(front, last, fileSize);
      assert Min((k - 1) * slice, fileSize) == (k - 1) * slice;
      TilesAppend(ServedAll(front, fileSize), ServedAll(last, fileSize),
                  0, (k - 1) * slice, Min(k * slice, fileSize));
    }
  }

  /** The sliced plan partitions the file once the server has cut it to the file's end. */
  lemma SlicePlanPartition(fileSize: nat, chunk: int, slice: int)
    requires fileSize > 0 && chunk > 0 && slice > 0
    ensures var rs := HashingRanges(fileSize, chunk, slice);
            && (forall i :: 0 <= i < |rs| ==> Satisfiable(rs[i], fileSize))
            && Tiles(ServedAll(rs, fileSize), 0, fileSize)
  {
    if fileSize > chunk {
      var t := SliceCount(fileSize, slice);
      PiecesCover(fileSize, slice);
      SlicesUpToTile(fileSize, chunk, slice, t);
      assert Min(t * slice, fileSize) == fileSize;
    }
  }

  /** Where an index of the sliced plan comes from. */
  lemma {:induction false} LocateInSlices(fileSize: int, chunk: int, slice: int, k: nat, j: nat)
    returns (s: nat, i: nat)
    requires fileSize > 0 && chunk > 0 && slice > 0
    requires j < |SlicesUpTo(fileSize, chunk, slice, k)|
    ensures s < k && i < Pieces(SliceLength(fileSize, slice, s), chunk)
    ensures SlicesUpTo(fileSize, chunk, slice, k)[j] == SlicedRange(chunk, slice, s, i)
    ensures j == |SlicesUpTo(fileSize, chunk, slice, s)| + i
    decreases k
  {
    var front := SlicesUpTo(fileSize, chunk, slice, k - 1);
    if j < |front| {
      s, i := LocateInSlices(fileSize, chunk, slice, k - 1, j);
    } else {
      s, i := k - 1, j - |front|;
    }
  }

  lemma DivOfBounds(x: int, k: int, s: int)
    requires s > 0 && k * s <= x < (k + 1) * s
    ensures x / s == k
  {
    assert (k + 1) * s == k * s + s;
    var q, m := x / s, x % s;
    assert x == q * s + m;
    assert (q + 1) * s == q * s + s;
    if q < k {
      MulMonotone(q + 1, k, s);
    } else if q > k {
      MulMonotone(k + 1, q, s);
    }
  }

  /** Every range of the sliced plan stays inside one slice, is at most a chunk long, and no
      range but the last one reaches past the end of the file. */
  lemma SlicePlanShape(fileSize: nat, chunk: int, slice: int, j: nat)
    requires fileSize > 0 && 0 < chunk <= slice
    requires j < |HashingRanges(fileSize, chunk, slice)|
    ensures var rs := HashingRanges(fileSize, chunk, slice);
            && 0 <= rs[j].start <= rs[j].end
            && rs[j].start / slice == rs[j].end / slice
            && rs[j].end - rs[j].start < chunk
            && (rs[j].end >= fileSize ==> j == |rs| - 1)
  {
    if fileSize <= chunk {
      DivOfBounds(0, 0, slice);
      DivOfBounds(chunk - 1, 0, slice);
    } else {
      var t := SliceCount(fileSize, slice);
      var k, i := LocateInSlices(fileSize, chunk, slice, t, j);
      SlicedRangeFacts(fileSize, chunk, slice, k, i);
      var r := SlicedRange(chunk, slice, k, i);
      MulMonotone(0, k, slice);
      DivOfBounds(r.start, k, slice);
      DivOfBounds(r.end, k, slice);
    }
  }

  // ---- the sliced plan in wrapping arithmetic ----

  /** SlicedRange as the source computes it, in wrapping int64 arithmetic. */
  function WrappedSlicedRange(chunk: int, slice: int, k: nat, i: nat): Range {
    WrappedSums(slice * k, slice * Wrap(k + 1), i * chunk, chunk)
  }

  function WrappedSums(sliceBase: int, sliceTop: int, offset: int, chunk: int): Range {
    var sliceStart := Wrap(sliceBase);
    var sliceEnd := Wrap(Wrap(sliceTop) - 1);
    var chunkStart := Wrap(sliceStart + Wrap(offset));
    var chunkEnd := Wrap(Wrap(chunkStart + chunk) - 1);
    Range(chunkStart, if chunkEnd > sliceEnd then sliceEnd else chunkEnd)
  }

  lemma {:induction false} WrappedSumsFacts(sliceBase: int, sliceTop: int, offset: int, chunk: int)
    requires 0 <= sliceBase && 0 <= offset && sliceBase + offset <= MAX_INT64
    ensures var chunkEnd, sliceEnd := Wrap(sliceBase + offset + chunk - 1), Wrap(sliceTop - 1);
            WrappedSums(sliceBase, sliceTop, offset, chunk)
            == Range(sliceBase + offset, if chunkEnd > sliceEnd then sliceEnd else chunkEnd)
  {
    WrapTwice(sliceTop, -1);
    WrapTwice(sliceBase + offset + chunk, -1);
  }

  /** Where the last chunk of the plan starts. */
  function LastChunkStart(fileSize: int, chunk: int, slice: int): int
    requires fileSize > 0 && chunk > 0 && slice > 0
  {
    var k := SliceCount(fileSize, slice) - 1;
    k * slice + (Pieces(SliceLength(fileSize, slice, k), chunk) - 1) * chunk
  }

  /** The two sums a caller has to keep within int64. */
  predicate NoOverflow(fileSize: int, chunk: int, slice: int)
    requires fileSize > 0 && chunk > 0 && slice > 0
  {
    && SliceCount(fileSize, slice) * slice <= TWO_TO_63
    && LastChunkStart(fileSize, chunk, slice) + chunk <= TWO_TO_63
  }

  lemma {:induction false} WrappedParts(fileSize: nat, chunk: int, slice: int, k: nat, i: nat)
    requires 0 < fileSize <= MAX_INT64 && 0 < chunk <= slice <= MAX_INT64
    requires k < SliceCount(fileSize, slice)
    requires i < Pieces(SliceLength(fileSize, slice, k), chunk)
    ensures var start := k * slice + i * chunk;
            var sliceEnd := Wrap((k + 1) * slice - 1);
            var chunkEnd := Wrap(start + chunk - 1);
            WrappedSlicedRange(chunk, slice, k, i)
            == Range(start, if chunkEnd > sliceEnd then sliceEnd else chunkEnd)
  {
    ChunkStartBounds(fileSize, chunk, slice, k, i);
    Commute(slice, k);
    Commute(slice, k + 1);
    WrappedSumsFacts(k * slice, (k + 1) * slice, i * chunk, chunk);
  }

  lemma {:induction false} ChunkStartBounds(fileSize: nat, chunk: int, slice: int, k: nat, i: nat)
    requires 0 < fileSize <= MAX_INT64 && 0 < chunk <= slice <= MAX_INT64
    requires k < SliceCount(fileSize, slice)
    requires i < Pieces(SliceLength(fileSize, slice, k), chunk)
    ensures 0 <= k * slice && 0 <= i * chunk && k * slice + i * chunk < fileSize
    ensures Wrap(k + 1) == k + 1
  {
    SlicedRangeFacts(fileSize, chunk, slice, k, i);
    MulMonotone(0, i, chunk);
    AtLeastFactor(k, slice);
  }

  lemma AtLeastFactor(k: nat, slice: int)
    requires slice > 0
    ensures k <= k * slice
  {
    MulMonotone(1, slice, k);
    Commute(slice, k);
  }

  lemma Commute(a: int, b: int)
    ensures a * b == b * a
  {
  }

  /** Exactly when the wrapped range is the intended one; otherwise it ends before it starts. */
  lemma {:induction false} WrappedRangeIff(fileSize: nat, chunk: int, slice: int, k: nat, i: nat)
    requires 0 < fileSize <= MAX_INT64 && 0 < chunk <= slice <= MAX_INT64
    requires k < SliceCount(fileSize, slice)
    requires i < Pieces(SliceLength(fileSize, slice, k), chunk)
    ensures var w := WrappedSlicedRange(chunk, slice, k, i);
            var fits := (k + 1) * slice <= TWO_TO_63 && k * slice + i * chunk + chunk <= TWO_TO_63;
            && (fits ==> w == SlicedRange(chunk, slice, k, i))
            && (!fits ==> w.end < 0 <= w.start)
  {
    WrappedParts(fileSize, chunk, slice, k, i);
    SlicedRangeFacts(fileSize, chunk, slice, k, i);
    SliceBounds(fileSize, slice, k);
    MulMonotone(0, k, slice);
    var start := k * slice + i * chunk;
    if (k + 1) * slice > TWO_TO_63 {
      WrapOverflow((k + 1) * slice - 1);
    }
    if start + chunk > TWO_TO_63 {
      WrapOverflow(start + chunk - 1);
    }
  }

  function WrappedSliceRanges(fileSize: int, chunk: int, slice: int, k: nat): seq<Range>
    requires fileSize > 0 && chunk > 0 && slice > 0
  {
    var n := Pieces(SliceLength(fileSize, slice, k), chunk);
    seq(n, i requires 0 <= i < n => WrappedSlicedRange(chunk, slice, k, i))
  }

  function WrappedSlicesUpTo(fileSize: int, chunk: int, slice: int, k: nat): seq<Range>
    requires fileSize > 0 && chunk > 0 && slice > 0
  {
    if k == 0 then []
    else WrappedSlicesUpTo(fileSize, chunk, slice, k - 1) + WrappedSliceRanges(fileSize, chunk, slice, k - 1)
  }

  /** The requests of ConsistentHashingMode as it computes them, in reader order. */
  function SlicedRequests(fileSize: int, chunk: int, slice: int): seq<Range>
    requires chunk > 0 && slice > 0
  {
    if fileSize <= chunk then [Range(0, chunk - 1)]
    else WrappedSlicesUpTo(fileSize, chunk, slice, SliceCount(fileSize, slice))
  }

  /** The computed plan has a request for every range of the intended one, from the same chunk of
      the same slice. */
  lemma {:induction false} LocateWrapped(fileSize: int, chunk: int, slice: int, k: nat, j: nat)
    returns (s: nat, i: nat)
    requires fileSize > 0 && chunk > 0 && slice > 0
    requires j < |SlicesUpTo(fileSize, chunk, slice, k)|
    ensures s < k && i < Pieces(SliceLength(fileSize, slice, s), chunk)
    ensures SlicesUpTo(fileSize, chunk, slice, k)[j] == SlicedRange(chunk, slice, s, i)
    ensures |WrappedSlicesUpTo(fileSize, chunk, slice, k)| == |SlicesUpTo(fileSize, chunk, slice, k)|
    ensures WrappedSlicesUpTo(fileSize, chunk, slice, k)[j] == WrappedSlicedRange(chunk, slice, s, i)
    ensures j == |SlicesUpTo(fileSize, chunk, slice, s)| + i
    decreases k
  {
    var front := SlicesUpTo(fileSize, chunk, slice, k - 1);
    SameCount(fileSize, chunk, slice, k - 1);
    if j < |front| {
      s, i := LocateWrapped(fileSize, chunk, slice, k - 1, j);
    } else {
      s, i := k - 1, j - |front|;
    }
  }

  lemma {:induction false} SameCount(fileSize: int, chunk: int, slice: int, k: nat)
    requires fileSize > 0 && chunk > 0 && slice > 0
    ensures |WrappedSlicesUpTo(fileSize, chunk, slice, k)| == |SlicesUpTo(fileSize, chunk, slice, k)|
  {
    if k > 0 {
      SameCount(fileSize, chunk, slice, k - 1);
    }
  }

  /** No chunk needs more of int64 than the last chunk and the last slice do. */
  lemma {:induction false} LastChunkIsWorst(fileSize: nat, chunk: int, slice: int, k: nat, i: nat)
    requires fileSize > 0 && 0 < chunk <= slice
    requires k < SliceCount(fileSize, slice)
    requires i < Pieces(SliceLength(fileSize, slice, k), chunk)
    ensures (k + 1) * slice <= SliceCount(fileSize, slice) * slice
    ensures k * slice + i * chunk <= LastChunkStart(fileSize, chunk, slice)
  {
    var t := SliceCount(fileSize, slice);
    MulMonotone(k + 1, t, slice);
    SlicedRangeFacts(fileSize, chunk, slice, k, i);
    var last := Pieces(SliceLength(fileSize, slice, t - 1), chunk) - 1;
    if k < t - 1 {
      MulMonotone(k + 1, t - 1, slice);
      MulMonotone(0, last, chunk);
    } else {
      MulMonotone(i, last, chunk);
    }
  }

  lemma {:induction false} WrappedSlicesExact(fileSize: nat, chunk: int, slice: int, k: nat)
    requires 0 < fileSize <= MAX_INT64 && 0 < chunk <= slice <= MAX_INT64
    requires k <= SliceCount(fileSize, slice)
    requires NoOverflow(fileSize, chunk, slice)
    ensures WrappedSlicesUpTo(fileSize, chunk, slice, k) == SlicesUpTo(fileSize, chunk, slice, k)
  {
    if k > 0 {
      WrappedSlicesExact(fileSize, chunk, slice, k - 1);
      var rs := SliceRanges(fileSize, chunk, slice, k - 1);
      forall i | 0 <= i < |rs|
        ensures WrappedSlicedRange(chunk, slice, k - 1, i) == rs[i]
      {
        LastChunkIsWorst(fileSize, chunk, slice, k - 1, i);
        WrappedRangeIff(fileSize, chunk, slice, k - 1, i);
      }
      assert WrappedSliceRanges(fileSize, chunk, slice, k - 1) == rs;
    }
  }

  /** The plan computed in int64 is the intended one if the two sums of NoOverflow fit; if one
      does not, the last request of the plan ends before it starts. */
  lemma {:induction false} HashingPlanOverflow(fileSize: nat, chunk: int, slice: int)
    requires 0 < fileSize <= MAX_INT64 && 0 < chunk <= slice <= MAX_INT64
    ensures var t := SliceCount(fileSize, slice);
            var ws := WrappedSlicesUpTo(fileSize, chunk, slice, t);
            && |ws| >= 1
            && (NoOverflow(fileSize, chunk, slice) ==> ws == SlicesUpTo(fileSize, chunk, slice, t))
            && (!NoOverflow(fileSize, chunk, slice) ==> ws[|ws| - 1].end < ws[|ws| - 1].start)
  {
    var t := SliceCount(fileSize, slice);
    if NoOverflow(fileSize, chunk, slice) {
      WrappedSlicesExact(fileSize, chunk, slice, t);
    }
    LastWrappedRange(fileSize, chunk, slice);
  }

  lemma {:induction false} LastWrappedRange(fileSize: nat, chunk: int, slice: int)
    requires 0 < fileSize <= MAX_INT64 && 0 < chunk <= slice <= MAX_INT64
    ensures var ws := WrappedSlicesUpTo(fileSize, chunk, slice, SliceCount(fileSize, slice));
            && |ws| >= 1
            && (!NoOverflow(fileSize, chunk, slice) ==> ws[|ws| - 1].end < ws[|ws| - 1].start)
  {
    var k := SliceCount(fileSize, slice) - 1;
    var i := Pieces(SliceLength(fileSize, slice, k), chunk) - 1;
    WrappedRangeIff(fileSize, chunk, slice, k, i);
    var last := WrappedSliceRanges(fileSize, chunk, slice, k);
    assert last[i] == WrappedSlicedRange(chunk, slice, k, i);
  }

  /** The first computed request is the one made to learn the size. */
  lemma FirstSlicedRequest(fileSize: nat, chunk: int, slice: int)
    requires fileSize <= MAX_INT64 && 0 < chunk <= slice <= MAX_INT64
    ensures var rs := SlicedRequests(fileSize, chunk, slice);
            |rs| >= 1 && rs[0] == Range(0, chunk - 1)
  {
    if fileSize > chunk {
      var t := SliceCount(fileSize, slice);
      HashingPlanOverflow(fileSize, chunk, slice);
      SameCount(fileSize, chunk, slice, t);
      var k, i := LocateWrapped(fileSize, chunk, slice, t, 0);
      WrappedRangeIff(fileSize, chunk, slice, k, i);
      assert 0 * slice == 0 && 0 * chunk == 0 && (0 + 1) * slice == slice;
    }
  }

  /** The source counts slices with a division, plus one if there is a remainder. */
  lemma {:induction false} RoundUpByRemainder(a: int, b: int)
    requires a > 0 && b > 0
    ensures Pieces(a, b) == a / b + (if a % b != 0 then 1 else 0)
  {
    PiecesCover(a, b);
    var n := Pieces(a, b);
    assert n * b == (n - 1) * b + b;
    if a == n * b {
      assert (n + 1) * b == n * b + b;
      DivOfBounds(a, n, b);
    } else {
      DivOfBounds(a, n - 1, b);
    }
    assert a == (a / b) * b + a % b;
  }

  /** The inner loop of downloadRemainingChunks: the chunks of one slice. */
  method PlanSlice(chunk: int, slice: int, k: nat, numChunks: nat) returns (ranges: seq<Range>)
    ensures |ranges| == numChunks
    ensures forall i :: 0 <= i < numChunks ==> ranges[i] == WrappedSlicedRange(chunk, slice, k, i)
  {
    ranges := [];
    for i := 0 to numChunks
      invariant |ranges| == i
      invariant forall j :: 0 <= j < i ==> ranges[j] == WrappedSlicedRange(chunk, slice, k, j)
    {
      ranges := ranges + [WrappedSlicedRange(chunk, slice, k, i)];
    }
  }

  /** ConsistentHashingMode.Fetch with downloadRemainingChunks, in wrapping int64 arithmetic.
      The first chunk of the first slice is the request already made to learn the size. */
  method PlanHashing(fileSize: int, chunk: int, slice: int) returns (plan: seq<Range>)
    requires 0 <= fileSize <= MAX_INT64 && 0 < chunk <= slice <= MAX_INT64
    ensures plan == SlicedRequests(fileSize, chunk, slice)
    ensures fileSize <= chunk || NoOverflow(fileSize, chunk, slice) ==>
              plan == HashingRanges(fileSize, chunk, slice)
    ensures fileSize > chunk && !NoOverflow(fileSize, chunk, slice) ==>
              exists j :: 0 <= j < |plan| && plan[j].end < plan[j].start
  {
    if fileSize <= chunk {
      return [Range(0, chunk - 1)];
    }
    var totalSlices := fileSize / slice;
    if fileSize % slice != 0 {
      totalSlices := totalSlices + 1;
    }
    RoundUpByRemainder(fileSize, slice);
    LastSliceByModulo(fileSize, slice);
    plan := [];
    var k := 0;
    while k < totalSlices
      invariant 0 <= k <= totalSlices == SliceCount(fileSize, slice)
      invariant plan == WrappedSlicesUpTo(fileSize, chunk, slice, k)
    {
      var sliceSize := slice;
      if k == totalSlices - 1 {
        sliceSize := (fileSize - 1) % slice + 1;
      }
      var numChunks := (sliceSize - 1) / chunk + 1;
      RoundUpByDivision(sliceSize, chunk);
      var ranges := PlanSlice(chunk, slice, k, numChunks);
      assert ranges == WrappedSliceRanges(fileSize, chunk, slice, k);
      plan := plan + ranges;
      k := k + 1;
    }
    HashingPlanOverflow(fileSize, chunk, slice);
  }

  // ---- both strategies ----

  /** Both strategies read the same stream, which is the file, whatever the sizes. */
  lemma {:induction false} StrategiesAgree(content: seq<byte>, bufferChunk: int, chunk: int, slice: int)
    requires |content| > 0 && bufferChunk > 0 && chunk > 0 && slice > 0
    ensures var flat := BufferRanges(|content|, bufferChunk);
            var sliced := HashingRanges(|content|, chunk, slice);
            && (forall i :: 0 <= i < |flat| ==> Satisfiable(flat[i], |content|))
            && (forall i :: 0 <= i < |sliced| ==> Satisfiable(sliced[i], |content|))
            && Stream(content, sliced) == Stream(content, flat) == content
  {
    FlatPlanPartition(|content|, bufferChunk);
    SlicePlanPartition(|content|, chunk, slice);
    StreamOfTiling(content, BufferRanges(|content|, bufferChunk), |content|);
    StreamOfTiling(content, HashingRanges(|content|, chunk, slice), |content|);
    assert content[..|content|] == content;
  }

  /** The fallback BufferMode borrows workers whose buffers have the clamped chunk size but
      plans with the unclamped one: its chunks fit exactly when the option does not exceed the
      slice size or the file does not. */
  lemma FallbackFitsIff(fileSize: nat, option: nat, slice: nat)
    requires fileSize > 0 && slice > 0
    ensures var rs := BufferRanges(fileSize, BufferChunkSize(option));
            && (forall i :: 0 <= i < |rs| ==> Satisfiable(rs[i], fileSize))
            && ((forall i :: 0 <= i < |rs| ==>
                   Served(rs[i], fileSize).hi - Served(rs[i], fileSize).lo <= HashingChunkSize(option, slice))
                <==> BufferChunkSize(option) <= slice || fileSize <= slice)
  {
    var chunk := BufferChunkSize(option);
    var rs := BufferRanges(fileSize, chunk);
    FlatPlanPartition(fileSize, chunk);
    assert Served(rs[0], fileSize) == Span(0, Min(chunk, fileSize));
  }

  // ---- where the plans fail ----

  /** The slice size the command line sets. */
  const SLICE_SIZE: int := 500 * 1024 * 1024

  /** A chunk size of 600 MiB and a file of 600 MiB: the fallback's first chunk is 100 MiB
      longer than the buffer it is read into. */
  lemma FallbackDoesNotFit()
    ensures var mib := 1024 * 1024;
            var rs := BufferRanges(600 * mib, BufferChunkSize(600 * mib));
            && Satisfiable(rs[0], 600 * mib)
            && Served(rs[0], 600 * mib) == Span(0, 600 * mib)
            && HashingChunkSize(600 * mib, SLICE_SIZE) == 500 * mib
            && exists i :: 0 <= i < |rs| && Satisfiable(rs[i], 600 * mib)
                 && Served(rs[i], 600 * mib).hi - Served(rs[i], 600 * mib).lo > HashingChunkSize(600 * mib, SLICE_SIZE)
  {
    FallbackFitsIff(600 * 1024 * 1024, 600 * 1024 * 1024, SLICE_SIZE);
  }

  /** The largest int64 size overflows with that slice size, whatever the chunk size: the last
      slice ends past 2^63, and the last request ends before it starts. */
  lemma {:induction false} LargestFileOverflows(chunk: int)
    requires 0 < chunk <= SLICE_SIZE
    ensures !NoOverflow(MAX_INT64, chunk, SLICE_SIZE)
    ensures var ws := WrappedSlicesUpTo(MAX_INT64, chunk, SLICE_SIZE, SliceCount(MAX_INT64, SLICE_SIZE));
            |ws| >= 1 && ws[|ws| - 1].end < ws[|ws| - 1].start
  {
    LastSlicePassesEnd();
    HashingPlanOverflow(MAX_INT64, chunk, SLICE_SIZE);
  }

  /** 500 MiB is a multiple of 125, and 2^63 is not. */
  lemma LastSlicePassesEnd()
    ensures SliceCount(MAX_INT64, SLICE_SIZE) * SLICE_SIZE > TWO_TO_63
  {
    PiecesCover(MAX_INT64, SLICE_SIZE);
    NotAMultiple(SliceCount(MAX_INT64, SLICE_SIZE));
  }

  lemma NotAMultiple(t: int)
    ensures t * SLICE_SIZE != TWO_TO_63 - 1 && t * SLICE_SIZE != TWO_TO_63
  {
  }
}
