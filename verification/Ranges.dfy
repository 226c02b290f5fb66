/**
 Byte ranges as requested (inclusive ends, as in a Range header) and as served (half-open
 stretches of the file), and what it means for served stretches to tile a file.
 */
module Ranges {

  type byte = b: int | 0 <= b < 256

  /** A requested range: the two numbers of "bytes=start-end". */
  datatype Range = Range(start: int, end: int)

  /** A stretch of a file, from lo up to and not including hi. */
  datatype Span = Span(lo: nat, hi: nat)

  function Min(a: int, b: int): int {
    if a < b then a else b
  }

  /** The requests a server can answer: section 14.1.2 of RFC 9110. */
  predicate Satisfiable(r: Range, size: nat) {
    0 <= r.start <= r.end && r.start < size
  }

  /** What the server sends for a satisfiable request: a last position past the end of the
      file stands for the remainder of the file (section 14.1.2 of RFC 9110). */
  function Served(r: Range, size: nat): Span
    requires Satisfiable(r, size)
  {
    Span(r.start, Min(r.end + 1, size))
  }

  function ServedAll(rs: seq<Range>, size: nat): seq<Span>
    requires forall i :: 0 <= i < |rs| ==> Satisfiable(rs[i], size)
  {
    seq(|rs|, i requires 0 <= i < |rs| => Served(rs[i], size))
  }

  /** Span i starts where the span before it ends. */
  ghost predicate Adjacent(spans: seq<Span>, i: nat)
    requires 0 < i < |spans|
  {
    spans[i - 1].hi == spans[i].lo
  }

  /** The spans are non-empty, adjacent in order, and together are exactly [lo, hi). */
  ghost predicate Tiles(spans: seq<Span>, lo: nat, hi: nat) {
    && |spans| >= 1
    && spans[0].lo == lo
    && spans[|spans| - 1].hi == hi
    && (forall i :: 0 <= i < |spans| ==> spans[i].lo < spans[i].hi)
    && (forall i {:trigger Adjacent(spans, i)} :: 0 < i < |spans| ==> Adjacent(spans, i))
  }

  lemma TilesAppend(a: seq<Span>, b: seq<Span>, lo: nat, mid: nat, hi: nat)
    requires Tiles(a, lo, mid) && Tiles(b, mid, hi)
    ensures Tiles(a + b, lo, hi)
  {
    var c := a + b;
    forall i | 0 < i < |c|
      ensures Adjacent(c, i)
    {
      if i > |a| {
        assert Adjacent(b, i - |a|);
      } else if i < |a| {
        assert Adjacent(a, i);
      }
    }
  }

  lemma ServedAllAppend(a: seq<Range>, b: seq<Range>, size: nat)
    requires forall i :: 0 <= i < |a| ==> Satisfiable(a[i], size)
    requires forall i :: 0 <= i < |b| ==> Satisfiable(b[i], size)
    ensures forall i :: 0 <= i < |a + b| ==> Satisfiable((a + b)[i], size)
    ensures ServedAll(a + b, size) == ServedAll(a, size) + ServedAll(b, size)
  {
  }

  /** Every span of a tiling lies between its bounds. */
  lemma {:induction false} TilesBounds(spans: seq<Span>, lo: nat, hi: nat, k: nat)
    requires Tiles(spans, lo, hi)
    requires k < |spans|
    ensures lo <= spans[k].lo < spans[k].hi <= hi
  {
    TilesLower(spans, lo, hi, k);
    TilesUpper(spans, lo, hi, k);
  }

  lemma {:induction false} TilesLower(spans: seq<Span>, lo: nat, hi: nat, k: nat)
    requires Tiles(spans, lo, hi)
    requires k < |spans|
    ensures lo <= spans[k].lo
  {
    if k > 0 {
      TilesLower(spans, lo, hi, k - 1);
      assert Adjacent(spans, k);
    }
  }

  lemma {:induction false} TilesUpper(spans: seq<Span>, lo: nat, hi: nat, k: nat)
    requires Tiles(spans, lo, hi)
    requires k < |spans|
    ensures spans[k].hi <= hi
    decreases |spans| - k
  {
    if k + 1 < |spans| {
      TilesUpper(spans, lo, hi, k + 1);
      assert Adjacent(spans, k + 1);
    }
  }

  /** Two different spans of a tiling share no byte. */
  lemma {:induction false} TilesDisjoint(spans: seq<Span>, lo: nat, hi: nat, i: nat, j: nat)
    requires Tiles(spans, lo, hi)
    requires i < j < |spans|
    ensures spans[i].hi <= spans[j].lo
    decreases j
  {
    assert Adjacent(spans, j);
    if i + 1 < j {
      TilesDisjoint(spans, lo, hi, i, j - 1);
    }
  }

  /** How a file of the given size is cut into chunks: an empty file is one empty chunk. */
  ghost predicate Chunking(spans: seq<Span>, size: nat) {
    if size == 0 then |spans| == 1 && spans[0].lo == spans[0].hi == 0 else Tiles(spans, 0, size)
  }

  lemma ChunkingBounds(spans: seq<Span>, size: nat, k: nat)
    requires Chunking(spans, size)
    requires k < |spans|
    ensures spans[k].lo <= spans[k].hi <= size
    ensures size > 0 ==> spans[k].lo < spans[k].hi
  {
    if size > 0 {
      TilesBounds(spans, 0, size, k);
    }
  }

  /** The bytes of one span. */
  function Piece(content: seq<byte>, s: Span): (r: seq<byte>)
    requires s.lo <= s.hi <= |content|
    ensures |r| == s.hi - s.lo
  {
    content[s.lo..s.hi]
  }

  /** The served pieces of a request list, in order, joined into one stream. */
  function Stream(content: seq<byte>, rs: seq<Range>): seq<byte>
    requires forall i :: 0 <= i < |rs| ==> Satisfiable(rs[i], |content|)
  {
    if rs == [] then []
    else
      Stream(content, rs[..|rs| - 1]) + Piece(content, Served(rs[|rs| - 1], |content|))
  }

  /** Pieces of a tiling, joined in order, are the bytes they cover. */
  lemma {:induction false} StreamOfTiling(content: seq<byte>, rs: seq<Range>, hi: nat)
    requires forall i :: 0 <= i < |rs| ==> Satisfiable(rs[i], |content|)
    requires Tiles(ServedAll(rs, |content|), 0, hi)
    requires hi <= |content|
    ensures Stream(content, rs) == content[..hi]
    decreases |rs|
  {
    var n := |rs| - 1;
    var spans := ServedAll(rs, |content|);
    if n == 0 {
      assert Stream(content, rs[..n]) == [];
      assert spans[0] == Span(0, hi);
      assert content[0..hi] == content[..hi];
    } else {
      var front := ServedAll(rs[..n], |content|);
      assert front == spans[..n];
      forall i | 0 < i < n
        ensures Adjacent(front, i)
      {
        assert Adjacent(spans, i);
      }
      assert Adjacent(spans, n);
      StreamOfTiling(content, rs[..n], spans[n].lo);
      assert content[..spans[n].lo] + content[spans[n].lo..hi] == content[..hi];
    }
  }
}
