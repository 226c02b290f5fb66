/**
 The hand-off between a worker and the consumer (readerPromise), first as a value that the
 delivery protocol steps through, then as the object whose methods perform those steps.
 */
module Promise {
  import opened Ranges

  /** Go's error values, as far as the download code tells them apart. */
  datatype Error =
    | NoError
    | Eof
    | UnexpectedEof
    | Fallback
    | MissingRange
    | MalformedRange(header: string)
    | InvalidRange(header: string)
    | Failure(reason: string)

  /** A promise: before Deliver, and after it. `buf` names the buffer the bytes live in; the
      promise holds a reference to it, never a copy. `drained` is the closed channel
      `finished`, which releases the producer. */
  datatype Promise<+B> =
    | Unready
    | Ready(buf: B, size: nat, err: Error, pos: nat, drained: bool)

  /** What a promise was delivered with. */
  datatype Outcome = Outcome(bytes: seq<byte>, err: Error)

  function Delivered<B>(buf: B, size: nat, err: Error): Promise<B> {
    Ready(buf, size, err, 0, false)
  }

  /** How many bytes one Read call with the given room returns. */
  function ReadCount<B>(p: Promise<B>, room: nat): nat
    requires p.Ready? && p.pos <= p.size
  {
    if p.err != NoError then 0 else Min(room, p.size - p.pos)
  }

  /** The error one Read call returns. */
  function ReadError<B>(p: Promise<B>): Error
    requires p.Ready?
  {
    if p.err != NoError then p.err else if p.pos >= p.size then Eof else NoError
  }

  /** The promise after one Read call: only a Read that hits the end of an error-free chunk
      drains it, so a chunk delivered with an error is never drained. */
  function AfterRead<B>(p: Promise<B>, room: nat): Promise<B>
    requires p.Ready? && p.pos <= p.size
  {
    if p.err != NoError then p
    else if p.pos >= p.size then p.(err := Eof, drained := true)
    else p.(pos := p.pos + ReadCount(p, room))
  }

  class ReaderPromise {
    var ready: bool
    var finished: bool
    var buf: array?<byte>
    var backing: array?<byte>
    var size: nat
    var pos: nat
    var err: Error

    ghost predicate Valid()
      reads this
    {
      && (ready ==> backing != null && pos <= size <= backing.Length)
      && (ready && !finished ==> buf == backing)
      && (ready && finished ==> buf == null && err == Eof && pos == size)
      && (!ready ==> !finished)
    }

    /** The object as a protocol value. */
    ghost function View(): Promise<array<byte>>
      reads this
      requires Valid()
    {
      if !ready then Unready else var b: array<byte> := backing; Ready(b, size, err, pos, finished)
    }

    constructor ()
      ensures Valid() && View() == Unready
    {
      ready, finished, buf, backing := false, false, null, null;
      size, pos, err := 0, 0, NoError;
    }

    /** Deliver up to the point where it waits for `finished`. Closing a closed channel panics
        in Go, so delivering twice is outside the contract. */
    method Deliver(b: array?<byte>, n: nat, e: Error)
      requires Valid() && !ready
      requires if b == null then n == 0 else n <= b.Length
      modifies this
      ensures Valid() && View().Ready?
      ensures View() == Delivered(View().buf, n, e)
      ensures if b == null then fresh(View().buf) else View().buf == b
    {
      var store := b;
      if store == null {
        store := new byte[0];
      }
      buf, backing := store, store;
      size, pos, err := n, 0, e;
      ready := true;
    }

    /** One Read call, once `ready` is closed. */
    method Read(p: array<byte>) returns (n: nat, e: Error)
      requires Valid() && ready && p != backing
      modifies this, p
      ensures Valid() && View().Ready? && backing == old(backing)
      ensures View() == AfterRead(old(View()), p.Length)
      ensures n == ReadCount(old(View()), p.Length) && e == ReadError(old(View()))
      ensures n <= p.Length && p[..n] == backing[old(pos)..old(pos) + n]
      ensures p[n..] == old(p[n..])
    {
      if err != NoError {
        return 0, err;
      }
      if pos >= size {
        n, e := 0, Eof;
      } else {
        n, e := Min(p.Length, size - pos), NoError;
        var start := pos;
        for i := 0 to n
          invariant unchanged(this)
          invariant p[..i] == backing[start..start + i]
          invariant p[i..] == old(p[i..])
          invariant backing[..] == old(backing[..])
        {
          p[i] := backing[start + i];
        }
        pos := pos + n;
      }
      if e == Eof && buf != null {
        finished := true;
        buf := null;
        err := Eof;
      }
    }
  }

  /** A delivered promise that nobody has read from. */
  ghost predicate Fresh(r: ReaderPromise)
    reads r
  {
    r.Valid() && r.ready && r.pos == 0 && !r.finished
  }

  /** The delivery a promise carries. */
  ghost function Carries(r: ReaderPromise): Outcome
    reads r, r.backing
    requires r.Valid() && r.ready
  {
    Outcome(r.backing[..r.size], r.err)
  }
}
