/**
 Downloading one chunk: the ranged request, io.ReadFull into the worker's buffer, and the loop
 that resumes a response that was cut short.
 */
module Resume {
  import opened Ranges
  import opened Promise
  import opened Planner
  import opened Header

  /** A request that is sent, and sent again with its Range header rewritten. */
  class Request {
    var header: string

    constructor (h: string)
      ensures header == h
    {
      header := h;
    }

    /** updateRangeRequestHeader: the header moves on, or stays as it was and an error says why. */
    method UpdateRangeRequestHeader(receivedBytes: int) returns (err: Error)
      modifies this
      ensures match Advance(old(header), receivedBytes)
              case Advanced(h) => header == h && err == NoError
              case Rejected(e) => header == old(header) && err == e
    {
      match ParseHeader(header) {
        case Bad(e) =>
          return e;
        case Fine(r) =>
          var start := Wrap(r.start + receivedBytes);
          var newRangeHeader := PrintHeader(Range(start, r.end));
          if start > r.end {
            return InvalidRange(newRangeHeader);
          }
          header := newRangeHeader;
          return NoError;
      }
    }
  }

  /** How one attempt at a request fares: no response, a fallback-class failure, a status
      outside 2xx, or an answer. An answer names a length, `named` or all it owes if that is less
      (section 15.3.7 of RFC 9110 allows less than was asked for), and its body ends after `sent`
      bytes with the read error `tail`, unless that is all of the length. */
  datatype Attempt =
    | Dropped(reason: string)
    | FallsBack
    | Refused(status: nat)
    | Answered(named: nat, sent: nat, tail: Error)

  ghost predicate ValidAttempt(a: Attempt) {
    match a
    case Dropped(_) => true
    case FallsBack => true
    case Refused(status) => status < 200 || status >= 300
    case Answered(named, sent, tail) =>
      && sent <= named && (sent == named ==> tail == Eof)
      && (tail == Eof || tail == UnexpectedEof || tail.Failure?)
  }

  ghost predicate ValidScript(script: seq<Attempt>) {
    forall i :: 0 <= i < |script| ==> ValidAttempt(script[i])
  }

  /** A body: the bytes that arrive and the error the read after them returns. */
  datatype Body = Body(bytes: seq<byte>, tail: Error)

  /** `total` is the complete length named by Content-Range, which the file size is read from. */
  datatype Response = Response(status: nat, contentLength: nat, total: nat, body: Body)

  const NO_RESPONSE := "no response"
  const BAD_STATUS := "unexpected http status"
  const NOT_PARTIAL := "expected status code 206"

  /** The HTTP client with the server behind it. The server answers ranges of one file as
      sections 14.1.2 and 15.3.7 of RFC 9110 say; the script decides how attempts fare, and a
      spent script drops every further attempt. */
  class Client {
    const content: seq<byte>
    var script: seq<Attempt>

    ghost predicate Valid()
      reads this
    {
      ValidScript(script)
    }

    constructor (content: seq<byte>, script: seq<Attempt>)
      requires ValidScript(script)
      ensures Valid() && this.content == content && this.script == script
    {
      this.content := content;
      this.script := script;
    }

    method Do(req: Request) returns (resp: Response, err: Error)
      requires Valid()
      modifies this
      ensures Valid()
      ensures old(script) == [] ==> err == Failure(NO_RESPONSE) && script == []
      ensures old(script) != [] ==>
                && script == old(script)[1..]
                && (resp, err) == Reply(content, Asked(req.header), old(script)[0])
    {
      if script == [] {
        return NoResponse(0), Failure(NO_RESPONSE);
      }
      var a := script[0];
      script := script[1..];
      var reply := Reply(content, Asked(req.header), a);
      resp, err := reply.0, reply.1;
    }
  }

  /** The requests the server answers: the satisfiable ones, and any range of an empty file,
      which is sent whole. */
  predicate Answerable(r: Range, size: nat) {
    if size == 0 then 0 <= r.start <= r.end else Satisfiable(r, size)
  }

  /** The bytes a request is owed. */
  function Owed(content: seq<byte>, r: Range): seq<byte>
    requires Answerable(r, |content|)
  {
    if content == [] then [] else Piece(content, Served(r, |content|))
  }

  /** A body cut off after `sent` bytes, unless that is all of it. */
  function BodyOf(owed: seq<byte>, sent: nat, tail: Error): Body {
    if sent >= |owed| then Body(owed, Eof) else Body(owed[..sent], tail)
  }

  function NoResponse(status: nat): Response {
    Response(status, 0, 0, Body([], Eof))
  }

  /** What the client returns for one attempt at a range. */
  function Reply(content: seq<byte>, r: Range, a: Attempt): (Response, Error) {
    match a
    case Dropped(reason) => (NoResponse(0), Failure(reason))
    case FallsBack => (NoResponse(0), Fallback)
    case Refused(status) => (NoResponse(status), NoError)
    case Answered(named, sent, tail) =>
      if Answerable(r, |content|) then
        var owed := Owed(content, r);
        var size := Min(named, |owed|);
        (Response(if content == [] then 200 else 206, size, |content|, BodyOf(owed[..size], sent, tail)), NoError)
      else (NoResponse(416), NoError)
  }

  /** A header that does not parse asks for no range there is. */
  function Asked(h: string): Range {
    match ParseHeader(h)
    case Fine(r) => r
    case Bad(_) => Range(0, -1)
  }

  predicate IsInt64(x: int) {
    -TWO_TO_63 <= x <= MAX_INT64
  }

  /** Whatever two int64 numbers a header is printed from, the reply is the one to that range: a
      negative number makes it unparsable, and unanswerable anyway. */
  lemma ReplyToPrinted(content: seq<byte>, r: Range, a: Attempt)
    requires IsInt64(r.start) && IsInt64(r.end)
    ensures Reply(content, Asked(PrintHeader(r)), a) == Reply(content, r, a)
  {
    if r.start < 0 || r.end < 0 {
      NegativeRejected(r);
    } else {
      HeaderRoundTrip(r);
    }
  }

  /** io.ReadFull into buf[lo..hi): all of it, or the bytes there were and why they ended. A
      clean end after at least one byte is an unexpected EOF, before any byte an EOF. */
  method ReadFull(body: Body, buf: array<byte>, lo: nat, hi: nat) returns (n: nat, err: Error)
    requires lo <= hi <= buf.Length
    requires body.tail != NoError
    modifies buf
    ensures n == Min(|body.bytes|, hi - lo)
    ensures buf[..lo] == old(buf[..lo])
    ensures buf[lo..lo + n] == body.bytes[..n]
    ensures err == if n == hi - lo then NoError
                   else if n > 0 && body.tail == Eof then UnexpectedEof
                   else body.tail
  {
    n := Min(|body.bytes|, hi - lo);
    for i := 0 to n
      invariant buf[..lo] == old(buf[..lo])
      invariant buf[lo..lo + i] == body.bytes[..i]
    {
      buf[lo + i] := body.bytes[i];
    }
    if n == hi - lo {
      err := NoError;
    } else if n > 0 && body.tail == Eof {
      err := UnexpectedEof;
    } else {
      err := body.tail;
    }
  }

  // ---- what becomes of a range, as a function of the attempts made for it ----

  /** What one attempt adds to a range that still needs `need` bytes, and the error it ends with.
      `refusal` is the error the code makes of a status it does not take. */
  function Attempted(need: nat, a: Attempt, refusal: string): (nat, Error) {
    match a
    case Dropped(reason) => (0, Failure(reason))
    case FallsBack => (0, Fallback)
    case Refused(_) => (0, Failure(refusal))
    case Answered(_, sent, tail) =>
      if sent >= need then (need, NoError)
      else (sent, if sent > 0 && tail == Eof then UnexpectedEof else tail)
  }

  /** The resume loop, with `got` of `total` bytes received: how many there are in the end, and the
      error. */
  function Resumed(total: nat, got: nat, script: seq<Attempt>): (r: (nat, Error))
    requires got < total
    ensures got <= r.0 <= total
    decreases |script|
  {
    if script == [] then (got, Failure(NO_RESPONSE))
    else
      var (k, err) := Attempted(total - got, script[0], NOT_PARTIAL);
      if err == UnexpectedEof && got + k < total then Resumed(total, got + k, script[1..]) else (got + k, err)
  }

  /** The request, and the resume loop if it was cut short. */
  function FetchedCount(total: nat, script: seq<Attempt>): (r: (nat, Error))
    ensures r.0 <= total
  {
    if script == [] then (0, Failure(NO_RESPONSE))
    else
      var (k, err) := Attempted(total, script[0], BAD_STATUS);
      if err == UnexpectedEof && k < total then Resumed(total, k, script[1..]) else (k, err)
  }

  /** The length the first response names, which the code takes for the length of the range. */
  function NamedSize(total: nat, script: seq<Attempt>): (n: nat)
    ensures n <= total
  {
    if script != [] && script[0].Answered? then Min(script[0].named, total) else total
  }

  /** A range fetched with these attempts: its beginning, and the error. */
  function Fetched(owed: seq<byte>, script: seq<Attempt>): Outcome {
    var (n, err) := FetchedCount(NamedSize(|owed|, script), script);
    Outcome(owed[..n], err)
  }

  /** The error of a request for a range there is not: an answer to it is a refusal. */
  function Unanswered(script: seq<Attempt>): (err: Error)
    ensures err.Failure? || err == Fallback
  {
    if script == [] then Failure(NO_RESPONSE)
    else
      match script[0]
      case Dropped(reason) => Failure(reason)
      case FallsBack => Fallback
      case _ => Failure(BAD_STATUS)
  }

  /** Any range fetched with these attempts. */
  function FetchedRange(content: seq<byte>, r: Range, script: seq<Attempt>): Outcome {
    if Answerable(r, |content|) then Fetched(Owed(content, r), script) else Outcome([], Unanswered(script))
  }

  /** The first attempt is answered. */
  predicate Responds(script: seq<Attempt>) {
    script != [] && script[0].Answered?
  }

  ghost predicate HeaderError(e: Error) {
    e.MissingRange? || e.MalformedRange? || e.InvalidRange?
  }

  /** What every work item may leave in its promise: the beginning of its range, with a nil error
      exactly when it is as long as the response said (of an empty range there is no less), never
      an unexpected EOF and never a header error. */
  ghost predicate Fair(d: Outcome, owed: seq<byte>, named: nat) {
    && d.bytes <= owed && |d.bytes| <= named
    && (d.err == NoError ==> |d.bytes| == named)
    && (d.err != NoError && named > 0 ==> |d.bytes| < named)
    && d.err != UnexpectedEof && !HeaderError(d.err)
  }

  lemma {:induction false} ResumedFair(total: nat, got: nat, script: seq<Attempt>)
    requires got < total && ValidScript(script)
    ensures var (n, err) := Resumed(total, got, script);
            (err == NoError <==> n == total) && err != UnexpectedEof && !HeaderError(err)
    decreases |script|
  {
    if script != [] {
      assert ValidAttempt(script[0]);
      var (k, err) := Attempted(total - got, script[0], NOT_PARTIAL);
      if err == UnexpectedEof {
        ResumedFair(total, got + k, script[1..]);
      }
    }
  }

  lemma FetchedFair(owed: seq<byte>, script: seq<Attempt>)
    requires ValidScript(script)
    ensures Fair(Fetched(owed, script), owed, NamedSize(|owed|, script))
  {
    if script != [] {
      assert ValidAttempt(script[0]);
      var total := NamedSize(|owed|, script);
      var (k, err) := Attempted(total, script[0], BAD_STATUS);
      if err == UnexpectedEof {
        ResumedFair(total, k, script[1..]);
      }
    }
  }

  /** An answer that is cut short in a way the code resumes after: an unexpected EOF, or a clean
      end after at least one byte. */
  predicate Resumable(a: Attempt) {
    a.Answered? && (a.tail == UnexpectedEof || (a.tail == Eof && a.sent > 0))
  }

  /** The bytes the first n attempts are answered with. */
  function SentBy(script: seq<Attempt>, n: nat): nat
    requires n <= |script|
  {
    if n == 0 then 0
    else (if script[0].Answered? then script[0].sent else 0) + SentBy(script[1..], n - 1)
  }

  /** Attempt n is made: all before it were cut short and did not add up to the range. */
  ghost predicate Reaches(need: nat, script: seq<Attempt>, n: nat) {
    && n < |script|
    && (n > 0 ==> SentBy(script, n) < need)
    && forall i :: 0 <= i < n ==> Resumable(script[i])
  }

  /** Some attempt that is made is answered with the rest of the range. */
  ghost predicate Completes(need: nat, script: seq<Attempt>) {
    exists n ::
      0 <= n < |script| && Reaches(need, script, n) && script[n].Answered? && SentBy(script, n + 1) >= need
  }

  predicate EndsEmpty(a: Attempt) {
    a.Answered? && a.sent == 0 && a.tail == Eof
  }

  /** Some attempt that is made ends cleanly before it has sent a byte. */
  ghost predicate EndsClean(need: nat, script: seq<Attempt>) {
    exists n ::
      0 <= n < |script| && Reaches(need, script, n) && EndsEmpty(script[n]) && SentBy(script, n) < need
  }

  lemma ShiftReaches(need: nat, script: seq<Attempt>, n: nat)
    requires 0 < n < |script| && Resumable(script[0]) && script[0].sent < need
    ensures SentBy(script, n) == script[0].sent + SentBy(script[1..], n - 1)
    ensures SentBy(script, n + 1) == script[0].sent + SentBy(script[1..], n)
    ensures Reaches(need, script, n) <==> Reaches(need - script[0].sent, script[1..], n - 1)
  {
    var rest := script[1..];
    assert SentBy(rest, 0) == 0;
    if Reaches(need - script[0].sent, rest, n - 1) {
      forall i | 0 <= i < n
        ensures Resumable(script[i])
      {
        if i > 0 {
          assert script[i] == rest[i - 1];
        }
      }
    }
  }

  /** An attempt that is cut short leaves the rest of the range to the attempts after it. */
  lemma CutShort(need: nat, script: seq<Attempt>)
    requires script != [] && Resumable(script[0]) && script[0].sent < need
    ensures Completes(need, script) <==> Completes(need - script[0].sent, script[1..])
    ensures EndsClean(need, script) <==> EndsClean(need - script[0].sent, script[1..])
  {
    var less, rest := need - script[0].sent, script[1..];
    assert SentBy(script, 1) == script[0].sent + SentBy(rest, 0) == script[0].sent;
    if Completes(need, script) {
      var n :| 0 <= n < |script| && Reaches(need, script, n) && script[n].Answered? && SentBy(script, n + 1) >= need;
      ShiftReaches(need, script, n);
      assert rest[n - 1] == script[n];
      assert Completes(less, rest);
    }
    if Completes(less, rest) {
      var n :| 0 <= n < |rest| && Reaches(less, rest, n) && rest[n].Answered? && SentBy(rest, n + 1) >= less;
      ShiftReaches(need, script, n + 1);
      assert script[n + 1] == rest[n];
      assert Completes(need, script);
    }
    if EndsClean(need, script) {
      var n :|
        0 <= n < |script| && Reaches(need, script, n) && EndsEmpty(script[n]) && SentBy(script, n) < need;
      ShiftReaches(need, script, n);
      assert rest[n - 1] == script[n];
      assert EndsClean(less, rest);
    }
    if EndsClean(less, rest) {
      var n :| 0 <= n < |rest| && Reaches(less, rest, n) && EndsEmpty(rest[n]) && SentBy(rest, n) < less;
      ShiftReaches(need, script, n + 1);
      assert script[n + 1] == rest[n];
      assert EndsClean(need, script);
    }
  }

  /** An attempt that is not resumed after decides. */
  lemma NotCutShort(need: nat, script: seq<Attempt>)
    requires script != [] && ValidAttempt(script[0])
    requires !(Resumable(script[0]) && script[0].sent < need)
    ensures Completes(need, script) <==> script[0].Answered? && script[0].sent >= need
    ensures EndsClean(need, script) <==> EndsEmpty(script[0]) && need > 0
  {
    assert SentBy(script, 0) == 0;
    assert SentBy(script, 1) == (if script[0].Answered? then script[0].sent else 0) + SentBy(script[1..], 0);
    if script[0].Answered? && script[0].sent >= need {
      assert Reaches(need, script, 0);
    }
    if EndsEmpty(script[0]) && need > 0 {
      assert Reaches(need, script, 0);
    }
    forall n | 0 < n < |script|
      ensures !Reaches(need, script, n)
    {
      if Reaches(need, script, n) {
        assert Resumable(script[0]);
        FirstCounts(script, n);
      }
    }
  }

  lemma {:induction false} FirstCounts(script: seq<Attempt>, n: nat)
    requires 0 < n <= |script| && script[0].Answered?
    ensures SentBy(script, n) >= script[0].sent
  {
  }

  lemma {:induction false} ResumedIff(total: nat, got: nat, script: seq<Attempt>)
    requires got < total && ValidScript(script)
    ensures Resumed(total, got, script).1 == NoError <==> Completes(total - got, script)
    ensures Resumed(total, got, script).1 == Eof <==> EndsClean(total - got, script)
    decreases |script|
  {
    if script != [] {
      var need := total - got;
      assert ValidAttempt(script[0]);
      if Resumable(script[0]) && script[0].sent < need {
        CutShort(need, script);
        ResumedIff(total, got + script[0].sent, script[1..]);
      } else {
        NotCutShort(need, script);
      }
    }
  }

  /** A range is delivered without an error exactly when the answers to its attempts, each cut
      short in a way the code resumes after, add up to the length the first one names; it is
      delivered with EOF exactly when an attempt on the way ends cleanly without a byte. */
  lemma FetchedIff(owed: seq<byte>, script: seq<Attempt>)
    requires ValidScript(script)
    ensures Fetched(owed, script).err == NoError <==> Completes(NamedSize(|owed|, script), script)
    ensures Fetched(owed, script).err == Eof <==> EndsClean(NamedSize(|owed|, script), script)
  {
    if script != [] {
      assert ValidAttempt(script[0]);
      var total := NamedSize(|owed|, script);
      if Resumable(script[0]) && script[0].sent < total {
        CutShort(total, script);
        ResumedIff(total, script[0].sent, script[1..]);
      } else {
        NotCutShort(total, script);
      }
    }
  }

  /** The first response names all of the range, and the answers add up to it. */
  ghost predicate Arrives(need: nat, script: seq<Attempt>) {
    NamedSize(need, script) == need && Completes(need, script)
  }

  /** A range arrives whole and without an error exactly then. */
  lemma FetchedWhole(owed: seq<byte>, script: seq<Attempt>)
    requires ValidScript(script)
    ensures Fetched(owed, script) == Outcome(owed, NoError) <==> Arrives(|owed|, script)
  {
    FetchedFair(owed, script);
    FetchedIff(owed, script);
    assert owed[..|owed|] == owed;
  }

  // ---- the count and the error, attempt by attempt ----

  /** Attempt n is the last one made: it is not cut short, or brings all there is to bring. */
  ghost predicate Last(need: nat, script: seq<Attempt>, n: nat) {
    Reaches(need, script, n) && !(Resumable(script[n]) && SentBy(script, n + 1) < need)
  }

  /** All attempts are made, each one is cut short, and they do not add up to the range. */
  ghost predicate Spent(need: nat, script: seq<Attempt>) {
    && (forall i :: 0 <= i < |script| ==> Resumable(script[i]))
    && (script != [] ==> SentBy(script, |script|) < need)
  }

  lemma {:induction false} SpentShift(need: nat, script: seq<Attempt>)
    requires script != [] && Resumable(script[0]) && script[0].sent < need
    ensures Spent(need, script) <==> Spent(need - script[0].sent, script[1..])
    ensures SentBy(script, |script|) == script[0].sent + SentBy(script[1..], |script| - 1)
  {
    var rest := script[1..];
    assert forall i :: 0 < i < |script| ==> script[i] == rest[i - 1];
    assert SentBy(rest, 0) == 0;
    if Spent(need - script[0].sent, rest) {
      forall i | 0 <= i < |script|
        ensures Resumable(script[i])
      {
        assert i > 0 ==> script[i] == rest[i - 1];
      }
    }
  }

  lemma {:induction false} LastShift(need: nat, script: seq<Attempt>, n: nat)
    requires 0 < n < |script| && Resumable(script[0]) && script[0].sent < need
    ensures Last(need, script, n) <==> Last(need - script[0].sent, script[1..], n - 1)
    ensures SentBy(script, n + 1) == script[0].sent + SentBy(script[1..], n)
  {
    ShiftReaches(need, script, n);
    assert script[n] == script[1..][n - 1];
  }

  /** Either some attempt is the last, or the script is spent. */
  lemma {:induction false} LastOrSpent(need: nat, script: seq<Attempt>)
    ensures Spent(need, script) || exists n: nat :: Last(need, script, n)
    decreases |script|
  {
    if script != [] {
      assert SentBy(script, 1) == (if script[0].Answered? then script[0].sent else 0) + SentBy(script[1..], 0);
      if Resumable(script[0]) && script[0].sent < need {
        LastOrSpent(need - script[0].sent, script[1..]);
        SpentShift(need, script);
        if !Spent(need, script) {
          var n: nat :| Last(need - script[0].sent, script[1..], n);
          LastShift(need, script, n + 1);
        }
      } else {
        assert Last(need, script, 0);
      }
    }
  }

  /** The resume loop ends after attempt n: with all the bytes answered so far, and the error of
      that attempt. */
  lemma {:induction false} ResumedEnds(total: nat, got: nat, script: seq<Attempt>, n: nat)
    requires got < total && Last(total - got, script, n)
    ensures var count := got + SentBy(script, n + 1);
            Resumed(total, got, script) ==
              (Min(total, count),
               match script[n]
               case Dropped(reason) => Failure(reason)
               case FallsBack => Fallback
               case Refused(_) => Failure(NOT_PARTIAL)
               case Answered(_, _, tail) => if count >= total then NoError else tail)
    decreases |script|
  {
    assert SentBy(script, 1) == (if script[0].Answered? then script[0].sent else 0) + SentBy(script[1..], 0);
    if n > 0 {
      FirstCounts(script, n);
      LastShift(total - got, script, n);
      ResumedEnds(total, got + script[0].sent, script[1..], n - 1);
    }
  }

  lemma {:induction false} ResumedSpent(total: nat, got: nat, script: seq<Attempt>)
    requires got < total && Spent(total - got, script)
    ensures Resumed(total, got, script) == (got + SentBy(script, |script|), Failure(NO_RESPONSE))
    decreases |script|
  {
    if script != [] {
      FirstCounts(script, |script|);
      SpentShift(total - got, script);
      ResumedSpent(total, got + script[0].sent, script[1..]);
    }
  }

  lemma {:induction false} EndsAtOnce(total: nat, script: seq<Attempt>)
    requires Last(total, script, 0)
    ensures SentBy(script, 1) == if script[0].Answered? then script[0].sent else 0
    ensures FetchedCount(total, script) ==
              (Min(total, SentBy(script, 1)),
               match script[0]
               case Dropped(reason) => Failure(reason)
               case FallsBack => Fallback
               case Refused(_) => Failure(BAD_STATUS)
               case Answered(_, _, tail) => if SentBy(script, 1) >= total then NoError else tail)
  {
    assert SentBy(script, 1) == (if script[0].Answered? then script[0].sent else 0) + SentBy(script[1..], 0);
  }

  lemma {:induction false} EndsLater(total: nat, script: seq<Attempt>, n: nat)
    requires Last(total, script, n) && n > 0
    ensures FetchedCount(total, script) == Resumed(total, script[0].sent, script[1..])
    ensures FetchedCount(total, script) ==
              (Min(total, SentBy(script, n + 1)),
               match script[n]
               case Dropped(reason) => Failure(reason)
               case FallsBack => Fallback
               case Refused(_) => Failure(NOT_PARTIAL)
               case Answered(_, _, tail) => if SentBy(script, n + 1) >= total then NoError else tail)
  {
    FirstCounts(script, n);
    LastShift(total, script, n);
    ResumedEnds(total, script[0].sent, script[1..], n - 1);
  }

  /** Every fetch, told by the attempts alone: the bytes of all answers up to the last attempt made,
      as far as the first response named them, with that attempt's error. */
  lemma {:induction false} FetchedEnds(owed: seq<byte>, script: seq<Attempt>, n: nat)
    requires Last(NamedSize(|owed|, script), script, n)
    ensures var named, count := NamedSize(|owed|, script), SentBy(script, n + 1);
            Fetched(owed, script) ==
              Outcome(owed[..Min(named, count)],
                      match script[n]
                      case Dropped(reason) => Failure(reason)
                      case FallsBack => Fallback
                      case Refused(_) => Failure(if n == 0 then BAD_STATUS else NOT_PARTIAL)
                      case Answered(_, _, tail) => if count >= named then NoError else tail)
  {
    if n == 0 {
      EndsAtOnce(NamedSize(|owed|, script), script);
    } else {
      EndsLater(NamedSize(|owed|, script), script, n);
    }
  }

  /** And if all attempts were cut short: the bytes of all of them, and no further response. */
  lemma {:induction false} FetchedSpent(owed: seq<byte>, script: seq<Attempt>)
    requires Spent(NamedSize(|owed|, script), script)
    ensures SentBy(script, |script|) <= |owed|
    ensures Fetched(owed, script) == Outcome(owed[..SentBy(script, |script|)], Failure(NO_RESPONSE))
  {
    if script != [] {
      var named := NamedSize(|owed|, script);
      FirstCounts(script, |script|);
      SpentShift(named, script);
      ResumedSpent(named, script[0].sent, script[1..]);
    }
  }

  /** A first response whose body ends cleanly before a byte is delivered with EOF, whatever the
      attempts after it would bring. */
  lemma EmptyAnswer(owed: seq<byte>, script: seq<Attempt>)
    requires owed != [] && script != [] && EndsEmpty(script[0]) && script[0].named > 0
    ensures Fetched(owed, script) == Outcome([], Eof)
  {
    assert owed[..0] == [];
  }

  /** A first response that names less than it owes and keeps its word is delivered as if it were
      all there is. */
  lemma ShortAnswer(owed: seq<byte>, script: seq<Attempt>)
    requires script != [] && script[0].Answered? && script[0].sent == script[0].named < |owed|
    ensures Fetched(owed, script) == Outcome(owed[..script[0].named], NoError)
    ensures Fetched(owed, script).bytes != owed
  {
  }

  /** Every attempt is answered with at least one byte and at worst cut short. */
  ghost predicate OnlyCutShort(script: seq<Attempt>) {
    forall i :: 0 <= i < |script| ==>
      script[i].Answered? && script[i].sent >= 1 && (script[i].tail == Eof || script[i].tail == UnexpectedEof)
  }

  /** Interruptions alone cannot keep a range from arriving: as many answers as it has bytes are
      always enough, however short they are. */
  lemma {:induction false} EnoughAnswers(need: nat, script: seq<Attempt>)
    requires ValidScript(script) && OnlyCutShort(script) && need <= |script| && script != []
    ensures Completes(need, script)
    decreases |script|
  {
    if script[0].sent >= need {
      NotCutShort(need, script);
    } else {
      CutShort(need, script);
      EnoughAnswers(need - script[0].sent, script[1..]);
    }
  }

  // ---- the code ----

  /** Every answer carries at least one byte. */
  ghost predicate NonEmptyAnswers(script: seq<Attempt>) {
    forall i :: 0 <= i < |script| && script[i].Answered? ==> script[i].sent >= 1
  }

  /** What a request that starts n bytes later is owed. */
  lemma OwedSuffix(content: seq<byte>, r: Range, n: nat)
    requires Answerable(r, |content|) && n < |Owed(content, r)|
    ensures Answerable(Range(r.start + n, r.end), |content|) && content != []
    ensures Owed(content, Range(r.start + n, r.end)) == Owed(content, r)[n..]
    ensures r.start + n <= r.end
  {
  }

  /** More bytes of a body extend the part of the range the buffer holds. */
  lemma Extend(b: seq<byte>, owed: seq<byte>, at: nat, k: nat, bytes: seq<byte>)
    requires at + k <= |b| && at + k <= |owed| && k <= |bytes|
    requires b[..at] == owed[..at] && b[at..at + k] == bytes[..k] && bytes <= owed[at..]
    ensures b[..at + k] == owed[..at + k]
  {
    assert b[..at + k] == b[..at] + b[at..at + k];
    assert owed[..at + k] == owed[..at] + owed[at..at + k];
  }

  /** The header is the printed form of r: the form DoRequest and the rewriting give it. */
  ghost predicate Asks(header: string, r: Range) {
    header == PrintHeader(r) && IsInt64(r.start) && IsInt64(r.end)
  }

  lemma HeaderMovesOn(r: Range, n: nat)
    requires 0 <= r.start && r.start + n <= r.end <= MAX_INT64
    ensures Advance(PrintHeader(r), n) == Advanced(PrintHeader(Range(r.start + n, r.end)))
  {
    HeaderRoundTrip(r);
  }

  /** client.Do on a request for a range. */
  method Send(client: Client, req: Request, ghost r: Range) returns (resp: Response, err: Error)
    requires client.Valid() && Asks(req.header, r)
    modifies client
    ensures client.Valid()
    ensures old(client.script) == [] ==> err == Failure(NO_RESPONSE) && client.script == []
    ensures old(client.script) != [] ==>
              && client.script == old(client.script)[1..]
              && ValidAttempt(old(client.script)[0])
              && (resp, err) == Reply(client.content, r, old(client.script)[0])
  {
    if client.script != [] {
      ReplyToPrinted(client.content, r, client.script[0]);
    }
    resp, err := client.Do(req);
  }

  /** Moving the header on and sending the request again. */
  method AskAgain(client: Client, req: Request, bytesReceived: nat, ghost asked: Range, ghost asks: Range)
    returns (resp: Response, err: Error)
    requires client.Valid() && Asks(req.header, asked) && 0 <= asked.start
    requires asks == Range(asked.start + bytesReceived, asked.end) && asks.start <= asks.end
    modifies req, client
    ensures client.Valid() && Asks(req.header, asks)
    ensures old(client.script) == [] ==> err == Failure(NO_RESPONSE) && client.script == []
    ensures old(client.script) != [] ==>
              && client.script == old(client.script)[1..]
              && ValidAttempt(old(client.script)[0])
              && (resp, err) == Reply(client.content, asks, old(client.script)[0])
  {
    HeaderMovesOn(asked, bytesReceived);
    err := req.UpdateRangeRequestHeader(bytesReceived);
    assert err == NoError;
    resp, err := Send(client, req, asks);
  }

  /** One round of the resume loop, with `got` of `total` bytes received. */
  ghost predicate Round(total: nat, got: nat, script: seq<Attempt>, k: nat, err: Error, rest: seq<Attempt>) {
    && got < total
    && if script == [] then k == 0 && err == Failure(NO_RESPONSE) && rest == []
       else (k, err) == Attempted(total - got, script[0], NOT_PARTIAL) && rest == script[1..]
  }

  /** Rounds that are cut short lead from `got` bytes and the attempts `script` to `at` and `rest`. */
  ghost predicate Going(total: nat, got: nat, script: seq<Attempt>, at: nat, rest: seq<Attempt>)
    decreases |script|
  {
    if |rest| >= |script| then rest == script && at == got
    else
      && got < total
      && var (k, err) := Attempted(total - got, script[0], NOT_PARTIAL);
         err == UnexpectedEof && Going(total, got + k, script[1..], at, rest)
  }

  lemma {:induction false} GoingOn(total: nat, got: nat, script: seq<Attempt>, at: nat, rest: seq<Attempt>, k: nat)
    requires Going(total, got, script, at, rest)
    requires rest != [] && Round(total, at, rest, k, UnexpectedEof, rest[1..])
    ensures Going(total, got, script, at + k, rest[1..]) && at + k < total
    decreases |script|
  {
    if |rest| < |script| {
      var (j, err) := Attempted(total - got, script[0], NOT_PARTIAL);
      GoingOn(total, got + j, script[1..], at, rest, k);
    } else {
      assert Going(total, at + k, rest[1..], at + k, rest[1..]);
    }
  }

  /** What the loop has come to with its last round. */
  lemma {:induction false} Gone(total: nat, got: nat, script: seq<Attempt>, at: nat, rest: seq<Attempt>,
                                k: nat, err: Error, left: seq<Attempt>)
    requires Going(total, got, script, at, rest) && Round(total, at, rest, k, err, left) && err != UnexpectedEof
    ensures got < total && Resumed(total, got, script) == (at + k, err)
    ensures |left| <= |script| && at + k == Min(total, got + SentBy(script, |script| - |left|))
    ensures NonEmptyAnswers(script) ==> |script| - |left| <= total - got
    decreases |script|
  {
    if |rest| < |script| {
      var (j, _) := Attempted(total - got, script[0], NOT_PARTIAL);
      Gone(total, got + j, script[1..], at, rest, k, err, left);
    } else if script != [] {
      assert SentBy(script, 1) == (if script[0].Answered? then script[0].sent else 0) + SentBy(script[1..], 0);
    }
  }

  /** io.ReadFull of the next bytes of a range behind those the buffer holds. */
  method ReadOn(body: Body, buf: array<byte>, at: nat, hi: nat, ghost owed: seq<byte>) returns (k: nat, err: Error)
    requires at <= hi <= buf.Length && hi <= |owed| && body.tail != NoError
    requires buf[..at] == owed[..at] && body.bytes <= owed[at..]
    modifies buf
    ensures k == Min(|body.bytes|, hi - at) && buf[..at + k] == owed[..at + k]
    ensures err == if k == hi - at then NoError
                   else if k > 0 && body.tail == Eof then UnexpectedEof
                   else body.tail
  {
    k, err := ReadFull(body, buf, at, hi);
    Extend(buf[..], owed, at, k, body.bytes);
  }

  /** One round of the resume loop: move the header on, send, check the status, read. `at` is
      where the round's bytes go; the header stands bytesReceived bytes before it. */
  method ResumeRound(req: Request, buf: array<byte>, at: nat, hi: nat, client: Client, bytesReceived: nat,
                     ghost r: Range, ghost asked: Range)
    returns (k: nat, err: Error, ghost asks: Range)
    requires client.Valid() && Answerable(r, |client.content|) && r.end <= MAX_INT64
    requires bytesReceived <= at < hi <= |Owed(client.content, r)| && hi <= buf.Length
    requires Asks(req.header, asked)
    requires asked.start + bytesReceived == r.start + at && asked.end == r.end
    requires buf[..at] == Owed(client.content, r)[..at]
    modifies req, buf, client
    ensures client.Valid()
    ensures Asks(req.header, asks) && asks == Range(r.start + at, r.end)
    ensures at + k <= hi && buf[..at + k] == Owed(client.content, r)[..at + k]
    ensures Round(hi, at, old(client.script), k, err, client.script)
    ensures old(client.script) == [] || !old(client.script)[0].Answered? ==> k == 0
    ensures old(client.script) != [] && old(client.script)[0].Answered? ==>
              k == Min(hi - at, old(client.script)[0].sent)
  {
    ghost var owed := Owed(client.content, r);
    asks := Range(r.start + at, r.end);
    OwedSuffix(client.content, r, at);
    var resp;
    resp, err := AskAgain(client, req, bytesReceived, asked, asks);
    k := 0;
    if err == NoError && resp.status != 206 {
      err := Failure(NOT_PARTIAL);
    } else if err == NoError {
      assert resp.body.bytes <= Owed(client.content, asks) == owed[at..];
      k, err := ReadOn(resp.body, buf, at, hi, owed);
    }
  }

  /** A round that follows others: the loop goes on, or this is what it comes to. */
  method NextRound(req: Request, buf: array<byte>, at: nat, hi: nat, client: Client, bytesReceived: nat,
                   ghost r: Range, ghost asked: Range, ghost received: nat, ghost script: seq<Attempt>)
    returns (k: nat, err: Error, ghost asks: Range)
    requires client.Valid() && Answerable(r, |client.content|) && r.end <= MAX_INT64
    requires bytesReceived <= at < hi <= |Owed(client.content, r)| && hi <= buf.Length
    requires Asks(req.header, asked)
    requires asked.start + bytesReceived == r.start + at && asked.end == r.end
    requires buf[..at] == Owed(client.content, r)[..at]
    requires Going(hi, received, script, at, client.script)
    modifies req, buf, client
    ensures client.Valid()
    ensures Asks(req.header, asks) && asks == Range(r.start + at, r.end)
    ensures at + k <= hi && buf[..at + k] == Owed(client.content, r)[..at + k]
    ensures err == UnexpectedEof ==>
              && at + k < hi && |client.script| < |old(client.script)|
              && Going(hi, received, script, at + k, client.script)
    ensures err != UnexpectedEof ==>
              && received < hi && (at + k, err) == Resumed(hi, received, script)
              && |client.script| <= |script| && at + k == Min(hi, received + SentBy(script, |script| - |client.script|))
              && (NonEmptyAnswers(script) ==> |script| - |client.script| <= hi - received)
  {
    ghost var rest := client.script;
    k, err, asks := ResumeRound(req, buf, at, hi, client, bytesReceived, r, asked);
    if err == UnexpectedEof {
      GoingOn(hi, received, script, at, rest, k);
    } else {
      Gone(hi, received, script, at, rest, k, err, client.script);
    }
  }

  /** resumeDownload. On entry `received` bytes of the requested range r are in buf[0..received)
      and the rest of it, up to the length hi the first response named, is to go to
      buf[received..hi). On every exit buf[0..n) and the
      error are what Resumed says of the attempts. Answers of at least one byte bound the rounds
      by the unread length. */
  method ResumeDownload(req: Request, buf: array<byte>, hi: nat, client: Client, received: nat, ghost r: Range)
    returns (n: nat, err: Error)
    requires client.Valid() && Answerable(r, |client.content|) && r.end <= MAX_INT64
    requires Asks(req.header, r)
    requires received < hi <= |Owed(client.content, r)| && hi <= buf.Length
    requires buf[..received] == Owed(client.content, r)[..received]
    modifies req, buf, client
    ensures client.Valid()
    ensures (n, err) == Resumed(hi, received, old(client.script))
    ensures n <= hi && buf[..n] == Owed(client.content, r)[..n]
    ensures |client.script| <= |old(client.script)|
    ensures n == Min(hi, received + SentBy(old(client.script), |old(client.script)| - |client.script|))
    ensures NonEmptyAnswers(old(client.script)) ==> |old(client.script)| - |client.script| <= hi - received
  {
    ghost var script0, owed := client.script, Owed(client.content, r);
    var startByte := 0;
    var bytesReceived := received;
    var totalBytesReceived := received;
    ghost var asked := r;
    while true
      invariant client.Valid()
      invariant bytesReceived <= totalBytesReceived == received + startByte < hi
      invariant Asks(req.header, asked)
      invariant asked.start + bytesReceived == r.start + totalBytesReceived && asked.end == r.end
      invariant buf[..totalBytesReceived] == owed[..totalBytesReceived]
      invariant Going(hi, received, script0, totalBytesReceived, client.script)
      decreases |client.script|
    {
      var k;
      k, err, asked :=
        NextRound(req, buf, received + startByte, hi, client, bytesReceived, r, asked, received, script0);
      totalBytesReceived := totalBytesReceived + k;
      if err == UnexpectedEof {
        bytesReceived := k;
        startByte := startByte + k;
        continue;
      }
      return totalBytesReceived, err;
    }
  }

  /** DoRequest of BufferMode: a fresh request for one range, and a status check. */
  method DoRequest(client: Client, r: Range) returns (req: Request, resp: Response, err: Error)
    requires client.Valid() && IsInt64(r.start) && IsInt64(r.end)
    modifies client
    ensures client.Valid() && fresh(req) && Asks(req.header, r)
    ensures err == NoError <==> Responds(old(client.script)) && Answerable(r, |client.content|)
    ensures err == NoError ==>
              && client.script == old(client.script)[1..]
              && (resp, err) == Reply(client.content, r, old(client.script)[0])
    ensures err != NoError ==> Outcome([], err) == FetchedRange(client.content, r, old(client.script))
  {
    req := new Request(PrintHeader(r));
    resp, err := Send(client, req, r);
    if err == NoError && (resp.status < 200 || resp.status >= 300) {
      err := Failure(BAD_STATUS);
    }
  }

  /** What a worker does with a response: read it all, resume if it was cut short. `a` is the
      attempt the response comes from. */
  method ReadChunk(client: Client, req: Request, resp: Response, buf: array<byte>, ghost r: Range, ghost a: Attempt)
    returns (n: nat, err: Error)
    requires client.Valid() && Answerable(r, |client.content|) && r.end <= MAX_INT64
    requires Asks(req.header, r) && |Owed(client.content, r)| <= buf.Length
    requires a.Answered? && ValidAttempt(a) && resp == Reply(client.content, r, a).0
    modifies client, req, buf
    ensures client.Valid() && n <= buf.Length && |client.script| <= |old(client.script)|
    ensures n == Min(Min(a.named, |Owed(client.content, r)|),
                     a.sent + SentBy(old(client.script), |old(client.script)| - |client.script|))
    ensures Outcome(buf[..n], err) == Fetched(Owed(client.content, r), [a] + old(client.script))
  {
    ghost var owed, script := Owed(client.content, r), [a] + client.script;
    assert script[0] == a && script[1..] == client.script;
    n, err := ReadFull(resp.body, buf, 0, resp.contentLength);
    assert buf[0..n] == buf[..n];
    if err == UnexpectedEof {
      n, err := ResumeDownload(req, buf, resp.contentLength, client, n, r);
    }
  }
}
