/**
 The work items of both strategies: fetch one range into the worker's buffer and deliver it.
 */
module Worker {
  import opened Wrappers
  import opened Ranges
  import opened Promise
  import opened Planner
  import opened Header
  import opened Resume
  import opened Routing

  /** The promise has just been delivered with d, its bytes in the worker's own buffer. */
  ghost predicate Delivers(chunk: ReaderPromise, buf: array<byte>, d: Outcome)
    reads chunk, chunk.backing
  {
    Fresh(chunk) && Carries(chunk) == d && (d.bytes != [] ==> chunk.backing == buf)
  }

  /** A range two int64 numbers can say, that fits the buffer if the server has it. */
  predicate Fits(content: seq<byte>, r: Range, size: nat) {
    IsInt64(r.start) && IsInt64(r.end) && (Answerable(r, |content|) ==> |Owed(content, r)| <= size)
  }

  /** What every work item does with a response: read it, resuming if it is cut short, and deliver. */
  method ReadAndDeliver(client: Client, req: Request, resp: Response, buf: array<byte>, chunk: ReaderPromise,
                        ghost r: Range, ghost script: seq<Attempt>)
    requires client.Valid() && Answerable(r, |client.content|) && Fits(client.content, r, buf.Length)
    requires Asks(req.header, r)
    requires Responds(script) && ValidAttempt(script[0]) && client.script == script[1..]
    requires resp == Reply(client.content, r, script[0]).0
    requires chunk.Valid() && !chunk.ready
    modifies client, req, buf, chunk
    ensures client.Valid() && Delivers(chunk, buf, Fetched(Owed(client.content, r), script))
  {
    assert [script[0]] + client.script == script;
    var n, err := ReadChunk(client, req, resp, buf, r, script[0]);
    chunk.Deliver(buf, n, err);
  }

  /** A chunk's work item in BufferMode: delivered once on every path, with what becomes of its
      attempts. */
  method FetchChunk(client: Client, r: Range, buf: array<byte>, chunk: ReaderPromise)
    requires client.Valid() && Fits(client.content, r, buf.Length)
    requires chunk.Valid() && !chunk.ready
    modifies client, buf, chunk
    ensures client.Valid()
    ensures Delivers(chunk, buf, FetchedRange(client.content, r, old(client.script)))
  {
    ghost var script := client.script;
    var req, resp, err := DoRequest(client, r);
    if err != NoError {
      chunk.Deliver(null, 0, err);
      return;
    }
    ReadAndDeliver(client, req, resp, buf, chunk, r, script);
  }

  // ---- cache hosts ----

  /** A cache host of one chunk: none could be chosen, the chosen one is not ready, or the attempts
      at it. */
  datatype Host = NoHost | NotReady | Up(script: seq<Attempt>)

  /** The attempts behind one chunk: at the origin, or at its first cache host, at the retry host
      and, when those fail over, at the origin. */
  datatype Supply = Direct(origin: seq<Attempt>) | Cached(first: Host, retry: Host, origin: seq<Attempt>)

  datatype Source = First | Retry | Origin | Nowhere

  /** The first host is not ready, or fails in a way that allows the retry. */
  predicate FallsOver(h: Host) {
    h.NotReady? || (h.Up? && h.script != [] && h.script[0].FallsBack?)
  }

  /** A host is ready and replies, whatever the status. */
  predicate Replies(h: Host) {
    h.Up? && h.script != [] && (h.script[0].Answered? || h.script[0].Refused?)
  }

  /** Whose answer counts: the first host's unless it fails over, then the retry host's if it
      replies, then the origin's. Without a first host no request is made. */
  function SourceOf(s: Supply): Source {
    if s.Direct? then Origin
    else if s.first.NoHost? then Nowhere
    else if !FallsOver(s.first) then First
    else if Replies(s.retry) then Retry
    else Origin
  }

  /** The attempts that decide the chunk. */
  function Deciding(s: Supply): seq<Attempt> {
    match SourceOf(s)
    case First => s.first.script
    case Retry => s.retry.script
    case Origin => s.origin
    case Nowhere => []
  }

  const NOT_SENT := "error executing request"

  /** What becomes of a range with this supply. */
  function SuppliedRange(content: seq<byte>, r: Range, s: Supply): Outcome {
    if SourceOf(s).Nowhere? then Outcome([], Failure(NOT_SENT)) else FetchedRange(content, r, Deciding(s))
  }

  ghost predicate ValidHost(h: Host) {
    h.Up? ==> ValidScript(h.script)
  }

  ghost predicate ValidSupply(s: Supply) {
    ValidScript(s.origin) && (s.Cached? ==> ValidHost(s.first) && ValidHost(s.retry))
  }

  ghost predicate ValidScripts(scripts: seq<seq<Attempt>>) {
    forall i :: 0 <= i < |scripts| ==> ValidScript(scripts[i])
  }

  /** The host of a bucket, given how attempts at each host fare. */
  function HostAt(router: Router, scripts: seq<seq<Attempt>>, bucket: Option<int>): Host
    requires |scripts| == |router.hosts|
  {
    if bucket.None? || !(0 <= bucket.value < |router.hosts|) then NoHost
    else if router.hosts[bucket.value] == "" then NotReady
    else Up(scripts[bucket.value])
  }

  /** The supply of a range: the hosts the router chooses for its slice, none if it straddles. */
  function SupplyFor(router: Router, scripts: seq<seq<Attempt>>, origin: seq<Attempt>, r: Range): Supply
    requires router.sliceSize > 0 && |scripts| == |router.hosts|
  {
    if router.Straddles(r) then Cached(NoHost, NoHost, origin)
    else
      var (first, second) := router.Route(router.SliceOf(r));
      Cached(HostAt(router, scripts, first), HostAt(router, scripts, second), origin)
  }

  // ---- the same by the hash, the host table and the attempts alone ----

  /** The host of a bucket is not ready, or the attempts at it begin with a fallback-class failure. */
  predicate FailsOverAt(router: Router, scripts: seq<seq<Attempt>>, b: int)
    requires |scripts| == |router.hosts| && 0 <= b < |scripts|
  {
    router.hosts[b] == "" || (scripts[b] != [] && scripts[b][0].FallsBack?)
  }

  /** The host of a bucket is ready, and the attempts at it begin with a reply of any status. */
  predicate RepliesAt(router: Router, scripts: seq<seq<Attempt>>, b: int)
    requires |scripts| == |router.hosts| && 0 <= b < |scripts|
  {
    router.hosts[b] != "" && scripts[b] != [] && (scripts[b][0].Answered? || scripts[b][0].Refused?)
  }

  /** Neither cache host of a range replies, and the first failed over. */
  ghost predicate CachesFailOver(router: Router, scripts: seq<seq<Attempt>>, r: Range)
    requires router.Valid() && |scripts| == |router.hosts|
  {
    && !router.Straddles(r) && router.FirstBucket(r).Some?
    && var b := router.FirstBucket(r).value;
       && FailsOverAt(router, scripts, b)
       && (router.RetryBucket(r, b).Some? ==> !RepliesAt(router, scripts, router.RetryBucket(r, b).value))
  }

  /** The attempts at the first bucket decide unless its host fails over, then those at the retry
      bucket if its host replies, else those at the origin. Nothing decides a range that straddles
      or that no bucket can be had for. */
  ghost predicate Decides(router: Router, scripts: seq<seq<Attempt>>, origin: seq<Attempt>, r: Range,
                          script: seq<Attempt>)
    requires router.Valid() && |scripts| == |router.hosts|
  {
    && !router.Straddles(r) && router.FirstBucket(r).Some?
    && var b := router.FirstBucket(r).value;
       script == if !FailsOverAt(router, scripts, b) then scripts[b]
                 else if CachesFailOver(router, scripts, r) then origin
                 else scripts[router.RetryBucket(r, b).value]
  }

  /** That is the source whose answer counts, and its attempts. */
  lemma SourceDecides(router: Router, scripts: seq<seq<Attempt>>, origin: seq<Attempt>, r: Range)
    requires router.Valid() && |scripts| == |router.hosts| && 0 <= r.start
    ensures var s := SupplyFor(router, scripts, origin, r);
            && (SourceOf(s) == Origin <==> CachesFailOver(router, scripts, r))
            && (SourceOf(s) == Nowhere <==> forall script :: !Decides(router, scripts, origin, r, script))
            && (SourceOf(s) != Nowhere ==>
                  forall script :: Decides(router, scripts, origin, r, script) <==> script == Deciding(s))
  {
    var s := SupplyFor(router, scripts, origin, r);
    router.RouteIs(r);
    router.RouteInRange(router.SliceOf(r));
    assert SourceOf(s) == Origin <==> CachesFailOver(router, scripts, r);
    assert SourceOf(s) != Nowhere ==> Decides(router, scripts, origin, r, Deciding(s));
  }

  /** A range arrives whole exactly when the attempts at the first host add up to it or, if that
      fails over, those at the retry host, or, if that does not reply, those at the origin. */
  lemma SuppliedWhole(content: seq<byte>, r: Range, s: Supply)
    requires ValidSupply(s) && Answerable(r, |content|)
    ensures var need := |Owed(content, r)|;
            SuppliedRange(content, r, s) == Outcome(Owed(content, r), NoError) <==>
              match s
              case Direct(origin) => Arrives(need, origin)
              case Cached(first, retry, origin) =>
                if !FallsOver(first) then first.Up? && Arrives(need, first.script)
                else if Replies(retry) then Arrives(need, retry.script)
                else Arrives(need, origin)
  {
    FetchedWhole(Owed(content, r), Deciding(s));
  }

  lemma SuppliedBy(router: Router, content: seq<byte>, scripts: seq<seq<Attempt>>, origin: seq<Attempt>, r: Range)
    requires router.Valid() && |scripts| == |router.hosts| && ValidScripts(scripts) && ValidScript(origin)
    requires 0 <= r.start
    ensures var d := SuppliedRange(content, r, SupplyFor(router, scripts, origin, r));
            && (forall script :: Decides(router, scripts, origin, r, script) ==> d == FetchedRange(content, r, script))
            && (Answerable(r, |content|) ==>
                  (d == Outcome(Owed(content, r), NoError) <==>
                     exists script ::
                       Decides(router, scripts, origin, r, script) && Arrives(|Owed(content, r)|, script)))
  {
    var s := SupplyFor(router, scripts, origin, r);
    SourceDecides(router, scripts, origin, r);
    if Answerable(r, |content|) && SourceOf(s) != Nowhere {
      assert Decides(router, scripts, origin, r, Deciding(s));
      FetchedWhole(Owed(content, r), Deciding(s));
    }
  }

  // ---- asking the hosts ----

  /** How an exchange about a range goes at a host. */
  function ExchangeOf(content: seq<byte>, r: Range, h: Host): Exchange {
    if !h.Up? || h.script == [] then Fails(NO_RESPONSE)
    else
      var (resp, err) := Reply(content, r, h.script[0]);
      if err == NoError then Replied(resp.status) else if err == Fallback then FailsOver else Fails(NO_RESPONSE)
  }

  /** A work item and the router agree on a range: the origin is asked exactly when the router's
      DoRequest ends in the fallback error, and a cache host's answer is taken exactly when it
      ends without an error. */
  lemma SourceIsRouted(router: Router, content: seq<byte>, scripts: seq<seq<Attempt>>, origin: seq<Attempt>, r: Range)
    requires router.Valid() && |scripts| == |router.hosts| && ValidScripts(scripts) && !router.Straddles(r)
    ensures var (first, second) := router.Route(router.SliceOf(r));
            var s := SupplyFor(router, scripts, origin, r);
            var x, y := ExchangeOf(content, r, s.first), ExchangeOf(content, r, s.retry);
            && (SourceOf(s) == Origin <==> router.FallbackClass(first, x) && router.Unanswered(second, y))
            && ((SourceOf(s) == First || SourceOf(s) == Retry) && Responds(Deciding(s)) && Answerable(r, |content|)
                <==> if router.FallbackClass(first, x) then !router.Unanswered(second, y) && 200 <= y.status < 300
                     else !router.Unanswered(first, x) && 200 <= x.status < 300)
  {
    router.RouteInRange(router.SliceOf(r));
    var s := SupplyFor(router, scripts, origin, r);
    assert s.first.Up? && s.first.script != [] ==> ValidAttempt(s.first.script[0]);
    assert s.retry.Up? && s.retry.script != [] ==> ValidAttempt(s.retry.script[0]);
  }

  /** What asking one host comes to. */
  function HostError(content: seq<byte>, r: Range, h: Host): Error {
    match h
    case NoHost => Failure(NOT_SENT)
    case NotReady => Fallback
    case Up(script) => if script == [] then Failure(NO_RESPONSE) else Reply(content, r, script[0]).1
  }

  lemma HostErrors(content: seq<byte>, r: Range, h: Host)
    requires ValidHost(h)
    ensures HostError(content, r, h) == Fallback <==> FallsOver(h)
    ensures HostError(content, r, h) == NoError <==> Replies(h)
    ensures h.Up? && HostError(content, r, h) != NoError ==>
              FetchedRange(content, r, h.script) == Outcome([], HostError(content, r, h))
  {
    assert h.Up? && h.script != [] ==> ValidAttempt(h.script[0]);
  }

  /** The status check of a reply. */
  lemma StatusDecides(content: seq<byte>, r: Range, script: seq<Attempt>)
    requires ValidScript(script) && Replies(Up(script))
    ensures var status := Reply(content, r, script[0]).0.status;
            && (200 <= status < 300 <==> Responds(script) && Answerable(r, |content|))
            && (!(200 <= status < 300) ==> FetchedRange(content, r, script) == Outcome([], Failure(BAD_STATUS)))
  {
    assert ValidAttempt(script[0]);
  }

  /** The buckets the router says are asked, in terms of the hosts. */
  lemma AskedHosts(router: Router, content: seq<byte>, scripts: seq<seq<Attempt>>, r: Range)
    requires router.Valid() && |scripts| == |router.hosts| && ValidScripts(scripts)
    ensures var s := SupplyFor(router, scripts, [], r);
            var (first, second) := router.Route(router.SliceOf(r));
            router.Asked(r, ExchangeOf(content, r, s.first)) ==
              if router.Straddles(r) then []
              else router.AskedOf(first) + if FallsOver(s.first) then router.AskedOf(second) else []
  {
    router.RouteInRange(router.SliceOf(r));
  }

  /** doRequestToCacheHost with the given buckets excluded. */
  method AskHost(router: Router, content: seq<byte>, scripts: seq<seq<Attempt>>, r: Range, previous: array<int>)
    returns (client: Client?, pod: int, req: Request, resp: Response, err: Error, asked: seq<int>)
    requires router.Valid() && |scripts| == |router.hosts| && ValidScripts(scripts)
    requires IsInt64(r.start) && IsInt64(r.end)
    modifies previous
    ensures fresh(req) && (client != null ==> fresh(client))
    ensures var b := if router.Straddles(r) then None else router.BucketFor(router.SliceOf(r), old(previous[..]));
            var h := HostAt(router, scripts, b);
            && router.InRange(b) && (b.Some? ==> pod == b.value)
            && asked == router.AskedOf(b)
            && err == HostError(content, r, h)
            && (err == NoError ==> Answering(client, req, resp, content, r, h.script))
  {
    client, resp, asked := null, NoResponse(0), [];
    req := new Request(PrintHeader(r));
    pod, err := router.RewriteRequest(r, previous);
    if err == Fallback {
      return;
    }
    if err != NoError {
      err := Failure(NOT_SENT);
      return;
    }
    asked := [pod];
    client := new Client(content, scripts[pod]);
    resp, err := Send(client, req, r);
  }

  /** The client has just had the first reply of a script. */
  ghost predicate Answering(client: Client?, req: Request, resp: Response, content: seq<byte>, r: Range,
                            script: seq<Attempt>)
    reads client, req
  {
    && client != null && client.Valid() && client.content == content
    && script != [] && ValidAttempt(script[0]) && client.script == script[1..]
    && Asks(req.header, r) && resp == Reply(content, r, script[0]).0
  }

  /** The first host and, if that fails over, the retry host; a failed retry is reported as the first
      failure. */
  method AskBoth(router: Router, content: seq<byte>, scripts: seq<seq<Attempt>>, r: Range)
    returns (client: Client?, req: Request, resp: Response, err: Error, asked: seq<int>)
    requires router.Valid() && |scripts| == |router.hosts| && ValidScripts(scripts)
    requires IsInt64(r.start) && IsInt64(r.end)
    ensures fresh(req) && (client != null ==> fresh(client))
    ensures var s := SupplyFor(router, scripts, [], r);
            var (first, second) := router.Route(router.SliceOf(r));
            var e1, e2 := HostError(content, r, s.first), HostError(content, r, s.retry);
            && err == (if e1 == Fallback && e2 == NoError then NoError else e1)
            && (err == NoError ==>
                  Answering(client, req, resp, content, r, if e1 == NoError then s.first.script else s.retry.script))
            && asked == (if router.Straddles(r) then []
                         else router.AskedOf(first) + if e1 == Fallback then router.AskedOf(second) else [])
  {
    var none := new int[0];
    assert none[..] == [];
    var pod;
    client, pod, req, resp, err, asked := AskHost(router, content, scripts, r, none);
    if err == Fallback {
      var previous := new int[1];
      previous[0] := pod;
      assert previous[..] == [pod];
      var retryErr, retried;
      client, pod, req, resp, retryErr, retried := AskHost(router, content, scripts, r, previous);
      asked := asked + retried;
      if retryErr == NoError {
        err := NoError;
      }
    }
  }

  /** DoRequest of ConsistentHashingMode: the first host, one retry at another if that failed over,
      then the status check. A failed retry is reported as the first failure. `asked` lists the
      buckets a request went to. */
  method AskCaches(router: Router, content: seq<byte>, scripts: seq<seq<Attempt>>, r: Range)
    returns (client: Client?, req: Request, resp: Response, err: Error, asked: seq<int>)
    requires router.Valid() && |scripts| == |router.hosts| && ValidScripts(scripts)
    requires IsInt64(r.start) && IsInt64(r.end)
    ensures fresh(req) && (client != null ==> fresh(client))
    ensures var s := SupplyFor(router, scripts, [], r);
            && asked == router.Asked(r, ExchangeOf(content, r, s.first))
            && (err == Fallback <==> SourceOf(s) == Origin)
            && (err == NoError ==>
                && SourceOf(s) != Nowhere && Responds(Deciding(s)) && Answerable(r, |content|)
                && Answering(client, req, resp, content, r, Deciding(s)))
            && (err != NoError && err != Fallback ==>
                && !(Responds(Deciding(s)) && Answerable(r, |content|))
                && Outcome([], err) == SuppliedRange(content, r, s))
  {
    ghost var s := SupplyFor(router, scripts, [], r);
    HostErrors(content, r, s.first);
    HostErrors(content, r, s.retry);
    AskedHosts(router, content, scripts, r);
    client, req, resp, err, asked := AskBoth(router, content, scripts, r);
    if err == NoError {
      StatusDecides(content, r, Deciding(s));
      if resp.status < 200 || resp.status >= 300 {
        err := Failure(BAD_STATUS);
      }
    }
  }

  /** A chunk's work item in ConsistentHashingMode: the cache hosts, and the origin if those failed
      over. Delivered once, with what becomes of the range at the host whose answer counts, an
      error if no host could be chosen. The origin is asked exactly when the hosts failed over. */
  method FetchChunkCached(router: Router, content: seq<byte>, scripts: seq<seq<Attempt>>, origin: seq<Attempt>,
                          r: Range, buf: array<byte>, chunk: ReaderPromise)
    returns (asked: seq<int>, originAsked: bool)
    requires router.Valid() && |scripts| == |router.hosts| && ValidScripts(scripts) && ValidScript(origin)
    requires Fits(content, r, buf.Length)
    requires chunk.Valid() && !chunk.ready
    modifies buf, chunk
    ensures var s := SupplyFor(router, scripts, origin, r);
            && Delivers(chunk, buf, SuppliedRange(content, r, s))
            && asked == router.Asked(r, ExchangeOf(content, r, s.first))
            && (originAsked <==> SourceOf(s) == Origin)
    ensures 0 <= r.start ==> (originAsked <==> CachesFailOver(router, scripts, r))
    ensures 0 <= r.start ==>
              forall script :: Decides(router, scripts, origin, r, script) ==>
                Carries(chunk) == FetchedRange(content, r, script)
    ensures Answerable(r, |content|) ==>
              (Carries(chunk) == Outcome(Owed(content, r), NoError) <==>
                 exists script :: Decides(router, scripts, origin, r, script) && Arrives(|Owed(content, r)|, script))
  {
    if 0 <= r.start {
      SourceDecides(router, scripts, origin, r);
      SuppliedBy(router, content, scripts, origin, r);
    }
    ghost var s, s0 := SupplyFor(router, scripts, origin, r), SupplyFor(router, scripts, [], r);
    assert SourceOf(s) == SourceOf(s0) && (SourceOf(s) != Origin ==> Deciding(s) == Deciding(s0));
    var client, req, resp, err;
    client, req, resp, err, asked := AskCaches(router, content, scripts, r);
    originAsked := err == Fallback;
    if originAsked {
      client := new Client(content, origin);
      req, resp, err := DoRequest(client, r);
    }
    if err != NoError {
      chunk.Deliver(null, 0, err);
      return;
    }
    ReadAndDeliver(client, req, resp, buf, chunk, r, Deciding(s));
  }

  // ---- the first request ----

  /** BufferMode's first work item, submitted to learn the file size. If its request fails the
      promise stays undelivered and Fetch fails; otherwise the size is the file's, be it zero,
      and the promise is delivered like any other. */
  method FetchFirst(client: Client, chunkSize: int, buf: array<byte>, first: ReaderPromise)
    returns (fileSize: nat, err: Error)
    requires client.Valid() && 0 < chunkSize <= MAX_INT64
    requires buf.Length >= Min(chunkSize, |client.content|)
    requires first.Valid() && !first.ready
    modifies client, buf, first
    ensures client.Valid() && first.Valid()
    ensures err == NoError <==> Responds(old(client.script))
    ensures err == NoError ==>
              && fileSize == |client.content|
              && Delivers(first, buf, FetchedRange(client.content, Range(0, chunkSize - 1), old(client.script)))
    ensures err != NoError ==> !first.ready
  {
    ghost var script := client.script;
    var r := Range(0, chunkSize - 1);
    var req, resp;
    req, resp, err := DoRequest(client, r);
    if err != NoError {
      return 0, err;
    }
    fileSize := resp.total;
    ReadAndDeliver(client, req, resp, buf, first, r, script);
  }

  /** ConsistentHashingMode's first work item. It never asks the origin: when both hosts fail
      over, its error sends the whole file to the fallback strategy. */
  method FetchFirstCached(router: Router, content: seq<byte>, scripts: seq<seq<Attempt>>, chunkSize: int,
                          buf: array<byte>, first: ReaderPromise)
    returns (fileSize: nat, err: Error)
    requires router.Valid() && |scripts| == |router.hosts| && ValidScripts(scripts)
    requires 0 < chunkSize <= MAX_INT64 && buf.Length >= Min(chunkSize, |content|)
    requires first.Valid() && !first.ready
    modifies buf, first
    ensures first.Valid()
    ensures var r := Range(0, chunkSize - 1);
            var s := SupplyFor(router, scripts, [], r);
            && (err == Fallback <==> SourceOf(s) == Origin)
            && (err == NoError <==> (SourceOf(s) == First || SourceOf(s) == Retry) && Responds(Deciding(s)))
            && (err == NoError ==> fileSize == |content| && Delivers(first, buf, SuppliedRange(content, r, s)))
            && (err != NoError ==> !first.ready)
    ensures err == Fallback <==> CachesFailOver(router, scripts, Range(0, chunkSize - 1))
  {
    var r := Range(0, chunkSize - 1);
    SourceDecides(router, scripts, [], r);
    var client, req, resp, asked;
    client, req, resp, err, asked := AskCaches(router, content, scripts, r);
    if err != NoError {
      return 0, err;
    }
    fileSize := resp.total;
    ReadAndDeliver(client, req, resp, buf, first, r, Deciding(SupplyFor(router, scripts, [], r)));
  }
}
