/**
 One download from request to disk in the program's own terms: Getter.DownloadFile over the Fetch of
 either strategy and FileWriter.Consume, with a worker for every chunk.
 */
module Download {
  import opened Wrappers
  import opened Ranges
  import opened Promise
  import opened Planner
  import opened Resume
  import opened Routing
  import opened Worker
  import opened Delivery
  import opened DeliverySafety
  import opened DeliveryProgress
  import opened Consumer
  import opened EndToEnd

  /** What io.Copy makes of a file's deliveries: all of it and no error exactly when every chunk was
      delivered without one and in full (an empty file has nothing to lose). */
  lemma {:induction false} CopyDecides(cfg: Config, j: Job, ds: seq<Outcome>)
    requires ValidJob(j, cfg.bufSize) && Matches(j, ds)
    ensures AllFull(j, |j.fates|) ==> Copied(ds) == (j.content, NoError)
    ensures j.content != [] && !AllFull(j, |j.fates|) ==> !FileAccepts(ds, |j.content|)
  {
    var m := LastNeeded(j.fates, 0);
    if Breaks(j.fates[m]) {
      CopiedUpTo(cfg, j, ds, m);
      assert !Full(j, m);
    } else {
      CopiedIsAssembled(cfg, j, ds, |ds|);
      assert ds[..|ds|] == ds;
      AssembledLength(cfg, j, |ds|);
      WholePlan(cfg, j);
    }
  }

  /** A planned file with these supplies, as a job. */
  lemma SuppliedJob(content: seq<byte>, p: Plan, rs: seq<Range>, supplies: seq<Supply>) returns (j: Job)
    requires ValidPlan(p) && |content| <= MAX_INT64 && rs == Requests(p, |content|) && |supplies| == |rs|
    requires forall i :: 0 <= i < |supplies| ==> ValidSupply(supplies[i])
    ensures j.content == content && ValidJob(j, p.chunk) && Supplied(j, rs, supplies)
  {
    RequestFacts(p, content, 0);
    var n, probeOk := |rs|, SourceOf(supplies[0]) != Nowhere && Responds(Deciding(supplies[0]));
    var fates := seq(n, i requires 0 <= i < n => SuppliedRange(content, rs[i], supplies[i]).err);
    var sizes := seq(n, i requires 0 <= i < n => NamedBy(content, rs[i], supplies[i]));
    j := Job(content, Spans(p, |content|), 0, probeOk, fates, sizes);
    forall i | 0 <= i < n
      ensures SuppliedChunk(j, rs, supplies, i)
      ensures j.plan[i].lo + j.sizes[i] <= j.plan[i].hi <= |content|
    {
      RequestFacts(p, content, i);
      RangeFacts(content, rs[i], supplies[i]);
    }
    PlannedJobValid(j, p, p.chunk);
  }

  /** A plan's deliveries are accepted exactly when every chunk arrives, and then they are the
      file. */
  lemma {:induction false} PlanAccepted(content: seq<byte>, p: Plan, rs: seq<Range>, supplies: seq<Supply>)
    requires ValidPlan(p) && |content| <= MAX_INT64 && rs == Requests(p, |content|) && |supplies| == |rs| >= 1
    requires forall i :: 0 <= i < |supplies| ==> ValidSupply(supplies[i])
    requires SourceOf(supplies[0]) != Nowhere && Responds(Deciding(supplies[0]))
    ensures var ds := Fetches(content, rs, supplies);
            && (FileAccepts(ds, |content|) <==> AllComplete(content, rs, supplies))
            && (FileAccepts(ds, |content|) ==> Copied(ds).0 == content)
  {
    var j := SuppliedJob(content, p, rs, supplies);
    FetchesMatch(j, rs, supplies);
    FullIffComplete(j, rs, supplies);
    if content == [] {
      EmptyComplete(j, p, rs, supplies);
    }
    CopyDecides(Config([j], 1, p.chunk), j, Fetches(content, rs, supplies));
  }

  /** If the first request is not answered, not every chunk arrives. */
  lemma NothingArrives(content: seq<byte>, rs: seq<Range>, supplies: seq<Supply>)
    requires |rs| == |supplies| >= 1
    requires !(SourceOf(supplies[0]) != Nowhere && Responds(Deciding(supplies[0])))
    ensures !AllComplete(content, rs, supplies)
  {
    if ChunkComplete(content, rs[0], supplies[0]) {
      CompletesResponds(|Owed(content, rs[0])|, Deciding(supplies[0]));
    }
  }

  // ---- the code ----

  /** How the attempts at one request fare: at the origin, or at each cache host and, in a chunk
      fallback, at the origin. */
  datatype Feed = Straight(origin: seq<Attempt>) | Cached(hosts: seq<seq<Attempt>>, origin: seq<Attempt>)

  ghost predicate ValidFeed(router: Router?, feed: Feed) {
    && ValidScript(feed.origin)
    && (feed.Cached? ==> router != null && router.Valid() && |feed.hosts| == |router.hosts| && ValidScripts(feed.hosts))
  }

  ghost function SupplyOf(router: Router?, feed: Feed, r: Range): Supply
    requires ValidFeed(router, feed)
  {
    match feed
    case Straight(origin) => Direct(origin)
    case Cached(hosts, origin) => SupplyFor(router, hosts, origin, r)
  }

  lemma SupplyOfValid(router: Router?, feed: Feed, r: Range)
    requires ValidFeed(router, feed)
    ensures ValidSupply(SupplyOf(router, feed, r))
  {
  }

  /** What becomes of a request with its attempts. */
  ghost predicate IsOutcome(router: Router?, content: seq<byte>, r: Range, feed: Feed, d: Outcome) {
    ValidFeed(router, feed) && d == SuppliedRange(content, r, SupplyOf(router, feed, r))
  }

  ghost predicate Outcomes(router: Router?, content: seq<byte>, rs: seq<Range>, feeds: seq<Feed>, ds: seq<Outcome>) {
    && |ds| == |rs| == |feeds|
    && forall i {:trigger IsOutcome(router, content, rs[i], feeds[i], ds[i])} :: 0 <= i < |ds| ==>
         IsOutcome(router, content, rs[i], feeds[i], ds[i])
  }

  lemma OutcomesAppend(router: Router?, content: seq<byte>, rs: seq<Range>, feeds: seq<Feed>,
                       ds: seq<Outcome>, d: Outcome)
    requires |ds| < |rs| == |feeds| && Outcomes(router, content, rs[..|ds|], feeds[..|ds|], ds)
    requires IsOutcome(router, content, rs[|ds|], feeds[|ds|], d)
    ensures Outcomes(router, content, rs[..|ds| + 1], feeds[..|ds| + 1], ds + [d])
  {
    var i := |ds|;
    forall k | 0 <= k < i
      ensures IsOutcome(router, content, rs[k], feeds[k], ds[k])
    {
      assert IsOutcome(router, content, rs[..i][k], feeds[..i][k], ds[k]);
    }
  }

  /** The requests can all be made and fit buffers of the given size. */
  ghost predicate Callable(content: seq<byte>, rs: seq<Range>, size: nat) {
    forall i :: 0 <= i < |rs| ==> Fits(content, rs[i], size)
  }

  lemma PlanCallable(p: Plan, content: seq<byte>, size: nat)
    requires ValidPlan(p) && |content| <= MAX_INT64
    requires p.chunk <= size || (p.Flat? && |content| <= size)
    ensures Callable(content, Requests(p, |content|), size)
  {
    SpansFit(p, |content|);
    forall i | 0 <= i < |Requests(p, |content|)|
      ensures Fits(content, Requests(p, |content|)[i], size)
    {
      RequestFacts(p, content, i);
    }
  }

  /** One work item, on a worker of its own. The server holds the content. */
  method FetchNext(router: Router?, content: seq<byte>, feed: Feed, r: Range, size: nat)
    returns (reader: ReaderPromise)
    requires ValidFeed(router, feed) && Fits(content, r, size)
    ensures fresh(reader) && Fresh(reader) && IsOutcome(router, content, r, feed, Carries(reader))
  {
    var buf := new byte[size];
    reader := new ReaderPromise();
    match feed {
      case Straight(origin) =>
        var client := new Client(content, origin);
        FetchChunk(client, r, buf, reader);
      case Cached(hosts, origin) =>
        var _, _ := FetchChunkCached(router, content, hosts, origin, r, buf, reader);
    }
  }

  /** One turn of a submit loop: one more delivered promise behind the others. */
  method Submit(router: Router?, content: seq<byte>, feeds: seq<Feed>, rs: seq<Range>, size: nat,
                readers: seq<ReaderPromise>, ghost ds: seq<Outcome>)
    returns (more: seq<ReaderPromise>, ghost es: seq<Outcome>)
    requires |readers| == |ds| < |rs| == |feeds|
    requires ValidFeed(router, feeds[|ds|]) && Fits(content, rs[|ds|], size)
    requires Carry(readers, ds) && Outcomes(router, content, rs[..|ds|], feeds[..|ds|], ds)
    ensures |more| == |readers| + 1 == |es| && more[..|readers|] == readers && fresh(more[|readers|])
    ensures Carry(more, es) && Outcomes(router, content, rs[..|es|], feeds[..|es|], es)
  {
    var i := |readers|;
    var reader := FetchNext(router, content, feeds[i], rs[i], size);
    OutcomesAppend(router, content, rs, feeds, ds, Carries(reader));
    more, es := readers + [reader], ds + [Carries(reader)];
  }

  /** The submit loops: a work item for every request after the first. */
  method FetchRest(router: Router?, content: seq<byte>, feeds: seq<Feed>, rs: seq<Range>, size: nat,
                   first: ReaderPromise)
    returns (readers: seq<ReaderPromise>, ghost ds: seq<Outcome>)
    requires |rs| == |feeds| >= 1 && Callable(content, rs, size)
    requires forall i :: 0 <= i < |feeds| ==> ValidFeed(router, feeds[i])
    requires Fresh(first) && IsOutcome(router, content, rs[0], feeds[0], Carries(first))
    ensures Carry(readers, ds) && Outcomes(router, content, rs, feeds, ds)
    ensures forall k :: 0 <= k < |readers| ==> readers[k] == first || fresh(readers[k])
  {
    readers, ds := [first], [Carries(first)];
    var i := 1;
    while i < |rs|
      invariant 1 <= i <= |rs| && |readers| == |ds| == i
      invariant forall k :: 0 <= k < i ==> readers[k] == first || fresh(readers[k])
      invariant Carry(readers, ds) && Outcomes(router, content, rs[..i], feeds[..i], ds)
    {
      readers, ds := Submit(router, content, feeds, rs, size, readers, ds);
      i := i + 1;
    }
    assert rs[..i] == rs && feeds[..i] == feeds;
  }

  /** BufferMode's attempts: all at the origin. */
  ghost predicate AllStraight(feeds: seq<Feed>) {
    forall i :: 0 <= i < |feeds| ==> feeds[i].Straight? && ValidScript(feeds[i].origin)
  }

  /** BufferMode.Fetch: the first request, the plan, a work item for every request of it. The
      workers' buffers have the given size. */
  method FetchFlat(content: seq<byte>, feeds: seq<Feed>, option: nat, size: nat)
    returns (readers: seq<ReaderPromise>, fileSize: nat, err: Error, ghost ds: seq<Outcome>)
    requires |content| <= MAX_INT64 && option <= MAX_INT64 && (BufferChunkSize(option) <= size || |content| <= size)
    requires |feeds| == |BufferRanges(|content|, BufferChunkSize(option))| && AllStraight(feeds)
    ensures err == NoError <==> Responds(feeds[0].origin)
    ensures err == NoError ==>
              && fileSize == |content| && fresh(readers) && Carry(readers, ds)
              && Outcomes(null, content, BufferRanges(|content|, BufferChunkSize(option)), feeds, ds)
  {
    var chunk := BufferChunkSize(option);
    var client := new Client(content, feeds[0].origin);
    var buf := new byte[size];
    var first := new ReaderPromise();
    readers, ds := [first], [];
    PlanCallable(Flat(chunk), content, size);
    fileSize, err := FetchFirst(client, chunk, buf, first);
    if err != NoError {
      return;
    }
    var plan := PlanBuffer(fileSize, chunk);
    readers, ds := FetchRest(null, content, feeds, plan, size, first);
  }

  /** ConsistentHashingMode's attempts: at the cache hosts first. */
  ghost predicate AllCached(router: Router, feeds: seq<Feed>) {
    forall i :: 0 <= i < |feeds| ==> feeds[i].Cached? && ValidFeed(router, feeds[i])
  }

  /** The first request of ConsistentHashingMode sends the whole file to the fallback strategy. */
  ghost predicate FallsBackWhole(router: Router, feed: Feed, chunk: nat)
    requires feed.Cached? && ValidFeed(router, feed) && chunk > 0
  {
    CachesFailOver(router, feed.hosts, Range(0, chunk - 1))
  }

  /** The origin's attempts make a difference only where the origin is asked. */
  lemma SameSource(router: Router, feed: Feed, r: Range)
    requires feed.Cached? && ValidFeed(router, feed)
    ensures var s, s0 := SupplyOf(router, feed, r), SupplyFor(router, feed.hosts, [], r);
            && SourceOf(s) == SourceOf(s0)
            && (SourceOf(s) != Origin ==> Deciding(s) == Deciding(s0))
  {
  }

  /** What the first request of ConsistentHashingMode and its submit loop come to, unless the file
      falls back. */
  ghost predicate FetchedSliced(router: Router, content: seq<byte>, feeds: seq<Feed>, chunk: nat,
                                fileSize: nat, err: Error, ds: seq<Outcome>)
    requires |feeds| >= 1 && AllCached(router, feeds) && chunk > 0 && router.sliceSize > 0
  {
    var s := SupplyOf(router, feeds[0], Range(0, chunk - 1));
    && (err == NoError <==> SourceOf(s) != Nowhere && Responds(Deciding(s)))
    && (err == NoError ==>
        && fileSize == |content|
        && Outcomes(router, content, SlicedRequests(|content|, chunk, router.sliceSize), feeds, ds))
  }

  /** ConsistentHashingMode.Fetch of a cacheable file, up to the fallback. */
  method FetchCacheable(router: Router, content: seq<byte>, feeds: seq<Feed>, chunk: nat)
    returns (readers: seq<ReaderPromise>, fileSize: nat, err: Error, ghost ds: seq<Outcome>)
    requires router.Valid() && 0 < chunk <= router.sliceSize <= MAX_INT64 && |content| <= MAX_INT64
    requires |feeds| == |SlicedRequests(|content|, chunk, router.sliceSize)| >= 1 && AllCached(router, feeds)
    ensures err == Fallback <==> FallsBackWhole(router, feeds[0], chunk)
    ensures err != Fallback ==> FetchedSliced(router, content, feeds, chunk, fileSize, err, ds)
    ensures err == NoError ==> fresh(readers) && Carry(readers, ds)
  {
    var first := new ReaderPromise();
    readers, ds := [first], [];
    PlanCallable(Sliced(chunk, router.sliceSize), content, chunk);
    FirstSlicedRequest(|content|, chunk, router.sliceSize);
    SameSource(router, feeds[0], Range(0, chunk - 1));
    var buf := new byte[chunk];
    fileSize, err := FetchFirstCached(router, content, feeds[0].hosts, chunk, buf, first);
    if err == NoError {
      var plan := PlanHashing(fileSize, chunk, router.sliceSize);
      readers, ds := FetchRest(router, content, feeds, plan, chunk, first);
    }
  }

  /** ConsistentHashingMode.Fetch: the first request at the cache hosts; if both fail over, or the
      file is not cacheable, the fallback strategy on the shared workers; otherwise the sliced
      plan as computed, and a work item for every request of it. `flat` says which it was. */
  method FetchSliced(router: Router, cacheable: bool, content: seq<byte>, feeds: seq<Feed>, fallback: seq<Feed>,
                     option: nat)
    returns (readers: seq<ReaderPromise>, fileSize: nat, err: Error, flat: bool, ghost ds: seq<Outcome>)
    requires router.Valid() && router.sliceSize <= MAX_INT64 && |content| <= MAX_INT64 && option <= MAX_INT64
    requires |feeds| == |SlicedRequests(|content|, HashingChunkSize(option, router.sliceSize), router.sliceSize)| >= 1
    requires AllCached(router, feeds)
    requires |fallback| == |BufferRanges(|content|, BufferChunkSize(option))| && AllStraight(fallback)
    requires BufferChunkSize(option) <= router.sliceSize || |content| <= router.sliceSize
    ensures flat <==> !cacheable || FallsBackWhole(router, feeds[0], HashingChunkSize(option, router.sliceSize))
    ensures flat ==>
              && (err == NoError <==> Responds(fallback[0].origin))
              && (err == NoError ==>
                  && fileSize == |content|
                  && Outcomes(null, content, BufferRanges(|content|, BufferChunkSize(option)), fallback, ds))
    ensures !flat ==>
              FetchedSliced(router, content, feeds, HashingChunkSize(option, router.sliceSize), fileSize, err, ds)
    ensures err == NoError ==> fresh(readers) && Carry(readers, ds)
  {
    var chunk := HashingChunkSize(option, router.sliceSize);
    readers, fileSize, err, ds := [], 0, NoError, [];
    flat := !cacheable;
    if cacheable {
      readers, fileSize, err, ds := FetchCacheable(router, content, feeds, chunk);
      flat := err == Fallback;
    }
    if flat {
      readers, fileSize, err, ds := FetchFlat(content, fallback, option, chunk);
    }
  }

  // ---- to the disk ----

  ghost function Supplies(router: Router?, feeds: seq<Feed>, rs: seq<Range>): (supplies: seq<Supply>)
    requires |feeds| == |rs| && forall i :: 0 <= i < |feeds| ==> ValidFeed(router, feeds[i])
    ensures |supplies| == |feeds|
  {
    seq(|feeds|, i requires 0 <= i < |feeds| => SupplyOf(router, feeds[i], rs[i]))
  }

  /** All of a request's bytes arrive: the server has them, and the attempts that decide it add up to
      them. */
  ghost predicate ChunkArrives(router: Router?, content: seq<byte>, r: Range, feed: Feed)
    requires ValidFeed(router, feed)
  {
    && Answerable(r, |content|)
    && match feed
       case Straight(origin) => Arrives(|Owed(content, r)|, origin)
       case Cached(hosts, origin) =>
         exists script :: Decides(router, hosts, origin, r, script) && Arrives(|Owed(content, r)|, script)
  }

  ghost predicate AllArrive(router: Router?, content: seq<byte>, rs: seq<Range>, feeds: seq<Feed>)
    requires |feeds| == |rs| && forall i :: 0 <= i < |feeds| ==> ValidFeed(router, feeds[i])
  {
    forall i :: 0 <= i < |rs| ==> ChunkArrives(router, content, rs[i], feeds[i])
  }

  lemma ArrivesIffComplete(router: Router?, content: seq<byte>, r: Range, feed: Feed)
    requires ValidFeed(router, feed)
    ensures ChunkArrives(router, content, r, feed) <==> ChunkComplete(content, r, SupplyOf(router, feed, r))
  {
    if feed.Cached? && Answerable(r, |content|) {
      SourceDecides(router, feed.hosts, feed.origin, r);
    }
  }

  lemma AllArriveIff(router: Router?, content: seq<byte>, rs: seq<Range>, feeds: seq<Feed>)
    requires |feeds| == |rs| && forall i :: 0 <= i < |feeds| ==> ValidFeed(router, feeds[i])
    ensures AllArrive(router, content, rs, feeds) <==> AllComplete(content, rs, Supplies(router, feeds, rs))
  {
    var supplies := Supplies(router, feeds, rs);
    forall i | 0 <= i < |rs|
      ensures ChunkArrives(router, content, rs[i], feeds[i]) <==> ChunkComplete(content, rs[i], supplies[i])
    {
      ArrivesIffComplete(router, content, rs[i], feeds[i]);
    }
  }

  lemma {:induction false} OutcomesAccepted(router: Router?, content: seq<byte>, p: Plan, rs: seq<Range>,
                                            feeds: seq<Feed>, ds: seq<Outcome>)
    requires ValidPlan(p) && |content| <= MAX_INT64 && rs == Requests(p, |content|)
    requires forall i :: 0 <= i < |feeds| ==> ValidFeed(router, feeds[i])
    requires |feeds| >= 1 && Outcomes(router, content, rs, feeds, ds)
    requires var s := SupplyOf(router, feeds[0], rs[0]); SourceOf(s) != Nowhere && Responds(Deciding(s))
    ensures FileAccepts(ds, |content|) <==> AllComplete(content, rs, Supplies(router, feeds, rs))
    ensures FileAccepts(ds, |content|) ==> Copied(ds).0 == content
  {
    var supplies := Supplies(router, feeds, rs);
    forall i | 0 <= i < |feeds|
      ensures ValidSupply(supplies[i]) && ds[i] == SuppliedRange(content, rs[i], supplies[i])
    {
      SupplyOfValid(router, feeds[i], rs[i]);
      assert IsOutcome(router, content, rs[i], feeds[i], ds[i]);
    }
    assert ds == Fetches(content, rs, supplies);
    PlanAccepted(content, p, rs, supplies);
  }

  /** Getter.DownloadFile with BufferMode. It succeeds exactly when every chunk arrives and the disk
      takes the bytes, whatever the interruptions; the size is then the file's and the file is
      written over what was there. */
  method DownloadFile(content: seq<byte>, feeds: seq<Feed>, option: nat,
                      writer: FileWriter, disk: Disk, room: nat)
    returns (fileSize: nat, err: Error)
    requires |content| <= MAX_INT64 && option <= MAX_INT64 && room >= 1
    requires |feeds| == |BufferRanges(|content|, BufferChunkSize(option))| && AllStraight(feeds)
    modifies disk
    ensures var rs := BufferRanges(|content|, BufferChunkSize(option));
            err == NoError <==>
              AllArrive(null, content, rs, feeds) && disk.opens && Takes(disk.limit, |content|)
    ensures err == NoError ==>
              && fileSize == |content|
              && disk.data == Overlay(if writer.overwrite then [] else old(disk.data), content)
  {
    ghost var rs := BufferRanges(|content|, BufferChunkSize(option));
    AllArriveIff(null, content, rs, feeds);
    var readers;
    ghost var ds;
    readers, fileSize, err, ds := FetchFlat(content, feeds, option, BufferChunkSize(option));
    if err != NoError {
      NothingArrives(content, rs, Supplies(null, feeds, rs));
      return;
    }
    OutcomesAccepted(null, content, Flat(BufferChunkSize(option)), rs, feeds, ds);
    err := writer.Consume(readers, disk, fileSize, room, ds);
  }

  /** Getter.DownloadFile with ConsistentHashingMode. The same, for the sliced plan as computed in
      int64 or, after a fallback, for the flat one; a file whose sliced plan overflows is never
      accepted. */
  method DownloadFileCached(router: Router, cacheable: bool, content: seq<byte>, feeds: seq<Feed>,
                            fallback: seq<Feed>, option: nat, writer: FileWriter, disk: Disk, room: nat)
    returns (fileSize: nat, err: Error, flat: bool)
    requires router.Valid() && router.sliceSize <= MAX_INT64 && room >= 1
    requires |content| <= MAX_INT64 && option <= MAX_INT64
    requires |feeds| == |SlicedRequests(|content|, HashingChunkSize(option, router.sliceSize), router.sliceSize)| >= 1
    requires AllCached(router, feeds)
    requires |fallback| == |BufferRanges(|content|, BufferChunkSize(option))| && AllStraight(fallback)
    requires BufferChunkSize(option) <= router.sliceSize || |content| <= router.sliceSize
    modifies disk
    ensures var chunk, slice := HashingChunkSize(option, router.sliceSize), router.sliceSize;
            var flatRs, rs := BufferRanges(|content|, BufferChunkSize(option)), SlicedRequests(|content|, chunk, slice);
            var arrives :=
              if flat then AllArrive(null, content, flatRs, fallback) else AllArrive(router, content, rs, feeds);
            && (flat <==> !cacheable || FallsBackWhole(router, feeds[0], chunk))
            && (err == NoError <==> arrives && disk.opens && Takes(disk.limit, |content|))
            && (!flat && Overflows(Sliced(chunk, slice), |content|) ==> err != NoError)
    ensures err == NoError ==>
              && fileSize == |content|
              && disk.data == Overlay(if writer.overwrite then [] else old(disk.data), content)
  {
    var chunk := HashingChunkSize(option, router.sliceSize);
    ghost var p := Sliced(chunk, router.sliceSize);
    ghost var flatRs, rs := BufferRanges(|content|, BufferChunkSize(option)), Requests(p, |content|);
    FirstSlicedRequest(|content|, chunk, router.sliceSize);
    AllArriveIff(null, content, flatRs, fallback);
    AllArriveIff(router, content, rs, feeds);
    if Overflows(p, |content|) {
      OverflowIncomplete(content, p, rs, Supplies(router, feeds, rs));
    }
    var readers;
    ghost var ds;
    readers, fileSize, err, flat, ds := FetchSliced(router, cacheable, content, feeds, fallback, option);
    if err != NoError {
      if flat {
        NothingArrives(content, flatRs, Supplies(null, fallback, flatRs));
      } else {
        NothingArrives(content, rs, Supplies(router, feeds, rs));
      }
      return;
    }
    if flat {
      OutcomesAccepted(null, content, Flat(BufferChunkSize(option)), flatRs, fallback, ds);
    } else {
      OutcomesAccepted(router, content, p, rs, feeds, ds);
    }
    err := writer.Consume(readers, disk, fileSize, room, ds);
  }
}
