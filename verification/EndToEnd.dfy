/**
 The parts together: the planners and the attempts at each range feed the delivery protocol, the
 protocol feeds the consumers.
 */
module EndToEnd {
  import opened Wrappers
  import opened Ranges
  import opened Promise
  import opened Planner
  import opened Resume
  import opened Worker
  import opened Delivery
  import opened DeliverySafety
  import opened DeliveryProgress
  import opened Consumer

  // ---- plans ----

  /** How a file is cut up: by BufferMode, or by ConsistentHashingMode. */
  datatype Plan = Flat(chunk: nat) | Sliced(chunk: nat, slice: nat)

  predicate ValidPlan(p: Plan) {
    0 < p.chunk <= MAX_INT64 && (p.Sliced? ==> p.chunk <= p.slice <= MAX_INT64)
  }

  /** The stretches the readers stand for; an empty file is one empty chunk. */
  ghost function Spans(p: Plan, size: nat): seq<Span>
    requires ValidPlan(p)
  {
    if size == 0 then [Span(0, 0)]
    else
      match p
      case Flat(chunk) =>
        FlatPlanPartition(size, chunk);
        ServedAll(BufferRanges(size, chunk), size)
      case Sliced(chunk, slice) =>
        SlicePlanPartition(size, chunk, slice);
        ServedAll(HashingRanges(size, chunk, slice), size)
  }

  /** The requests as the code computes them, one for each reader. */
  function Requests(p: Plan, size: nat): seq<Range>
    requires ValidPlan(p)
  {
    match p
    case Flat(chunk) => BufferRanges(size, chunk)
    case Sliced(chunk, slice) => SlicedRequests(size, chunk, slice)
  }

  /** The size is one that int64 cannot cut up this way. */
  predicate Overflows(p: Plan, size: nat)
    requires ValidPlan(p)
  {
    p.Sliced? && size > p.chunk && !NoOverflow(size, p.chunk, p.slice)
  }

  /** Every stretch is at most a chunk, and together they are the file. */
  lemma SpansFit(p: Plan, size: nat)
    requires ValidPlan(p)
    ensures var spans := Spans(p, size);
            && Chunking(spans, size) && |spans| >= 1
            && forall i :: 0 <= i < |spans| ==>
                 spans[i].lo <= spans[i].hi <= size && spans[i].hi - spans[i].lo <= p.chunk
  {
    var spans := Spans(p, size);
    if size > 0 {
      match p {
        case Flat(chunk) =>
          FlatPlanPartition(size, chunk);
        case Sliced(chunk, slice) =>
          SlicePlanPartition(size, chunk, slice);
          forall i | 0 <= i < |spans|
            ensures spans[i].hi - spans[i].lo <= chunk
          {
            SlicePlanShape(size, chunk, slice, i);
          }
      }
    }
    forall i | 0 <= i < |spans|
      ensures spans[i].lo <= spans[i].hi <= size
    {
      ChunkingBounds(spans, size, i);
    }
  }

  /** A computed request stands for its reader's stretch: the server owes it exactly that, unless
      the plan overflows, and then it may be one that no server can answer. */
  ghost predicate StandsFor(content: seq<byte>, r: Range, span: Span) {
    && span.lo <= span.hi <= |content|
    && IsInt64(r.start) && IsInt64(r.end)
    && (Answerable(r, |content|) ==> Owed(content, r) == Piece(content, span))
  }

  lemma FlatRequest(content: seq<byte>, chunk: nat, i: nat)
    requires |content| <= MAX_INT64 && ValidPlan(Flat(chunk))
    ensures var rs, spans := BufferRanges(|content|, chunk), Spans(Flat(chunk), |content|);
            && |rs| == |spans|
            && (i < |rs| ==> Answerable(rs[i], |content|) && StandsFor(content, rs[i], spans[i]))
  {
    SpansFit(Flat(chunk), |content|);
    if |content| > 0 {
      FlatPlanPartition(|content|, chunk);
    }
  }

  lemma SlicedRequest(content: seq<byte>, chunk: nat, slice: nat, i: nat)
    requires 0 < chunk < |content| <= MAX_INT64 && ValidPlan(Sliced(chunk, slice))
    ensures var rs, spans := SlicedRequests(|content|, chunk, slice), Spans(Sliced(chunk, slice), |content|);
            && |rs| == |spans|
            && (i < |rs| ==>
                && StandsFor(content, rs[i], spans[i])
                && (Answerable(rs[i], |content|) || rs[i].end < 0)
                && (!Overflows(Sliced(chunk, slice), |content|) ==> Answerable(rs[i], |content|)))
  {
    var size, t := |content|, SliceCount(|content|, slice);
    SameCount(size, chunk, slice, t);
    SpansFit(Sliced(chunk, slice), size);
    SlicePlanPartition(size, chunk, slice);
    if i < |SlicedRequests(size, chunk, slice)| {
      var k, c := LocateWrapped(size, chunk, slice, t, i);
      WrappedRangeIff(size, chunk, slice, k, c);
      LastChunkIsWorst(size, chunk, slice, k, c);
      SlicedBounds(size, chunk, slice, k, c);
    }
  }

  lemma {:induction false} SlicedBounds(size: nat, chunk: nat, slice: nat, k: nat, i: nat)
    requires 0 < chunk < size <= MAX_INT64 && ValidPlan(Sliced(chunk, slice))
    requires k < SliceCount(size, slice) && i < Pieces(SliceLength(size, slice, k), chunk)
    ensures var w := WrappedSlicedRange(chunk, slice, k, i);
            0 <= w.start < size && IsInt64(w.start) && IsInt64(w.end)
  {
    WrappedParts(size, chunk, slice, k, i);
    ChunkStartBounds(size, chunk, slice, k, i);
  }

  /** Every computed request stands for its stretch; all can be answered unless the plan overflows,
      and then the last cannot. */
  lemma RequestFacts(p: Plan, content: seq<byte>, i: nat)
    requires ValidPlan(p) && |content| <= MAX_INT64
    ensures var rs, spans := Requests(p, |content|), Spans(p, |content|);
            && |rs| == |spans| >= 1
            && (i < |rs| ==>
                && StandsFor(content, rs[i], spans[i])
                && (!Overflows(p, |content|) ==> Answerable(rs[i], |content|)))
            && (Overflows(p, |content|) ==> !Answerable(rs[|rs| - 1], |content|))
  {
    var size := |content|;
    if p.Flat? {
      FlatRequest(content, p.chunk, i);
    } else if size > p.chunk {
      SlicedRequest(content, p.chunk, p.slice, i);
      HashingPlanOverflow(size, p.chunk, p.slice);
    } else {
      SpansFit(p, size);
      if size > 0 {
        assert HashingRanges(size, p.chunk, p.slice) == [Range(0, p.chunk - 1)];
      }
    }
  }

  // ---- pools ----

  /** The two strategies with their options. */
  datatype Strategy = Buffered(option: nat) | Hashed(option: nat, slice: nat)

  predicate ValidStrategy(st: Strategy) {
    st.option <= MAX_INT64 && (st.Hashed? ==> 0 < st.slice <= MAX_INT64)
  }

  function BufferSize(st: Strategy): nat
    requires ValidStrategy(st)
  {
    match st
    case Buffered(option) => BufferChunkSize(option)
    case Hashed(option, slice) => HashingChunkSize(option, slice)
  }

  /** How a strategy cuts up a file of this size. In a ConsistentHashingMode pool a file is sliced
      or, after a fallback, flat; a flat one has to fit the shared buffers
      (FallbackJobValidIff). */
  predicate Chooses(st: Strategy, p: Plan, size: nat)
    requires ValidStrategy(st)
  {
    match st
    case Buffered(option) => p == Flat(BufferChunkSize(option))
    case Hashed(option, slice) =>
      || p == Sliced(HashingChunkSize(option, slice), slice)
      || (p == Flat(BufferChunkSize(option)) && (BufferChunkSize(option) <= slice || size <= slice))
  }

  lemma ChosenValid(st: Strategy, p: Plan, size: nat)
    requires ValidStrategy(st) && Chooses(st, p, size)
    ensures ValidPlan(p)
  {
  }

  /** A planned file is a job for workers with buffers of the chunk size. */
  lemma PlannedJobValid(j: Job, p: Plan, bufSize: nat)
    requires ValidPlan(p) && j.plan == Spans(p, |j.content|) && WellCut(j) && p.chunk <= bufSize
    ensures ValidJob(j, bufSize)
  {
    SpansFit(p, |j.content|);
  }

  /** A file planned by the fallback strategy is a job the shared workers can run exactly when
      the chunk size option does not exceed the slice size or the file does not. */
  lemma FallbackJobValidIff(j: Job, option: nat, slice: nat)
    requires 0 < slice && option <= MAX_INT64 && WellCut(j)
    requires j.plan == Spans(Flat(BufferChunkSize(option)), |j.content|)
    ensures ValidJob(j, HashingChunkSize(option, slice))
            <==> BufferChunkSize(option) <= slice || |j.content| <= slice
  {
    var size, chunk, buf := |j.content|, BufferChunkSize(option), HashingChunkSize(option, slice);
    SpansFit(Flat(chunk), size);
    if size > 0 {
      FallbackFitsIff(size, option, slice);
      FlatPlanPartition(size, chunk);
      var rs := BufferRanges(size, chunk);
      assert forall i :: 0 <= i < |rs| ==> j.plan[i] == Served(rs[i], size);
      if !(chunk <= slice || size <= slice) {
        assert j.plan[0] == Served(rs[0], size);
      }
    }
  }

  /** A strategy's workers and the files they download, each cut up as the plans say. */
  ghost predicate Pool(cfg: Config, st: Strategy, plans: seq<Plan>): (valid: bool)
    ensures valid ==> ValidConfig(cfg) && |plans| == |cfg.jobs|
    ensures valid ==> forall f :: 0 <= f < |plans| ==> ValidPlan(plans[f])
  {
    && ValidStrategy(st) && cfg.workers >= 1 && cfg.bufSize == BufferSize(st) && |plans| == |cfg.jobs|
    && (forall f :: 0 <= f < |cfg.jobs| ==> InPool(cfg.jobs[f], st, plans[f]))
    && (PoolValid(cfg, st, plans); true)
  }

  ghost predicate InPool(j: Job, st: Strategy, p: Plan)
    requires ValidStrategy(st)
  {
    && |j.content| <= MAX_INT64 && Chooses(st, p, |j.content|) && WellCut(j)
    && (ChosenValid(st, p, |j.content|); j.plan == Spans(p, |j.content|))
  }

  lemma InPoolValid(j: Job, st: Strategy, p: Plan)
    requires ValidStrategy(st) && InPool(j, st, p)
    ensures ValidJob(j, BufferSize(st)) && ValidPlan(p)
  {
    ChosenValid(st, p, |j.content|);
    if st.Hashed? && p.Flat? {
      FallbackJobValidIff(j, st.option, st.slice);
    } else {
      PlannedJobValid(j, p, BufferSize(st));
    }
  }

  lemma PoolValid(cfg: Config, st: Strategy, plans: seq<Plan>)
    requires ValidStrategy(st) && cfg.workers >= 1 && cfg.bufSize == BufferSize(st) && |plans| == |cfg.jobs|
    requires forall f :: 0 <= f < |cfg.jobs| ==> InPool(cfg.jobs[f], st, plans[f])
    ensures ValidConfig(cfg)
    ensures forall f :: 0 <= f < |plans| ==> ValidPlan(plans[f])
  {
    forall f | 0 <= f < |cfg.jobs|
      ensures ValidJob(cfg.jobs[f], cfg.bufSize) && ValidPlan(plans[f])
    {
      InPoolValid(cfg.jobs[f], st, plans[f]);
    }
  }

  // ---- attempts as outcomes ----

  /** The length a worker reads into its buffer. */
  function NamedBy(content: seq<byte>, r: Range, s: Supply): nat {
    if Answerable(r, |content|) then NamedSize(|Owed(content, r)|, Deciding(s)) else 0
  }

  /** The outcomes of a file are what its attempts make of its requests: the first request decides
      whether Fetch succeeds, and every chunk ends as its fetch does. (The first chunk of a sliced
      plan is never the origin's, since its hosts failing over makes the plan flat; nothing
      below needs that.) */
  ghost predicate Supplied(j: Job, rs: seq<Range>, supplies: seq<Supply>) {
    && |supplies| == |rs| == |j.plan| == |j.fates| == |j.sizes| >= 1
    && (j.probeOk <==> SourceOf(supplies[0]) != Nowhere && Responds(Deciding(supplies[0])))
    && forall i :: 0 <= i < |supplies| ==> SuppliedChunk(j, rs, supplies, i)
  }

  ghost predicate SuppliedChunk(j: Job, rs: seq<Range>, supplies: seq<Supply>, i: nat)
    requires i < |supplies| == |rs| == |j.plan| == |j.fates| == |j.sizes|
  {
    && ValidSupply(supplies[i])
    && StandsFor(j.content, rs[i], j.plan[i])
    && j.fates[i] == SuppliedRange(j.content, rs[i], supplies[i]).err
    && j.sizes[i] == NamedBy(j.content, rs[i], supplies[i])
  }

  /** What the work items of a file deliver. */
  ghost function Fetches(content: seq<byte>, rs: seq<Range>, supplies: seq<Supply>): (ds: seq<Outcome>)
    ensures |ds| == Min(|supplies|, |rs|)
  {
    var n := Min(|supplies|, |rs|);
    seq(n, i requires 0 <= i < n => SuppliedRange(content, rs[i], supplies[i]))
  }

  /** The request can be answered, its first response names all of the chunk, and the answers to
      its attempts add up to it. */
  ghost predicate ChunkComplete(content: seq<byte>, r: Range, s: Supply) {
    Answerable(r, |content|) && SourceOf(s) != Nowhere && Arrives(|Owed(content, r)|, Deciding(s))
  }

  ghost predicate AllComplete(content: seq<byte>, rs: seq<Range>, supplies: seq<Supply>) {
    |supplies| == |rs| && forall i :: 0 <= i < |supplies| ==> ChunkComplete(content, rs[i], supplies[i])
  }

  lemma RangeFacts(content: seq<byte>, r: Range, s: Supply)
    requires ValidSupply(s)
    ensures var d, named := SuppliedRange(content, r, s), NamedBy(content, r, s);
            && |d.bytes| <= named
            && (Answerable(r, |content|) ==> d.bytes <= Owed(content, r) && named <= |Owed(content, r)|)
            && (d.err == NoError ==> Answerable(r, |content|) && |d.bytes| == named)
            && (ChunkComplete(content, r, s) <==>
                  Answerable(r, |content|) && d.err == NoError && named == |Owed(content, r)|)
            && (Answerable(r, |content|) && Owed(content, r) == [] && SourceOf(s) != Nowhere ==>
                  (Responds(Deciding(s)) ==> d.err == NoError))
  {
    assert ValidScript(Deciding(s));
    if Answerable(r, |content|) {
      FetchedFair(Owed(content, r), Deciding(s));
      FetchedIff(Owed(content, r), Deciding(s));
    }
  }

  /** A work item is steps of the protocol: whatever a fetch makes of its attempts, a worker that
      starts on the chunk can receive those bytes and then deliver them with that error, and
      the promise then carries exactly that. */
  lemma WorkItemIsSteps(cfg: Config, s: State, w: nat, rs: seq<Range>, supplies: seq<Supply>)
    requires ValidConfig(cfg) && Shape(cfg, s) && w < |s.workers|
    requires s.workers[w].Filling? && s.workers[w].got == 0
    requires Supplied(cfg.jobs[s.workers[w].f], rs, supplies)
    ensures var f, i := s.workers[w].f, s.workers[w].i;
            var d := SuppliedRange(cfg.jobs[f].content, rs[i], supplies[i]);
            && (|d.bytes| > 0 ==> Enabled(cfg, s, Receive(w, |d.bytes|)))
            && var s1 := AfterBytes(cfg, s, w, |d.bytes|);
               && Enabled(cfg, s1, Deliver(w))
               && var s2 := Apply(cfg, s1, Deliver(w));
                  && s2.workers[w] == Blocked(f, i)
                  && s2.files[f].promises[i] == Delivered(w, |d.bytes|, d.err)
                  && s2.buffers[w][..|d.bytes|] == d.bytes
  {
    var j, i := cfg.jobs[s.workers[w].f], s.workers[w].i;
    assert SuppliedChunk(j, rs, supplies, i);
    var d := SuppliedRange(j.content, rs[i], supplies[i]);
    RangeFacts(j.content, rs[i], supplies[i]);
    BytesArrive(cfg, s, w, |d.bytes|);
    FetchedBytes(j, rs, supplies, i);
    DeliverArrived(cfg, AfterBytes(cfg, s, w, |d.bytes|), w);
  }

  /** What a work item delivers is the beginning of its chunk, of the named length if it is
      delivered without an error. */
  lemma FetchedBytes(j: Job, rs: seq<Range>, supplies: seq<Supply>, i: nat)
    requires WellCut(j) && i < |supplies| == |rs| == |j.plan| && SuppliedChunk(j, rs, supplies, i)
    ensures var d := SuppliedRange(j.content, rs[i], supplies[i]);
            && |d.bytes| <= j.sizes[i] && d.bytes == FirstBytes(j, i, |d.bytes|)
            && (d.err == NoError ==> |d.bytes| == j.sizes[i])
  {
    RangeFacts(j.content, rs[i], supplies[i]);
    var d := SuppliedRange(j.content, rs[i], supplies[i]);
    if Answerable(rs[i], |j.content|) {
      assert Owed(j.content, rs[i]) == ChunkBytes(j, i);
      assert d.bytes == ChunkBytes(j, i)[..|d.bytes|];
    } else {
      assert d.bytes == [] == FirstBytes(j, i, 0);
    }
  }

  /** The state after n more bytes arrived at a worker. */
  ghost function AfterBytes(cfg: Config, s: State, w: nat, n: nat): (s': State)
    requires ValidConfig(cfg) && Shape(cfg, s) && (n > 0 ==> Enabled(cfg, s, Receive(w, n)))
    ensures Shape(cfg, s')
  {
    if n == 0 then s else Apply(cfg, s, Receive(w, n))
  }

  lemma BytesArrive(cfg: Config, s: State, w: nat, n: nat)
    requires ValidConfig(cfg) && Shape(cfg, s) && w < |s.workers|
    requires s.workers[w].Filling? && s.workers[w].got == 0
    requires n <= cfg.jobs[s.workers[w].f].sizes[s.workers[w].i]
    ensures n > 0 ==> Enabled(cfg, s, Receive(w, n))
    ensures var s', x := AfterBytes(cfg, s, w, n), s.workers[w];
            && s'.files == s.files && |s'.workers| == |s.workers|
            && s'.workers[w] == Filling(x.f, x.i, n)
            && s'.buffers[w][..n] == FirstBytes(cfg.jobs[x.f], x.i, n)
  {
    if n > 0 {
      var x := s.workers[w];
      MoreBytes(cfg, cfg.jobs[x.f], x.i, s.buffers[w], 0, n);
    }
  }

  lemma DeliverArrived(cfg: Config, s: State, w: nat)
    requires ValidConfig(cfg) && Shape(cfg, s) && w < |s.workers| && s.workers[w].Filling?
    requires var x := s.workers[w];
             cfg.jobs[x.f].fates[x.i] == NoError ==> x.got == cfg.jobs[x.f].sizes[x.i]
    ensures Enabled(cfg, s, Deliver(w))
    ensures var s', x := Apply(cfg, s, Deliver(w)), s.workers[w];
            && s'.workers[w] == Blocked(x.f, x.i) && s'.buffers == s.buffers
            && s'.files[x.f].promises[x.i] == Delivered(w, x.got, cfg.jobs[x.f].fates[x.i])
  {
  }

  // ---- the protocol and the copy ----

  /** What the chunks of a job were delivered with: its errors, and the named length of the chunk
      where there is none. */
  ghost predicate Matches(j: Job, ds: seq<Outcome>)
    requires WellCut(j)
  {
    && |ds| == |j.plan|
    && forall i :: 0 <= i < |ds| ==>
         ds[i].err == j.fates[i] && (ds[i].err == NoError ==> ds[i].bytes == Part(j, i))
  }

  lemma {:induction false} CopiedIsAssembled(cfg: Config, j: Job, ds: seq<Outcome>, k: nat)
    requires ValidJob(j, cfg.bufSize) && Matches(j, ds) && k <= |ds|
    requires forall i :: 0 <= i < k ==> !Breaks(j.fates[i])
    ensures Copied(ds[..k]) == (Assembled(j, k), NoError)
  {
    if k > 0 {
      CopiedIsAssembled(cfg, j, ds, k - 1);
      CopiedAppend(ds[..k - 1], ds[k - 1]);
      CopiedOne(ds[k - 1]);
      assert ds[..k - 1] + [ds[k - 1]] == ds[..k];
    }
  }

  lemma {:induction false} CopiedUpTo(cfg: Config, j: Job, ds: seq<Outcome>, m: nat)
    requires ValidJob(j, cfg.bufSize) && Matches(j, ds) && m < |ds|
    requires (forall i :: 0 <= i < m ==> !Breaks(j.fates[i])) && Breaks(j.fates[m])
    ensures Copied(ds) == (Assembled(j, m), j.fates[m])
  {
    CopiedIsAssembled(cfg, j, ds, m);
    CopiedAppend(ds[..m], ds[m]);
    CopiedOne(ds[m]);
    assert Assembled(j, m) + [] == Assembled(j, m);
    assert ds[..m] + [ds[m]] == ds[..m + 1];
    CopiedStops(ds[..m + 1], ds[m + 1..]);
    assert ds[..m + 1] + ds[m + 1..] == ds;
  }

  /** However the workers interleave, the consumer of a file ends up with exactly what io.Copy
      makes of the file's deliveries taken in order: same bytes, and an error if it had one. */
  lemma {:induction false} InterleavingsAgree(cfg: Config, steps: seq<Step>, f: nat, ds: seq<Outcome>)
    requires ValidConfig(cfg) && Run(cfg, steps) && f < |cfg.jobs| && Matches(cfg.jobs[f], ds)
    requires Finished(cfg, After(cfg, steps), f) && !After(cfg, steps).files[f].phase.Refused?
    ensures var x := After(cfg, steps).files[f];
            x.out == Copied(ds).0 && (x.phase.Stopped? <==> Copied(ds).1 != NoError)
  {
    RunInv(cfg, steps);
    var s := After(cfg, steps);
    var x, j := s.files[f], cfg.jobs[f];
    assert PhaseInv(cfg, s, f) && ReadInv(cfg, j, x);
    assert x.out == Assembled(j, x.cur);
    if x.phase.Stopped? {
      CopiedUpTo(cfg, j, ds, x.cur);
    } else {
      CopiedIsAssembled(cfg, j, ds, |ds|);
      assert ds[..|ds|] == ds;
    }
  }

  /** When the consumer of a file returns, for any pattern of errors and short answers and any
      interleaving, NullWriter accepts exactly when the stream was the file, and FileWriter
      exactly when it was and no error ended it. What FileWriter then leaves on disk is the file
      exactly when it truncated, or there was nothing longer to begin with. */
  lemma {:induction false} AcceptanceIsExact(cfg: Config, steps: seq<Step>, f: nat, ds: seq<Outcome>,
                                             overwrite: bool, before: seq<byte>)
    requires ValidConfig(cfg) && Run(cfg, steps) && f < |cfg.jobs| && Matches(cfg.jobs[f], ds)
    requires Finished(cfg, After(cfg, steps), f) && !After(cfg, steps).files[f].phase.Refused?
    ensures var x, content := After(cfg, steps).files[f], cfg.jobs[f].content;
            var disk := Overlay(if overwrite then [] else before, Copied(ds).0);
            && (NullAccepts(ds, |content|) <==> x.out == content)
            && (FileAccepts(ds, |content|) <==> x.out == content && !x.phase.Stopped?)
            && (FileAccepts(ds, |content|) ==> (disk == content <==> overwrite || |before| <= |content|))
  {
    InterleavingsAgree(cfg, steps, f, ds);
    CountDecides(cfg, steps, f);
    LeftoverIff(if overwrite then [] else before, After(cfg, steps).files[f].out);
  }

  // ---- from attempts to acceptance ----

  lemma FetchesMatch(j: Job, rs: seq<Range>, supplies: seq<Supply>)
    requires WellCut(j) && Supplied(j, rs, supplies)
    ensures Matches(j, Fetches(j.content, rs, supplies))
  {
    var ds := Fetches(j.content, rs, supplies);
    forall i | 0 <= i < |supplies|
      ensures ds[i].err == j.fates[i]
      ensures ds[i].err == NoError ==> ds[i].bytes == Part(j, i)
    {
      assert SuppliedChunk(j, rs, supplies, i);
      FetchedBytes(j, rs, supplies, i);
    }
  }

  lemma ChunkFullIff(j: Job, rs: seq<Range>, supplies: seq<Supply>, i: nat)
    requires WellCut(j) && Supplied(j, rs, supplies) && i < |supplies|
    ensures Full(j, i) <==> ChunkComplete(j.content, rs[i], supplies[i])
  {
    assert SuppliedChunk(j, rs, supplies, i);
    RangeFacts(j.content, rs[i], supplies[i]);
  }

  lemma FullIffComplete(j: Job, rs: seq<Range>, supplies: seq<Supply>)
    requires WellCut(j) && Supplied(j, rs, supplies)
    ensures AllFull(j, |j.fates|) <==> AllComplete(j.content, rs, supplies)
  {
    if AllFull(j, |j.fates|) {
      forall i | 0 <= i < |supplies|
        ensures ChunkComplete(j.content, rs[i], supplies[i])
      {
        assert Full(j, i);
        ChunkFullIff(j, rs, supplies, i);
      }
    } else {
      var i :| 0 <= i < |j.fates| && !Full(j, i);
      ChunkFullIff(j, rs, supplies, i);
    }
  }

  lemma CompletesResponds(need: nat, script: seq<Attempt>)
    requires Completes(need, script)
    ensures Responds(script)
  {
    var n :| 0 <= n < |script| && Reaches(need, script, n) && script[n].Answered?;
    assert n > 0 ==> Resumable(script[0]);
  }

  /** A file all of whose chunks arrive has its first request answered. */
  lemma CompleteProbe(j: Job, rs: seq<Range>, supplies: seq<Supply>)
    requires Supplied(j, rs, supplies) && AllComplete(j.content, rs, supplies)
    ensures j.probeOk
  {
    assert ChunkComplete(j.content, rs[0], supplies[0]);
    CompletesResponds(|Owed(j.content, rs[0])|, Deciding(supplies[0]));
  }

  /** An empty file whose first request is answered is complete. */
  lemma EmptyComplete(j: Job, p: Plan, rs: seq<Range>, supplies: seq<Supply>)
    requires WellCut(j) && Supplied(j, rs, supplies) && j.content == [] && j.probeOk
    requires ValidPlan(p) && rs == Requests(p, 0)
    ensures AllFull(j, |j.fates|)
  {
    RequestFacts(p, j.content, 0);
    assert SuppliedChunk(j, rs, supplies, 0);
    RangeFacts(j.content, rs[0], supplies[0]);
    assert |rs| == 1;
  }

  /** For any requests that stand for the chunks of a file: what its consumer got and whether it is
      accepted are decided by whether the chunks arrive. */
  lemma {:induction false} SuppliedIsExact(cfg: Config, steps: seq<Step>, f: nat, rs: seq<Range>, supplies: seq<Supply>)
    requires ValidConfig(cfg) && f < |cfg.jobs| && Run(cfg, steps) && Supplied(cfg.jobs[f], rs, supplies)
    requires var j := cfg.jobs[f]; j.content == [] && j.probeOk ==> AllFull(j, |j.fates|)
    requires Finished(cfg, After(cfg, steps), f) && !After(cfg, steps).files[f].phase.Refused?
    ensures var x, j := After(cfg, steps).files[f], cfg.jobs[f];
            var ds, complete := Fetches(j.content, rs, supplies), AllComplete(j.content, rs, supplies);
            && (NullAccepts(ds, |j.content|) <==> complete)
            && (FileAccepts(ds, |j.content|) <==> complete)
            && (x.out == j.content <==> complete)
  {
    var j := cfg.jobs[f];
    FetchesMatch(j, rs, supplies);
    FullIffComplete(j, rs, supplies);
    AcceptanceIsExact(cfg, steps, f, Fetches(j.content, rs, supplies), true, []);
    CountDecides(cfg, steps, f);
    NoErrorsUnbroken(cfg, steps, f);
  }

  lemma {:induction false} NoErrorsUnbroken(cfg: Config, steps: seq<Step>, f: nat)
    requires ValidConfig(cfg) && f < |cfg.jobs| && Run(cfg, steps)
    requires Finished(cfg, After(cfg, steps), f) && !After(cfg, steps).files[f].phase.Refused?
    ensures cfg.jobs[f].probeOk
    ensures AllFull(cfg.jobs[f], |cfg.jobs[f].fates|) ==> !After(cfg, steps).files[f].phase.Stopped?
  {
    RunInv(cfg, steps);
    var x, j := After(cfg, steps).files[f], cfg.jobs[f];
    assert PhaseInv(cfg, After(cfg, steps), f);
    if x.phase.Stopped? {
      assert !Full(j, x.cur);
    }
  }

  /** End to end, exactly: in a pool of either strategy, for any attempts at any request and any
      interleaving, when the consumer of a file returns, either consumer accepts if and only if
      every request could be answered, was answered in full and its answers add up to its chunk,
      and that is if and only if the stream was the file. */
  lemma {:induction false} DownloadIsExact(cfg: Config, st: Strategy, plans: seq<Plan>, steps: seq<Step>, f: nat,
                                           rs: seq<Range>, supplies: seq<Supply>)
    requires Pool(cfg, st, plans) && f < |cfg.jobs| && Run(cfg, steps)
    requires rs == Requests(plans[f], |cfg.jobs[f].content|) && Supplied(cfg.jobs[f], rs, supplies)
    requires Finished(cfg, After(cfg, steps), f) && !After(cfg, steps).files[f].phase.Refused?
    ensures var x, j := After(cfg, steps).files[f], cfg.jobs[f];
            var ds, complete := Fetches(j.content, rs, supplies), AllComplete(j.content, rs, supplies);
            && (NullAccepts(ds, |j.content|) <==> complete)
            && (FileAccepts(ds, |j.content|) <==> complete)
            && (x.out == j.content <==> complete)
  {
    if cfg.jobs[f].content == [] && cfg.jobs[f].probeOk {
      EmptyComplete(cfg.jobs[f], plans[f], rs, supplies);
    }
    SuppliedIsExact(cfg, steps, f, rs, supplies);
  }

  /** A file that ConsistentHashingMode cannot cut up in int64 is never accepted: whatever the
      attempts bring and however the run goes, its last request asks for nothing there is. */
  lemma {:induction false} OverflowNeverAccepted(cfg: Config, st: Strategy, plans: seq<Plan>, steps: seq<Step>,
                                                 f: nat, rs: seq<Range>, supplies: seq<Supply>)
    requires Pool(cfg, st, plans) && f < |cfg.jobs| && Run(cfg, steps)
    requires rs == Requests(plans[f], |cfg.jobs[f].content|) && Supplied(cfg.jobs[f], rs, supplies)
    requires Overflows(plans[f], |cfg.jobs[f].content|)
    requires Finished(cfg, After(cfg, steps), f) && !After(cfg, steps).files[f].phase.Refused?
    ensures var j, ds := cfg.jobs[f], Fetches(cfg.jobs[f].content, rs, supplies);
            && !NullAccepts(ds, |j.content|) && !FileAccepts(ds, |j.content|)
            && After(cfg, steps).files[f].out != j.content
  {
    assert InPool(cfg.jobs[f], st, plans[f]);
    OverflowIncomplete(cfg.jobs[f].content, plans[f], rs, supplies);
    DownloadIsExact(cfg, st, plans, steps, f, rs, supplies);
  }

  lemma OverflowIncomplete(content: seq<byte>, p: Plan, rs: seq<Range>, supplies: seq<Supply>)
    requires ValidPlan(p) && |content| <= MAX_INT64 && Overflows(p, |content|)
    requires rs == Requests(p, |content|)
    ensures !AllComplete(content, rs, supplies)
  {
    RequestFacts(p, content, 0);
    var last := |rs| - 1;
    assert |supplies| == |rs| ==> !ChunkComplete(content, rs[last], supplies[last]);
  }

  /** A file all of whose chunks arrive is downloaded and accepted by every maximal run that its
      blockers leave a worker to. */
  lemma {:induction false} DownloadCompletes(cfg: Config, st: Strategy, plans: seq<Plan>, steps: seq<Step>, f: nat,
                                             rs: seq<Range>, supplies: seq<Supply>)
    requires Pool(cfg, st, plans) && f < |cfg.jobs| && |Blockers(cfg, f)| < cfg.workers
    requires rs == Requests(plans[f], |cfg.jobs[f].content|) && Supplied(cfg.jobs[f], rs, supplies)
    requires AllComplete(cfg.jobs[f].content, rs, supplies)
    requires Run(cfg, steps) && Terminal(cfg, After(cfg, steps))
    ensures Finished(cfg, After(cfg, steps), f)
    ensures After(cfg, steps).files[f].out == cfg.jobs[f].content
    ensures FileAccepts(Fetches(cfg.jobs[f].content, rs, supplies), |cfg.jobs[f].content|)
  {
    FewBlockersFinish(cfg, steps, f);
    CompleteUnbroken(cfg.jobs[f], rs, supplies);
    UnbrokenEnd(cfg, steps, f);
    DownloadIsExact(cfg, st, plans, steps, f, rs, supplies);
  }

  lemma CompleteUnbroken(j: Job, rs: seq<Range>, supplies: seq<Supply>)
    requires WellCut(j) && Supplied(j, rs, supplies) && AllComplete(j.content, rs, supplies)
    ensures j.probeOk && NoErrors(j)
  {
    FullIffComplete(j, rs, supplies);
    CompleteProbe(j, rs, supplies);
    forall i | 0 <= i < |j.fates|
      ensures j.fates[i] == NoError
    {
      assert Full(j, i);
    }
  }

  /** Answers in full that are cut short at worst, and as many of them as the chunk has bytes. */
  ghost predicate OnlyInterrupted(content: seq<byte>, r: Range, s: Supply) {
    && SourceOf(s) != Nowhere
    && var script := Deciding(s);
       && OnlyCutShort(script) && script != []
       && (Answerable(r, |content|) ==> |Owed(content, r)| <= |script| && |Owed(content, r)| <= script[0].named)
  }

  /** Interruptions alone never lose a download: if no plan in a pool overflows, every answer is at
      worst cut short after a byte or more, first answers name the whole chunk and there is an
      answer for every byte, then every maximal run, even of a single worker, downloads every
      file and has it accepted. */
  lemma {:induction false} InterruptionsAreHarmless(cfg: Config, st: Strategy, plans: seq<Plan>, steps: seq<Step>,
                                                    supplies: seq<seq<Supply>>, f: nat, rs: seq<Range>)
    requires Pool(cfg, st, plans) && f < |cfg.jobs| && |supplies| == |cfg.jobs|
    requires rs == Requests(plans[f], |cfg.jobs[f].content|)
    requires forall g :: 0 <= g < |cfg.jobs| ==> Interrupted(cfg.jobs[g], plans[g], supplies[g])
    requires Run(cfg, steps) && Terminal(cfg, After(cfg, steps))
    ensures After(cfg, steps).files[f].out == cfg.jobs[f].content
    ensures FileAccepts(Fetches(cfg.jobs[f].content, rs, supplies[f]), |cfg.jobs[f].content|)
  {
    forall g | 0 <= g < |cfg.jobs|
      ensures cfg.jobs[g].probeOk && NoErrors(cfg.jobs[g])
    {
      InterruptedComplete(cfg.jobs[g], plans[g], supplies[g]);
    }
    NothingBlocks(cfg, f);
    InterruptedComplete(cfg.jobs[f], plans[f], supplies[f]);
    DownloadCompletes(cfg, st, plans, steps, f, rs, supplies[f]);
  }

  /** A file whose plan fits int64 and whose attempts are only ever interrupted. */
  ghost predicate Interrupted(j: Job, p: Plan, supplies: seq<Supply>) {
    && ValidPlan(p) && |j.content| <= MAX_INT64 && !Overflows(p, |j.content|)
    && Supplied(j, Requests(p, |j.content|), supplies)
    && WellCut(j)
    && forall i :: 0 <= i < |supplies| ==> OnlyInterrupted(j.content, Requests(p, |j.content|)[i], supplies[i])
  }

  lemma InterruptedComplete(j: Job, p: Plan, supplies: seq<Supply>)
    requires Interrupted(j, p, supplies)
    ensures AllComplete(j.content, Requests(p, |j.content|), supplies)
    ensures j.probeOk && NoErrors(j)
  {
    var rs := Requests(p, |j.content|);
    forall i | 0 <= i < |supplies|
      ensures ChunkComplete(j.content, rs[i], supplies[i])
    {
      RequestFacts(p, j.content, i);
      assert SuppliedChunk(j, rs, supplies, i) && OnlyInterrupted(j.content, rs[i], supplies[i]);
      EnoughAnswers(|Owed(j.content, rs[i])|, Deciding(supplies[i]));
    }
    CompleteUnbroken(j, rs, supplies);
  }

  /** Strategy equivalence over whole runs: a file that BufferMode's pool and a file that
      ConsistentHashingMode's pool downloaded, each accepted on its count, are the same stream
      if the servers hold the same bytes, whatever went wrong on the way and however the runs
      went. */
  lemma {:induction false} StrategiesDeliverTheSame(a: Config, b: Config, option: nat, slice: nat,
                                                    plansA: seq<Plan>, plansB: seq<Plan>,
                                                    runA: seq<Step>, runB: seq<Step>, f: nat, g: nat,
                                                    da: seq<Outcome>, db: seq<Outcome>)
    requires Pool(a, Buffered(option), plansA) && f < |a.jobs| && Run(a, runA) && Matches(a.jobs[f], da)
    requires Pool(b, Hashed(option, slice), plansB) && g < |b.jobs| && Run(b, runB) && Matches(b.jobs[g], db)
    requires Finished(a, After(a, runA), f) && !After(a, runA).files[f].phase.Refused?
    requires Finished(b, After(b, runB), g) && !After(b, runB).files[g].phase.Refused?
    requires a.jobs[f].content == b.jobs[g].content
    requires NullAccepts(da, |a.jobs[f].content|) && NullAccepts(db, |b.jobs[g].content|)
    ensures After(a, runA).files[f].out == After(b, runB).files[g].out == a.jobs[f].content
    ensures Copied(da).0 == Copied(db).0
  {
    AcceptanceIsExact(a, runA, f, da, true, []);
    AcceptanceIsExact(b, runB, g, db, true, []);
    InterleavingsAgree(a, runA, f, da);
    InterleavingsAgree(b, runB, g, db);
  }

  // ---- where the code loses bytes ----

  /** The file that EofChunkStalls and EofChunkSkipped are about is BufferMode's with a chunk size
      of one byte, and its outcomes come from a first response whose body ends before a byte. */
  lemma EofIsDelivered(workers: nat)
    requires workers >= 1
    ensures var j := Job([0, 1], [Span(0, 1), Span(1, 2)], 0, true, [Eof, NoError], [1, 1]);
            && Pool(Config([j], workers, 1), Buffered(1), [Flat(1)])
            && Supplied(j, Requests(Flat(1), 2), [Direct([Answered(1, 0, Eof)]), Direct([Answered(1, 1, Eof)])])
  {
    var j := Job([0, 1], [Span(0, 1), Span(1, 2)], 0, true, [Eof, NoError], [1, 1]);
    TwoSpans(Flat(1), 2, 1);
    SmallPool(j, workers, 1);
    TwoRequests(j, 1);
    EofSupplies(j, Requests(Flat(1), 2));
  }

  lemma EofSupplies(j: Job, rs: seq<Range>)
    requires j == Job([0, 1], [Span(0, 1), Span(1, 2)], 0, true, [Eof, NoError], [1, 1]) && TwoFor(j, rs)
    ensures Supplied(j, rs, [Direct([Answered(1, 0, Eof)]), Direct([Answered(1, 1, Eof)])])
  {
    EmptyAnswer(Owed(j.content, rs[0]), [Answered(1, 0, Eof)]);
    TwoSupplied(j, rs, [Direct([Answered(1, 0, Eof)]), Direct([Answered(1, 1, Eof)])]);
  }

  lemma SmallPool(j: Job, workers: nat, chunk: nat)
    requires workers >= 1 && 0 < chunk <= MAX_INT64 && WellCut(j) && |j.content| <= MAX_INT64
    requires ValidPlan(Flat(chunk)) && j.plan == Spans(Flat(chunk), |j.content|)
    ensures Pool(Config([j], workers, chunk), Buffered(chunk), [Flat(chunk)])
  {
    assert InPool(j, Buffered(chunk), Flat(chunk));
  }

  /** Two requests that can be answered, for the two chunks of a job. */
  ghost predicate TwoFor(j: Job, rs: seq<Range>) {
    && |rs| == |j.plan| == 2
    && Answerable(rs[0], |j.content|) && StandsFor(j.content, rs[0], j.plan[0])
    && Answerable(rs[1], |j.content|) && StandsFor(j.content, rs[1], j.plan[1])
  }

  lemma TwoRequests(j: Job, chunk: nat)
    requires 0 < chunk < |j.content| <= 2 * chunk <= MAX_INT64
    requires j.plan == [Span(0, chunk), Span(chunk, |j.content|)]
    ensures TwoFor(j, Requests(Flat(chunk), |j.content|))
  {
    TwoSpans(Flat(chunk), |j.content|, chunk);
    RequestFacts(Flat(chunk), j.content, 0);
    RequestFacts(Flat(chunk), j.content, 1);
  }

  lemma TwoSupplied(j: Job, rs: seq<Range>, supplies: seq<Supply>)
    requires |supplies| == |rs| == |j.plan| == |j.fates| == |j.sizes| == 2
    requires SuppliedChunk(j, rs, supplies, 0) && SuppliedChunk(j, rs, supplies, 1)
    requires j.probeOk <==> SourceOf(supplies[0]) != Nowhere && Responds(Deciding(supplies[0]))
    ensures Supplied(j, rs, supplies)
  {
    forall i | 0 <= i < |supplies|
      ensures SuppliedChunk(j, rs, supplies, i)
    {
      assert i == 0 || i == 1;
    }
  }

  /** The file that ShortChunkLost is about is BufferMode's with a chunk size of two bytes, and its
      outcomes come from a first response that names one byte and sends it. */
  lemma ShortIsDelivered()
    ensures var j := Job([0, 1, 2], [Span(0, 2), Span(2, 3)], 0, true, [NoError, NoError], [1, 1]);
            && Pool(Config([j], 1, 2), Buffered(2), [Flat(2)])
            && Supplied(j, Requests(Flat(2), 3), [Direct([Answered(1, 1, Eof)]), Direct([Answered(1, 1, Eof)])])
  {
    var j := Job([0, 1, 2], [Span(0, 2), Span(2, 3)], 0, true, [NoError, NoError], [1, 1]);
    TwoSpans(Flat(2), 3, 2);
    SmallPool(j, 1, 2);
    TwoRequests(j, 2);
    ShortSupplies(j, Requests(Flat(2), 3));
  }

  lemma ShortSupplies(j: Job, rs: seq<Range>)
    requires j == Job([0, 1, 2], [Span(0, 2), Span(2, 3)], 0, true, [NoError, NoError], [1, 1]) && TwoFor(j, rs)
    ensures Supplied(j, rs, [Direct([Answered(1, 1, Eof)]), Direct([Answered(1, 1, Eof)])])
  {
    ShortAnswer(Owed(j.content, rs[0]), [Answered(1, 1, Eof)]);
    TwoSupplied(j, rs, [Direct([Answered(1, 1, Eof)]), Direct([Answered(1, 1, Eof)])]);
  }

  lemma TwoSpans(p: Plan, size: nat, chunk: nat)
    requires p == Flat(chunk) && 0 < chunk < size <= 2 * chunk <= MAX_INT64
    ensures Spans(p, size) == [Span(0, chunk), Span(chunk, size)]
  {
    FlatPlanPartition(size, chunk);
    var rs := BufferRanges(size, chunk);
    assert |rs| == 1 + Pieces(size - chunk, chunk) == 2;
    var spans := ServedAll(rs, size);
    assert spans[0] == Served(rs[0], size) == Span(0, chunk);
    assert Adjacent(spans, 1);
  }
}
