/**
 Progress of the delivery protocol: every run is finite, and a file is downloaded to its end
 by every maximal run exactly when fewer workers than the pool holds can be lost for good.
 */
module DeliveryProgress {
  import opened Ranges
  import opened Promise
  import opened Delivery
  import opened DeliverySafety

  // ---- a measure that falls at every step ----

  /** Work left in the chunks not submitted yet. */
  ghost function Credit(plan: seq<Span>, k: nat): int
    decreases |plan| - k
  {
    if k >= |plan| then 0 else (plan[k].hi - plan[k].lo) + 3 + Credit(plan, k + 1)
  }

  ghost function PhaseRank(p: Phase): nat {
    match p
    case Waiting => 3
    case Asking(_) => 2
    case Streaming => 1
    case Stopped => 0
    case Refused => 0
  }

  ghost function FileRank(j: Job, x: File): int {
    PhaseRank(x.phase) + 2 * x.fallbacks + Credit(j.plan, |x.owners|) + (|j.content| - |x.out|) + (|j.plan| - x.cur)
  }

  ghost function WorkerRank(cfg: Config, x: Worker): int
    requires WorkerShape(cfg, x)
  {
    match x
    case Idle => 0
    case Probing(_) => 0
    case Filling(f, i, got) => cfg.jobs[f].sizes[i] - got + 2
    case Blocked(_, _) => 1
  }

  ghost function FilesRank(cfg: Config, files: seq<File>, k: nat): int
    requires k <= |files| == |cfg.jobs|
  {
    if k == 0 then 0 else FilesRank(cfg, files, k - 1) + FileRank(cfg.jobs[k - 1], files[k - 1])
  }

  ghost function WorkersRank(cfg: Config, ws: seq<Worker>, k: nat): int
    requires k <= |ws| && forall w :: 0 <= w < |ws| ==> WorkerShape(cfg, ws[w])
  {
    if k == 0 then 0 else WorkersRank(cfg, ws, k - 1) + WorkerRank(cfg, ws[k - 1])
  }

  ghost function Rank(cfg: Config, s: State): int
    requires Shape(cfg, s)
  {
    FilesRank(cfg, s.files, |s.files|) + WorkersRank(cfg, s.workers, |s.workers|)
  }

  lemma {:induction false} FilesRankUpdate(cfg: Config, files: seq<File>, k: nat, f: nat, x: File)
    requires k <= |files| == |cfg.jobs| && f < |files|
    ensures FilesRank(cfg, files[f := x], k) ==
            FilesRank(cfg, files, k) + (if f < k then FileRank(cfg.jobs[f], x) - FileRank(cfg.jobs[f], files[f]) else 0)
  {
    if k > 0 {
      FilesRankUpdate(cfg, files, k - 1, f, x);
    }
  }

  lemma {:induction false} WorkersRankUpdate(cfg: Config, ws: seq<Worker>, k: nat, w: nat, x: Worker)
    requires k <= |ws| && w < |ws| && WorkerShape(cfg, x)
    requires forall v :: 0 <= v < |ws| ==> WorkerShape(cfg, ws[v])
    ensures WorkersRank(cfg, ws[w := x], k) ==
            WorkersRank(cfg, ws, k) + (if w < k then WorkerRank(cfg, x) - WorkerRank(cfg, ws[w]) else 0)
  {
    if k > 0 {
      WorkersRankUpdate(cfg, ws, k - 1, w, x);
    }
  }

  lemma {:induction false} CreditNonNegative(cfg: Config, j: Job, k: nat)
    requires ValidJob(j, cfg.bufSize)
    ensures Credit(j.plan, k) >= 0
    decreases |j.plan| - k
  {
    if k < |j.plan| {
      CreditNonNegative(cfg, j, k + 1);
    }
  }

  lemma {:induction false} FilesRankNonNegative(cfg: Config, s: State, k: nat)
    requires ValidConfig(cfg) && Inv(cfg, s) && k <= |s.files|
    ensures FilesRank(cfg, s.files, k) >= 0
  {
    if k > 0 {
      FilesRankNonNegative(cfg, s, k - 1);
      FileRankNonNegative(cfg, cfg.jobs[k - 1], s.files[k - 1]);
    }
  }

  lemma FileRankNonNegative(cfg: Config, j: Job, x: File)
    requires ValidJob(j, cfg.bufSize) && FileShape(cfg, x, j) && ReadInv(cfg, j, x)
    ensures FileRank(j, x) >= 0
  {
    FilePrefix(cfg, j, x);
    CreditNonNegative(cfg, j, |x.owners|);
  }

  lemma {:induction false} WorkersRankNonNegative(cfg: Config, ws: seq<Worker>, k: nat)
    requires k <= |ws| && forall w :: 0 <= w < |ws| ==> WorkerShape(cfg, ws[w])
    ensures WorkersRank(cfg, ws, k) >= 0
  {
    if k > 0 {
      WorkersRankNonNegative(cfg, ws, k - 1);
    }
  }

  lemma RankNonNegative(cfg: Config, s: State)
    requires ValidConfig(cfg) && Inv(cfg, s)
    ensures Rank(cfg, s) >= 0
  {
    FilesRankNonNegative(cfg, s, |s.files|);
    WorkersRankNonNegative(cfg, s.workers, |s.workers|);
  }

  /** A step changes at most one worker and at most one file, so the measure changes by what
      those two change by. */
  lemma RankChange(cfg: Config, s: State, s': State, w: nat, f: nat)
    requires Shape(cfg, s) && Shape(cfg, s') && w < |s.workers| && f < |s.files|
    requires s'.workers == s.workers[w := s'.workers[w]]
    requires s'.files == s.files[f := s'.files[f]]
    requires FileRank(cfg.jobs[f], s'.files[f]) + WorkerRank(cfg, s'.workers[w])
             < FileRank(cfg.jobs[f], s.files[f]) + WorkerRank(cfg, s.workers[w])
    ensures Rank(cfg, s') < Rank(cfg, s)
  {
    FilesRankUpdate(cfg, s.files, |s.files|, f, s'.files[f]);
    WorkersRankUpdate(cfg, s.workers, |s.workers|, w, s'.workers[w]);
  }

  lemma ReadLowersRank(cfg: Config, s: State, f: nat, room: nat)
    requires ValidConfig(cfg) && Shape(cfg, s) && Enabled(cfg, s, Read(f, room))
    ensures FileRank(cfg.jobs[f], AfterFileRead(cfg, s, f, room)) < FileRank(cfg.jobs[f], s.files[f])
  {
    var p := s.files[f].promises[s.files[f].cur];
    assert ReadError(p) == NoError ==> ReadCount(p, room) >= 1;
    assert |s.buffers[p.buf][p.pos..p.pos + ReadCount(p, room)]| == ReadCount(p, room);
  }

  lemma TakingWorkLowersRank(cfg: Config, s: State, f: nat, w: nat)
    requires ValidConfig(cfg) && Shape(cfg, s)
    ensures Enabled(cfg, s, Probe(f, w)) ==> Rank(cfg, DoProbe(cfg, s, f, w)) < Rank(cfg, s)
    ensures Enabled(cfg, s, Accept(f, w)) ==> Rank(cfg, DoAccept(cfg, s, f, w)) < Rank(cfg, s)
  {
    if Enabled(cfg, s, Probe(f, w)) {
      RankChange(cfg, s, DoProbe(cfg, s, f, w), w, f);
    }
    if Enabled(cfg, s, Accept(f, w)) {
      RankChange(cfg, s, DoAccept(cfg, s, f, w), w, f);
    }
  }

  lemma AnswerLowersRank(cfg: Config, s: State, w: nat)
    requires ValidConfig(cfg) && Shape(cfg, s) && Enabled(cfg, s, Answer(w))
    requires WorkerInv(cfg, s, w) && PhaseInv(cfg, s, s.workers[w].f)
    ensures Rank(cfg, DoAnswer(cfg, s, w)) < Rank(cfg, s)
  {
    RankChange(cfg, s, DoAnswer(cfg, s, w), w, s.workers[w].f);
  }

  lemma ReceiveLowersRank(cfg: Config, s: State, w: nat, k: nat)
    requires ValidConfig(cfg) && Shape(cfg, s) && Enabled(cfg, s, Receive(w, k))
    ensures Rank(cfg, DoReceive(cfg, s, w, k)) < Rank(cfg, s)
  {
    RankChange(cfg, s, DoReceive(cfg, s, w, k), w, s.workers[w].f);
  }

  lemma DeliverLowersRank(cfg: Config, s: State, w: nat)
    requires ValidConfig(cfg) && Shape(cfg, s) && Enabled(cfg, s, Deliver(w))
    ensures Rank(cfg, DoDeliver(cfg, s, w)) < Rank(cfg, s)
  {
    RankChange(cfg, s, DoDeliver(cfg, s, w), w, s.workers[w].f);
  }

  lemma ReleaseLowersRank(cfg: Config, s: State, w: nat)
    requires ValidConfig(cfg) && Shape(cfg, s) && Enabled(cfg, s, Release(w))
    ensures Rank(cfg, Apply(cfg, s, Release(w))) < Rank(cfg, s)
  {
    RankChange(cfg, s, Apply(cfg, s, Release(w)), w, s.workers[w].f);
  }

  /** The measure falls at every step. */
  lemma StepLowersRank(cfg: Config, s: State, step: Step)
    requires ValidConfig(cfg) && Inv(cfg, s) && Enabled(cfg, s, step)
    ensures Rank(cfg, Apply(cfg, s, step)) < Rank(cfg, s)
  {
    match step
    case Probe(f, w) => TakingWorkLowersRank(cfg, s, f, w);
    case Answer(w) => AnswerLowersRank(cfg, s, w);
    case Accept(f, w) => TakingWorkLowersRank(cfg, s, f, w);
    case Receive(w, k) => ReceiveLowersRank(cfg, s, w, k);
    case Deliver(w) => DeliverLowersRank(cfg, s, w);
    case Read(f, room) =>
      ReadLowersRank(cfg, s, f, room);
      RankChange(cfg, s, DoRead(cfg, s, f, room), 0, f);
    case Release(w) => ReleaseLowersRank(cfg, s, w);
  }

  /** No run is longer than the measure of the initial state. */
  lemma {:induction false} RunsAreFinite(cfg: Config, steps: seq<Step>)
    requires ValidConfig(cfg) && Run(cfg, steps)
    ensures Shape(cfg, Init(cfg))
    ensures |steps| + Rank(cfg, After(cfg, steps)) <= Rank(cfg, Init(cfg))
    ensures |steps| <= Rank(cfg, Init(cfg))
    decreases |steps|
  {
    InitShape(cfg);
    var n := |steps| - 1;
    RunInv(cfg, steps);
    RankNonNegative(cfg, After(cfg, steps));
    if n >= 0 {
      RunsAreFinite(cfg, steps[..n]);
      RunInv(cfg, steps[..n]);
      StepLowersRank(cfg, After(cfg, steps[..n]), steps[n]);
    }
  }

  // ---- chunks that keep a worker for good ----

  /** A delivered error that ends the stream: anything but EOF. */
  predicate Breaks(e: Error) {
    e != NoError && e != Eof
  }

  /** The chunk the consumer stops at: the first that breaks the stream, or the last one. */
  function LastNeeded(fates: seq<Error>, k: nat): (m: nat)
    requires k < |fates|
    ensures k <= m < |fates|
    ensures forall i :: k <= i < m ==> !Breaks(fates[i])
    ensures Breaks(fates[m]) || m == |fates| - 1
    decreases |fates| - k
  {
    if Breaks(fates[k]) || k == |fates| - 1 then k else LastNeeded(fates, k + 1)
  }

  /** A chunk that, once a worker has taken it, never lets that worker go: it is delivered with
      an error, or the consumer stopped before it. */
  ghost predicate Doomed(fates: seq<Error>, i: nat)
    requires i < |fates|
  {
    fates[i] != NoError || exists k :: 0 <= k < i && Breaks(fates[k])
  }

  /** The chunks that can take a worker away from file f before it takes chunk k: every doomed
      chunk of the other files, and its own earlier chunks delivered with EOF. */
  ghost predicate Blocks(cfg: Config, f: nat, k: nat, g: nat, i: nat)
    requires ValidConfig(cfg) && g < |cfg.jobs| && i < |cfg.jobs[g].plan|
  {
    && cfg.jobs[g].probeOk
    && if g == f then i < k && cfg.jobs[g].fates[i] == Eof else Doomed(cfg.jobs[g].fates, i)
  }

  ghost function BlockersBefore(cfg: Config, f: nat, k: nat): set<(nat, nat)>
    requires ValidConfig(cfg)
  {
    set g: nat, i: nat | g < |cfg.jobs| && i < |cfg.jobs[g].plan| && Blocks(cfg, f, k, g, i) :: (g, i)
  }

  /** The chunks that can take a worker away from file f before its consumer returns. It is
      determined by the outcomes alone, before anything runs. */
  ghost function Blockers(cfg: Config, f: nat): set<(nat, nat)>
    requires ValidConfig(cfg) && f < |cfg.jobs|
  {
    BlockersBefore(cfg, f, LastNeeded(cfg.jobs[f].fates, 0))
  }

  ghost predicate Holds(x: Worker, g: nat, i: nat) {
    (x.Filling? || x.Blocked?) && x.f == g && x.i == i
  }

  ghost predicate Claimed(s: State, c: (nat, nat)) {
    c.0 < |s.files| && c.1 < |s.files[c.0].owners|
  }

  /** A submitted blocker occupies its worker in every reachable state. */
  lemma BlockerHolds(cfg: Config, s: State, f: nat, k: nat, g: nat, i: nat)
    requires ValidConfig(cfg) && Inv(cfg, s)
    requires g < |cfg.jobs| && i < |cfg.jobs[g].plan| && Blocks(cfg, f, k, g, i) && Claimed(s, (g, i))
    ensures var w := s.files[g].owners[i]; w < |s.workers| && Holds(s.workers[w], g, i)
  {
    assert ChunkInv(cfg, s, g, i);
    assert ReadInv(cfg, cfg.jobs[g], s.files[g]);
  }

  // ---- counting ----

  lemma {:induction false} InjectiveValues<K, V>(m: map<K, V>)
    requires forall a, b :: a in m && b in m && m[a] == m[b] ==> a == b
    ensures |m.Values| == |m|
    decreases |m|
  {
    if |m| > 0 {
      var k :| k in m;
      var rest := m - {k};
      assert forall a :: a in rest ==> a in m && rest[a] == m[a];
      InjectiveValues(rest);
      assert m.Values == rest.Values + {m[k]};
      assert m[k] !in rest.Values;
      assert m.Keys == rest.Keys + {k};
      assert |m.Keys| == |rest.Keys| + 1;
    } else {
      assert m.Keys == {};
      assert m.Values == {};
    }
  }

  lemma {:induction false} SubsetSize<T>(a: set<T>, b: set<T>)
    requires a <= b
    ensures |a| <= |b|
  {
    if a != {} {
      var x :| x in a;
      SubsetSize(a - {x}, b - {x});
    }
  }

  /** The worker numbers 0 to n - 1. */
  ghost function UpTo(n: nat): (r: set<nat>)
    ensures |r| == n
    ensures forall x :: x in r <==> 0 <= x < n
  {
    if n == 0 then {} else UpTo(n - 1) + {n - 1}
  }

  /** Submitted blockers sit on different workers, so they leave room for an idle one only if
      there are fewer of them than workers. */
  lemma BlockersFit(cfg: Config, s: State, f: nat, k: nat, idle: nat)
    requires ValidConfig(cfg) && Inv(cfg, s)
    requires forall c :: c in BlockersBefore(cfg, f, k) ==> Claimed(s, c)
    requires idle < |s.workers| && s.workers[idle].Idle?
    ensures |BlockersBefore(cfg, f, k)| < cfg.workers
  {
    var blockers := BlockersBefore(cfg, f, k);
    forall c | c in blockers
      ensures var w := s.files[c.0].owners[c.1]; w < |s.workers| && Holds(s.workers[w], c.0, c.1)
    {
      BlockerHolds(cfg, s, f, k, c.0, c.1);
    }
    var seat := map c | c in blockers :: s.files[c.0].owners[c.1];
    assert seat.Keys == blockers;
    SeatsFit(s.workers, seat, idle);
  }

  lemma SeatsFit(ws: seq<Worker>, seat: map<(nat, nat), nat>, idle: nat)
    requires forall c :: c in seat ==> seat[c] < |ws| && Holds(ws[seat[c]], c.0, c.1)
    requires idle < |ws| && ws[idle].Idle?
    ensures |seat| < |ws|
  {
    forall a, b | a in seat && b in seat && seat[a] == seat[b]
      ensures a == b
    {
      assert Holds(ws[seat[a]], a.0, a.1) && Holds(ws[seat[b]], b.0, b.1);
    }
    InjectiveValues(seat);
    var pool := UpTo(|ws|);
    assert seat.Values <= pool - {idle};
    SubsetSize(seat.Values, pool - {idle});
  }

  // ---- states in which nothing more can happen ----

  /** Nothing can happen, except that file f may make its first request. */
  ghost predicate Quiet(cfg: Config, s: State, f: nat)
    requires ValidConfig(cfg) && Shape(cfg, s)
  {
    forall step: Step :: Enabled(cfg, s, step) ==> step.Probe? && step.f == f
  }

  /** A worker that is filling its buffer can always go on. */
  lemma FillingMoves(cfg: Config, s: State, w: nat)
    requires ValidConfig(cfg) && Shape(cfg, s) && w < |s.workers| && s.workers[w].Filling?
    ensures Enabled(cfg, s, Receive(w, 1)) || Enabled(cfg, s, Deliver(w))
  {
  }

  lemma QuietWorker(cfg: Config, s: State, f: nat, w: nat)
    requires ValidConfig(cfg) && Inv(cfg, s) && Quiet(cfg, s, f) && w < |s.workers|
    ensures s.workers[w].Idle? || (s.workers[w].Blocked? && Live(s, s.workers[w].f, s.workers[w].i))
  {
    match s.workers[w]
    case Idle =>
    case Probing(_) =>
      assert Enabled(cfg, s, Answer(w));
    case Filling(g, i, got) =>
      FillingMoves(cfg, s, w);
    case Blocked(g, i) =>
      assert WorkerInv(cfg, s, w);
      assert !Enabled(cfg, s, Release(w));
  }

  /** A consumer that is not done waits for a chunk that was not submitted yet. */
  lemma QuietFile(cfg: Config, s: State, f: nat, g: nat)
    requires ValidConfig(cfg) && Inv(cfg, s) && Quiet(cfg, s, f) && g < |s.files|
    ensures !s.files[g].phase.Asking?
    ensures s.files[g].phase.Streaming? && s.files[g].cur < |cfg.jobs[g].plan| ==>
              |s.files[g].owners| <= s.files[g].cur
  {
    var x := s.files[g];
    assert PhaseInv(cfg, s, g);
    if x.phase.Asking? {
      QuietWorker(cfg, s, f, x.phase.w);
    } else if x.phase.Streaming? && x.cur < |cfg.jobs[g].plan| && x.cur < |x.owners| {
      assert ChunkInv(cfg, s, g, x.cur);
      assert !Enabled(cfg, s, Read(g, 1));
      QuietWorker(cfg, s, f, x.owners[x.cur]);
    }
  }

  /** Then every blocked worker sits on a blocker of f, provided f itself has not returned. */
  lemma QuietBlocker(cfg: Config, s: State, f: nat, w: nat)
    requires ValidConfig(cfg) && Inv(cfg, s) && Quiet(cfg, s, f) && f < |s.files|
    requires w < |s.workers| && s.workers[w].Blocked?
    requires !Finished(cfg, s, f)
    ensures (s.workers[w].f, s.workers[w].i) in Blockers(cfg, f)
  {
    var g, i := s.workers[w].f, s.workers[w].i;
    var x, fates := s.files[g], cfg.jobs[g].fates;
    QuietWorker(cfg, s, f, w);
    QuietFile(cfg, s, f, g);
    assert WorkerInv(cfg, s, w) && PhaseInv(cfg, s, g) && ReadInv(cfg, cfg.jobs[g], x);
    if x.phase.Streaming? {
      assert i < x.cur && fates[i] == Eof;
      if g == f {
        assert LastNeeded(fates, 0) >= x.cur;
      }
    } else {
      assert x.phase.Stopped? && g != f;
      if i > x.cur {
        assert Breaks(fates[x.cur]);
      }
    }
    assert Blocks(cfg, f, LastNeeded(cfg.jobs[f].fates, 0), g, i);
  }

  /** If a run ends with file f not downloaded, its blockers hold every worker. */
  lemma StuckNeedsBlockers(cfg: Config, s: State, f: nat)
    requires ValidConfig(cfg) && Inv(cfg, s) && Terminal(cfg, s) && f < |s.files|
    requires !Finished(cfg, s, f)
    ensures |Blockers(cfg, f)| >= cfg.workers
  {
    var x := s.files[f];
    QuietFile(cfg, s, f, f);
    forall w | 0 <= w < |s.workers|
      ensures s.workers[w].Blocked?
    {
      assert !Enabled(cfg, s, Probe(f, w)) && !Enabled(cfg, s, Accept(f, w));
      QuietWorker(cfg, s, f, w);
    }
    HeldCount(cfg, s, f);
  }

  lemma HeldCount(cfg: Config, s: State, f: nat)
    requires ValidConfig(cfg) && Inv(cfg, s) && Quiet(cfg, s, f) && f < |s.files|
    requires !Finished(cfg, s, f)
    requires forall w :: 0 <= w < |s.workers| ==> s.workers[w].Blocked?
    ensures |Blockers(cfg, f)| >= cfg.workers
  {
    var held := map w | w in UpTo(cfg.workers) :: (s.workers[w].f, s.workers[w].i);
    forall a, b | a in held && b in held && held[a] == held[b]
      ensures a == b
    {
      assert WorkerInv(cfg, s, a) && WorkerInv(cfg, s, b);
    }
    InjectiveValues(held);
    assert held.Keys == UpTo(cfg.workers);
    forall c | c in held.Values
      ensures c in Blockers(cfg, f)
    {
      var w :| w in held && held[w] == c;
      QuietBlocker(cfg, s, f, w);
    }
    SubsetSize(held.Values, Blockers(cfg, f));
  }

  // ---- the run that starves a file ----

  /** Any run that leaves file f waiting extends to one where nothing but f can move. */
  lemma {:induction false} RunOthers(cfg: Config, f: nat, steps: seq<Step>) returns (longer: seq<Step>)
    requires ValidConfig(cfg) && Run(cfg, steps) && f < |cfg.jobs|
    requires After(cfg, steps).files[f].phase.Waiting?
    ensures Run(cfg, longer)
    ensures After(cfg, longer).files[f].phase.Waiting? && Quiet(cfg, After(cfg, longer), f)
    decreases Rank(cfg, After(cfg, steps))
  {
    var s := After(cfg, steps);
    RunInv(cfg, steps);
    RankNonNegative(cfg, s);
    if Quiet(cfg, s, f) {
      longer := steps;
    } else {
      var step :| Enabled(cfg, s, step) && !(step.Probe? && step.f == f);
      RunExtend(cfg, steps, step);
      StepLowersRank(cfg, s, step);
      StaysWaiting(cfg, s, f, step);
      longer := RunOthers(cfg, f, steps + [step]);
    }
  }

  lemma StaysWaiting(cfg: Config, s: State, f: nat, step: Step)
    requires ValidConfig(cfg) && Shape(cfg, s) && f < |s.files| && s.files[f].phase.Waiting?
    requires Enabled(cfg, s, step) && !(step.Probe? && step.f == f)
    requires step.Answer? ==> WorkerInv(cfg, s, step.w)
    ensures Apply(cfg, s, step).files[f].phase.Waiting?
  {
    if step.Read? {
      assert step.f != f;
    } else if step.Deliver? {
      assert DoDeliver(cfg, s, step.w).files[f].phase == s.files[f].phase;
    }
  }

  /** The other files' blockers have been submitted, and file f got its workers against them. */
  ghost predicate Starved(cfg: Config, s: State, f: nat)
    requires ValidConfig(cfg) && Shape(cfg, s) && f < |s.files|
  {
    && (forall c :: c in BlockersBefore(cfg, f, 0) ==> Claimed(s, c))
    && (!s.files[f].phase.Waiting? ==> |BlockersBefore(cfg, f, 0)| < cfg.workers)
    && (forall k :: 0 <= k < |s.files[f].owners| ==> |BlockersBefore(cfg, f, k)| < cfg.workers)
  }

  lemma OwnersGrow(cfg: Config, s: State, step: Step, g: nat)
    requires ValidConfig(cfg) && Inv(cfg, s) && Enabled(cfg, s, step) && g < |s.files|
    ensures var x, x' := s.files[g], Apply(cfg, s, step).files[g];
            && x.owners <= x'.owners && |x'.owners| <= |x.owners| + 1
            && (x'.owners != x.owners ==>
                  (step.Accept? && step.f == g) || (step.Answer? && x.phase.Asking? && x.owners == []))
            && (x.phase.Waiting? && !x'.phase.Waiting? ==> step.Probe? && step.f == g)
  {
    if step.Answer? {
      assert WorkerInv(cfg, s, step.w) && PhaseInv(cfg, s, s.workers[step.w].f);
    }
  }

  /** While the starving lasts, a step that gives f a worker shows there was one to spare. */
  lemma StarvedStep(cfg: Config, s: State, f: nat, step: Step)
    requires ValidConfig(cfg) && Inv(cfg, s) && f < |s.files| && Starved(cfg, s, f)
    requires Enabled(cfg, s, step)
    ensures Starved(cfg, Apply(cfg, s, step), f)
  {
    forall c | c in BlockersBefore(cfg, f, 0)
      ensures Claimed(Apply(cfg, s, step), c)
    {
      OwnersGrow(cfg, s, step, c.0);
    }
    OwnersGrow(cfg, s, step, f);
    assert PhaseInv(cfg, s, f);
    if step.Probe? {
      BlockersFit(cfg, s, f, 0, step.w);
    }
    if step.Accept? && step.f == f {
      AcceptFits(cfg, s, f, step.w);
    }
    StarvedKept(cfg, s, Apply(cfg, s, step), f);
  }

  lemma StarvedKept(cfg: Config, s: State, s': State, f: nat)
    requires ValidConfig(cfg) && Shape(cfg, s) && Shape(cfg, s') && f < |s.files| && Starved(cfg, s, f)
    requires forall c :: c in BlockersBefore(cfg, f, 0) ==> Claimed(s', c)
    requires s.files[f].owners <= s'.files[f].owners && |s'.files[f].owners| <= |s.files[f].owners| + 1
    requires s.files[f].phase.Waiting? && !s'.files[f].phase.Waiting? ==> |BlockersBefore(cfg, f, 0)| < cfg.workers
    requires s'.files[f].owners != s.files[f].owners ==> |BlockersBefore(cfg, f, |s.files[f].owners|)| < cfg.workers
    ensures Starved(cfg, s', f)
  {
    forall k | 0 <= k < |s'.files[f].owners|
      ensures |BlockersBefore(cfg, f, k)| < cfg.workers
    {
      if k == |s.files[f].owners| {
        assert s'.files[f].owners != s.files[f].owners;
      }
    }
  }

  /** File f takes its next chunk: all blockers up to it were submitted, and a worker is idle. */
  lemma AcceptFits(cfg: Config, s: State, f: nat, w: nat)
    requires ValidConfig(cfg) && Inv(cfg, s) && f < |s.files| && Starved(cfg, s, f)
    requires Enabled(cfg, s, Accept(f, w))
    ensures |BlockersBefore(cfg, f, |s.files[f].owners|)| < cfg.workers
  {
    var k := |s.files[f].owners|;
    forall c | c in BlockersBefore(cfg, f, k)
      ensures Claimed(s, c)
    {
      if c.0 != f {
        assert Blocks(cfg, f, 0, c.0, c.1);
        assert c in BlockersBefore(cfg, f, 0);
      }
    }
    BlockersFit(cfg, s, f, k, w);
  }

  lemma {:induction false} RunToEnd(cfg: Config, f: nat, steps: seq<Step>) returns (longer: seq<Step>)
    requires ValidConfig(cfg) && Run(cfg, steps) && f < |cfg.jobs|
    requires Starved(cfg, After(cfg, steps), f)
    ensures Run(cfg, longer) && Terminal(cfg, After(cfg, longer)) && Starved(cfg, After(cfg, longer), f)
    decreases Rank(cfg, After(cfg, steps))
  {
    var s := After(cfg, steps);
    RunInv(cfg, steps);
    RankNonNegative(cfg, s);
    if Terminal(cfg, s) {
      longer := steps;
    } else {
      var step :| Enabled(cfg, s, step);
      RunExtend(cfg, steps, step);
      StepLowersRank(cfg, s, step);
      StarvedStep(cfg, s, f, step);
      longer := RunToEnd(cfg, f, steps + [step]);
    }
  }

  /** With a worker to spare in a quiet state, the other files have submitted everything. */
  lemma OthersSubmitted(cfg: Config, s: State, f: nat, idle: nat)
    requires ValidConfig(cfg) && Inv(cfg, s) && Quiet(cfg, s, f) && f < |s.files|
    requires s.files[f].phase.Waiting? && idle < |s.workers| && s.workers[idle].Idle?
    ensures Starved(cfg, s, f)
  {
    forall c | c in BlockersBefore(cfg, f, 0)
      ensures Claimed(s, c)
    {
      var g := c.0;
      QuietFile(cfg, s, f, g);
      assert PhaseInv(cfg, s, g);
      assert Blocks(cfg, f, 0, g, c.1);
      assert !Enabled(cfg, s, Probe(g, idle)) && !Enabled(cfg, s, Accept(g, idle));
    }
    assert PhaseInv(cfg, s, f);
  }

  /** A file that returns although it was starved had fewer blockers than workers. */
  lemma FinishedDespite(cfg: Config, s: State, f: nat)
    requires ValidConfig(cfg) && Inv(cfg, s) && f < |s.files|
    requires Starved(cfg, s, f) && Finished(cfg, s, f)
    ensures |Blockers(cfg, f)| < cfg.workers
  {
    var x, fates := s.files[f], cfg.jobs[f].fates;
    assert PhaseInv(cfg, s, f) && ReadInv(cfg, cfg.jobs[f], x);
    var m := LastNeeded(fates, 0);
    if x.phase.Refused? {
      assert BlockersBefore(cfg, f, m) == BlockersBefore(cfg, f, 0);
    } else {
      assert m < |x.owners| by {
        var last := if x.phase.Stopped? then x.cur else x.cur - 1;
        assert m == last;
        assert ChunkInv(cfg, s, f, last);
      }
    }
  }

  /** Where the blockers are enough, some maximal run leaves file f unfinished. */
  lemma BlockersStarve(cfg: Config, f: nat) returns (steps: seq<Step>)
    requires ValidConfig(cfg) && f < |cfg.jobs| && |Blockers(cfg, f)| >= cfg.workers
    ensures Run(cfg, steps) && Terminal(cfg, After(cfg, steps)) && !Finished(cfg, After(cfg, steps), f)
  {
    assert After(cfg, []) == Init(cfg);
    var quiet := RunOthers(cfg, f, []);
    var s := After(cfg, quiet);
    RunInv(cfg, quiet);
    if exists w :: 0 <= w < |s.workers| && s.workers[w].Idle? {
      var w :| 0 <= w < |s.workers| && s.workers[w].Idle?;
      OthersSubmitted(cfg, s, f, w);
      steps := RunToEnd(cfg, f, quiet);
      RunInv(cfg, steps);
      if Finished(cfg, After(cfg, steps), f) {
        FinishedDespite(cfg, After(cfg, steps), f);
      }
    } else {
      steps := quiet;
    }
  }

  /** Every maximal run downloads file f to its end: its consumer, or its Fetch, returns. */
  ghost predicate AlwaysFinishes(cfg: Config, f: nat)
    requires ValidConfig(cfg) && f < |cfg.jobs|
  {
    forall steps: seq<Step> :: Run(cfg, steps) && Terminal(cfg, After(cfg, steps)) ==>
      Finished(cfg, After(cfg, steps), f)
  }

  /** Progress, exactly: for any number of workers, files and any pattern of outcomes, every
      maximal run finishes file f if and only if its blockers are fewer than the workers. */
  lemma FinishesIff(cfg: Config, f: nat)
    requires ValidConfig(cfg) && f < |cfg.jobs|
    ensures AlwaysFinishes(cfg, f) <==> |Blockers(cfg, f)| < cfg.workers
  {
    if |Blockers(cfg, f)| < cfg.workers {
      forall steps: seq<Step> | Run(cfg, steps) && Terminal(cfg, After(cfg, steps))
        ensures Finished(cfg, After(cfg, steps), f)
      {
        RunInv(cfg, steps);
        if !Finished(cfg, After(cfg, steps), f) {
          StuckNeedsBlockers(cfg, After(cfg, steps), f);
        }
      }
    } else {
      var steps := BlockersStarve(cfg, f);
      assert !AlwaysFinishes(cfg, f);
    }
  }

  lemma {:induction false} FewBlockersFinish(cfg: Config, steps: seq<Step>, f: nat)
    requires ValidConfig(cfg) && f < |cfg.jobs| && |Blockers(cfg, f)| < cfg.workers
    requires Run(cfg, steps) && Terminal(cfg, After(cfg, steps))
    ensures Finished(cfg, After(cfg, steps), f)
  {
    FinishesIff(cfg, f);
    assert AlwaysFinishes(cfg, f);
  }

  /** A file whose first request succeeds and none of whose chunks breaks the stream ends with
      what its error-free chunks make up. */
  lemma {:induction false} UnbrokenEnd(cfg: Config, steps: seq<Step>, f: nat)
    requires ValidConfig(cfg) && f < |cfg.jobs| && Run(cfg, steps) && Finished(cfg, After(cfg, steps), f)
    requires var j := cfg.jobs[f]; j.probeOk && forall i :: 0 <= i < |j.fates| ==> !Breaks(j.fates[i])
    ensures var x, j := After(cfg, steps).files[f], cfg.jobs[f];
            x.phase.Streaming? && x.cur == |j.plan| && x.out == Assembled(j, |j.plan|)
  {
    RunInv(cfg, steps);
    var s := After(cfg, steps);
    assert PhaseInv(cfg, s, f) && ReadInv(cfg, cfg.jobs[f], s.files[f]);
  }

  ghost predicate ErrorFree(cfg: Config)
    requires ValidConfig(cfg)
  {
    forall f :: 0 <= f < |cfg.jobs| ==> cfg.jobs[f].probeOk && NoErrors(cfg.jobs[f])
  }

  ghost predicate NoErrors(j: Job) {
    forall i :: 0 <= i < |j.fates| ==> j.fates[i] == NoError
  }

  lemma NothingBlocks(cfg: Config, f: nat)
    requires ValidConfig(cfg) && ErrorFree(cfg) && f < |cfg.jobs|
    ensures Blockers(cfg, f) == {}
  {
  }

  /** Without errors every consumer gets to the end of its file, having drained every chunk. */
  lemma {:induction false} ErrorFreeDrains(cfg: Config, steps: seq<Step>, f: nat)
    requires ValidConfig(cfg) && ErrorFree(cfg) && f < |cfg.jobs|
    requires Run(cfg, steps) && Terminal(cfg, After(cfg, steps))
    ensures var x := After(cfg, steps).files[f];
            && x.phase.Streaming? && x.cur == |cfg.jobs[f].plan|
            && forall i :: 0 <= i < |cfg.jobs[f].plan| ==> IsDrained(After(cfg, steps), f, i)
  {
    NothingBlocks(cfg, f);
    FewBlockersFinish(cfg, steps, f);
    UnbrokenEnd(cfg, steps, f);
    RunInv(cfg, steps);
    assert ReadInv(cfg, cfg.jobs[f], After(cfg, steps).files[f]);
  }

  /** Without errors, one worker is enough: every maximal run ends with every file read to the end,
      every chunk delivered exactly once and drained exactly once. What was read is the file
      exactly when no chunk came short. */
  lemma {:induction false} ErrorFreeRunsComplete(cfg: Config, steps: seq<Step>, f: nat)
    requires ValidConfig(cfg) && ErrorFree(cfg) && f < |cfg.jobs|
    requires Run(cfg, steps) && Terminal(cfg, After(cfg, steps))
    ensures var j := cfg.jobs[f];
            After(cfg, steps).files[f].out == j.content <==> j.content == [] || AllFull(j, |j.fates|)
    ensures forall i :: 0 <= i < |cfg.jobs[f].plan| ==>
              DeliverCalls(cfg, steps, f, i) == 1 && DrainCalls(cfg, steps, f, i) == 1
  {
    ErrorFreeDrains(cfg, steps, f);
    CountDecides(cfg, steps, f);
    forall i | 0 <= i < |cfg.jobs[f].plan|
      ensures DeliverCalls(cfg, steps, f, i) == 1 && DrainCalls(cfg, steps, f, i) == 1
    {
      DeliveredOnce(cfg, steps, f, i);
      DrainedOnce(cfg, steps, f, i);
    }
  }

  /** And with every worker back in the pool. */
  lemma {:induction false} ErrorFreePoolIdle(cfg: Config, steps: seq<Step>, w: nat)
    requires ValidConfig(cfg) && ErrorFree(cfg) && w < cfg.workers
    requires Run(cfg, steps) && Terminal(cfg, After(cfg, steps))
    ensures After(cfg, steps).workers[w].Idle?
  {
    var s := After(cfg, steps);
    RunInv(cfg, steps);
    QuietWorker(cfg, s, 0, w);
    if s.workers[w].Blocked? {
      ErrorFreeDrains(cfg, steps, s.workers[w].f);
    }
  }

  /** Exactly once over completed runs, for every pattern of outcomes: in a maximal run Deliver is
      called once on every chunk that was submitted and on no other. */
  lemma {:induction false} TerminalDeliveries(cfg: Config, steps: seq<Step>, f: nat, i: nat)
    requires ValidConfig(cfg) && f < |cfg.jobs| && i < |cfg.jobs[f].plan|
    requires Run(cfg, steps) && Terminal(cfg, After(cfg, steps))
    ensures DeliverCalls(cfg, steps, f, i) == if i < |After(cfg, steps).files[f].owners| then 1 else 0
  {
    var s := After(cfg, steps);
    RunInv(cfg, steps);
    DeliveredOnce(cfg, steps, f, i);
    assert ChunkInv(cfg, s, f, i);
    if i < |s.files[f].owners| {
      QuietWorker(cfg, s, f, s.files[f].owners[i]);
    }
  }

  lemma Shorten(steps: seq<Step>, step: Step, longer: seq<Step>)
    requires steps + [step] <= longer
    ensures steps <= longer
  {
    assert (steps + [step])[..|steps|] == steps;
  }

  /** Every run extends to a maximal one. */
  lemma {:induction false} MaximalRun(cfg: Config, steps: seq<Step>) returns (longer: seq<Step>)
    requires ValidConfig(cfg) && Run(cfg, steps)
    ensures Run(cfg, longer) && Terminal(cfg, After(cfg, longer)) && steps <= longer
    decreases Rank(cfg, After(cfg, steps))
  {
    var s := After(cfg, steps);
    RunInv(cfg, steps);
    RankNonNegative(cfg, s);
    if Terminal(cfg, s) {
      longer := steps;
    } else {
      var step :| Enabled(cfg, s, step);
      RunExtend(cfg, steps, step);
      StepLowersRank(cfg, s, step);
      longer := MaximalRun(cfg, steps + [step]);
      Shorten(steps, step, longer);
    }
  }

  /** The guarantee fails with errors: one worker, a two-byte file in two chunks, the first
      delivered with EOF. The consumer moves on, the worker stays in Deliver, and nothing ever
      fetches the second chunk. */
  lemma EofChunkStalls() returns (cfg: Config, steps: seq<Step>)
    ensures cfg == Config([Job([0, 1], [Span(0, 1), Span(1, 2)], 0, true, [Eof, NoError], [1, 1])], 1, 1)
    ensures ValidConfig(cfg) && Run(cfg, steps)
    ensures Terminal(cfg, After(cfg, steps)) && !Finished(cfg, After(cfg, steps), 0)
  {
    cfg := Config([Job([0, 1], [Span(0, 1), Span(1, 2)], 0, true, [Eof, NoError], [1, 1])], 1, 1);
    assert Chunking(cfg.jobs[0].plan, 2);
    assert ValidConfig(cfg);
    assert LastNeeded(cfg.jobs[0].fates, 0) == 1;
    assert (0, 0) in Blockers(cfg, 0);
    SubsetSize({(0, 0)}, Blockers(cfg, 0));
    steps := BlockersStarve(cfg, 0);
  }

  /** With a second worker the same file does not hang, and the consumer reads to the end of the
      stream: the byte of the chunk delivered with EOF is missing from it. */
  lemma EofChunkSkipped() returns (cfg: Config, steps: seq<Step>)
    ensures cfg == Config([Job([0, 1], [Span(0, 1), Span(1, 2)], 0, true, [Eof, NoError], [1, 1])], 2, 1)
    ensures ValidConfig(cfg) && Run(cfg, steps) && Terminal(cfg, After(cfg, steps))
    ensures var x := After(cfg, steps).files[0];
            && Finished(cfg, After(cfg, steps), 0) && x.phase.Streaming?
            && x.out == [1] && !(x.out <= cfg.jobs[0].content)
  {
    cfg := Config([Job([0, 1], [Span(0, 1), Span(1, 2)], 0, true, [Eof, NoError], [1, 1])], 2, 1);
    assert Chunking(cfg.jobs[0].plan, 2);
    assert ValidConfig(cfg);
    steps := MaximalRun(cfg, []);
    assert Blockers(cfg, 0) <= {(0, 0)};
    SubsetSize(Blockers(cfg, 0), {(0, 0)});
    FewBlockersFinish(cfg, steps, 0);
    UnbrokenEnd(cfg, steps, 0);
    SkippedByte(cfg.jobs[0]);
  }

  lemma {:induction false} SkippedByte(j: Job)
    requires j == Job([0, 1], [Span(0, 1), Span(1, 2)], 0, true, [Eof, NoError], [1, 1])
    ensures Assembled(j, 2) == [1] && !([1] <= j.content)
  {
    assert Assembled(j, 1) == [];
    assert Assembled(j, 2) == [] + Part(j, 1) && Part(j, 1) == [1];
    assert j.content[0] != [1][0];
  }

  /** A response that names one byte of a two-byte chunk costs the stream a byte without an error
      anywhere: three bytes, two chunks, one worker, and the consumer reads the first and the
      third. */
  lemma ShortChunkLost() returns (cfg: Config, steps: seq<Step>)
    ensures cfg == Config([Job([0, 1, 2], [Span(0, 2), Span(2, 3)], 0, true, [NoError, NoError], [1, 1])], 1, 2)
    ensures ValidConfig(cfg) && Run(cfg, steps) && Terminal(cfg, After(cfg, steps))
    ensures var x := After(cfg, steps).files[0];
            Finished(cfg, After(cfg, steps), 0) && x.phase.Streaming? && x.out == [0, 2]
  {
    cfg := Config([Job([0, 1, 2], [Span(0, 2), Span(2, 3)], 0, true, [NoError, NoError], [1, 1])], 1, 2);
    assert Chunking(cfg.jobs[0].plan, 3);
    assert ValidConfig(cfg);
    steps := MaximalRun(cfg, []);
    NothingBlocks(cfg, 0);
    FewBlockersFinish(cfg, steps, 0);
    UnbrokenEnd(cfg, steps, 0);
    ShortBytes(cfg.jobs[0]);
  }

  lemma {:induction false} ShortBytes(j: Job)
    requires j == Job([0, 1, 2], [Span(0, 2), Span(2, 3)], 0, true, [NoError, NoError], [1, 1])
    ensures Assembled(j, 2) == [0, 2]
  {
    assert ChunkBytes(j, 0) == [0, 1] && ChunkBytes(j, 1) == [2];
    assert Part(j, 0) == [0] && Part(j, 1) == [2];
    assert Assembled(j, 1) == [] + Part(j, 0);
  }
}
