/**
 The delivery protocol as a state machine: a fixed pool of workers, each owning one buffer it
 reuses, the submit loops of any number of files, and one consumer per file reading that
 file's promises in order. Every interleaving of the steps is a run.
 */
module Delivery {
  import opened Ranges
  import opened Promise

  /** One file to download: its bytes, the stretches its plan is served as, how many first
      requests end in a fallback to another Fetch (the cache failing over to the fallback
      strategy is one), whether the first request after those succeeds, the error each chunk is
      delivered with, and the length its response names, which may be less than the chunk
      (section 15.3.7 of RFC 9110): the worker reads that much and no more. Since all statements
      quantify over jobs, every pattern of outcomes is covered. */
  datatype Job =
    Job(content: seq<byte>, plan: seq<Span>, fallbacks: nat, probeOk: bool, fates: seq<Error>, sizes: seq<nat>)

  datatype Config = Config(jobs: seq<Job>, workers: nat, bufSize: nat)

  /** Every chunk has an outcome, lies in the file, and is at least as long as its response says. */
  ghost predicate WellCut(j: Job) {
    && |j.fates| == |j.sizes| == |j.plan|
    && forall i :: 0 <= i < |j.plan| ==> j.plan[i].lo + j.sizes[i] <= j.plan[i].hi <= |j.content|
  }

  ghost predicate ValidJob(j: Job, bufSize: nat) {
    && Chunking(j.plan, |j.content|) && |j.plan| >= 1
    && WellCut(j)
    && forall i :: 0 <= i < |j.plan| ==> j.plan[i].hi - j.plan[i].lo <= bufSize
  }

  ghost predicate ValidConfig(cfg: Config) {
    && cfg.workers >= 1
    && forall f :: 0 <= f < |cfg.jobs| ==> ValidJob(cfg.jobs[f], cfg.bufSize)
  }

  /** What a worker is doing. Blocked is waiting inside Deliver. */
  datatype Worker =
    | Idle
    | Probing(f: nat)
    | Filling(f: nat, i: nat, got: nat)
    | Blocked(f: nat, i: nat)

  /** Where a download stands: waiting for a worker to make the first request, that request in
      flight, its reader handed out, its reader ended by an error, or its Fetch failed. */
  datatype Phase = Waiting | Asking(w: nat) | Streaming | Stopped | Refused

  /** fallbacks counts the fallbacks still to come; owners lists the workers that took the chunks
      submitted so far, in submission order; cur is the reader MultiReader is at; out is what the consumer has read. */
  datatype File =
    File(phase: Phase, fallbacks: nat, owners: seq<nat>, cur: nat, promises: seq<Promise<nat>>, out: seq<byte>)

  datatype State = State(workers: seq<Worker>, buffers: seq<seq<byte>>, files: seq<File>)

  datatype Step =
    | Probe(f: nat, w: nat)
    | Answer(w: nat)
    | Accept(f: nat, w: nat)
    | Receive(w: nat, k: nat)
    | Deliver(w: nat)
    | Read(f: nat, room: nat)
    | Release(w: nat)

  function NewFile(j: Job): File {
    File(Waiting, j.fallbacks, [], 0, seq(|j.plan|, _ => Unready), [])
  }

  function Init(cfg: Config): State {
    State(seq(cfg.workers, _ => Idle),
          seq(cfg.workers, _ => seq(cfg.bufSize, _ => 0)),
          seq(|cfg.jobs|, f requires 0 <= f < |cfg.jobs| => NewFile(cfg.jobs[f])))
  }

  /** How long chunk i is. */
  function ChunkSize(j: Job, i: nat): int
    requires i < |j.plan|
  {
    j.plan[i].hi - j.plan[i].lo
  }

  /** The sizes and indexes that the steps rely on. */
  ghost predicate Shape(cfg: Config, s: State) {
    && |s.workers| == |s.buffers| == cfg.workers
    && |s.files| == |cfg.jobs|
    && (forall w :: 0 <= w < |s.buffers| ==> |s.buffers[w]| == cfg.bufSize)
    && (forall f :: 0 <= f < |s.files| ==> FileShape(cfg, s.files[f], cfg.jobs[f]))
    && (forall w :: 0 <= w < |s.workers| ==> WorkerShape(cfg, s.workers[w]))
  }

  ghost predicate FileShape(cfg: Config, x: File, j: Job) {
    && |x.promises| == |j.plan|
    && |x.owners| <= |j.plan|
    && x.cur <= |j.plan|
    && (forall i :: 0 <= i < |x.promises| && x.promises[i].Ready? ==>
          && x.promises[i].buf < cfg.workers
          && x.promises[i].pos <= x.promises[i].size <= ChunkSize(j, i))
  }

  ghost predicate WorkerShape(cfg: Config, x: Worker) {
    match x
    case Idle => true
    case Probing(f) => f < |cfg.jobs|
    case Filling(f, i, got) =>
      f < |cfg.jobs| && i < |cfg.jobs[f].plan| && i < |cfg.jobs[f].sizes| && got <= cfg.jobs[f].sizes[i]
    case Blocked(f, i) => f < |cfg.jobs| && i < |cfg.jobs[f].plan|
  }

  /** Which steps can happen. A worker takes work only when idle; the consumer reads only a
      delivered promise; a blocked worker leaves Deliver only when its promise is drained. */
  ghost predicate Enabled(cfg: Config, s: State, step: Step)
    requires ValidConfig(cfg) && Shape(cfg, s)
  {
    match step
    case Probe(f, w) =>
      f < |s.files| && w < |s.workers| && s.workers[w].Idle? && s.files[f].phase.Waiting?
    case Answer(w) =>
      w < |s.workers| && s.workers[w].Probing?
    case Accept(f, w) =>
      && f < |s.files| && w < |s.workers| && s.workers[w].Idle?
      && (s.files[f].phase.Streaming? || s.files[f].phase.Stopped?)
      && |s.files[f].owners| < |cfg.jobs[f].plan|
    case Receive(w, k) =>
      && w < |s.workers| && s.workers[w].Filling? && k >= 1
      && s.workers[w].got + k <= cfg.jobs[s.workers[w].f].sizes[s.workers[w].i]
    case Deliver(w) =>
      && w < |s.workers| && s.workers[w].Filling?
      && var x := s.workers[w];
         cfg.jobs[x.f].fates[x.i] == NoError ==> x.got == cfg.jobs[x.f].sizes[x.i]
    case Read(f, room) =>
      && f < |s.files| && room >= 1 && s.files[f].phase.Streaming?
      && s.files[f].cur < |cfg.jobs[f].plan|
      && s.files[f].promises[s.files[f].cur].Ready?
    case Release(w) =>
      && w < |s.workers| && s.workers[w].Blocked?
      && var p := s.files[s.workers[w].f].promises[s.workers[w].i];
         p.Ready? && p.drained
  }

  /** The bytes a worker's buffer holds after k more bytes of its chunk arrived. */
  function Overwrite(b: seq<byte>, at: nat, data: seq<byte>): (r: seq<byte>)
    requires at + |data| <= |b|
    ensures |r| == |b|
    ensures r[..at] == b[..at]
    ensures r[at..at + |data|] == data
  {
    b[..at] + data + b[at + |data|..]
  }

  ghost function Apply(cfg: Config, s: State, step: Step): (s': State)
    requires ValidConfig(cfg) && Shape(cfg, s) && Enabled(cfg, s, step)
    ensures Shape(cfg, s')
  {
    match step
    case Probe(f, w) => DoProbe(cfg, s, f, w)
    case Answer(w) => DoAnswer(cfg, s, w)
    case Accept(f, w) => DoAccept(cfg, s, f, w)
    case Receive(w, k) => DoReceive(cfg, s, w, k)
    case Deliver(w) => DoDeliver(cfg, s, w)
    case Read(f, room) => DoRead(cfg, s, f, room)
    case Release(w) => s.(workers := s.workers[w := Idle])
  }

  /** submitLow hands the first request to an idle worker. */
  ghost function DoProbe(cfg: Config, s: State, f: nat, w: nat): (s': State)
    requires ValidConfig(cfg) && Shape(cfg, s) && Enabled(cfg, s, Probe(f, w))
    ensures Shape(cfg, s')
  {
    s.(workers := s.workers[w := Probing(f)],
       files := s.files[f := s.files[f].(phase := Asking(w))])
  }

  /** The first request is over: Fetch starts anew on the fallback strategy, or the worker goes
      on to fill the first chunk, or Fetch fails. */
  ghost function DoAnswer(cfg: Config, s: State, w: nat): (s': State)
    requires ValidConfig(cfg) && Shape(cfg, s) && Enabled(cfg, s, Answer(w))
    ensures Shape(cfg, s')
  {
    var f := s.workers[w].f;
    if s.files[f].fallbacks > 0 then
      s.(workers := s.workers[w := Idle],
         files := s.files[f := s.files[f].(phase := Waiting, fallbacks := s.files[f].fallbacks - 1)])
    else if cfg.jobs[f].probeOk then
      s.(workers := s.workers[w := Filling(f, 0, 0)],
         files := s.files[f := s.files[f].(phase := Streaming, owners := [w])])
    else
      s.(workers := s.workers[w := Idle],
         files := s.files[f := s.files[f].(phase := Refused)])
  }

  /** submitHigh hands the next chunk of the submit loop to an idle worker. */
  ghost function DoAccept(cfg: Config, s: State, f: nat, w: nat): (s': State)
    requires ValidConfig(cfg) && Shape(cfg, s) && Enabled(cfg, s, Accept(f, w))
    ensures Shape(cfg, s')
  {
    s.(workers := s.workers[w := Filling(f, |s.files[f].owners|, 0)],
       files := s.files[f := s.files[f].(owners := s.files[f].owners + [w])])
  }

  /** The next k bytes of the worker's chunk arrive in its buffer. */
  ghost function DoReceive(cfg: Config, s: State, w: nat, k: nat): (s': State)
    requires ValidConfig(cfg) && Shape(cfg, s) && Enabled(cfg, s, Receive(w, k))
    ensures Shape(cfg, s')
  {
    var x := s.workers[w];
    var span := cfg.jobs[x.f].plan[x.i];
    var data := cfg.jobs[x.f].content[span.lo + x.got..span.lo + x.got + k];
    s.(workers := s.workers[w := x.(got := x.got + k)],
       buffers := s.buffers[w := Overwrite(s.buffers[w], x.got, data)])
  }

  /** The worker calls Deliver with what it has and the chunk's error, and blocks. */
  ghost function DoDeliver(cfg: Config, s: State, w: nat): (s': State)
    requires ValidConfig(cfg) && Shape(cfg, s) && Enabled(cfg, s, Deliver(w))
    ensures Shape(cfg, s')
  {
    var x := s.workers[w];
    var p := Delivered(w, x.got, cfg.jobs[x.f].fates[x.i]);
    s.(workers := s.workers[w := Blocked(x.f, x.i)],
       files := s.files[x.f := s.files[x.f].(promises := s.files[x.f].promises[x.i := p])])
  }

  /** One Read call on the file's MultiReader: bytes come out of the buffer the current
      promise points at; an EOF moves on to the next reader, another error ends the stream. */
  ghost function DoRead(cfg: Config, s: State, f: nat, room: nat): (s': State)
    requires ValidConfig(cfg) && Shape(cfg, s) && Enabled(cfg, s, Read(f, room))
    ensures Shape(cfg, s')
  {
    s.(files := s.files[f := AfterFileRead(cfg, s, f, room)])
  }

  ghost function AfterFileRead(cfg: Config, s: State, f: nat, room: nat): (x': File)
    requires ValidConfig(cfg) && Shape(cfg, s) && Enabled(cfg, s, Read(f, room))
    ensures FileShape(cfg, x', cfg.jobs[f])
    ensures x'.owners == s.files[f].owners && (x'.phase.Streaming? || x'.phase.Stopped?)
  {
    var x := s.files[f];
    var p := x.promises[x.cur];
    var n := ReadCount(p, room);
    var read := x.(promises := x.promises[x.cur := AfterRead(p, room)],
                   out := x.out + s.buffers[p.buf][p.pos..p.pos + n]);
    var e := ReadError(p);
    if e == NoError then read
    else if e == Eof then read.(cur := x.cur + 1)
    else read.(phase := Stopped)
  }

  lemma InitShape(cfg: Config)
    requires ValidConfig(cfg)
    ensures Shape(cfg, Init(cfg))
  {
  }

  /** A run: every step was enabled when it was taken. */
  ghost predicate Run(cfg: Config, steps: seq<Step>)
    requires ValidConfig(cfg)
    decreases |steps|, 0
  {
    var n := |steps| - 1;
    n < 0 || (Run(cfg, steps[..n]) && Enabled(cfg, After(cfg, steps[..n]), steps[n]))
  }

  /** The state a run ends in. */
  ghost function After(cfg: Config, steps: seq<Step>): (s: State)
    requires ValidConfig(cfg) && Run(cfg, steps)
    ensures Shape(cfg, s)
    decreases |steps|, 1
  {
    InitShape(cfg);
    var n := |steps| - 1;
    if n < 0 then Init(cfg) else Apply(cfg, After(cfg, steps[..n]), steps[n])
  }

  lemma {:induction false} RunExtend(cfg: Config, steps: seq<Step>, step: Step)
    requires ValidConfig(cfg) && Run(cfg, steps) && Enabled(cfg, After(cfg, steps), step)
    ensures Run(cfg, steps + [step])
    ensures After(cfg, steps + [step]) == Apply(cfg, After(cfg, steps), step)
  {
    assert (steps + [step])[..|steps|] == steps;
  }

  /** The consumer of file f has returned, or Fetch has. */
  ghost predicate Finished(cfg: Config, s: State, f: nat)
    requires Shape(cfg, s) && f < |s.files|
  {
    var x := s.files[f];
    x.phase.Refused? || x.phase.Stopped? || (x.phase.Streaming? && x.cur == |cfg.jobs[f].plan|)
  }

  /** No step can happen. */
  ghost predicate Terminal(cfg: Config, s: State)
    requires ValidConfig(cfg) && Shape(cfg, s)
  {
    forall step: Step :: !Enabled(cfg, s, step)
  }
}
