/**
 What every reachable state of the delivery protocol keeps, and what follows from it: buffer
 ownership, in-order reassembly, exactly-once delivery and acceptance by length.
 */
module DeliverySafety {
  import opened Ranges
  import opened Promise
  import opened Delivery

  /** The bytes of chunk i. */
  ghost function ChunkBytes(j: Job, i: nat): seq<byte>
    requires WellCut(j) && i < |j.plan|
  {
    Piece(j.content, j.plan[i])
  }

  /** The first n bytes of chunk i. */
  ghost function FirstBytes(j: Job, i: nat, n: nat): (bytes: seq<byte>)
    requires WellCut(j) && i < |j.plan| && n <= ChunkSize(j, i)
    ensures |bytes| == n
  {
    ChunkBytes(j, i)[..n]
  }

  /** What chunk i adds to the stream: what its response named, if it is delivered without an
      error. */
  ghost function Part(j: Job, i: nat): (bytes: seq<byte>)
    requires WellCut(j) && i < |j.plan|
    ensures |bytes| == if j.fates[i] == NoError then j.sizes[i] else 0
  {
    if j.fates[i] == NoError then FirstBytes(j, i, j.sizes[i]) else []
  }

  /** What the first k chunks add to the stream. */
  ghost function Assembled(j: Job, k: nat): seq<byte>
    requires WellCut(j) && k <= |j.plan|
  {
    if k == 0 then [] else Assembled(j, k - 1) + Part(j, k - 1)
  }

  /** Chunk i of file f was submitted and worker w took it. */
  ghost predicate Owns(s: State, f: nat, i: nat, w: nat) {
    f < |s.files| && i < |s.files[f].owners| && s.files[f].owners[i] == w
  }

  ghost predicate WorkerInv(cfg: Config, s: State, w: nat)
    requires ValidConfig(cfg) && Shape(cfg, s) && w < |s.workers|
  {
    match s.workers[w]
    case Idle => true
    case Probing(f) => s.files[f].phase == Asking(w)
    case Filling(f, i, got) =>
      && Owns(s, f, i, w)
      && s.files[f].promises[i].Unready?
      && s.buffers[w][..got] == FirstBytes(cfg.jobs[f], i, got)
    case Blocked(f, i) =>
      && Owns(s, f, i, w)
      && s.files[f].promises[i].Ready?
  }

  /** A submitted chunk that is not drained keeps its worker; a delivered one without an error
      has the bytes its response named in that worker's buffer. */
  ghost predicate ChunkInv(cfg: Config, s: State, f: nat, i: nat)
    requires ValidConfig(cfg) && Shape(cfg, s) && f < |s.files| && i < |cfg.jobs[f].plan|
  {
    var x, j := s.files[f], cfg.jobs[f];
    var p := x.promises[i];
    if i >= |x.owners| then p.Unready?
    else
      var w := x.owners[i];
      && w < |s.workers|
      && (p.Unready? ==> s.workers[w].Filling? && s.workers[w].f == f && s.workers[w].i == i)
      && (p.Ready? && !p.drained ==>
            && s.workers[w] == Blocked(f, i)
            && p.buf == w
            && p.err == j.fates[i]
            && (p.err == NoError ==> p.size == j.sizes[i] && s.buffers[w][..p.size] == FirstBytes(j, i, p.size)))
      && (p.Ready? && p.drained ==> p.err == Eof && j.fates[i] == NoError)
  }

  ghost predicate PhaseInv(cfg: Config, s: State, f: nat)
    requires ValidConfig(cfg) && Shape(cfg, s) && f < |s.files|
  {
    var x, j := s.files[f], cfg.jobs[f];
    match x.phase
    case Waiting => x.owners == [] && x.cur == 0
    case Asking(w) => x.owners == [] && x.cur == 0 && w < |s.workers| && s.workers[w] == Probing(f)
    case Refused => x.owners == [] && x.cur == 0 && !j.probeOk
    case Streaming => |x.owners| >= 1 && j.probeOk
    case Stopped =>
      && |x.owners| >= 1 && j.probeOk
      && x.cur < |j.plan| && x.promises[x.cur].Ready?
      && j.fates[x.cur] != NoError && j.fates[x.cur] != Eof
  }

  /** The promises the consumer has passed, the one it is at, and those it has not looked at. */
  ghost predicate PassInv(j: Job, x: File)
    requires |x.promises| == |j.plan| == |j.fates| >= x.cur
  {
    && (forall i :: 0 <= i < x.cur ==>
          && x.promises[i].Ready?
          && (j.fates[i] == NoError || j.fates[i] == Eof)
          && (x.promises[i].drained <==> j.fates[i] == NoError))
    && (forall i :: x.cur <= i < |j.plan| && x.promises[i].Ready? ==> !x.promises[i].drained)
    && (forall i :: x.cur < i < |j.plan| && x.promises[i].Ready? ==> x.promises[i].pos == 0)
  }

  /** What the consumer has read: what the chunks it has passed added, and its part of the current
      one. */
  ghost predicate ReadInv(cfg: Config, j: Job, x: File)
    requires ValidJob(j, cfg.bufSize) && FileShape(cfg, x, j)
  {
    PassInv(j, x) && x.out == Assembled(j, x.cur) + InCurrent(cfg, j, x)
  }

  /** The bytes read so far from the chunk the consumer is at. */
  ghost function InCurrent(cfg: Config, j: Job, x: File): seq<byte>
    requires ValidJob(j, cfg.bufSize) && FileShape(cfg, x, j)
  {
    if x.cur < |j.plan| && x.promises[x.cur].Ready? && j.fates[x.cur] == NoError
    then FirstBytes(j, x.cur, x.promises[x.cur].pos)
    else []
  }

  ghost predicate Inv(cfg: Config, s: State)
    requires ValidConfig(cfg)
  {
    && Shape(cfg, s)
    && (forall w :: 0 <= w < |s.workers| ==> WorkerInv(cfg, s, w))
    && (forall f :: 0 <= f < |s.files| ==> PhaseInv(cfg, s, f) && ReadInv(cfg, cfg.jobs[f], s.files[f]))
    && (forall f, i :: 0 <= f < |s.files| && 0 <= i < |cfg.jobs[f].plan| ==> ChunkInv(cfg, s, f, i))
  }

  /** What has been read does not depend on who fetches what. */
  lemma ReadInvFrame(cfg: Config, j: Job, x: File, x': File)
    requires ValidJob(j, cfg.bufSize) && FileShape(cfg, x, j) && FileShape(cfg, x', j)
    requires x'.promises == x.promises && x'.cur == x.cur && x'.out == x.out
    requires ReadInv(cfg, j, x)
    ensures ReadInv(cfg, j, x')
  {
  }

  lemma InitInv(cfg: Config)
    requires ValidConfig(cfg)
    ensures Inv(cfg, Init(cfg))
  {
  }

  lemma ProbeWorkers(cfg: Config, s: State, f: nat, w: nat, v: nat)
    requires ValidConfig(cfg) && Shape(cfg, s) && Enabled(cfg, s, Probe(f, w))
    requires v < |s.workers| && WorkerInv(cfg, s, v)
    requires PhaseInv(cfg, s, f)
    ensures WorkerInv(cfg, DoProbe(cfg, s, f, w), v)
  {
  }

  lemma ProbePhases(cfg: Config, s: State, f: nat, w: nat, g: nat)
    requires ValidConfig(cfg) && Shape(cfg, s) && Enabled(cfg, s, Probe(f, w))
    requires g < |s.files| && PhaseInv(cfg, s, g)
    ensures PhaseInv(cfg, DoProbe(cfg, s, f, w), g)
  {
  }

  lemma ProbeReads(cfg: Config, s: State, f: nat, w: nat, g: nat)
    requires ValidConfig(cfg) && Shape(cfg, s) && Enabled(cfg, s, Probe(f, w))
    requires g < |s.files| && ReadInv(cfg, cfg.jobs[g], s.files[g])
    ensures ReadInv(cfg, cfg.jobs[g], DoProbe(cfg, s, f, w).files[g])
  {
    ReadInvFrame(cfg, cfg.jobs[g], s.files[g], DoProbe(cfg, s, f, w).files[g]);
  }

  lemma ProbeChunks(cfg: Config, s: State, f: nat, w: nat, g: nat, i: nat)
    requires ValidConfig(cfg) && Shape(cfg, s) && Enabled(cfg, s, Probe(f, w))
    requires g < |s.files| && i < |cfg.jobs[g].plan| && ChunkInv(cfg, s, g, i)
    ensures ChunkInv(cfg, DoProbe(cfg, s, f, w), g, i)
  {
  }

  lemma ProbeInv(cfg: Config, s: State, f: nat, w: nat)
    requires ValidConfig(cfg) && Inv(cfg, s) && Enabled(cfg, s, Probe(f, w))
    ensures Inv(cfg, DoProbe(cfg, s, f, w))
  {
    var s' := DoProbe(cfg, s, f, w);
    forall v | 0 <= v < |s'.workers|
      ensures WorkerInv(cfg, s', v)
    {
      ProbeWorkers(cfg, s, f, w, v);
    }
    forall g | 0 <= g < |s'.files|
      ensures PhaseInv(cfg, s', g) && ReadInv(cfg, cfg.jobs[g], s'.files[g])
    {
      ProbePhases(cfg, s, f, w, g);
      ProbeReads(cfg, s, f, w, g);
    }
    forall g, i | 0 <= g < |s'.files| && 0 <= i < |cfg.jobs[g].plan|
      ensures ChunkInv(cfg, s', g, i)
    {
      ProbeChunks(cfg, s, f, w, g, i);
    }
  }

  lemma AnswerWorkers(cfg: Config, s: State, w: nat, v: nat)
    requires ValidConfig(cfg) && Shape(cfg, s) && Enabled(cfg, s, Answer(w))
    requires v < |s.workers| && WorkerInv(cfg, s, v)
    requires WorkerInv(cfg, s, w)
    requires PhaseInv(cfg, s, s.workers[w].f)
    requires ChunkInv(cfg, s, s.workers[w].f, 0)
    ensures WorkerInv(cfg, DoAnswer(cfg, s, w), v)
  {
    var f, s' := s.workers[w].f, DoAnswer(cfg, s, w);
    assert forall g :: 0 <= g < |s.files| && g != f ==> s'.files[g] == s.files[g];
    if v != w {
      assert s'.workers[v] == s.workers[v] && s'.buffers[v] == s.buffers[v];
    }
  }

  lemma AnswerPhases(cfg: Config, s: State, w: nat, g: nat)
    requires ValidConfig(cfg) && Shape(cfg, s) && Enabled(cfg, s, Answer(w))
    requires g < |s.files| && PhaseInv(cfg, s, g)
    requires WorkerInv(cfg, s, w)
    ensures PhaseInv(cfg, DoAnswer(cfg, s, w), g)
  {
  }

  lemma AnswerReads(cfg: Config, s: State, w: nat, g: nat)
    requires ValidConfig(cfg) && Shape(cfg, s) && Enabled(cfg, s, Answer(w))
    requires g < |s.files| && ReadInv(cfg, cfg.jobs[g], s.files[g])
    ensures ReadInv(cfg, cfg.jobs[g], DoAnswer(cfg, s, w).files[g])
  {
    ReadInvFrame(cfg, cfg.jobs[g], s.files[g], DoAnswer(cfg, s, w).files[g]);
  }

  lemma AnswerChunks(cfg: Config, s: State, w: nat, g: nat, i: nat)
    requires ValidConfig(cfg) && Shape(cfg, s) && Enabled(cfg, s, Answer(w))
    requires g < |s.files| && i < |cfg.jobs[g].plan| && ChunkInv(cfg, s, g, i)
    requires WorkerInv(cfg, s, w)
    requires PhaseInv(cfg, s, s.workers[w].f)
    ensures ChunkInv(cfg, DoAnswer(cfg, s, w), g, i)
  {
  }

  lemma AnswerInv(cfg: Config, s: State, w: nat)
    requires ValidConfig(cfg) && Inv(cfg, s) && Enabled(cfg, s, Answer(w))
    ensures Inv(cfg, DoAnswer(cfg, s, w))
  {
    var s' := DoAnswer(cfg, s, w);
    forall v | 0 <= v < |s'.workers|
      ensures WorkerInv(cfg, s', v)
    {
      AnswerWorkers(cfg, s, w, v);
    }
    forall g | 0 <= g < |s'.files|
      ensures PhaseInv(cfg, s', g) && ReadInv(cfg, cfg.jobs[g], s'.files[g])
    {
      AnswerPhases(cfg, s, w, g);
      AnswerReads(cfg, s, w, g);
    }
    forall g, i | 0 <= g < |s'.files| && 0 <= i < |cfg.jobs[g].plan|
      ensures ChunkInv(cfg, s', g, i)
    {
      AnswerChunks(cfg, s, w, g, i);
    }
  }

  lemma AcceptWorkers(cfg: Config, s: State, f: nat, w: nat, v: nat)
    requires ValidConfig(cfg) && Shape(cfg, s) && Enabled(cfg, s, Accept(f, w))
    requires v < |s.workers| && WorkerInv(cfg, s, v)
    requires ChunkInv(cfg, s, f, |s.files[f].owners|)
    ensures WorkerInv(cfg, DoAccept(cfg, s, f, w), v)
  {
  }

  lemma AcceptPhases(cfg: Config, s: State, f: nat, w: nat, g: nat)
    requires ValidConfig(cfg) && Shape(cfg, s) && Enabled(cfg, s, Accept(f, w))
    requires g < |s.files| && PhaseInv(cfg, s, g)
    ensures PhaseInv(cfg, DoAccept(cfg, s, f, w), g)
  {
  }

  lemma AcceptReads(cfg: Config, s: State, f: nat, w: nat, g: nat)
    requires ValidConfig(cfg) && Shape(cfg, s) && Enabled(cfg, s, Accept(f, w))
    requires g < |s.files| && ReadInv(cfg, cfg.jobs[g], s.files[g])
    ensures ReadInv(cfg, cfg.jobs[g], DoAccept(cfg, s, f, w).files[g])
  {
    ReadInvFrame(cfg, cfg.jobs[g], s.files[g], DoAccept(cfg, s, f, w).files[g]);
  }

  lemma AcceptChunks(cfg: Config, s: State, f: nat, w: nat, g: nat, i: nat)
    requires ValidConfig(cfg) && Shape(cfg, s) && Enabled(cfg, s, Accept(f, w))
    requires g < |s.files| && i < |cfg.jobs[g].plan| && ChunkInv(cfg, s, g, i)
    ensures ChunkInv(cfg, DoAccept(cfg, s, f, w), g, i)
  {
  }

  lemma AcceptInv(cfg: Config, s: State, f: nat, w: nat)
    requires ValidConfig(cfg) && Inv(cfg, s) && Enabled(cfg, s, Accept(f, w))
    ensures Inv(cfg, DoAccept(cfg, s, f, w))
  {
    var s' := DoAccept(cfg, s, f, w);
    forall v | 0 <= v < |s'.workers|
      ensures WorkerInv(cfg, s', v)
    {
      AcceptWorkers(cfg, s, f, w, v);
    }
    forall g | 0 <= g < |s'.files|
      ensures PhaseInv(cfg, s', g) && ReadInv(cfg, cfg.jobs[g], s'.files[g])
    {
      AcceptPhases(cfg, s, f, w, g);
      AcceptReads(cfg, s, f, w, g);
    }
    forall g, i | 0 <= g < |s'.files| && 0 <= i < |cfg.jobs[g].plan|
      ensures ChunkInv(cfg, s', g, i)
    {
      AcceptChunks(cfg, s, f, w, g, i);
    }
  }

  lemma FirstBytesNext(j: Job, i: nat, n: nat, k: nat)
    requires WellCut(j) && i < |j.plan| && n + k <= ChunkSize(j, i)
    ensures FirstBytes(j, i, n) + j.content[j.plan[i].lo + n..j.plan[i].lo + n + k] == FirstBytes(j, i, n + k)
  {
    var bytes := ChunkBytes(j, i);
    assert j.content[j.plan[i].lo + n..j.plan[i].lo + n + k] == bytes[n..n + k];
    assert bytes[..n] + bytes[n..n + k] == bytes[..n + k];
  }

  /** The next k bytes of a chunk extend the part of it that a buffer holds. */
  lemma MoreBytes(cfg: Config, j: Job, i: nat, b: seq<byte>, got: nat, k: nat)
    requires ValidJob(j, cfg.bufSize) && i < |j.plan| && got + k <= ChunkSize(j, i) && |b| == cfg.bufSize
    requires b[..got] == FirstBytes(j, i, got)
    ensures var data := j.content[j.plan[i].lo + got..j.plan[i].lo + got + k];
            Overwrite(b, got, data)[..got + k] == FirstBytes(j, i, got + k)
  {
    var data := j.content[j.plan[i].lo + got..j.plan[i].lo + got + k];
    var b' := Overwrite(b, got, data);
    assert b'[..got + k] == b'[..got] + b'[got..got + k];
    FirstBytesNext(j, i, got, k);
  }

  /** A Read of a chunk delivered with an error leaves the output as it is. */
  lemma ReadOfError(cfg: Config, j: Job, x: File, x': File)
    requires ValidJob(j, cfg.bufSize) && FileShape(cfg, x, j) && FileShape(cfg, x', j)
    requires ReadInv(cfg, j, x) && x.cur < |j.plan| && x.promises[x.cur].Ready?
    requires j.fates[x.cur] != NoError && x.promises[x.cur].err == j.fates[x.cur]
    requires x'.promises == x.promises && x'.out == x.out
    requires x'.cur == (if j.fates[x.cur] == Eof then x.cur + 1 else x.cur)
    ensures ReadInv(cfg, j, x')
  {
    assert x.promises == x.promises[x.cur := x.promises[x.cur]];
    PassInvStep(j, x, x', x.promises[x.cur]);
    assert InCurrent(cfg, j, x) == [];
    if j.fates[x.cur] == Eof {
      NothingOfNext(cfg, j, x, x');
      assert Assembled(j, x.cur + 1) == Assembled(j, x.cur) + [];
    }
  }

  /** The promise the consumer is at becomes p, and the consumer stays or moves on. */
  lemma PassInvStep(j: Job, x: File, x': File, p: Promise<nat>)
    requires |x.promises| == |j.plan| == |j.fates| && x.cur < |j.plan| && PassInv(j, x)
    requires p.Ready? && x'.promises == x.promises[x.cur := p]
    requires (x'.cur == x.cur && !p.drained) ||
             (x'.cur == x.cur + 1 && (j.fates[x.cur] == NoError || j.fates[x.cur] == Eof) &&
              (p.drained <==> j.fates[x.cur] == NoError))
    ensures PassInv(j, x')
  {
  }

  lemma NothingOfNext(cfg: Config, j: Job, x: File, x': File)
    requires ValidJob(j, cfg.bufSize) && FileShape(cfg, x, j) && FileShape(cfg, x', j)
    requires x.cur < |j.plan| && PassInv(j, x) && x'.cur == x.cur + 1
    requires x'.cur < |j.plan| ==> x'.promises[x'.cur] == x.promises[x'.cur]
    ensures InCurrent(cfg, j, x') == []
  {
  }

  /** A Read at the end of an error-free chunk counts the whole chunk as passed. */
  lemma ReadOfEnd(cfg: Config, j: Job, x: File, x': File)
    requires ValidJob(j, cfg.bufSize) && FileShape(cfg, x, j) && FileShape(cfg, x', j)
    requires ReadInv(cfg, j, x) && x.cur < |j.plan| && x.promises[x.cur].Ready?
    requires j.fates[x.cur] == NoError && x.promises[x.cur].pos == j.sizes[x.cur]
    requires x'.promises == x.promises[x.cur := x.promises[x.cur].(err := Eof, drained := true)]
    requires x'.out == x.out && x'.cur == x.cur + 1
    ensures ReadInv(cfg, j, x')
  {
    PassInvStep(j, x, x', x.promises[x.cur].(err := Eof, drained := true));
    NothingOfNext(cfg, j, x, x');
    assert InCurrent(cfg, j, x) == Part(j, x.cur);
  }

  /** A Read inside an error-free chunk moves the position and adds the bytes it passed. */
  lemma ReadOfBytes(cfg: Config, j: Job, x: File, x': File, n: nat, more: seq<byte>)
    requires ValidJob(j, cfg.bufSize) && FileShape(cfg, x, j) && FileShape(cfg, x', j)
    requires ReadInv(cfg, j, x) && x.cur < |j.plan| && x.promises[x.cur].Ready?
    requires j.fates[x.cur] == NoError
    requires x.promises[x.cur].pos + n <= ChunkSize(j, x.cur)
    requires x'.promises == x.promises[x.cur := x.promises[x.cur].(pos := x.promises[x.cur].pos + n)]
    requires FirstBytes(j, x.cur, x.promises[x.cur].pos) + more == FirstBytes(j, x.cur, x.promises[x.cur].pos + n)
    requires x'.out == x.out + more
    requires x'.cur == x.cur
    ensures ReadInv(cfg, j, x')
  {
    PassInvStep(j, x, x', x.promises[x.cur].(pos := x.promises[x.cur].pos + n));
    Append(Assembled(j, x.cur), InCurrent(cfg, j, x), more);
  }

  lemma Append(a: seq<byte>, b: seq<byte>, c: seq<byte>)
    ensures (a + b) + c == a + (b + c)
  {
  }

  /** One Read call adds to the output exactly the bytes the invariant says. */
  lemma OneRead(cfg: Config, s: State, f: nat, room: nat)
    requires ValidConfig(cfg) && Shape(cfg, s) && Enabled(cfg, s, Read(f, room))
    requires ReadInv(cfg, cfg.jobs[f], s.files[f]) && ChunkInv(cfg, s, f, s.files[f].cur)
    ensures ReadInv(cfg, cfg.jobs[f], AfterFileRead(cfg, s, f, room))
  {
    var x, j := s.files[f], cfg.jobs[f];
    var x' := AfterFileRead(cfg, s, f, room);
    var p := x.promises[x.cur];
    assert !p.drained && p.err == j.fates[x.cur];
    if p.err != NoError || p.pos >= p.size {
      assert ReadCount(p, room) == 0;
      assert x'.out == x.out + s.buffers[p.buf][p.pos..p.pos];
      assert s.buffers[p.buf][p.pos..p.pos] == [];
    }
    if p.err != NoError {
      assert x'.promises == x.promises;
      ReadOfError(cfg, j, x, x');
    } else if p.pos >= p.size {
      ReadOfEnd(cfg, j, x, x');
    } else {
      var n := ReadCount(p, room);
      var more := s.buffers[p.buf][p.pos..p.pos + n];
      BufferHolds(j, x.cur, s.buffers[p.buf], p.size, p.pos, n);
      ReadOfBytes(cfg, j, x, x', n, more);
    }
  }

  /** A buffer that holds the beginning of a chunk holds any stretch of it. */
  lemma BufferHolds(j: Job, i: nat, b: seq<byte>, size: nat, pos: nat, n: nat)
    requires WellCut(j) && i < |j.plan| && pos + n <= size <= ChunkSize(j, i) && size <= |b|
    requires b[..size] == FirstBytes(j, i, size)
    ensures FirstBytes(j, i, pos) + b[pos..pos + n] == FirstBytes(j, i, pos + n)
  {
    var bytes := ChunkBytes(j, i);
    StretchOfPrefix(b, size, pos, n);
    StretchOfPrefix(bytes, size, pos, n);
    assert bytes[..pos] + bytes[pos..pos + n] == bytes[..pos + n];
  }

  lemma StretchOfPrefix(b: seq<byte>, size: nat, pos: nat, n: nat)
    requires pos + n <= size <= |b|
    ensures b[..size][pos..pos + n] == b[pos..pos + n]
  {
    var u, v := b[..size][pos..pos + n], b[pos..pos + n];
    assert |u| == |v| && forall k :: 0 <= k < n ==> u[k] == v[k];
  }

  /** Delivering a chunk the consumer has not passed leaves what it has read as it is. */
  lemma DeliverToFile(cfg: Config, j: Job, x: File, i: nat, p: Promise<nat>)
    requires ValidJob(j, cfg.bufSize) && FileShape(cfg, x, j) && ReadInv(cfg, j, x)
    requires i < |j.plan| && x.promises[i].Unready?
    requires p.Ready? && p.pos == 0 && !p.drained && p.buf < cfg.workers && p.size <= ChunkSize(j, i)
    ensures FileShape(cfg, x.(promises := x.promises[i := p]), j)
    ensures ReadInv(cfg, j, x.(promises := x.promises[i := p]))
  {
    assert i >= x.cur;
    var x' := x.(promises := x.promises[i := p]);
    assert forall k :: 0 <= k < |x.promises| && k != i ==> x'.promises[k] == x.promises[k];
    if i == x.cur {
      assert FirstBytes(j, i, 0) == [];
    }
    assert InCurrent(cfg, j, x') == InCurrent(cfg, j, x);
  }

  lemma ReceiveWorkers(cfg: Config, s: State, w: nat, k: nat, v: nat)
    requires ValidConfig(cfg) && Shape(cfg, s) && Enabled(cfg, s, Receive(w, k))
    requires v < |s.workers| && WorkerInv(cfg, s, v)
    ensures WorkerInv(cfg, DoReceive(cfg, s, w, k), v)
  {
    if v == w {
      var x := s.workers[w];
      MoreBytes(cfg, cfg.jobs[x.f], x.i, s.buffers[w], x.got, k);
    }
  }

  lemma ReceivePhases(cfg: Config, s: State, w: nat, k: nat, g: nat)
    requires ValidConfig(cfg) && Shape(cfg, s) && Enabled(cfg, s, Receive(w, k))
    requires g < |s.files| && PhaseInv(cfg, s, g)
    ensures PhaseInv(cfg, DoReceive(cfg, s, w, k), g)
  {
  }

  lemma ReceiveReads(cfg: Config, s: State, w: nat, k: nat, g: nat)
    requires ValidConfig(cfg) && Shape(cfg, s) && Enabled(cfg, s, Receive(w, k))
    requires g < |s.files| && ReadInv(cfg, cfg.jobs[g], s.files[g])
    ensures ReadInv(cfg, cfg.jobs[g], DoReceive(cfg, s, w, k).files[g])
  {
  }

  lemma ReceiveChunks(cfg: Config, s: State, w: nat, k: nat, g: nat, i: nat)
    requires ValidConfig(cfg) && Shape(cfg, s) && Enabled(cfg, s, Receive(w, k))
    requires g < |s.files| && i < |cfg.jobs[g].plan| && ChunkInv(cfg, s, g, i)
    requires WorkerInv(cfg, s, w)
    ensures ChunkInv(cfg, DoReceive(cfg, s, w, k), g, i)
  {
  }

  lemma ReceiveInv(cfg: Config, s: State, w: nat, k: nat)
    requires ValidConfig(cfg) && Inv(cfg, s) && Enabled(cfg, s, Receive(w, k))
    ensures Inv(cfg, DoReceive(cfg, s, w, k))
  {
    var s' := DoReceive(cfg, s, w, k);
    forall v | 0 <= v < |s'.workers|
      ensures WorkerInv(cfg, s', v)
    {
      ReceiveWorkers(cfg, s, w, k, v);
    }
    forall g | 0 <= g < |s'.files|
      ensures PhaseInv(cfg, s', g) && ReadInv(cfg, cfg.jobs[g], s'.files[g])
    {
      ReceivePhases(cfg, s, w, k, g);
      ReceiveReads(cfg, s, w, k, g);
    }
    forall g, i | 0 <= g < |s'.files| && 0 <= i < |cfg.jobs[g].plan|
      ensures ChunkInv(cfg, s', g, i)
    {
      ReceiveChunks(cfg, s, w, k, g, i);
    }
  }

  lemma DeliverWorkers(cfg: Config, s: State, w: nat, v: nat)
    requires ValidConfig(cfg) && Shape(cfg, s) && Enabled(cfg, s, Deliver(w))
    requires v < |s.workers| && WorkerInv(cfg, s, v)
    requires WorkerInv(cfg, s, w)
    ensures WorkerInv(cfg, DoDeliver(cfg, s, w), v)
  {
  }

  lemma DeliverPhases(cfg: Config, s: State, w: nat, g: nat)
    requires ValidConfig(cfg) && Shape(cfg, s) && Enabled(cfg, s, Deliver(w))
    requires g < |s.files| && PhaseInv(cfg, s, g)
    ensures PhaseInv(cfg, DoDeliver(cfg, s, w), g)
  {
  }

  lemma DeliverReads(cfg: Config, s: State, w: nat, g: nat)
    requires ValidConfig(cfg) && Shape(cfg, s) && Enabled(cfg, s, Deliver(w))
    requires g < |s.files| && ReadInv(cfg, cfg.jobs[g], s.files[g])
    requires WorkerInv(cfg, s, w)
    ensures ReadInv(cfg, cfg.jobs[g], DoDeliver(cfg, s, w).files[g])
  {
    var x := s.workers[w];
    if g == x.f {
      DeliverToFile(cfg, cfg.jobs[g], s.files[g], x.i, Delivered(w, x.got, cfg.jobs[g].fates[x.i]));
    }
  }

  lemma DeliverChunks(cfg: Config, s: State, w: nat, g: nat, i: nat)
    requires ValidConfig(cfg) && Shape(cfg, s) && Enabled(cfg, s, Deliver(w))
    requires g < |s.files| && i < |cfg.jobs[g].plan| && ChunkInv(cfg, s, g, i)
    requires WorkerInv(cfg, s, w)
    ensures ChunkInv(cfg, DoDeliver(cfg, s, w), g, i)
  {
    var x, s' := s.workers[w], DoDeliver(cfg, s, w);
    if g == x.f && i == x.i {
      assert s'.buffers[w] == s.buffers[w];
    } else {
      assert s'.files[g].promises[i] == s.files[g].promises[i];
    }
  }

  lemma DeliverInv(cfg: Config, s: State, w: nat)
    requires ValidConfig(cfg) && Inv(cfg, s) && Enabled(cfg, s, Deliver(w))
    ensures Inv(cfg, DoDeliver(cfg, s, w))
  {
    var s' := DoDeliver(cfg, s, w);
    forall v | 0 <= v < |s'.workers|
      ensures WorkerInv(cfg, s', v)
    {
      DeliverWorkers(cfg, s, w, v);
    }
    forall g | 0 <= g < |s'.files|
      ensures PhaseInv(cfg, s', g) && ReadInv(cfg, cfg.jobs[g], s'.files[g])
    {
      DeliverPhases(cfg, s, w, g);
      DeliverReads(cfg, s, w, g);
    }
    forall g, i | 0 <= g < |s'.files| && 0 <= i < |cfg.jobs[g].plan|
      ensures ChunkInv(cfg, s', g, i)
    {
      DeliverChunks(cfg, s, w, g, i);
    }
  }

  lemma ReadWorkers(cfg: Config, s: State, f: nat, room: nat, v: nat)
    requires ValidConfig(cfg) && Shape(cfg, s) && Enabled(cfg, s, Read(f, room))
    requires v < |s.workers| && WorkerInv(cfg, s, v)
    ensures WorkerInv(cfg, DoRead(cfg, s, f, room), v)
  {
    var s' := DoRead(cfg, s, f, room);
    assert forall g :: 0 <= g < |s.files| && g != f ==> s'.files[g] == s.files[g];
  }

  lemma ReadPhases(cfg: Config, s: State, f: nat, room: nat, g: nat)
    requires ValidConfig(cfg) && Shape(cfg, s) && Enabled(cfg, s, Read(f, room))
    requires g < |s.files| && PhaseInv(cfg, s, g)
    requires ChunkInv(cfg, s, f, s.files[f].cur)
    requires ReadInv(cfg, cfg.jobs[f], s.files[f])
    ensures PhaseInv(cfg, DoRead(cfg, s, f, room), g)
  {
  }

  lemma ReadReads(cfg: Config, s: State, f: nat, room: nat, g: nat)
    requires ValidConfig(cfg) && Shape(cfg, s) && Enabled(cfg, s, Read(f, room))
    requires g < |s.files| && ReadInv(cfg, cfg.jobs[g], s.files[g])
    requires ChunkInv(cfg, s, f, s.files[f].cur)
    ensures ReadInv(cfg, cfg.jobs[g], DoRead(cfg, s, f, room).files[g])
  {
    if g == f {
      OneRead(cfg, s, f, room);
    }
  }

  lemma ReadChunks(cfg: Config, s: State, f: nat, room: nat, g: nat, i: nat)
    requires ValidConfig(cfg) && Shape(cfg, s) && Enabled(cfg, s, Read(f, room))
    requires g < |s.files| && i < |cfg.jobs[g].plan| && ChunkInv(cfg, s, g, i)
    requires ChunkInv(cfg, s, f, s.files[f].cur)
    requires ReadInv(cfg, cfg.jobs[f], s.files[f])
    ensures ChunkInv(cfg, DoRead(cfg, s, f, room), g, i)
  {
    var s' := DoRead(cfg, s, f, room);
    if g == f && i == s.files[f].cur {
      assert s'.files[f].promises[i] == AfterRead(s.files[f].promises[i], room);
    } else {
      assert s'.files[g].promises[i] == s.files[g].promises[i];
    }
  }

  lemma ReadStepInv(cfg: Config, s: State, f: nat, room: nat)
    requires ValidConfig(cfg) && Inv(cfg, s) && Enabled(cfg, s, Read(f, room))
    ensures Inv(cfg, DoRead(cfg, s, f, room))
  {
    var s' := DoRead(cfg, s, f, room);
    forall v | 0 <= v < |s'.workers|
      ensures WorkerInv(cfg, s', v)
    {
      ReadWorkers(cfg, s, f, room, v);
    }
    forall g | 0 <= g < |s'.files|
      ensures PhaseInv(cfg, s', g) && ReadInv(cfg, cfg.jobs[g], s'.files[g])
    {
      ReadPhases(cfg, s, f, room, g);
      ReadReads(cfg, s, f, room, g);
    }
    forall g, i | 0 <= g < |s'.files| && 0 <= i < |cfg.jobs[g].plan|
      ensures ChunkInv(cfg, s', g, i)
    {
      ReadChunks(cfg, s, f, room, g, i);
    }
  }

  lemma ReleaseWorkers(cfg: Config, s: State, w: nat, v: nat)
    requires ValidConfig(cfg) && Shape(cfg, s) && Enabled(cfg, s, Release(w))
    requires v < |s.workers| && WorkerInv(cfg, s, v)
    ensures WorkerInv(cfg, Apply(cfg, s, Release(w)), v)
  {
  }

  lemma ReleasePhases(cfg: Config, s: State, w: nat, g: nat)
    requires ValidConfig(cfg) && Shape(cfg, s) && Enabled(cfg, s, Release(w))
    requires g < |s.files| && PhaseInv(cfg, s, g)
    ensures PhaseInv(cfg, Apply(cfg, s, Release(w)), g)
  {
  }

  lemma ReleaseChunks(cfg: Config, s: State, w: nat, g: nat, i: nat)
    requires ValidConfig(cfg) && Shape(cfg, s) && Enabled(cfg, s, Release(w))
    requires g < |s.files| && i < |cfg.jobs[g].plan| && ChunkInv(cfg, s, g, i)
    requires WorkerInv(cfg, s, w)
    ensures ChunkInv(cfg, Apply(cfg, s, Release(w)), g, i)
  {
  }

  lemma ReleaseInv(cfg: Config, s: State, w: nat)
    requires ValidConfig(cfg) && Inv(cfg, s) && Enabled(cfg, s, Release(w))
    ensures Inv(cfg, Apply(cfg, s, Release(w)))
  {
    var s' := Apply(cfg, s, Release(w));
    forall v | 0 <= v < |s'.workers|
      ensures WorkerInv(cfg, s', v)
    {
      ReleaseWorkers(cfg, s, w, v);
    }
    forall g | 0 <= g < |s'.files|
      ensures PhaseInv(cfg, s', g) && ReadInv(cfg, cfg.jobs[g], s'.files[g])
    {
      ReleasePhases(cfg, s, w, g);
    }
    forall g, i | 0 <= g < |s'.files| && 0 <= i < |cfg.jobs[g].plan|
      ensures ChunkInv(cfg, s', g, i)
    {
      ReleaseChunks(cfg, s, w, g, i);
    }
  }

  lemma StepInv(cfg: Config, s: State, step: Step)
    requires ValidConfig(cfg) && Inv(cfg, s) && Enabled(cfg, s, step)
    ensures Inv(cfg, Apply(cfg, s, step))
  {
    match step
    case Probe(f, w) => ProbeInv(cfg, s, f, w);
    case Answer(w) => AnswerInv(cfg, s, w);
    case Accept(f, w) => AcceptInv(cfg, s, f, w);
    case Receive(w, k) => ReceiveInv(cfg, s, w, k);
    case Deliver(w) => DeliverInv(cfg, s, w);
    case Read(f, room) => ReadStepInv(cfg, s, f, room);
    case Release(w) => ReleaseInv(cfg, s, w);
  }

  /** The invariant holds in every state of every run. */
  lemma {:induction false} RunInv(cfg: Config, steps: seq<Step>)
    requires ValidConfig(cfg) && Run(cfg, steps)
    ensures Inv(cfg, After(cfg, steps))
    decreases |steps|
  {
    var n := |steps| - 1;
    if n < 0 {
      InitInv(cfg);
    } else {
      RunInv(cfg, steps[..n]);
      StepInv(cfg, After(cfg, steps[..n]), steps[n]);
    }
  }

  // ---- what the consumer gets ----

  /** Chunk i is delivered without an error and in full. */
  ghost predicate Full(j: Job, i: nat)
    requires i < |j.fates| == |j.sizes| == |j.plan|
  {
    j.fates[i] == NoError && j.sizes[i] == ChunkSize(j, i)
  }

  ghost predicate AllFull(j: Job, k: nat)
    requires k <= |j.fates| == |j.sizes| == |j.plan|
  {
    forall i :: 0 <= i < k ==> Full(j, i)
  }

  /** How far into the file the first k chunks reach. */
  ghost function Reach(j: Job, k: nat): nat
    requires k <= |j.plan|
  {
    if k == 0 then 0 else j.plan[k - 1].hi
  }

  lemma ReachStep(cfg: Config, j: Job, k: nat)
    requires ValidJob(j, cfg.bufSize) && k < |j.plan|
    ensures Reach(j, k) == j.plan[k].lo && Reach(j, k + 1) == Reach(j, k) + ChunkSize(j, k) <= |j.content|
    ensures |j.content| > 0 ==> ChunkSize(j, k) > 0
  {
    ChunkingBounds(j.plan, |j.content|, k);
    assert k > 0 ==> Adjacent(j.plan, k);
  }

  lemma ReachNext(cfg: Config, j: Job, k: nat)
    requires ValidJob(j, cfg.bufSize) && k < |j.plan|
    ensures Reach(j, k) == j.plan[k].lo <= Reach(j, k + 1) == j.plan[k].hi <= |j.content|
    ensures |j.content| > 0 ==> Reach(j, k) < Reach(j, k + 1)
    ensures j.content[..Reach(j, k)] + ChunkBytes(j, k) == j.content[..Reach(j, k + 1)]
  {
    ReachStep(cfg, j, k);
    NextStretch(j.content, j.plan[k].lo, j.plan[k].hi);
  }

  lemma FullPart(j: Job, i: nat)
    requires WellCut(j) && i < |j.plan| && Full(j, i)
    ensures Part(j, i) == ChunkBytes(j, i)
  {
  }

  /** The assembled chunks are as long as the stretch they come from exactly when none of them
      is missing or short, and then they are that stretch. */
  lemma {:induction false} AssembledLength(cfg: Config, j: Job, k: nat)
    requires ValidJob(j, cfg.bufSize) && k <= |j.plan|
    ensures Reach(j, k) <= |j.content|
    ensures |Assembled(j, k)| <= Reach(j, k)
    ensures AllFull(j, k) ==> Assembled(j, k) == j.content[..Reach(j, k)]
    ensures |j.content| > 0 && !AllFull(j, k) ==> |Assembled(j, k)| < Reach(j, k)
  {
    AssembledCount(j, k);
    SizeBound(cfg, j, k);
    if AllFull(j, k) {
      AssembledWhole(cfg, j, k);
    } else if |j.content| > 0 {
      var i :| 0 <= i < k && !Full(j, i);
      SizeShort(cfg, j, k, i);
    }
  }

  /** The bytes the first k chunks add to the stream, counted. */
  ghost function AssembledSize(j: Job, k: nat): nat
    requires WellCut(j) && k <= |j.plan|
  {
    if k == 0 then 0 else AssembledSize(j, k - 1) + if j.fates[k - 1] == NoError then j.sizes[k - 1] else 0
  }

  lemma {:induction false} AssembledCount(j: Job, k: nat)
    requires WellCut(j) && k <= |j.plan|
    ensures |Assembled(j, k)| == AssembledSize(j, k)
  {
    if k > 0 {
      AssembledCount(j, k - 1);
    }
  }

  lemma {:induction false} SizeBound(cfg: Config, j: Job, k: nat)
    requires ValidJob(j, cfg.bufSize) && k <= |j.plan|
    ensures AssembledSize(j, k) <= Reach(j, k) <= |j.content|
  {
    if k > 0 {
      SizeBound(cfg, j, k - 1);
      ReachStep(cfg, j, k - 1);
    }
  }

  lemma {:induction false} SizeShort(cfg: Config, j: Job, k: nat, i: nat)
    requires ValidJob(j, cfg.bufSize) && i < k <= |j.plan| && !Full(j, i) && |j.content| > 0
    ensures AssembledSize(j, k) < Reach(j, k)
  {
    ReachStep(cfg, j, k - 1);
    if i == k - 1 {
      SizeBound(cfg, j, k - 1);
    } else {
      SizeShort(cfg, j, k - 1, i);
    }
  }

  /** The first k chunks add up to the stretch they come from. */
  ghost predicate Whole(j: Job, k: nat)
    requires WellCut(j) && k <= |j.plan|
  {
    Reach(j, k) <= |j.content| && Assembled(j, k) == j.content[..Reach(j, k)]
  }

  lemma {:induction false} AssembledWhole(cfg: Config, j: Job, k: nat)
    requires ValidJob(j, cfg.bufSize) && k <= |j.plan| && AllFull(j, k)
    ensures Whole(j, k)
  {
    if k == 0 {
      NoneWhole(j);
    } else {
      assert AllFull(j, k - 1) && Full(j, k - 1);
      AssembledWhole(cfg, j, k - 1);
      WholeStep(cfg, j, k - 1);
    }
  }

  lemma NoneWhole(j: Job)
    requires WellCut(j)
    ensures Whole(j, 0)
  {
  }

  lemma WholeStep(cfg: Config, j: Job, k: nat)
    requires ValidJob(j, cfg.bufSize) && k < |j.plan| && Whole(j, k) && Full(j, k)
    ensures Whole(j, k + 1)
  {
    ReachStep(cfg, j, k);
    FullPart(j, k);
    NextStretch(j.content, j.plan[k].lo, j.plan[k].hi);
  }

  lemma NextStretch(content: seq<byte>, lo: nat, hi: nat)
    requires lo <= hi <= |content|
    ensures content[..lo] + content[lo..hi] == content[..hi]
  {
  }

  lemma WholePlan(cfg: Config, j: Job)
    requires ValidJob(j, cfg.bufSize)
    ensures Reach(j, |j.plan|) == |j.content|
    ensures j.content[..Reach(j, |j.plan|)] == j.content
  {
  }

  /** How far into the file the consumer is: behind the chunks it has passed and its part of the
      current one. */
  ghost function Position(cfg: Config, j: Job, x: File): nat
    requires ValidJob(j, cfg.bufSize) && FileShape(cfg, x, j)
  {
    Reach(j, x.cur) + |InCurrent(cfg, j, x)|
  }

  /** What has been read of a file never exceeds it, and is all of it up to the consumer's
      position exactly when no chunk was passed over or came short. */
  lemma FilePrefix(cfg: Config, j: Job, x: File)
    requires ValidJob(j, cfg.bufSize) && FileShape(cfg, x, j) && ReadInv(cfg, j, x)
    ensures |x.out| <= Position(cfg, j, x) <= |j.content|
    ensures x.out == j.content[..Position(cfg, j, x)] <==> j.content == [] || AllFull(j, x.cur)
    ensures x.cur == |j.plan| ==> Position(cfg, j, x) == |j.content|
  {
    var before, part := Assembled(j, x.cur), InCurrent(cfg, j, x);
    AssembledIff(cfg, j, x.cur);
    assert x.out == before + part;
    if x.cur < |j.plan| {
      ReachNext(cfg, j, x.cur);
      assert part <= ChunkBytes(j, x.cur);
      PrefixJoin(j.content, j.plan[x.cur], before, part);
    } else {
      WholePlan(cfg, j);
      assert before + [] == before;
    }
  }

  lemma {:induction false} AssembledIff(cfg: Config, j: Job, k: nat)
    requires ValidJob(j, cfg.bufSize) && k <= |j.plan|
    ensures |Assembled(j, k)| <= Reach(j, k) <= |j.content|
    ensures Assembled(j, k) == j.content[..Reach(j, k)] <==> j.content == [] || AllFull(j, k)
  {
    AssembledLength(cfg, j, k);
    if |Assembled(j, k)| < Reach(j, k) {
      assert |j.content[..Reach(j, k)]| == Reach(j, k);
    }
  }

  lemma PrefixJoin(content: seq<byte>, at: Span, before: seq<byte>, part: seq<byte>)
    requires at.lo <= at.hi <= |content| && part <= content[at.lo..at.hi]
    requires |before| <= at.lo
    ensures at.lo + |part| <= at.hi
    ensures before == content[..at.lo] <==> before + part == content[..at.lo + |part|]
  {
    assert content[..at.lo] + part == content[..at.lo + |part|];
    if before + part == content[..at.lo + |part|] {
      assert (before + part)[..|before|] == before;
    }
  }

  /** In every state of every run, what the consumer has read is the file up to its position if
      and only if it has passed no chunk that was delivered with EOF or came short. At the end of
      the stream that position is the end of the file. */
  lemma {:induction false} ReassemblySafety(cfg: Config, steps: seq<Step>, f: nat)
    requires ValidConfig(cfg) && Run(cfg, steps) && f < |cfg.jobs|
    ensures var x, j := After(cfg, steps).files[f], cfg.jobs[f];
            && |j.fates| == |j.sizes| == |j.plan| >= x.cur
            && var at := Position(cfg, j, x);
               && |x.out| <= at <= |j.content|
               && (x.out == j.content[..at] <==> j.content == [] || AllFull(j, x.cur))
               && (x.cur == |j.plan| ==> at == |j.content|)
  {
    RunInv(cfg, steps);
    FilePrefix(cfg, cfg.jobs[f], After(cfg, steps).files[f]);
  }

  lemma FileCount(cfg: Config, j: Job, x: File)
    requires ValidJob(j, cfg.bufSize) && FileShape(cfg, x, j) && ReadInv(cfg, j, x)
    requires x.cur == |j.plan| || (j.fates[x.cur] != NoError && j.fates[x.cur] != Eof)
    ensures |x.out| == |j.content| <==> x.out == j.content
    ensures x.out == j.content <==> j.content == [] || AllFull(j, |j.fates|)
  {
    AssembledLength(cfg, j, x.cur);
    WholePlan(cfg, j);
    if x.cur < |j.plan| {
      ReachNext(cfg, j, x.cur);
      assert !Full(j, x.cur);
    }
    assert x.out == Assembled(j, x.cur);
  }

  /** The consumers accept on the byte count alone, and that is enough: once the consumer of a
      file has returned, for any pattern of errors, the count is right exactly when the stream
      is the file, and that is exactly when every chunk was delivered without an error and in
      full (an empty file has nothing to lose). */
  lemma {:induction false} CountDecides(cfg: Config, steps: seq<Step>, f: nat)
    requires ValidConfig(cfg) && Run(cfg, steps) && f < |cfg.jobs|
    requires Finished(cfg, After(cfg, steps), f) && !After(cfg, steps).files[f].phase.Refused?
    ensures var x, j := After(cfg, steps).files[f], cfg.jobs[f];
            && (|x.out| == |j.content| <==> x.out == j.content)
            && (x.out == j.content <==> j.content == [] || AllFull(j, |j.fates|))
  {
    RunInv(cfg, steps);
    assert PhaseInv(cfg, After(cfg, steps), f);
    FileCount(cfg, cfg.jobs[f], After(cfg, steps).files[f]);
  }

  // ---- buffers ----

  ghost predicate Live(s: State, f: nat, i: nat)
    requires f < |s.files| && i < |s.files[f].promises|
  {
    s.files[f].promises[i].Ready? && !s.files[f].promises[i].drained
  }

  /** Each worker buffer backs at most one delivered and undrained promise, and no step writes
      a buffer that backs one. */
  lemma {:induction false} BufferOwnership(cfg: Config, steps: seq<Step>, f: nat, i: nat, g: nat, k: nat, step: Step)
    requires ValidConfig(cfg) && Run(cfg, steps)
    requires f < |cfg.jobs| && i < |cfg.jobs[f].plan| && g < |cfg.jobs| && k < |cfg.jobs[g].plan|
    requires Live(After(cfg, steps), f, i)
    ensures var s := After(cfg, steps);
            && (Live(s, g, k) && s.files[g].promises[k].buf == s.files[f].promises[i].buf ==> (f, i) == (g, k))
            && (Enabled(cfg, s, step) ==>
                  Apply(cfg, s, step).buffers[s.files[f].promises[i].buf] == s.buffers[s.files[f].promises[i].buf])
  {
    RunInv(cfg, steps);
    var s := After(cfg, steps);
    assert ChunkInv(cfg, s, f, i) && ChunkInv(cfg, s, g, k);
    if Enabled(cfg, s, step) {
      LiveNotWritten(cfg, s, f, i, step);
    }
  }

  lemma LiveNotWritten(cfg: Config, s: State, f: nat, i: nat, step: Step)
    requires ValidConfig(cfg) && Shape(cfg, s) && Enabled(cfg, s, step)
    requires f < |cfg.jobs| && i < |cfg.jobs[f].plan| && Live(s, f, i) && ChunkInv(cfg, s, f, i)
    ensures var w := s.files[f].promises[i].buf; Apply(cfg, s, step).buffers[w] == s.buffers[w]
  {
    var w := s.files[f].promises[i].buf;
    assert s.workers[w] == Blocked(f, i);
    if step.Receive? {
      assert step.w != w;
      assert DoReceive(cfg, s, step.w, step.k).buffers[w] == s.buffers[w];
    }
  }

  /** The steps of a run that call Deliver on chunk i of file f. */
  ghost function DeliverCalls(cfg: Config, steps: seq<Step>, f: nat, i: nat): nat
    requires ValidConfig(cfg) && Run(cfg, steps)
    decreases |steps|
  {
    var n := |steps| - 1;
    if n < 0 then 0
    else
      var s := After(cfg, steps[..n]);
      DeliverCalls(cfg, steps[..n], f, i) +
      (if Hits(s, steps[n], f, i) then 1 else 0)
  }

  ghost predicate Hits(s: State, step: Step, f: nat, i: nat) {
    && step.Deliver? && step.w < |s.workers| && s.workers[step.w].Filling?
    && s.workers[step.w].f == f && s.workers[step.w].i == i
  }

  lemma DeliverHit(cfg: Config, s: State, w: nat, f: nat, i: nat)
    requires ValidConfig(cfg) && Shape(cfg, s) && Enabled(cfg, s, Deliver(w)) && WorkerInv(cfg, s, w)
    requires f < |cfg.jobs| && i < |cfg.jobs[f].plan|
    ensures var before, after := s.files[f].promises[i].Ready?, DoDeliver(cfg, s, w).files[f].promises[i].Ready?;
            if Hits(s, Deliver(w), f, i) then !before && after else after == before
  {
  }

  /** A Read call touches the promise of the current chunk and no other. */
  lemma PromiseAfterRead(cfg: Config, s: State, g: nat, room: nat, f: nat, i: nat)
    requires ValidConfig(cfg) && Shape(cfg, s) && Enabled(cfg, s, Read(g, room))
    requires f < |cfg.jobs| && i < |cfg.jobs[f].plan|
    ensures var p := s.files[f].promises[i];
            DoRead(cfg, s, g, room).files[f].promises[i] ==
              if g == f && i == s.files[f].cur then AfterRead(p, room) else p
  {
    if g == f {
      var x := s.files[f];
      assert AfterFileRead(cfg, s, f, room).promises == x.promises[x.cur := AfterRead(x.promises[x.cur], room)];
    }
  }

  lemma ReadMisses(cfg: Config, s: State, g: nat, room: nat, f: nat, i: nat)
    requires ValidConfig(cfg) && Shape(cfg, s) && Enabled(cfg, s, Read(g, room))
    requires f < |cfg.jobs| && i < |cfg.jobs[f].plan|
    ensures DoRead(cfg, s, g, room).files[f].promises[i].Ready? == s.files[f].promises[i].Ready?
  {
    PromiseAfterRead(cfg, s, g, room, f, i);
  }

  lemma OtherStepsMiss(cfg: Config, s: State, step: Step, f: nat, i: nat)
    requires ValidConfig(cfg) && Shape(cfg, s) && Enabled(cfg, s, step) && !step.Deliver?
    requires f < |cfg.jobs| && i < |cfg.jobs[f].plan|
    ensures Apply(cfg, s, step).files[f].promises[i].Ready? == s.files[f].promises[i].Ready?
  {
    if step.Read? {
      ReadMisses(cfg, s, step.f, step.room, f, i);
    } else {
      assert Apply(cfg, s, step).files[f].promises == s.files[f].promises;
    }
  }

  /** Deliver is called on a chunk once if its promise is ready and never otherwise: no run
      closes `ready` twice. */
  lemma {:induction false} DeliveredOnce(cfg: Config, steps: seq<Step>, f: nat, i: nat)
    requires ValidConfig(cfg) && Run(cfg, steps)
    requires f < |cfg.jobs| && i < |cfg.jobs[f].plan|
    ensures DeliverCalls(cfg, steps, f, i) == if After(cfg, steps).files[f].promises[i].Ready? then 1 else 0
    decreases |steps|
  {
    var n := |steps| - 1;
    if n >= 0 {
      DeliveredOnce(cfg, steps[..n], f, i);
      RunInv(cfg, steps[..n]);
      var s := After(cfg, steps[..n]);
      if steps[n].Deliver? {
        DeliverHit(cfg, s, steps[n].w, f, i);
      } else {
        OtherStepsMiss(cfg, s, steps[n], f, i);
      }
    }
  }

  // ---- releasing the producer ----

  ghost predicate IsDrained(s: State, f: nat, i: nat)
    requires f < |s.files| && i < |s.files[f].promises|
  {
    s.files[f].promises[i].Ready? && s.files[f].promises[i].drained
  }

  /** The Read call that closes `finished` of chunk i of file f. */
  ghost predicate Drains(s: State, step: Step, f: nat, i: nat)
    requires f < |s.files| && i < |s.files[f].promises|
  {
    && step.Read? && step.f == f && s.files[f].cur == i
    && var p := s.files[f].promises[i]; p.Ready? && p.err == NoError && p.pos >= p.size
  }

  ghost function DrainCalls(cfg: Config, steps: seq<Step>, f: nat, i: nat): nat
    requires ValidConfig(cfg) && Run(cfg, steps)
    requires f < |cfg.jobs| && i < |cfg.jobs[f].plan|
    decreases |steps|
  {
    var n := |steps| - 1;
    if n < 0 then 0
    else DrainCalls(cfg, steps[..n], f, i) + (if Drains(After(cfg, steps[..n]), steps[n], f, i) then 1 else 0)
  }

  lemma ReadDrains(cfg: Config, s: State, g: nat, room: nat, f: nat, i: nat)
    requires ValidConfig(cfg) && Shape(cfg, s) && Enabled(cfg, s, Read(g, room))
    requires f < |cfg.jobs| && i < |cfg.jobs[f].plan| && ChunkInv(cfg, s, f, i)
    ensures Drains(s, Read(g, room), f, i) ==> !IsDrained(s, f, i)
    ensures IsDrained(DoRead(cfg, s, g, room), f, i) <==> IsDrained(s, f, i) || Drains(s, Read(g, room), f, i)
  {
    PromiseAfterRead(cfg, s, g, room, f, i);
  }

  lemma DeliverDoesNotDrain(cfg: Config, s: State, w: nat, f: nat, i: nat)
    requires ValidConfig(cfg) && Shape(cfg, s) && Enabled(cfg, s, Deliver(w)) && WorkerInv(cfg, s, w)
    requires f < |cfg.jobs| && i < |cfg.jobs[f].plan|
    ensures IsDrained(DoDeliver(cfg, s, w), f, i) <==> IsDrained(s, f, i)
  {
  }

  lemma OthersDoNotDrain(cfg: Config, s: State, step: Step, f: nat, i: nat)
    requires ValidConfig(cfg) && Shape(cfg, s) && Enabled(cfg, s, step) && !step.Read?
    requires step.Deliver? ==> WorkerInv(cfg, s, step.w)
    requires f < |cfg.jobs| && i < |cfg.jobs[f].plan|
    ensures IsDrained(Apply(cfg, s, step), f, i) <==> IsDrained(s, f, i)
  {
    if step.Deliver? {
      DeliverDoesNotDrain(cfg, s, step.w, f, i);
    } else {
      assert Apply(cfg, s, step).files[f].promises == s.files[f].promises;
    }
  }

  /** The channel that releases the producer is closed once if the promise is drained and never
      otherwise. */
  lemma {:induction false} DrainedOnce(cfg: Config, steps: seq<Step>, f: nat, i: nat)
    requires ValidConfig(cfg) && Run(cfg, steps)
    requires f < |cfg.jobs| && i < |cfg.jobs[f].plan|
    ensures DrainCalls(cfg, steps, f, i) == if IsDrained(After(cfg, steps), f, i) then 1 else 0
    decreases |steps|
  {
    var n := |steps| - 1;
    if n >= 0 {
      DrainedOnce(cfg, steps[..n], f, i);
      RunInv(cfg, steps[..n]);
      var s := After(cfg, steps[..n]);
      if steps[n].Read? {
        assert ChunkInv(cfg, s, f, i);
        ReadDrains(cfg, s, steps[n].f, steps[n].room, f, i);
      } else {
        OthersDoNotDrain(cfg, s, steps[n], f, i);
      }
    }
  }

  /** Every chunk the consumer has left behind was delivered exactly once, whatever came of it,
      and its producer was released exactly once if it had no error and never if it had one. */
  lemma {:induction false} PassedOnce(cfg: Config, steps: seq<Step>, f: nat, i: nat)
    requires ValidConfig(cfg) && Run(cfg, steps) && f < |cfg.jobs|
    requires i < After(cfg, steps).files[f].cur
    ensures i < |cfg.jobs[f].plan| == |cfg.jobs[f].fates|
    ensures DeliverCalls(cfg, steps, f, i) == 1
    ensures DrainCalls(cfg, steps, f, i) == if cfg.jobs[f].fates[i] == NoError then 1 else 0
  {
    RunInv(cfg, steps);
    assert ReadInv(cfg, cfg.jobs[f], After(cfg, steps).files[f]);
    DeliveredOnce(cfg, steps, f, i);
    DrainedOnce(cfg, steps, f, i);
  }

  // ---- first requests ----

  /** The first requests made for file f. */
  ghost function Probes(steps: seq<Step>, f: nat): nat {
    var n := |steps| - 1;
    if n < 0 then 0 else Probes(steps[..n], f) + (if IsProbe(steps[n], f) then 1 else 0)
  }

  ghost predicate IsProbe(step: Step, f: nat) {
    step.Probe? && step.f == f
  }

  /** How a file's count of first requests stands to the fallbacks it has left. */
  ghost predicate Probed(j: Job, x: File, probes: nat) {
    match x.phase
    case Waiting => probes + x.fallbacks == j.fallbacks
    case Asking(_) => probes + x.fallbacks == j.fallbacks + 1
    case _ => probes == j.fallbacks + 1
  }

  lemma AnswerProbes(cfg: Config, s: State, w: nat, f: nat, probes: nat)
    requires ValidConfig(cfg) && Shape(cfg, s) && Enabled(cfg, s, Answer(w)) && WorkerInv(cfg, s, w)
    requires f < |cfg.jobs| && Probed(cfg.jobs[f], s.files[f], probes)
    ensures Probed(cfg.jobs[f], DoAnswer(cfg, s, w).files[f], probes)
  {
  }

  lemma ProbeCounts(cfg: Config, s: State, g: nat, w: nat, f: nat, probes: nat)
    requires ValidConfig(cfg) && Shape(cfg, s) && Enabled(cfg, s, Probe(g, w))
    requires f < |cfg.jobs| && Probed(cfg.jobs[f], s.files[f], probes)
    ensures Probed(cfg.jobs[f], DoProbe(cfg, s, g, w).files[f], probes + if g == f then 1 else 0)
  {
  }

  lemma OthersDoNotProbe(cfg: Config, s: State, step: Step, f: nat)
    requires ValidConfig(cfg) && Shape(cfg, s) && Enabled(cfg, s, step) && !step.Probe? && !step.Answer?
    requires f < |cfg.jobs|
    ensures var x, x' := s.files[f], Apply(cfg, s, step).files[f];
            x'.phase == x.phase || (x.phase.Streaming? && x'.phase.Stopped?)
    ensures Apply(cfg, s, step).files[f].fallbacks == s.files[f].fallbacks
  {
    if step.Read? && step.f == f {
      assert Apply(cfg, s, step).files[f] == AfterFileRead(cfg, s, f, step.room);
    }
  }

  /** A download makes a first request for every fallback and one more: when it is streaming, stopped
      or refused it has made exactly those, and before that it has made one for every fallback it
      has used up, and the one in flight. */
  lemma {:induction false} ProbedOncePerFallback(cfg: Config, steps: seq<Step>, f: nat)
    requires ValidConfig(cfg) && Run(cfg, steps) && f < |cfg.jobs|
    ensures Probed(cfg.jobs[f], After(cfg, steps).files[f], Probes(steps, f))
    ensures var x := After(cfg, steps).files[f];
            x.phase.Streaming? || x.phase.Stopped? || x.phase.Refused? ==> Probes(steps, f) == cfg.jobs[f].fallbacks + 1
    decreases |steps|
  {
    var n := |steps| - 1;
    if n >= 0 {
      ProbedOncePerFallback(cfg, steps[..n], f);
      RunInv(cfg, steps[..n]);
      var s, step, probes := After(cfg, steps[..n]), steps[n], Probes(steps[..n], f);
      if step.Probe? {
        ProbeCounts(cfg, s, step.f, step.w, f, probes);
      } else if step.Answer? {
        AnswerProbes(cfg, s, step.w, f, probes);
      } else {
        OthersDoNotProbe(cfg, s, step, f);
      }
    }
  }
}
