/**
 What every run of the gateway/worker link keeps: responses match requests whatever
 fails and reconnects, and the shared-memory ring is safe exactly as long as no more
 requests are outstanding than there are slots.
 */
module WorkerLinkSafety {
  import opened Wrappers
  import opened WorkerLink
  import Powers

  // ---------------------------------------------------------------- runs

  ghost predicate Legal(cfg: Config, s: State, run: seq<Action>)
    requires Shape(cfg, s)
    decreases |run|
  {
    run == [] ||
    (Enabled(cfg, s, run[0]) &&
     (ShapeKept(cfg, s, run[0]);
      Legal(cfg, Apply(cfg, s, run[0]), run[1..])))
  }

  ghost function Final(cfg: Config, s: State, run: seq<Action>): State
    requires Shape(cfg, s) && Legal(cfg, s, run)
    ensures Shape(cfg, Final(cfg, s, run))
    decreases |run|
  {
    if run == [] then s
    else
      ShapeKept(cfg, s, run[0]);
      Final(cfg, Apply(cfg, s, run[0]), run[1..])
  }

  // ---------------------------------------------------------------- matching

  /** Only the gateway's current socket is open. */
  ghost predicate OneOpen(cfg: Config, s: State)
    requires Shape(cfg, s)
  {
    forall i :: 0 <= i < |s.conns| ==> (s.conns[i].open <==> s.sock == Some(i))
  }

  function Load(c: Conn): nat
  {
    |c.sent| + |c.queue| + (if c.work.Some? then 1 else 0) + |c.replies|
  }

  ghost predicate IsCurrent(cfg: Config, s: State, f: Frame)
    requires Shape(cfg, s) && |s.outcomes| < |s.requests|
  {
    s.totalSends > 0 && f == FrameOf(cfg, |s.outcomes|, s.requests[|s.outcomes|], s.totalSends - 1)
  }

  ghost predicate Answers(s: State, r: Response)
  {
    r.id == |s.outcomes| && r.serial + 1 == s.totalSends
  }

  /** The open connection carries at most the one frame sent last, or its response;
      between requests it carries nothing. */
  ghost predicate LivePipe(cfg: Config, s: State)
    requires Shape(cfg, s)
  {
    s.sock.Some? ==>
      var c := s.conns[s.sock.value];
      if s.phase.Waiting? then
        && Load(c) <= 1
        && (forall f <- c.sent + c.queue :: IsCurrent(cfg, s, f))
        && (c.work.Some? ==> IsCurrent(cfg, s, c.work.value))
        && (forall r <- c.replies :: Answers(s, r))
      else Load(c) == 0
  }

  ghost predicate SendsBounded(cfg: Config, s: State)
    requires Shape(cfg, s)
  {
    && (forall i :: 0 <= i < |s.outcomes| ==> s.sends[i] <= MAX_ATTEMPTS)
    && (forall i :: |s.outcomes| < i < |s.sends| ==> s.sends[i] == 0)
    && (|s.outcomes| < |s.sends| ==>
          match s.phase
          case Idle => s.sends[|s.outcomes|] == 0
          case Trying(a) => a < MAX_ATTEMPTS && s.sends[|s.outcomes|] <= a
          case Waiting(a) => a < MAX_ATTEMPTS && s.sends[|s.outcomes|] <= a + 1)
  }

  /** Every delivered response carries its own request's id and answers the last send
      attempt made when it was read; the id check never fails. */
  ghost predicate OutcomesMatch(s: State)
  {
    forall i :: 0 <= i < |s.outcomes| ==>
      match s.outcomes[i]
      case Delivered(r, serial) => r.id == i && r.serial + 1 == serial
      case IdMismatch => false
      case Unreachable => true
  }

  ghost predicate Matching(cfg: Config, s: State)
  {
    Shape(cfg, s) && OneOpen(cfg, s) && LivePipe(cfg, s) && SendsBounded(cfg, s) && OutcomesMatch(s)
  }

  lemma RetryMatches(cfg: Config, s: State)
    requires Shape(cfg, s) && OneOpen(cfg, s) && OutcomesMatch(s) && s.phase != Idle
    requires s.phase.attempt < MAX_ATTEMPTS && s.sends[|s.outcomes|] <= s.phase.attempt + 1
    requires forall i :: 0 <= i < |s.outcomes| ==> s.sends[i] <= MAX_ATTEMPTS
    requires forall i :: |s.outcomes| < i < |s.sends| ==> s.sends[i] == 0
    ensures Matching(cfg, Retry(s))
  {
  }

  lemma EncodeMatches(cfg: Config, s: State, a: Action)
    requires Matching(cfg, s) && Enabled(cfg, s, a) && a.Encode?
    ensures Matching(cfg, Apply(cfg, s, a))
  {
    ShapeKept(cfg, s, a);
    var s' := Apply(cfg, s, a);
    assert |s.outcomes| < |s.requests| ==> s'.requests[|s.outcomes|] == s.requests[|s.outcomes|];
  }

  lemma LockMatches(cfg: Config, s: State, a: Action)
    requires Matching(cfg, s) && Enabled(cfg, s, a) && (a.Acquire? || a.Connect?)
    ensures Matching(cfg, Apply(cfg, s, a))
  {
    ShapeKept(cfg, s, a);
  }

  lemma SendMatches(cfg: Config, s: State, a: Action)
    requires Matching(cfg, s) && Enabled(cfg, s, a) && a.Send?
    ensures Matching(cfg, Apply(cfg, s, a))
  {
    ShapeKept(cfg, s, a);
    var c := s.conns[s.sock.value];
    assert c.sent == [] && c.queue == [];
    var c' := Apply(cfg, s, a).conns[s.sock.value];
    assert forall f <- c'.sent + c'.queue :: f in c'.sent;
  }

  lemma ReceiveMatches(cfg: Config, s: State, a: Action)
    requires Matching(cfg, s) && Enabled(cfg, s, a) && a.Receive?
    ensures Matching(cfg, Apply(cfg, s, a))
  {
    ShapeKept(cfg, s, a);
    var r := s.conns[s.sock.value].replies[0];
    assert Answers(s, r);
  }

  lemma FailureMatches(cfg: Config, s: State, a: Action)
    requires Matching(cfg, s) && Enabled(cfg, s, a)
    requires a.ConnectFails? || a.SendFails? || a.ReceiveFails?
    ensures Matching(cfg, Apply(cfg, s, a))
  {
    if a.SendFails? {
      var put := if a.arrived then PutFrame(cfg, s) else s;
      assert FramesReadable(cfg, put.conns[s.sock.value]);
      RetryMatches(cfg, CountSend(put));
    } else {
      RetryMatches(cfg, s);
    }
  }

  /** A worker step touches one connection and nothing the gateway owns. */
  lemma WorkerFrame(cfg: Config, s: State, a: Action)
    requires Shape(cfg, s) && Enabled(cfg, s, a) && ByWorker(a)
    ensures var s' := Apply(cfg, s, a);
            && Shape(cfg, s') && s' == s.(conns := s'.conns) && |s'.conns| == |s.conns|
            && s'.conns[a.conn].open == s.conns[a.conn].open
            && (forall i :: 0 <= i < |s.conns| && i != a.conn ==> s'.conns[i] == s.conns[i])
  {
    ShapeKept(cfg, s, a);
  }

  lemma WorkerLivePipe(cfg: Config, s: State, a: Action)
    requires Matching(cfg, s) && Enabled(cfg, s, a) && ByWorker(a) && s.sock == Some(a.conn)
    requires Shape(cfg, Apply(cfg, s, a))
    ensures LivePipe(cfg, Apply(cfg, s, a))
  {
    var c, c' := s.conns[a.conn], Apply(cfg, s, a).conns[a.conn];
    assert c'.work.Some? ==> c'.work == c.work || c'.work.value in c.sent + c.queue;
    forall f | f in c'.sent + c'.queue
      ensures f in c.sent + c.queue
    {
    }
  }

  lemma WorkerMatches(cfg: Config, s: State, a: Action)
    requires Matching(cfg, s) && Enabled(cfg, s, a) && ByWorker(a)
    ensures Matching(cfg, Apply(cfg, s, a))
  {
    WorkerFrame(cfg, s, a);
    if s.sock == Some(a.conn) { WorkerLivePipe(cfg, s, a); }
  }

  /** Whatever fails and reconnects, in every run: each delivered response carries its
      own request's id and answers that request's last send, the id check never fails,
      and no request is sent more than three times. */
  lemma {:induction false} EveryRunMatches(cfg: Config, s: State, run: seq<Action>)
    requires Matching(cfg, s) && Legal(cfg, s, run)
    ensures Matching(cfg, Final(cfg, s, run))
    decreases |run|
  {
    if run != [] {
      StepMatches(cfg, s, run[0]);
      EveryRunMatches(cfg, Apply(cfg, s, run[0]), run[1..]);
    }
  }

  lemma StepMatches(cfg: Config, s: State, a: Action)
    requires Matching(cfg, s) && Enabled(cfg, s, a)
    ensures Matching(cfg, Apply(cfg, s, a))
  {
    match a
    case Encode(_, _) => EncodeMatches(cfg, s, a);
    case Acquire | Connect => LockMatches(cfg, s, a);
    case Send => SendMatches(cfg, s, a);
    case Receive => ReceiveMatches(cfg, s, a);
    case ConnectFails | SendFails(_) | ReceiveFails => FailureMatches(cfg, s, a);
    case ReaderPuts(_) | WorkerTakes(_) | WorkerAnswers(_, _) | WorkerDrops(_) => WorkerMatches(cfg, s, a);
  }

  lemma InitMatches(cfg: Config)
    requires cfg.slots > 0
    ensures Matching(cfg, Init(cfg))
  {
  }

  // ---------------------------------------------------------------- the ring

  ghost predicate InWindow(cfg: Config, s: State)
  {
    |s.requests| <= |s.outcomes| + cfg.slots
  }

  /** Request i's slot holds exactly its own tensor bytes (if it travels by slot). */
  ghost predicate Intact(cfg: Config, s: State, i: nat)
    requires Shape(cfg, s) && i < |s.requests|
  {
    var p := s.requests[i].payload;
    Fits(cfg, s.requests[i]) ==> s.region[i % cfg.slots][..|p|] == p
  }

  ghost predicate Overwrites(cfg: Config, s: State, i: nat, j: nat)
    requires cfg.slots > 0
  {
    i < j < |s.requests| && j % cfg.slots == i % cfg.slots && Fits(cfg, s.requests[j])
  }

  /** A slot holds the bytes of the last request that was given it. */
  ghost predicate LastWriterWins(cfg: Config, s: State)
    requires Shape(cfg, s)
  {
    forall i: nat :: i < |s.requests| ==> Intact(cfg, s, i) || exists j: nat :: Overwrites(cfg, s, i, j)
  }

  lemma EncodeKeepsLastWriter(cfg: Config, s: State, a: Action)
    requires Shape(cfg, s) && LastWriterWins(cfg, s) && Enabled(cfg, s, a) && a.Encode?
    ensures Shape(cfg, Apply(cfg, s, a)) && LastWriterWins(cfg, Apply(cfg, s, a))
  {
    ShapeKept(cfg, s, a);
    var s', n := Apply(cfg, s, a), |s.requests|;
    forall i: nat | i < |s'.requests|
      ensures Intact(cfg, s', i) || exists j: nat :: Overwrites(cfg, s', i, j)
    {
      if i < n && !Intact(cfg, s', i) {
        if Intact(cfg, s, i) {
          assert Overwrites(cfg, s', i, n);
        } else {
          var j: nat :| Overwrites(cfg, s, i, j);
          assert Overwrites(cfg, s', i, j);
        }
      }
    }
  }

  lemma SameResidue(i: nat, j: nat, m: nat)
    requires m > 0 && i < j && i % m == j % m
    ensures i + m <= j
  {
    var a, r := Powers.Euclid(i, m);
    var b, _ := Powers.Euclid(j, m);
    Powers.ScaleOrder(m, a, b);
    if a < b { Powers.MulMono(a + 1, b, m); }
  }

  /** While no more requests are outstanding than there are slots, each outstanding
      request's slot holds its own bytes. */
  lemma OutstandingIntact(cfg: Config, s: State, i: nat)
    requires Shape(cfg, s) && LastWriterWins(cfg, s) && InWindow(cfg, s)
    requires |s.outcomes| <= i < |s.requests|
    ensures Intact(cfg, s, i)
  {
    if j: nat :| Overwrites(cfg, s, i, j) {
      SameResidue(i, j, cfg.slots);
      assert false;
    }
  }

  ghost predicate Faithful(r: Response, q: Request)
  {
    r.data == None || r.data == Some(q.payload)
  }

  /** The worker read what was encoded, for every response delivered or about to be. */
  ghost predicate DataFaithful(cfg: Config, s: State)
    requires Shape(cfg, s)
  {
    && (forall i :: 0 <= i < |s.outcomes| && s.outcomes[i].Delivered? ==> Faithful(s.outcomes[i].resp, s.requests[i]))
    && (s.sock.Some? && s.phase.Waiting? ==>
          forall r <- s.conns[s.sock.value].replies :: Faithful(r, s.requests[|s.outcomes|]))
  }

  ghost predicate Safe(cfg: Config, s: State)
  {
    Matching(cfg, s) && LastWriterWins(cfg, s) && DataFaithful(cfg, s)
  }

  lemma AnswerFaithful(cfg: Config, s: State, a: Action)
    requires Safe(cfg, s) && Enabled(cfg, s, a) && a.WorkerAnswers? && InWindow(cfg, s)
    ensures Matching(cfg, Apply(cfg, s, a)) && DataFaithful(cfg, Apply(cfg, s, a))
  {
    StepMatches(cfg, s, a);
    if s.sock == Some(a.conn) && s.phase.Waiting? {
      OutstandingIntact(cfg, s, |s.outcomes|);
      var f := s.conns[a.conn].work.value;
      assert IsCurrent(cfg, s, f);
      assert ReadTensors(s.region, f.transport) == s.requests[|s.outcomes|].payload;
    }
  }

  lemma OtherFaithful(cfg: Config, s: State, a: Action)
    requires Safe(cfg, s) && Enabled(cfg, s, a) && !a.WorkerAnswers? && !a.Encode?
    ensures Matching(cfg, Apply(cfg, s, a)) && DataFaithful(cfg, Apply(cfg, s, a))
  {
    StepMatches(cfg, s, a);
  }

  lemma RegionKept(cfg: Config, s: State, a: Action)
    requires Shape(cfg, s) && LastWriterWins(cfg, s) && Enabled(cfg, s, a) && !a.Encode?
    ensures Shape(cfg, Apply(cfg, s, a)) && LastWriterWins(cfg, Apply(cfg, s, a))
  {
    ShapeKept(cfg, s, a);
    var s' := Apply(cfg, s, a);
    assert s'.region == s.region && s'.requests == s.requests;
    forall i: nat | i < |s'.requests|
      ensures Intact(cfg, s', i) || exists j: nat :: Overwrites(cfg, s', i, j)
    {
      if !Intact(cfg, s, i) {
        var j: nat :| Overwrites(cfg, s, i, j);
        assert Overwrites(cfg, s', i, j);
      }
    }
  }

  lemma StepSafe(cfg: Config, s: State, a: Action)
    requires Safe(cfg, s) && Enabled(cfg, s, a) && InWindow(cfg, s)
    ensures Safe(cfg, Apply(cfg, s, a))
  {
    if a.Encode? {
      StepMatches(cfg, s, a);
      EncodeKeepsLastWriter(cfg, s, a);
    } else {
      RegionKept(cfg, s, a);
      if a.WorkerAnswers? { AnswerFaithful(cfg, s, a); } else { OtherFaithful(cfg, s, a); }
    }
  }

  ghost predicate AlwaysInWindow(cfg: Config, s: State, run: seq<Action>)
    requires Shape(cfg, s) && Legal(cfg, s, run)
    decreases |run|
  {
    InWindow(cfg, s) && (run != [] ==>
      (ShapeKept(cfg, s, run[0]); AlwaysInWindow(cfg, Apply(cfg, s, run[0]), run[1..])))
  }

  /** In every run that never has more requests outstanding than slots, each response
      delivered was computed from the very bytes its request encoded, and each
      outstanding request's slot is intact at the end. */
  lemma {:induction false} WindowRunsSafe(cfg: Config, s: State, run: seq<Action>)
    requires Safe(cfg, s) && Legal(cfg, s, run) && AlwaysInWindow(cfg, s, run)
    ensures Safe(cfg, Final(cfg, s, run)) && InWindow(cfg, Final(cfg, s, run))
    decreases |run|
  {
    if run != [] {
      StepSafe(cfg, s, run[0]);
      WindowRunsSafe(cfg, Apply(cfg, s, run[0]), run[1..]);
    }
  }

  // ---------------------------------------------------------------- answers carry data

  /** The worker reports no error. */
  predicate NoErrors(run: seq<Action>)
  {
    forall a <- run :: a.WorkerAnswers? ==> a.ok
  }

  ghost predicate AllData(s: State)
  {
    && (forall i, j :: 0 <= i < |s.conns| && 0 <= j < |s.conns[i].replies| ==> s.conns[i].replies[j].data.Some?)
    && (forall i :: 0 <= i < |s.outcomes| && s.outcomes[i].Delivered? ==> s.outcomes[i].resp.data.Some?)
  }

  lemma StepData(cfg: Config, s: State, a: Action)
    requires Shape(cfg, s) && Enabled(cfg, s, a) && AllData(s) && (a.WorkerAnswers? ==> a.ok)
    ensures AllData(Apply(cfg, s, a))
  {
    if ByWorker(a) { WorkerData(cfg, s, a); } else { GatewayData(cfg, s, a); }
    hide *;
  }

  lemma WorkerData(cfg: Config, s: State, a: Action)
    requires Shape(cfg, s) && Enabled(cfg, s, a) && AllData(s) && ByWorker(a) && (a.WorkerAnswers? ==> a.ok)
    ensures AllData(Apply(cfg, s, a))
  {
    hide Count, Overlay, ReadTensors;
  }

  lemma GatewayData(cfg: Config, s: State, a: Action)
    requires Shape(cfg, s) && Enabled(cfg, s, a) && AllData(s) && !ByWorker(a)
    ensures AllData(Apply(cfg, s, a))
  {
    hide Count, Overlay, ReadTensors;
  }

  lemma {:induction false} RunData(cfg: Config, s: State, run: seq<Action>)
    requires Shape(cfg, s) && Legal(cfg, s, run) && AllData(s) && NoErrors(run)
    ensures AllData(Final(cfg, s, run))
    decreases |run|
  {
    hide AllData;
    if run != [] {
      ShapeKept(cfg, s, run[0]);
      assert run[0] in run && forall a <- run[1..] :: a in run;
      StepData(cfg, s, run[0]);
      RunData(cfg, Apply(cfg, s, run[0]), run[1..]);
    }
  }

  /** Every response delivered was computed from the very bytes its request encoded. */
  ghost predicate DeliveredOwn(s: State)
    requires |s.outcomes| <= |s.requests|
  {
    forall i :: 0 <= i < |s.outcomes| && s.outcomes[i].Delivered? ==>
      s.outcomes[i].resp.data == Some(s.requests[i].payload)
  }

  /** In every run within the window in which the worker reports no error, that is so for
      all requests, by slot and inline alike. */
  lemma WindowRunsDeliver(cfg: Config, run: seq<Action>)
    requires cfg.slots > 0 && Legal(cfg, Init(cfg), run) && AlwaysInWindow(cfg, Init(cfg), run) && NoErrors(run)
    ensures DeliveredOwn(Final(cfg, Init(cfg), run))
  {
    InitMatches(cfg);
    WindowRunsSafe(cfg, Init(cfg), run);
    RunData(cfg, Init(cfg), run);
  }
}
