/**
 How often the worker processes a request: a request sent again after its connection
 failed may have been processed before.
 */
module WorkerLinkOnce {
  import opened Wrappers
  import opened WorkerLink
  import opened WorkerLinkSafety
  import opened WorkerLinkCapacity

  // ---------------------------------------------------------------- frames under way

  function Of(f: Frame, id: nat): nat
  {
    if f.id == id then 1 else 0
  }

  function Carries(fs: seq<Frame>, id: nat): nat
  {
    if fs == [] then 0 else Of(fs[0], id) + Carries(fs[1..], id)
  }

  /** Frames of request id that reached a connection and are not processed yet. */
  function OnConn(c: Conn, id: nat): nat
  {
    Carries(c.sent, id) + Carries(c.queue, id) + if c.work.Some? then Of(c.work.value, id) else 0
  }

  function UnderWay(conns: seq<Conn>, id: nat): nat
  {
    if conns == [] then 0 else OnConn(conns[0], id) + UnderWay(conns[1..], id)
  }

  lemma {:induction false} CarriesAppend(fs: seq<Frame>, f: Frame, id: nat)
    ensures Carries(fs + [f], id) == Carries(fs, id) + Of(f, id)
  {
    if fs == [] {
      assert [f][1..] == [];
    } else {
      CarriesAppend(fs[1..], f, id);
      assert (fs + [f])[1..] == fs[1..] + [f];
    }
  }

  lemma {:induction false} UnderWayAppend(conns: seq<Conn>, c: Conn, id: nat)
    ensures UnderWay(conns + [c], id) == UnderWay(conns, id) + OnConn(c, id)
  {
    hide OnConn;
    if conns == [] {
      assert [c][1..] == [];
    } else {
      UnderWayAppend(conns[1..], c, id);
      assert (conns + [c])[1..] == conns[1..] + [c];
    }
  }

  lemma {:induction false} UnderWayUpdate(conns: seq<Conn>, i: nat, c: Conn, id: nat)
    requires i < |conns|
    ensures UnderWay(conns[i := c], id) + OnConn(conns[i], id) == UnderWay(conns, id) + OnConn(c, id)
  {
    hide OnConn;
    if i == 0 {
      assert conns[0 := c][1..] == conns[1..];
    } else {
      UnderWayUpdate(conns[1..], i - 1, c, id);
      assert conns[i := c][1..] == conns[1..][i - 1 := c];
    }
  }

  // ---------------------------------------------------------------- processing

  /** The worker finishes a frame of request id in this step. */
  function Handles(cfg: Config, s: State, a: Action, id: nat): nat
    requires Shape(cfg, s) && Enabled(cfg, s, a)
  {
    if a.WorkerAnswers? then Of(s.conns[a.conn].work.value, id) else 0
  }

  /** How often a run processes request id. */
  ghost function Processed(cfg: Config, s: State, run: seq<Action>, id: nat): nat
    requires Shape(cfg, s) && Legal(cfg, s, run)
    decreases |run|
  {
    if run == [] then 0
    else
      ShapeKept(cfg, s, run[0]);
      Handles(cfg, s, run[0], id) + Processed(cfg, Apply(cfg, s, run[0]), run[1..], id)
  }

  /** A frame goes out to the connection in this step. */
  function Puts(s: State, a: Action, id: nat): nat
  {
    if |s.outcomes| == id && (a.Send? || (a.SendFails? && a.arrived)) then 1 else 0
  }

  lemma WorkerUnderWay(cfg: Config, s: State, a: Action, id: nat)
    requires Shape(cfg, s) && Enabled(cfg, s, a) && ByWorker(a)
    ensures UnderWay(Apply(cfg, s, a).conns, id) + Handles(cfg, s, a, id) <= UnderWay(s.conns, id)
  {
    var c := s.conns[a.conn];
    var s' := Apply(cfg, s, a);
    if a.ReaderPuts? { CarriesAppend(c.queue, c.sent[0], id); }
    UnderWayUpdate(s.conns, a.conn, s'.conns[a.conn], id);
    assert s'.conns == s.conns[a.conn := s'.conns[a.conn]];
  }

  lemma RetryUnderWay(s: State, id: nat)
    requires s.phase != Idle && (s.sock.Some? ==> s.sock.value < |s.conns|)
    ensures UnderWay(Retry(s).conns, id) == UnderWay(s.conns, id)
  {
    if s.sock.Some? { UnderWayUpdate(s.conns, s.sock.value, s.conns[s.sock.value].(open := false), id); }
  }

  lemma PutUnderWay(cfg: Config, s: State, id: nat)
    requires Shape(cfg, s) && s.phase.Trying? && s.sock.Some?
    ensures UnderWay(PutFrame(cfg, s).conns, id) == UnderWay(s.conns, id) + if |s.outcomes| == id then 1 else 0
  {
    var i, h := s.sock.value, |s.outcomes|;
    var c, f := s.conns[i], FrameOf(cfg, h, s.requests[h], s.totalSends);
    CarriesAppend(c.sent, f, id);
    UnderWayUpdate(s.conns, i, c.(sent := c.sent + [f]), id);
  }

  /** Frames under way become more only by being sent, and fewer by being processed. */
  lemma StepUnderWay(cfg: Config, s: State, a: Action, id: nat)
    requires Shape(cfg, s) && Enabled(cfg, s, a)
    ensures UnderWay(Apply(cfg, s, a).conns, id) + Handles(cfg, s, a, id) <= UnderWay(s.conns, id) + Puts(s, a, id)
  {
    match a
    case Encode(_, _) | Acquire =>
    case Connect => UnderWayAppend(s.conns, Conn(true, [], [], None, []), id);
    case ConnectFails | ReceiveFails => RetryUnderWay(s, id);
    case Send => PutUnderWay(cfg, s, id);
    case SendFails(arrived) =>
      if arrived { PutUnderWay(cfg, s, id); }
      RetryUnderWay(CountSend(if arrived then PutFrame(cfg, s) else s), id);
    case Receive =>
      var c := s.conns[s.sock.value];
      UnderWayUpdate(s.conns, s.sock.value, c.(replies := c.replies[1..]), id);
    case ReaderPuts(_) | WorkerTakes(_) | WorkerAnswers(_, _) | WorkerDrops(_) => WorkerUnderWay(cfg, s, a, id);
  }

  // ---------------------------------------------------------------- at most once a send

  function Sends(s: State, id: nat): nat
  {
    if id < |s.sends| then s.sends[id] else 0
  }

  lemma StepSends(cfg: Config, s: State, a: Action, id: nat)
    requires Shape(cfg, s) && Enabled(cfg, s, a)
    ensures Sends(s, id) + Puts(s, a, id) <= Sends(Apply(cfg, s, a), id)
  {
  }

  /** n times processed so far, and what is under way, is no more than was sent. */
  lemma {:induction false} ProcessedAtMost(cfg: Config, s: State, run: seq<Action>, id: nat, n: nat)
    requires Shape(cfg, s) && Legal(cfg, s, run) && n + UnderWay(s.conns, id) <= Sends(s, id)
    ensures n + Processed(cfg, s, run, id) + UnderWay(Final(cfg, s, run).conns, id) <= Sends(Final(cfg, s, run), id)
    decreases |run|
  {
    if run != [] {
      ShapeKept(cfg, s, run[0]);
      StepUnderWay(cfg, s, run[0], id);
      StepSends(cfg, s, run[0], id);
      hide Sends, Puts, Handles, UnderWay;
      ProcessedAtMost(cfg, Apply(cfg, s, run[0]), run[1..], id, n + Handles(cfg, s, run[0], id));
    }
  }

  /** No request is processed more often than it was sent, which is three times at most. */
  lemma ProcessedBound(cfg: Config, run: seq<Action>, id: nat)
    requires cfg.slots > 0 && Legal(cfg, Init(cfg), run)
    ensures Processed(cfg, Init(cfg), run, id) <= Sends(Final(cfg, Init(cfg), run), id) <= MAX_ATTEMPTS
  {
    InitMatches(cfg);
    ProcessedAtMost(cfg, Init(cfg), run, id, 0);
    EveryRunMatches(cfg, Init(cfg), run);
  }

  // ---------------------------------------------------------------- once, and once a failure

  /** The connection fails after a frame of request id went out on it. */
  function Loses(s: State, a: Action, id: nat): nat
  {
    if |s.outcomes| == id && (a.ReceiveFails? || (a.SendFails? && a.arrived)) then 1 else 0
  }

  /** How often that happens in a run. */
  ghost function Lost(cfg: Config, s: State, run: seq<Action>, id: nat): nat
    requires Shape(cfg, s) && Legal(cfg, s, run)
    decreases |run|
  {
    if run == [] then 0
    else
      ShapeKept(cfg, s, run[0]);
      Loses(s, run[0], id) + Lost(cfg, Apply(cfg, s, run[0]), run[1..], id)
  }

  function Limit(s: State, id: nat): nat
  {
    if id < |s.outcomes| || (id == |s.outcomes| && s.phase.Waiting?) then 1 else 0
  }

  lemma StepLimit(cfg: Config, s: State, a: Action, id: nat)
    requires Shape(cfg, s) && Enabled(cfg, s, a)
    ensures Limit(s, id) + Puts(s, a, id) <= Limit(Apply(cfg, s, a), id) + Loses(s, a, id)
  {
  }

  lemma {:induction false} OncePerLoss(cfg: Config, s: State, run: seq<Action>, id: nat, n: nat, m: nat)
    requires Shape(cfg, s) && Legal(cfg, s, run) && n + UnderWay(s.conns, id) <= Limit(s, id) + m
    ensures n + Processed(cfg, s, run, id) <= 1 + m + Lost(cfg, s, run, id)
    decreases |run|
  {
    hide Limit, Puts, Loses, Handles, UnderWay;
    if run == [] {
      LimitBound(s, id);
    } else {
      ShapeKept(cfg, s, run[0]);
      StepUnderWay(cfg, s, run[0], id);
      StepLimit(cfg, s, run[0], id);
      OncePerLoss(cfg, Apply(cfg, s, run[0]), run[1..], id, n + Handles(cfg, s, run[0], id), m + Loses(s, run[0], id));
    }
  }

  lemma LimitBound(s: State, id: nat)
    ensures Limit(s, id) <= 1
  {
  }

  /** A response to request id was written, or delivered. */
  ghost predicate Seen(s: State, id: nat)
  {
    || (exists i, j :: 0 <= i < |s.conns| && 0 <= j < |s.conns[i].replies| && s.conns[i].replies[j].id == id)
    || (id < |s.outcomes| && s.outcomes[id].Delivered?)
  }

  lemma StepSeen(cfg: Config, s: State, a: Action, id: nat)
    requires Shape(cfg, s) && Enabled(cfg, s, a) && Seen(Apply(cfg, s, a), id) && !Seen(s, id)
    ensures Handles(cfg, s, a, id) == 1
  {
    hide Count, Fits, Overlay, ReadTensors, FrameOf, FramesReadable, Outstanding;
  }

  lemma {:induction false} SeenProcessed(cfg: Config, s: State, run: seq<Action>, id: nat, n: nat)
    requires Shape(cfg, s) && Legal(cfg, s, run) && (Seen(s, id) ==> n >= 1)
    ensures Seen(Final(cfg, s, run), id) ==> n + Processed(cfg, s, run, id) >= 1
    decreases |run|
  {
    hide Seen;
    if run != [] {
      ShapeKept(cfg, s, run[0]);
      if Seen(Apply(cfg, s, run[0]), id) && !Seen(s, id) { StepSeen(cfg, s, run[0], id); }
      SeenProcessed(cfg, Apply(cfg, s, run[0]), run[1..], id, n + Handles(cfg, s, run[0], id));
    }
  }

  /** Request id was delivered, after at most `losses` failures of its own. */
  ghost predicate DeliveredAfter(cfg: Config, run: seq<Action>, id: nat, losses: nat)
    requires cfg.slots > 0
  {
    && Legal(cfg, Init(cfg), run) && id < |Final(cfg, Init(cfg), run).outcomes|
    && Final(cfg, Init(cfg), run).outcomes[id].Delivered? && Lost(cfg, Init(cfg), run, id) <= losses
  }

  /** Then it was processed at least once, and at most `most` times. */
  ghost predicate ProcessedWithin(cfg: Config, run: seq<Action>, id: nat, losses: nat, most: nat)
    requires cfg.slots > 0
  {
    DeliveredAfter(cfg, run, id, losses) ==> 1 <= Processed(cfg, Init(cfg), run, id) <= most
  }

  /** Whatever happens to other requests: a request is processed at most once more than
      connections failed after one of its own frames went out, and at least once if it is
      delivered. */
  lemma ProcessedPerLoss(cfg: Config, run: seq<Action>, id: nat)
    requires cfg.slots > 0 && Legal(cfg, Init(cfg), run)
    ensures var s := Final(cfg, Init(cfg), run);
            && Processed(cfg, Init(cfg), run, id) <= 1 + Lost(cfg, Init(cfg), run, id)
            && (id < |s.outcomes| && s.outcomes[id].Delivered? ==> Processed(cfg, Init(cfg), run, id) >= 1)
  {
    OncePerLoss(cfg, Init(cfg), run, id, 0, 0);
    SeenProcessed(cfg, Init(cfg), run, id, 0);
  }

  // ---------------------------------------------------------------- again

  lemma {:induction false} ProcessedAppend(cfg: Config, s: State, run: seq<Action>, a: Action, id: nat)
    requires Shape(cfg, s) && Legal(cfg, s, run) && Enabled(cfg, Final(cfg, s, run), a)
    ensures Legal(cfg, s, run + [a]) && Final(cfg, s, run + [a]) == Apply(cfg, Final(cfg, s, run), a)
    ensures Processed(cfg, s, run + [a], id) == Processed(cfg, s, run, id) + Handles(cfg, Final(cfg, s, run), a, id)
    ensures Lost(cfg, s, run + [a], id) == Lost(cfg, s, run, id) + Loses(Final(cfg, s, run), a, id)
    decreases |run|
  {
    hide Handles, Loses;
    LegalAppend(cfg, s, run, a);
    if run == [] {
      assert (run + [a])[1..] == [];
    } else {
      ShapeKept(cfg, s, run[0]);
      ProcessedAppend(cfg, Apply(cfg, s, run[0]), run[1..], a, id);
      assert (run + [a])[1..] == run[1..] + [a];
    }
  }

  /** A first request, processed n times, about to be tried again over a new connection. */
  ghost predicate Retrying(cfg: Config, run: seq<Action>, n: nat)
    requires cfg.slots > 0
  {
    Legal(cfg, Init(cfg), run) && Processed(cfg, Init(cfg), run, 0) == Lost(cfg, Init(cfg), run, 0) == n &&
    var s := Final(cfg, Init(cfg), run);
    && |s.requests| == 1 && s.outcomes == [] && s.phase == Trying(n) && s.sock == None && |s.conns| == n
  }

  /** Another attempt, up to the worker's reply. */
  ghost predicate Replied(cfg: Config, run: seq<Action>, n: nat)
    requires cfg.slots > 0
  {
    Legal(cfg, Init(cfg), run) && Processed(cfg, Init(cfg), run, 0) == n == Lost(cfg, Init(cfg), run, 0) + 1 &&
    var s := Final(cfg, Init(cfg), run);
    && |s.requests| == 1 && s.outcomes == [] && n > 0 && s.phase == Waiting(n - 1) && s.sock == Some(n - 1) &&
      |s.conns| == n
    && |s.conns[n - 1].replies| == 1 && s.conns[n - 1].replies[0].id == 0
  }

  /** The frame of that attempt waits in the n-th connection. */
  ghost predicate SentOut(cfg: Config, run: seq<Action>, n: nat)
    requires cfg.slots > 0
  {
    Legal(cfg, Init(cfg), run) && Processed(cfg, Init(cfg), run, 0) == Lost(cfg, Init(cfg), run, 0) == n &&
    var s := Final(cfg, Init(cfg), run);
    && |s.requests| == 1 && s.outcomes == [] && s.phase == Waiting(n) && s.sock == Some(n) && |s.conns| == n + 1
    && |s.conns[n].sent| == 1 && s.conns[n].sent[0].id == 0 && s.conns[n].queue == [] && s.conns[n].work == None
    && s.conns[n].replies == []
  }

  lemma SendAgain(cfg: Config, start: seq<Action>, n: nat) returns (run: seq<Action>)
    requires cfg.slots > 0 && n < MAX_ATTEMPTS && Retrying(cfg, start, n)
    ensures SentOut(cfg, run, n)
  {
    hide Legal, Final, Processed, Lost;
    ProcessedAppend(cfg, Init(cfg), start, Connect, 0);
    run := start + [Connect];
    ProcessedAppend(cfg, Init(cfg), run, Send, 0);
    run := run + [Send];
  }

  /** The worker has taken it. */
  ghost predicate AtWork(cfg: Config, run: seq<Action>, n: nat)
    requires cfg.slots > 0
  {
    Legal(cfg, Init(cfg), run) && Processed(cfg, Init(cfg), run, 0) == Lost(cfg, Init(cfg), run, 0) == n &&
    var s := Final(cfg, Init(cfg), run);
    && |s.requests| == 1 && s.outcomes == [] && s.phase == Waiting(n) && s.sock == Some(n) && |s.conns| == n + 1
    && s.conns[n].work.Some? && s.conns[n].work.value.id == 0 && s.conns[n].replies == []
  }

  lemma TakeUp(cfg: Config, start: seq<Action>, n: nat) returns (run: seq<Action>)
    requires cfg.slots > 0 && SentOut(cfg, start, n)
    ensures AtWork(cfg, run, n)
  {
    hide Legal, Final, Processed, Lost;
    ProcessedAppend(cfg, Init(cfg), start, ReaderPuts(n), 0);
    run := start + [ReaderPuts(n)];
    ProcessedAppend(cfg, Init(cfg), run, WorkerTakes(n), 0);
    run := run + [WorkerTakes(n)];
  }

  lemma Attempt(cfg: Config, start: seq<Action>, n: nat) returns (run: seq<Action>)
    requires cfg.slots > 0 && n < MAX_ATTEMPTS && Retrying(cfg, start, n)
    ensures Replied(cfg, run, n + 1)
  {
    run := SendAgain(cfg, start, n);
    run := TakeUp(cfg, run, n);
    hide Retrying, SentOut, Legal, Final, Processed, Lost;
    ProcessedAppend(cfg, Init(cfg), run, WorkerAnswers(n, true), 0);
    run := run + [WorkerAnswers(n, true)];
  }

  lemma Started(cfg: Config) returns (run: seq<Action>)
    requires cfg.slots > 0 && cfg.clients > 0 && cfg.maxInflight > 0
    ensures Retrying(cfg, run, 0)
  {
    var init := Init(cfg);
    ProcessedAppend(cfg, init, [], Encode(0, []), 0);
    run := [Encode(0, [])];
    ProcessedAppend(cfg, init, run, Acquire, 0);
    run := run + [Acquire];
  }

  /** n replies are lost with their connections: the worker processes the request again
      each time. */
  lemma {:induction false} LostReplies(cfg: Config, n: nat) returns (run: seq<Action>)
    requires cfg.slots > 0 && cfg.clients > 0 && cfg.maxInflight > 0 && n < MAX_ATTEMPTS
    ensures Retrying(cfg, run, n)
  {
    if n == 0 {
      run := Started(cfg);
    } else {
      run := LostReplies(cfg, n - 1);
      run := Attempt(cfg, run, n - 1);
      ProcessedAppend(cfg, Init(cfg), run, ReceiveFails, 0);
      run := run + [ReceiveFails];
    }
  }

  lemma DeliveredLate(cfg: Config, n: nat) returns (run: seq<Action>)
    requires cfg.slots > 0 && cfg.clients > 0 && cfg.maxInflight > 0 && n < MAX_ATTEMPTS
    ensures DeliveredAfter(cfg, run, 0, n) && Processed(cfg, Init(cfg), run, 0) == n + 1
  {
    run := LostReplies(cfg, n);
    run := Attempt(cfg, run, n);
    ProcessedAppend(cfg, Init(cfg), run, Receive, 0);
    run := run + [Receive];
  }

  /** A delivered request that lost up to `losses` replies, two at most, is processed up to
      `most` times in every run exactly when most exceeds losses: without a loss of its own
      it is processed exactly once, and with two it may be processed three times. */
  lemma ProcessedExactlyWhen(cfg: Config, losses: nat, most: nat)
    requires cfg.slots > 0 && cfg.clients > 0 && cfg.maxInflight > 0 && losses < MAX_ATTEMPTS
    ensures (forall run, id :: ProcessedWithin(cfg, run, id, losses, most)) <==> losses < most
  {
    if losses < most {
      forall run, id
        ensures ProcessedWithin(cfg, run, id, losses, most)
      {
        if DeliveredAfter(cfg, run, id, losses) { ProcessedPerLoss(cfg, run, id); }
      }
    } else {
      var run := DeliveredLate(cfg, losses);
      assert !ProcessedWithin(cfg, run, 0, losses, most);
    }
  }
}
