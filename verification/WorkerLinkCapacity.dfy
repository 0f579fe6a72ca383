/**
 When the shared-memory ring is large enough.  (With the defaults, four requests in flight
 per connection and eight slots, it is for two connections.)
 */
module WorkerLinkCapacity {
  import opened Wrappers
  import opened WorkerLink
  import opened WorkerLinkSafety
  import Powers

  // ---------------------------------------------------------------- enough slots

  /** handle_ws keeps each client's requests in flight within its bound. */
  ghost predicate ClientsBounded(cfg: Config, s: State)
    requires |s.outcomes| <= |s.requests|
  {
    && (forall r <- s.requests :: r.client < cfg.clients)
    && (forall c: nat :: c < cfg.clients ==> Count(Outstanding(s), c) <= cfg.maxInflight)
  }

  function SumCounts(rs: seq<Request>, clients: nat): nat
  {
    if clients == 0 then 0 else SumCounts(rs, clients - 1) + Count(rs, clients - 1)
  }

  lemma {:induction false} SumOfFirst(rs: seq<Request>, clients: nat)
    requires rs != []
    ensures SumCounts(rs, clients) == SumCounts(rs[1..], clients) + if rs[0].client < clients then 1 else 0
  {
    if clients > 0 { SumOfFirst(rs, clients - 1); }
  }

  /** Every request belongs to some client. */
  lemma {:induction false} CountsCover(rs: seq<Request>, clients: nat)
    requires forall r <- rs :: r.client < clients
    ensures SumCounts(rs, clients) == |rs|
  {
    if rs == [] {
      EmptySum(clients);
    } else {
      SumOfFirst(rs, clients);
      CountsCover(rs[1..], clients);
    }
  }

  lemma {:induction false} EmptySum(clients: nat)
    ensures SumCounts([], clients) == 0
  {
    if clients > 0 { EmptySum(clients - 1); }
  }

  lemma {:induction false} SumBounded(rs: seq<Request>, clients: nat, bound: nat)
    requires forall c: nat :: c < clients ==> Count(rs, c) <= bound
    ensures SumCounts(rs, clients) <= clients * bound
  {
    if clients > 0 {
      SumBounded(rs, clients - 1, bound);
      assert clients * bound == (clients - 1) * bound + bound;
    }
  }

  lemma {:induction false} CountAppend(rs: seq<Request>, r: Request, c: nat)
    ensures Count(rs + [r], c) == Count(rs, c) + if r.client == c then 1 else 0
  {
    if rs == [] {
      assert [r][1..] == [];
    } else {
      CountAppend(rs[1..], r, c);
      assert (rs + [r])[1..] == rs[1..] + [r];
    }
  }

  lemma CountTail(rs: seq<Request>, c: nat)
    requires rs != []
    ensures Count(rs[1..], c) <= Count(rs, c)
  {
  }

  lemma StepBounded(cfg: Config, s: State, a: Action)
    requires Shape(cfg, s) && Enabled(cfg, s, a) && ClientsBounded(cfg, s)
    ensures Shape(cfg, Apply(cfg, s, a)) && ClientsBounded(cfg, Apply(cfg, s, a))
  {
    ShapeKept(cfg, s, a);
    var s' := Apply(cfg, s, a);
    var rs, rs' := Outstanding(s), Outstanding(s');
    forall c: nat | c < cfg.clients
      ensures Count(rs', c) <= cfg.maxInflight
    {
      if a.Encode? {
        var r := Request(a.client, a.payload);
        assert rs' == rs + [r];
        CountAppend(rs, r, c);
      } else if |s'.outcomes| == |s.outcomes| + 1 {
        assert rs' == rs[1..];
        CountTail(rs, c);
      } else {
        assert rs' == rs;
      }
      assert Count(rs, c) <= cfg.maxInflight;
    }
  }

  lemma BoundedInWindow(cfg: Config, s: State)
    requires Shape(cfg, s) && ClientsBounded(cfg, s) && cfg.clients * cfg.maxInflight <= cfg.slots
    ensures InWindow(cfg, s)
  {
    CountsCover(Outstanding(s), cfg.clients);
    SumBounded(Outstanding(s), cfg.clients, cfg.maxInflight);
  }

  lemma {:induction false} BoundedRunInWindow(cfg: Config, s: State, run: seq<Action>)
    requires Shape(cfg, s) && ClientsBounded(cfg, s) && cfg.clients * cfg.maxInflight <= cfg.slots
    requires Legal(cfg, s, run)
    ensures AlwaysInWindow(cfg, s, run)
    decreases |run|
  {
    BoundedInWindow(cfg, s);
    if run != [] {
      StepBounded(cfg, s, run[0]);
      BoundedRunInWindow(cfg, Apply(cfg, s, run[0]), run[1..]);
    }
  }

  // ---------------------------------------------------------------- too few slots

  lemma {:induction false} LegalAppend(cfg: Config, s: State, run: seq<Action>, a: Action)
    requires Shape(cfg, s) && Legal(cfg, s, run) && Enabled(cfg, Final(cfg, s, run), a)
    ensures Legal(cfg, s, run + [a]) && Final(cfg, s, run + [a]) == Apply(cfg, Final(cfg, s, run), a)
    decreases |run|
  {
    if run == [] {
      assert (run + [a])[1..] == [];
      ShapeKept(cfg, s, a);
    } else {
      ShapeKept(cfg, s, run[0]);
      LegalAppend(cfg, Apply(cfg, s, run[0]), run[1..], a);
      assert (run + [a])[1..] == run[1..] + [a];
    }
  }

  /** The clients take turns to fill their quotas; request i carries the byte i. */
  function Filler(cfg: Config, i: nat): Action
    requires cfg.maxInflight > 0
  {
    Encode(i / cfg.maxInflight, [i])
  }

  function Quotas(max: nat, n: nat): seq<Request>
    requires max > 0
  {
    seq(n, (i: nat) => Request(i / max, [i]))
  }

  /** While client n / max is filling up, it has had n % max requests. */
  lemma {:induction false} QuotaCount(max: nat, n: nat, c: nat)
    requires max > 0 && c * max >= n - n % max
    ensures Count(Quotas(max, n), c) == if n / max == c then n % max else 0
  {
    if n > 0 {
      var rs := Quotas(max, n - 1);
      assert Quotas(max, n) == rs + [Request((n - 1) / max, [n - 1])];
      CountAppend(rs, Request((n - 1) / max, [n - 1]), c);
      QuotaStep(max, n, c);
      if n % max > 0 { QuotaCount(max, n - 1, c); } else { PastQuota(max, n - 1, c); }
    }
  }

  /** A client whose turn has not come has no requests. */
  lemma {:induction false} PastQuota(max: nat, n: nat, c: nat)
    requires max > 0 && c * max > n
    ensures Count(Quotas(max, n), c) == 0
  {
    if n > 0 {
      var rs := Quotas(max, n - 1);
      assert Quotas(max, n) == rs + [Request((n - 1) / max, [n - 1])];
      CountAppend(rs, Request((n - 1) / max, [n - 1]), c);
      PastQuota(max, n - 1, c);
      var q, _ := Powers.Euclid(n - 1, max);
      if q == c { assert false; }
    }
  }

  lemma QuotaStep(max: nat, n: nat, c: nat)
    requires max > 0 && n > 0 && c * max >= n - n % max
    ensures n % max > 0 ==> (n - 1) / max == n / max && (n - 1) % max == n % max - 1
    ensures n % max == 0 ==> c * max >= n && (n - 1) / max < c
  {
    var q, r := Powers.Euclid(n, max);
    if r > 0 {
      Powers.DivUnique(n - 1, max, q, r - 1);
    } else {
      var q', _ := Powers.Euclid(n - 1, max);
      Powers.ScaleOrder(max, c, q');
    }
  }

  /** n requests outstanding and nothing else done; with one more than there are
      slots, the last has overwritten the first one's slot. */
  ghost predicate Filled(cfg: Config, s: State, n: nat)
    requires cfg.maxInflight > 0
  {
    && Shape(cfg, s) && cfg.slotBytes > 0
    && s.requests == Quotas(cfg.maxInflight, n)
    && s.outcomes == [] && s.conns == [] && s.sock == None && s.phase == Idle
    && (n > cfg.slots ==> s.region[0][..1] == [cfg.slots])
  }

  lemma QuotaRoom(max: nat, clients: nat, n: nat)
    requires max > 0 && n < clients * max
    ensures n / max < clients && Count(Quotas(max, n), n / max) < max
  {
    var c, r := Powers.Euclid(n, max);
    if c >= clients { Powers.MulMono(clients, c, max); }
    QuotaCount(max, n, c);
  }

  lemma FillEnabled(cfg: Config, s: State, n: nat)
    requires cfg.maxInflight > 0 && Filled(cfg, s, n) && n < cfg.clients * cfg.maxInflight
    ensures Enabled(cfg, s, Filler(cfg, n))
  {
    QuotaRoom(cfg.maxInflight, cfg.clients, n);
    assert Outstanding(s) == s.requests;
  }

  lemma FillStep(cfg: Config, s: State, n: nat)
    requires cfg.maxInflight > 0 && Filled(cfg, s, n) && Enabled(cfg, s, Filler(cfg, n))
    requires n <= cfg.slots
    ensures Filled(cfg, Apply(cfg, s, Filler(cfg, n)), n + 1)
  {
    ShapeKept(cfg, s, Filler(cfg, n));
    assert Quotas(cfg.maxInflight, n + 1) == Quotas(cfg.maxInflight, n) + [Request(n / cfg.maxInflight, [n])];
    if n == cfg.slots { FirstSlot(cfg, n, s.region[0]); }
  }

  lemma FirstSlot(cfg: Config, n: nat, slot: Bytes)
    requires cfg.slots > 0 && n == cfg.slots && |slot| > 0
    ensures n % cfg.slots == 0 && Overlay(slot, [n])[..1] == [n]
  {
  }

  lemma {:induction false} Fill(cfg: Config, n: nat) returns (run: seq<Action>)
    requires cfg.slots > 0 && cfg.slotBytes > 0 && cfg.maxInflight > 0
    requires n <= cfg.slots + 1 && n <= cfg.clients * cfg.maxInflight
    ensures Legal(cfg, Init(cfg), run) && NoErrors(run) && Filled(cfg, Final(cfg, Init(cfg), run), n)
  {
    if n == 0 {
      run := [];
    } else {
      run := Fill(cfg, n - 1);
      FillEnabled(cfg, Final(cfg, Init(cfg), run), n - 1);
      FillStep(cfg, Final(cfg, Init(cfg), run), n - 1);
      LegalAppend(cfg, Init(cfg), run, Filler(cfg, n - 1));
      run := run + [Filler(cfg, n - 1)];
    }
  }

  /** The first request, sent after its slot was overwritten. */
  ghost predicate SentLate(cfg: Config, s: State)
  {
    && Shape(cfg, s) && |s.requests| > cfg.slots && s.outcomes == [] && s.requests[0].payload == [0]
    && cfg.slotBytes > 0 && s.region[0][..1] == [cfg.slots]
    && s.phase == Waiting(0) && s.sock == Some(0) && |s.conns| == 1
    && s.totalSends > 0 && s.conns[0] == Conn(true, [Frame(0, InSlot(0, 1), s.totalSends - 1)], [], None, [])
  }

  lemma SendLate(cfg: Config, start: seq<Action>) returns (run: seq<Action>)
    requires cfg.slots > 0 && cfg.maxInflight > 0 && Legal(cfg, Init(cfg), start)
    requires NoErrors(start) && Filled(cfg, Final(cfg, Init(cfg), start), cfg.slots + 1)
    ensures Legal(cfg, Init(cfg), run) && NoErrors(run) && SentLate(cfg, Final(cfg, Init(cfg), run))
  {
    LegalAppend(cfg, Init(cfg), start, Acquire);
    run := start + [Acquire];
    LegalAppend(cfg, Init(cfg), run, Connect);
    run := run + [Connect];
    LegalAppend(cfg, Init(cfg), run, Send);
    run := run + [Send];
  }

  /** The worker read the overwritten slot. */
  ghost predicate AnsweredLate(cfg: Config, s: State)
  {
    && Shape(cfg, s) && |s.requests| > 0 && s.requests[0].payload == [0] && s.outcomes == []
    && s.phase.Waiting? && s.sock == Some(0) && s.conns[0].replies != []
    && s.conns[0].replies[0].id == 0 && s.conns[0].replies[0].data == Some([cfg.slots])
  }

  lemma AnswerLate(cfg: Config, start: seq<Action>) returns (run: seq<Action>)
    requires cfg.slots > 0 && Legal(cfg, Init(cfg), start)
    requires NoErrors(start) && SentLate(cfg, Final(cfg, Init(cfg), start))
    ensures Legal(cfg, Init(cfg), run) && NoErrors(run) && AnsweredLate(cfg, Final(cfg, Init(cfg), run))
  {
    LegalAppend(cfg, Init(cfg), start, ReaderPuts(0));
    run := start + [ReaderPuts(0)];
    LegalAppend(cfg, Init(cfg), run, WorkerTakes(0));
    run := run + [WorkerTakes(0)];
    LegalAppend(cfg, Init(cfg), run, WorkerAnswers(0, true));
    run := run + [WorkerAnswers(0, true)];
  }

  /** With fewer slots than clients can have in flight, some run without any failure or
      error answers a request from another request's tensors. */
  lemma TooFewSlots(cfg: Config) returns (run: seq<Action>)
    requires cfg.slots > 0 && cfg.slotBytes > 0 && cfg.slots < cfg.clients * cfg.maxInflight
    ensures Legal(cfg, Init(cfg), run) && NoErrors(run)
    ensures !DataFaithful(cfg, Final(cfg, Init(cfg), run)) && !DeliveredOwn(Final(cfg, Init(cfg), run))
  {
    Powers.PositiveFactor(cfg.maxInflight, cfg.clients);
    run := Fill(cfg, cfg.slots + 1);
    run := SendLate(cfg, run);
    run := AnswerLate(cfg, run);
    LegalAppend(cfg, Init(cfg), run, Receive);
    run := run + [Receive];
    var s := Final(cfg, Init(cfg), run);
    assert s.outcomes[0].resp.data == Some([cfg.slots]) && s.requests[0].payload == [0];
  }

  // ---------------------------------------------------------------- the condition

  ghost predicate FaithfulRun(cfg: Config, run: seq<Action>)
    requires cfg.slots > 0
  {
    Legal(cfg, Init(cfg), run) ==> DataFaithful(cfg, Final(cfg, Init(cfg), run))
  }

  /** Without errors every response delivered is computed from the request's own bytes. */
  ghost predicate OwnRun(cfg: Config, run: seq<Action>)
    requires cfg.slots > 0
  {
    Legal(cfg, Init(cfg), run) && NoErrors(run) ==> DeliveredOwn(Final(cfg, Init(cfg), run))
  }

  lemma EnoughSlots(cfg: Config, run: seq<Action>)
    requires cfg.slots > 0 && cfg.clients * cfg.maxInflight <= cfg.slots
    ensures FaithfulRun(cfg, run) && OwnRun(cfg, run)
  {
    hide DataFaithful, DeliveredOwn, NoErrors;
    if Legal(cfg, Init(cfg), run) {
      assert Outstanding(Init(cfg)) == [];
      BoundedRunInWindow(cfg, Init(cfg), run);
      InitMatches(cfg);
      WindowRunsSafe(cfg, Init(cfg), run);
      if NoErrors(run) { WindowRunsDeliver(cfg, run); }
    }
  }

  /** The ring is safe in every run exactly when it has a slot for every request the
      clients may have in flight together. */
  lemma RingSafeExactlyWhen(cfg: Config)
    requires cfg.slots > 0 && cfg.slotBytes > 0
    ensures (forall run :: FaithfulRun(cfg, run)) <==> cfg.clients * cfg.maxInflight <= cfg.slots
    ensures (forall run :: OwnRun(cfg, run)) <==> cfg.clients * cfg.maxInflight <= cfg.slots
  {
    hide FaithfulRun, OwnRun;
    if cfg.clients * cfg.maxInflight <= cfg.slots {
      forall run
        ensures FaithfulRun(cfg, run) && OwnRun(cfg, run)
      {
        EnoughSlots(cfg, run);
      }
    } else {
      var run := TooFewSlots(cfg);
      assert !FaithfulRun(cfg, run) && !OwnRun(cfg, run) by { Refuted(cfg, run); }
    }
  }

  lemma Refuted(cfg: Config, run: seq<Action>)
    requires cfg.slots > 0 && Legal(cfg, Init(cfg), run) && NoErrors(run)
    requires !DataFaithful(cfg, Final(cfg, Init(cfg), run)) && !DeliveredOwn(Final(cfg, Init(cfg), run))
    ensures !FaithfulRun(cfg, run) && !OwnRun(cfg, run)
  {
  }
}
