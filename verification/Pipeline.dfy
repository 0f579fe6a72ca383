/** One connection of the C++ gateway (handle_connection in main.cpp). */
module Pipeline {
  import opened Wrappers

  /* A reader thread, a bounded queue under a mutex and a condition variable, and a
     processing loop that holds a current message and, when the client pipelines, the next
     one, whose images are already being decoded.

     One action is one atomic step of one thread.  Waiting on the condition variable is
     modelled as it is written: a thread whose condition is false falls asleep and only a
     notify wakes it. */

  type Message = string

  const CAPACITY: nat := 8

  /** Pushing holds a text message that is not in the queue yet. */
  datatype Reader =
    | Reading
    | Pushing(m: Message)
    | Sleeping(m: Message)
    | Notifying
    | LastNotify
    | Done

  /** Popping: about to fetch a message, waiting if there is none (`asleep`).
      Looking: about to look ahead without waiting.  Processing: about to answer cur. */
  datatype Main = Popping(first: bool, asleep: bool) | Looking | Processing | Finished(broken: bool)

  /** A request parsed from a message, and the message its decode jobs were started for. */
  datatype Answer = Answer(request: Message, images: Message)

  /** received: all text messages so far; answers: the responses sent; jobs move from
      the next message to the current one separately from the requests. */
  datatype State = State(
    received: seq<Message>, answers: seq<Answer>,
    reader: Reader, queue: seq<Message>, readerDone: bool, main: Main,
    cur: Option<Message>, curJobs: Option<Message>, nxt: Option<Message>, nxtJobs: Option<Message>)

  datatype Action =
    | Arrive(m: Message)
    | ArriveOther
    | Close
    | Push
    | ReaderSleeps
    | Notify
    | Pop
    | MainSleeps
    | TryPop
    | Send(ok: bool)

  function Init(): State
  {
    State([], [], Reading, [], false, Popping(true, false), None, None, None, None)
  }

  /** The client sends while fewer than `window` of its messages are unanswered. */
  ghost predicate Enabled(window: nat, s: State, a: Action)
  {
    match a
    case Arrive(_) => s.reader == Reading && |s.received| < |s.answers| + window
    case ArriveOther | Close => s.reader == Reading
    case Push => s.reader.Pushing? && |s.queue| < CAPACITY
    case ReaderSleeps => s.reader.Pushing? && |s.queue| >= CAPACITY
    case Notify => s.reader == Notifying || s.reader == LastNotify
    case Pop => s.main.Popping? && !s.main.asleep && (s.queue != [] || s.readerDone)
    case MainSleeps => s.main.Popping? && !s.main.asleep && s.queue == [] && !s.readerDone
    case TryPop => s.main.Looking?
    case Send(_) => s.main.Processing? && s.cur.Some? && s.curJobs.Some?
  }

  function Apply(window: nat, s: State, a: Action): State
    requires Enabled(window, s, a)
  {
    match a
    case Arrive(m) => s.(received := s.received + [m], reader := Pushing(m))
    case ArriveOther => s
    case Close => s.(readerDone := true, reader := LastNotify)
    case Push => s.(queue := s.queue + [s.reader.m], reader := Notifying)
    case ReaderSleeps => s.(reader := Sleeping(s.reader.m))
    case Notify =>
      s.(reader := if s.reader == Notifying then Reading else Done,
         main := if s.main.Popping? then s.main.(asleep := false) else s.main)
    case Pop =>
      if s.queue == [] then s.(main := if s.main.first then Looking else Finished(false))
      else s.(cur := Some(s.queue[0]), curJobs := Some(s.queue[0]), queue := s.queue[1..],
              main := if s.main.first then Looking else Processing)
    case MainSleeps => s.(main := s.main.(asleep := true))
    case TryPop =>
      var t := if s.queue == [] then s
               else s.(nxt := Some(s.queue[0]), nxtJobs := Some(s.queue[0]), queue := s.queue[1..]);
      t.(main := if s.cur.Some? then Processing else Finished(false))
    case Send(ok) =>
      if !ok then s.(main := Finished(true))
      else
        var t := s.(answers := s.answers + [Answer(s.cur.value, s.curJobs.value)]);
        if s.nxt.Some? then t.(cur := s.nxt, curJobs := s.nxtJobs, nxt := None, nxtJobs := None, main := Looking)
        else t.(cur := None, curJobs := None, main := Popping(false, false))
  }

  ghost predicate Legal(window: nat, s: State, run: seq<Action>)
    decreases |run|
  {
    run == [] || (Enabled(window, s, run[0]) && Legal(window, Apply(window, s, run[0]), run[1..]))
  }

  ghost function Final(window: nat, s: State, run: seq<Action>): State
    requires Legal(window, s, run)
    decreases |run|
  {
    if run == [] then s else Final(window, Apply(window, s, run[0]), run[1..])
  }

  // ---------------------------------------------------------------- what every run keeps

  function Held(m: Option<Message>): seq<Message>
  {
    if m.Some? then [m.value] else []
  }

  function InHand(r: Reader): seq<Message>
  {
    if r.Pushing? || r.Sleeping? then [r.m] else []
  }

  function Requests(answers: seq<Answer>): (r: seq<Message>)
    ensures |r| == |answers|
  {
    seq(|answers|, i requires 0 <= i < |answers| => answers[i].request)
  }

  /** Received and not answered yet, in order. */
  function Pending(s: State): seq<Message>
  {
    Held(s.cur) + Held(s.nxt) + s.queue + InHand(s.reader)
  }

  ghost predicate Ordered(s: State)
  {
    && s.received == Requests(s.answers) + Pending(s)
    && (forall a <- s.answers :: a.images == a.request)
    && s.curJobs == s.cur && s.nxtJobs == s.nxt
    && |s.queue| <= CAPACITY
    && (s.readerDone <==> s.reader == LastNotify || s.reader == Done)
    && (s.main.Popping? ==> s.cur == None && s.nxt == None)
    && (s.main == Looking ==> s.nxt == None && (s.cur == None ==> s.readerDone && s.queue == []))
    && (s.main == Processing ==> s.cur.Some?)
    && (s.main.Popping? && s.main.asleep ==>
          (s.queue == [] && !s.readerDone) || s.reader == Notifying || s.reader == LastNotify)
    && (s.main.Popping? && s.main.first ==> s.answers == [])
    && (s.main == Finished(true) ==> s.cur.Some?)
    && (s.main == Finished(false) ==> s.readerDone && s.cur == None && s.nxt == None && s.queue == [])
  }

  lemma RequestsAppend(answers: seq<Answer>, a: Answer)
    ensures Requests(answers + [a]) == Requests(answers) + [a.request]
  {
  }

  lemma ReaderOrdered(window: nat, s: State, a: Action)
    requires Ordered(s) && Enabled(window, s, a) && !a.Send? && !a.Pop? && !a.TryPop?
    ensures Ordered(Apply(window, s, a))
  {
    var s' := Apply(window, s, a);
    if a.Arrive? {
      assert Pending(s') == Pending(s) + [a.m];
    } else {
      assert Pending(s') == Pending(s);
    }
  }

  lemma SendOrdered(window: nat, s: State)
    requires Ordered(s) && Enabled(window, s, Send(true))
    ensures Ordered(Apply(window, s, Send(true)))
  {
    var s' := Apply(window, s, Send(true));
    var done := Answer(s.cur.value, s.curJobs.value);
    RequestsAppend(s.answers, done);
    assert Pending(s) == [s.cur.value] + Pending(s');
    assert s.received == Requests(s.answers) + [s.cur.value] + Pending(s');
    assert forall a <- s'.answers :: a in s.answers || a == done;
  }

  lemma PopOrdered(window: nat, s: State, a: Action)
    requires Ordered(s) && Enabled(window, s, a) && (a.Pop? || a.TryPop?)
    ensures Ordered(Apply(window, s, a))
  {
    hide Requests;
    var s' := Apply(window, s, a);
    if s.queue != [] {
      assert s.queue == [s.queue[0]] + s'.queue;
      assert Pending(s') == Pending(s);
    } else {
      assert Pending(s') == Pending(s);
    }
  }

  lemma StepOrdered(window: nat, s: State, a: Action)
    requires Ordered(s) && Enabled(window, s, a)
    ensures Ordered(Apply(window, s, a))
  {
    hide Ordered;
    match a
    case Send(ok) =>
      if ok { SendOrdered(window, s); } else { SendFails(window, s); }
    case Pop | TryPop => PopOrdered(window, s, a);
    case _ => ReaderOrdered(window, s, a);
  }

  lemma SendFails(window: nat, s: State)
    requires Ordered(s) && Enabled(window, s, Send(false))
    ensures Ordered(Apply(window, s, Send(false)))
  {
  }

  /** In every interleaving the requests answered, in order, and the messages still in
      the gateway, in order, are exactly the messages received: the i-th response answers
      the i-th text message from its own decode jobs, and none is lost or answered twice. */
  lemma {:induction false} EveryRunOrdered(window: nat, s: State, run: seq<Action>)
    requires Ordered(s) && Legal(window, s, run)
    ensures Ordered(Final(window, s, run))
    decreases |run|
  {
    hide Ordered;
    if run != [] {
      StepOrdered(window, s, run[0]);
      EveryRunOrdered(window, Apply(window, s, run[0]), run[1..]);
    }
  }

  lemma InitOrdered()
    ensures Ordered(Init())
  {
  }

  lemma AnswersMatch(window: nat, run: seq<Action>, i: nat)
    requires Legal(window, Init(), run) && i < |Final(window, Init(), run).answers|
    ensures var s := Final(window, Init(), run);
            i < |s.received| && s.answers[i] == Answer(s.received[i], s.received[i])
  {
    InitOrdered();
    EveryRunOrdered(window, Init(), run);
    var s := Final(window, Init(), run);
    assert s.received[i] == Requests(s.answers)[i];
    assert s.answers[i] in s.answers;
  }

  /** When the loop ends because the stream did, every text message has been answered. */
  lemma CleanEnd(window: nat, run: seq<Action>)
    requires Legal(window, Init(), run) && Final(window, Init(), run).main == Finished(false)
    ensures var s := Final(window, Init(), run); Requests(s.answers) == s.received
  {
    InitOrdered();
    EveryRunOrdered(window, Init(), run);
    var s := Final(window, Init(), run);
    assert Pending(s) == [];
    assert Requests(s.answers) + [] == Requests(s.answers);
  }

  /** It ends otherwise only with a response in hand that could not be sent. */
  lemma BrokenEnd(window: nat, run: seq<Action>)
    requires Legal(window, Init(), run) && Final(window, Init(), run).main == Finished(true)
    ensures var s := Final(window, Init(), run);
            s.cur.Some? && |s.answers| < |s.received| && s.cur.value == s.received[|s.answers|]
  {
    InitOrdered();
    EveryRunOrdered(window, Init(), run);
    var s := Final(window, Init(), run);
    assert Pending(s)[0] == s.cur.value;
    assert s.received[|s.answers|] == Pending(s)[0];
  }

  /** Only the very first message is fetched together with a look ahead. */
  lemma FirstFetch(window: nat, run: seq<Action>)
    requires Legal(window, Init(), run)
    requires var s := Final(window, Init(), run); s.main.Popping? && s.main.first
    ensures Final(window, Init(), run).answers == []
  {
    InitOrdered();
    EveryRunOrdered(window, Init(), run);
  }

  /** The last message of a burst is never held back by one that does not exist yet:
      whenever the loop waits for a message, all but those in the reader's hands are answered. */
  lemma NotHeldBack(window: nat, run: seq<Action>)
    requires Legal(window, Init(), run)
    requires var s := Final(window, Init(), run); s.main.Popping? && s.queue == []
    ensures var s := Final(window, Init(), run); s.received == Requests(s.answers) + InHand(s.reader)
  {
    InitOrdered();
    EveryRunOrdered(window, Init(), run);
    var s := Final(window, Init(), run);
    assert Pending(s) == InHand(s.reader);
  }

  // ---------------------------------------------------------------- lost wake-ups

  /** What the two threads do by themselves; the rest is up to the client. */
  predicate Gateway(a: Action)
  {
    !a.Arrive? && !a.ArriveOther? && !a.Close?
  }

  ghost predicate Blocked(window: nat, s: State)
  {
    forall a :: Gateway(a) ==> !Enabled(window, s, a)
  }

  /** Messages are unanswered, and neither thread can take a step. */
  ghost predicate Hung(window: nat, s: State)
  {
    Pending(s) != [] && !s.main.Finished? && Blocked(window, s)
  }

  /** Both threads wait for a notify. */
  ghost predicate BothAsleep(s: State)
  {
    s.main.Popping? && s.main.asleep && s.reader.Sleeping?
  }

  /** The loop is over, but joining the reader never ends. */
  ghost predicate NeverJoins(s: State)
  {
    s.main.Finished? && s.reader.Sleeping?
  }

  /** That is the only way to hang. */
  lemma HungExactlyWhen(window: nat, s: State)
    requires Ordered(s)
    ensures Hung(window, s) <==> BothAsleep(s)
  {
    hide Requests;
    if Hung(window, s) {
      assert Gateway(Pop) && Gateway(MainSleeps) && Gateway(TryPop) && Gateway(Send(true));
      assert Gateway(Push) && Gateway(ReaderSleeps) && Gateway(Notify);
      assert !Enabled(window, s, Pop) && !Enabled(window, s, MainSleeps) && !Enabled(window, s, TryPop);
      assert !Enabled(window, s, Send(true)) && !Enabled(window, s, Notify);
      assert !Enabled(window, s, Push) && !Enabled(window, s, ReaderSleeps);
      assert s.main.asleep && s.queue == [];
      assert InHand(s.reader) != [];
    }
  }

  ghost predicate Bounded(window: nat, s: State)
  {
    Ordered(s) && |s.received| <= |s.answers| + window && !s.reader.Sleeping?
  }

  lemma BoundedStep(window: nat, s: State, a: Action)
    requires window <= CAPACITY && Bounded(window, s) && Enabled(window, s, a)
    ensures Bounded(window, Apply(window, s, a))
  {
    StepOrdered(window, s, a);
    assert |s.received| == |s.answers| + |Pending(s)|;
  }

  lemma {:induction false} BoundedRun(window: nat, s: State, run: seq<Action>)
    requires window <= CAPACITY && Bounded(window, s) && Legal(window, s, run)
    ensures Bounded(window, Final(window, s, run))
    decreases |run|
  {
    hide Bounded;
    if run != [] {
      BoundedStep(window, s, run[0]);
      BoundedRun(window, Apply(window, s, run[0]), run[1..]);
    }
  }

  lemma {:induction false} LegalAppend(window: nat, s: State, run: seq<Action>, a: Action)
    requires Legal(window, s, run) && Enabled(window, Final(window, s, run), a)
    ensures Legal(window, s, run + [a]) && Final(window, s, run + [a]) == Apply(window, Final(window, s, run), a)
    decreases |run|
  {
    hide Enabled, Apply;
    if run == [] {
      assert (run + [a])[1..] == [];
    } else {
      LegalAppend(window, Apply(window, s, run[0]), run[1..], a);
      assert (run + [a])[1..] == run[1..] + [a];
    }
  }

  /** n messages arrived and queued before the loop fetched its first. */
  ghost predicate Queued(s: State, n: nat)
  {
    && s.reader == Reading && !s.readerDone && s.main == Popping(true, false)
    && |s.received| == |s.queue| == n && s.answers == [] && s.cur == None && s.nxt == None
  }

  lemma {:induction false} QueueUp(window: nat, n: nat) returns (run: seq<Action>)
    requires n <= CAPACITY && n <= window
    ensures Legal(window, Init(), run) && Queued(Final(window, Init(), run), n)
  {
    run := [];
    if n > 0 {
      run := QueueUp(window, n - 1);
      LegalAppend(window, Init(), run, Arrive(""));
      run := run + [Arrive("")];
      LegalAppend(window, Init(), run, Push);
      run := run + [Push];
      LegalAppend(window, Init(), run, Notify);
      run := run + [Notify];
    }
  }

  /** The reader sleeps on one more message while the loop works off the queue. */
  ghost predicate Draining(s: State, n: nat)
  {
    && s.reader.Sleeping? && !s.readerDone && s.main == Looking
    && s.cur.Some? && s.curJobs.Some? && s.nxt == None && |s.queue| == n
  }

  lemma {:induction false} Drain(window: nat, start: seq<Action>, n: nat) returns (run: seq<Action>)
    requires Legal(window, Init(), start) && Draining(Final(window, Init(), start), n)
    ensures Legal(window, Init(), run) && BothAsleep(Final(window, Init(), run))
    decreases n
  {
    LegalAppend(window, Init(), start, TryPop);
    run := start + [TryPop];
    LegalAppend(window, Init(), run, Send(true));
    run := run + [Send(true)];
    if n == 0 {
      LegalAppend(window, Init(), run, MainSleeps);
      run := run + [MainSleeps];
    } else {
      run := Drain(window, run, n - 1);
    }
  }

  /** One message more than the queue holds arrives before the loop fetches the first. */
  lemma FillQueue(window: nat) returns (run: seq<Action>)
    requires window > CAPACITY
    ensures Legal(window, Init(), run) && Draining(Final(window, Init(), run), CAPACITY - 1)
  {
    run := QueueUp(window, CAPACITY);
    LegalAppend(window, Init(), run, Arrive(""));
    run := run + [Arrive("")];
    LegalAppend(window, Init(), run, ReaderSleeps);
    run := run + [ReaderSleeps];
    LegalAppend(window, Init(), run, Pop);
    run := run + [Pop];
  }

  lemma LargeWindowSticks(window: nat) returns (run: seq<Action>)
    requires window > CAPACITY
    ensures Legal(window, Init(), run) && BothAsleep(Final(window, Init(), run))
  {
    run := FillQueue(window);
    run := Drain(window, run, CAPACITY - 1);
  }

  /** Or the loop ends on a broken connection while the reader sleeps. */
  lemma LargeWindowNeverJoins(window: nat) returns (run: seq<Action>)
    requires window > CAPACITY
    ensures Legal(window, Init(), run) && NeverJoins(Final(window, Init(), run))
  {
    run := FillQueue(window);
    LegalAppend(window, Init(), run, TryPop);
    run := run + [TryPop];
    LegalAppend(window, Init(), run, Send(false));
    run := run + [Send(false)];
  }

  ghost predicate NeverHangs(window: nat, run: seq<Action>)
  {
    Legal(window, Init(), run) ==> !Hung(window, Final(window, Init(), run))
  }

  ghost predicate AlwaysJoins(window: nat, run: seq<Action>)
  {
    Legal(window, Init(), run) ==> !NeverJoins(Final(window, Init(), run))
  }

  /** Popping does not notify, so a reader that fell asleep on a full queue is never
      woken.  Exactly when the client may have more than eight messages outstanding, the
      gateway can come to a state with messages unanswered in which neither thread can take
      a step, and to one in which the loop is over and its reader is never joined. */
  lemma HangsExactlyWhen(window: nat)
    ensures (forall run :: NeverHangs(window, run)) <==> window <= CAPACITY
    ensures (forall run :: AlwaysJoins(window, run)) <==> window <= CAPACITY
  {
    hide Ordered;
    InitOrdered();
    if window <= CAPACITY {
      forall run
        ensures NeverHangs(window, run) && AlwaysJoins(window, run)
      {
        if Legal(window, Init(), run) {
          BoundedRun(window, Init(), run);
          HungExactlyWhen(window, Final(window, Init(), run));
        }
      }
    } else {
      var run := LargeWindowSticks(window);
      EveryRunOrdered(window, Init(), run);
      HungExactlyWhen(window, Final(window, Init(), run));
      var broken := LargeWindowNeverJoins(window);
      assert !NeverHangs(window, run) && !AlwaysJoins(window, broken);
    }
  }
}
