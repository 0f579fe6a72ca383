/**
 The thread pool that decodes camera images, and gather, which puts the results back
 into the order of the cameras (main.cpp).
 */
module DecodePool {
  import opened Wrappers

  // ---------------------------------------------------------------- the pool

  /** Job i is the i-th one enqueued.  taken: jobs popped from the queue so far, oldest
      first; running: what each thread is doing; runs: how often each job was started. */
  datatype Pool<R> = Pool(enqueued: nat, taken: nat, running: seq<Option<nat>>, results: seq<Option<R>>,
                          runs: seq<nat>, stopped: bool, exited: seq<bool>)

  datatype Action = Enqueue | Take(thread: nat) | Finish(thread: nat) | Stop | Exit(thread: nat)

  function Start<R>(threads: nat): Pool<R>
  {
    Pool(0, 0, seq(threads, _ => None), [], [], false, seq(threads, _ => false))
  }

  ghost predicate Shape<R>(p: Pool<R>)
  {
    p.taken <= p.enqueued && |p.results| == |p.runs| == p.enqueued && |p.exited| == |p.running|
  }

  /** A thread waits until it is told to stop or a job is queued, and leaves only when the
      queue is empty. */
  ghost predicate Enabled<R>(p: Pool<R>, a: Action)
  {
    match a
    case Enqueue => !p.stopped
    case Take(t) => t < |p.running| && t < |p.exited| && p.running[t] == None && !p.exited[t] && p.taken < p.enqueued
    case Finish(t) => t < |p.running| && p.running[t].Some?
    case Stop => !p.stopped
    case Exit(t) =>
      t < |p.running| && t < |p.exited| && p.running[t] == None && !p.exited[t] && p.stopped && p.taken == p.enqueued
  }

  function Apply<R>(p: Pool<R>, work: nat -> R, a: Action): Pool<R>
    requires Shape(p) && Enabled(p, a)
    requires a.Finish? ==> p.running[a.thread].value < p.enqueued
  {
    match a
    case Enqueue => p.(enqueued := p.enqueued + 1, results := p.results + [None], runs := p.runs + [0])
    case Take(t) =>
      p.(taken := p.taken + 1, running := p.running[t := Some(p.taken)], runs := p.runs[p.taken := p.runs[p.taken] + 1])
    case Finish(t) =>
      var j := p.running[t].value;
      p.(running := p.running[t := None], results := p.results[j := Some(work(j))])
    case Stop => p.(stopped := true)
    case Exit(t) => p.(exited := p.exited[t := true])
  }

  ghost predicate RunBy<R>(p: Pool<R>, j: nat, t: nat)
  {
    t < |p.running| && p.running[t] == Some(j)
  }

  /** Jobs still queued were never started; a job taken was started once, and is either
      being run by one thread or has its own result. */
  ghost predicate Inv<R>(p: Pool<R>, work: nat -> R)
  {
    && Shape(p)
    && (forall j :: p.taken <= j < p.enqueued ==> p.runs[j] == 0 && p.results[j] == None)
    && (forall j :: 0 <= j < p.taken ==> p.runs[j] == 1)
    && (forall j :: 0 <= j < p.taken ==>
      p.results[j] == Some(work(j)) || (p.results[j] == None && exists t: nat :: RunBy(p, j, t)))
    && (forall t, j: nat :: RunBy(p, j, t) ==> j < p.taken && p.results[j] == None)
    && (forall t, u, j: nat :: RunBy(p, j, t) && RunBy(p, j, u) ==> t == u)
    && (forall t :: 0 <= t < |p.exited| && p.exited[t] ==> p.stopped && p.taken == p.enqueued && p.running[t] == None)
  }

  lemma StepKeepsInv<R>(p: Pool<R>, work: nat -> R, a: Action)
    requires Inv(p, work) && Enabled(p, a)
    ensures a.Finish? ==> p.running[a.thread].value < p.enqueued
    ensures Inv(Apply(p, work, a), work)
  {
    if a.Finish? { assert RunBy(p, p.running[a.thread].value, a.thread); }
    assert Shape(Apply(p, work, a));
    var q := Apply(p, work, a);
    forall j | 0 <= j < q.taken
      ensures q.results[j] == Some(work(j)) || (q.results[j] == None && exists t: nat :: RunBy(q, j, t))
    {
      if a.Take? && j == p.taken {
        assert RunBy(q, j, a.thread);
      } else if p.results[j] == None {
        var t: nat :| RunBy(p, j, t);
        assert !(a.Finish? && t == a.thread) ==> RunBy(q, j, t);
      }
    }
    assert forall t, j: nat :: RunBy(q, j, t) ==> RunBy(p, j, t) || (a == Take(t) && j == p.taken);
  }

  ghost predicate Legal<R>(p: Pool<R>, work: nat -> R, run: seq<Action>)
    requires Inv(p, work)
    decreases |run|
  {
    run == [] ||
    (Enabled(p, run[0]) && (StepKeepsInv(p, work, run[0]); Legal(Apply(p, work, run[0]), work, run[1..])))
  }

  ghost function Final<R>(p: Pool<R>, work: nat -> R, run: seq<Action>): (r: Pool<R>)
    requires Inv(p, work) && Legal(p, work, run)
    ensures Inv(r, work)
    decreases |run|
  {
    if run == [] then p else (StepKeepsInv(p, work, run[0]); Final(Apply(p, work, run[0]), work, run[1..]))
  }

  lemma StartInv<R>(threads: nat, work: nat -> R)
    ensures Inv(Start<R>(threads), work)
  {
  }

  ghost predicate LegalRun<R>(threads: nat, work: nat -> R, run: seq<Action>)
  {
    StartInv(threads, work);
    Legal(Start<R>(threads), work, run)
  }

  /** The pool after a run from its construction. */
  ghost function After<R>(threads: nat, work: nat -> R, run: seq<Action>): (r: Pool<R>)
    requires LegalRun(threads, work, run)
    ensures Inv(r, work)
  {
    StartInv(threads, work);
    Final(Start<R>(threads), work, run)
  }

  /** In every interleaving each job runs at most once and its future holds its own
      result; and a pool whose threads have all left (there was one at least) has run
      every job enqueued. */
  lemma EachJobOnce<R>(threads: nat, work: nat -> R, run: seq<Action>, j: nat)
    requires LegalRun(threads, work, run) && j < After(threads, work, run).enqueued
    ensures var p := After(threads, work, run);
            && p.runs[j] <= 1 && (p.results[j].Some? ==> p.results[j] == Some(work(j)) && p.runs[j] == 1)
            && (|p.exited| > 0 && (forall t :: 0 <= t < |p.exited| ==> p.exited[t]) ==> p.results[j] == Some(work(j)))
  {
    var p := After(threads, work, run);
    if |p.exited| > 0 && (forall t :: 0 <= t < |p.exited| ==> p.exited[t]) {
      assert p.exited[0] && p.taken == p.enqueued;
      assert forall t: nat :: !RunBy(p, j, t);
    }
  }

  // ---------------------------------------------------------------- a whole life

  lemma {:induction false} LegalAppend<R>(p: Pool<R>, work: nat -> R, run: seq<Action>, a: Action)
    requires Inv(p, work) && Legal(p, work, run) && Enabled(Final(p, work, run), a)
    ensures (StepKeepsInv(Final(p, work, run), work, a);
             Legal(p, work, run + [a]) && Final(p, work, run + [a]) == Apply(Final(p, work, run), work, a))
    decreases |run|
  {
    StepKeepsInv(Final(p, work, run), work, a);
    if run == [] {
      assert (run + [a])[1..] == [];
    } else {
      StepKeepsInv(p, work, run[0]);
      LegalAppend(Apply(p, work, run[0]), work, run[1..], a);
      assert (run + [a])[1..] == run[1..] + [a];
    }
  }

  lemma Next<R>(threads: nat, work: nat -> R, run: seq<Action>, a: Action) returns (more: seq<Action>)
    requires LegalRun(threads, work, run) && Enabled(After(threads, work, run), a)
    ensures (StepKeepsInv(After(threads, work, run), work, a);
             LegalRun(threads, work, more) && After(threads, work, more) == Apply(After(threads, work, run), work, a))
  {
    hide Enabled, Apply, Inv;
    StartInv(threads, work);
    LegalAppend(Start<R>(threads), work, run, a);
    more := run + [a];
  }

  /** n jobs enqueued, d of them done, and every thread idle. */
  ghost predicate Idle<R>(p: Pool<R>, threads: nat, n: nat, d: nat)
  {
    && p.enqueued == n && p.taken == d && |p.running| == |p.exited| == threads && !p.stopped
    && (forall t :: 0 <= t < threads ==> p.running[t] == None && !p.exited[t])
  }

  lemma {:induction false} EnqueueAll<R>(threads: nat, work: nat -> R, n: nat) returns (run: seq<Action>)
    ensures LegalRun(threads, work, run) && Idle(After(threads, work, run), threads, n, 0)
  {
    hide Inv;
    if n == 0 {
      run := [];
    } else {
      run := EnqueueAll(threads, work, n - 1);
      run := Next(threads, work, run, Enqueue);
    }
  }

  lemma {:induction false} WorkOff<R>(threads: nat, work: nat -> R, n: nat, d: nat) returns (run: seq<Action>)
    requires threads > 0 && d <= n
    ensures LegalRun(threads, work, run) && Idle(After(threads, work, run), threads, n, d)
  {
    hide Inv;
    if d == 0 {
      run := EnqueueAll(threads, work, n);
    } else {
      run := WorkOff(threads, work, n, d - 1);
      run := Next(threads, work, run, Take(0));
      run := Next(threads, work, run, Finish(0));
    }
  }

  /** The destructor was called, and the first k threads have left. */
  ghost predicate Leaving<R>(p: Pool<R>, threads: nat, n: nat, k: nat)
  {
    && p.enqueued == p.taken == n && |p.running| == |p.exited| == threads && p.stopped
    && (forall t :: 0 <= t < threads ==> p.running[t] == None && (p.exited[t] <==> t < k))
  }

  lemma {:induction false} Leave<R>(threads: nat, work: nat -> R, n: nat, k: nat) returns (run: seq<Action>)
    requires threads > 0 && k <= threads
    ensures LegalRun(threads, work, run) && Leaving(After(threads, work, run), threads, n, k)
  {
    hide Inv;
    if k == 0 {
      run := WorkOff(threads, work, n, n);
      run := Next(threads, work, run, Stop);
    } else {
      run := Leave(threads, work, n, k - 1);
      run := Next(threads, work, run, Exit(k - 1));
    }
  }

  /** A pool of one thread or more can take any number of jobs, run them all and be
      destroyed. */
  lemma CanFinish<R>(threads: nat, work: nat -> R, n: nat) returns (run: seq<Action>)
    requires threads > 0
    ensures LegalRun(threads, work, run)
    ensures var p := After(threads, work, run);
            && p.enqueued == n && |p.results| == n && p.stopped && |p.exited| == threads
            && (forall t :: 0 <= t < threads ==> p.exited[t])
            && (forall j :: 0 <= j < n ==> p.results[j] == Some(work(j)))
  {
    run := Leave(threads, work, n, threads);
    var p := After(threads, work, run);
    forall j | 0 <= j < n
      ensures p.results[j] == Some(work(j))
    {
      EachJobOnce(threads, work, run, j);
    }
  }

  // ---------------------------------------------------------------- gather

  const PREFIX: string := "observation.images."

  /** The worker-side name of a camera entry. */
  function SlotKey(cam: string): string
  {
    if PREFIX <= cam then cam else PREFIX + cam
  }

  /** Short and full names of a camera have the same key, the full name, and it has no other
      names. */
  lemma SlotKeyIs(cam: string)
    ensures PREFIX <= SlotKey(cam) && SlotKey(SlotKey(cam)) == SlotKey(cam)
    ensures PREFIX <= cam ==> SlotKey(cam) == cam
    ensures !(PREFIX <= cam) ==> SlotKey(cam)[|PREFIX|..] == cam && SlotKey("observation.images." + cam) == SlotKey(cam)
  {
  }

  /** A job's result: the slot it is for, and the image unless decoding failed. */
  datatype Camera<I> = Camera(name: string, image: Option<I>)

  function Matching<I>(key: string, cams: seq<Camera<I>>): seq<Camera<I>>
  {
    if cams == [] then []
    else (if cams[0].name == key && cams[0].image.Some? then [cams[0]] else []) + Matching(key, cams[1..])
  }

  function OkCams<I>(cameras: seq<string>, cams: seq<Camera<I>>): seq<Camera<I>>
  {
    if cameras == [] then [] else Matching(SlotKey(cameras[0]), cams) + OkCams(cameras[1..], cams)
  }

  function Missing<I>(cameras: seq<string>, cams: seq<Camera<I>>): seq<string>
  {
    if cameras == [] then []
    else (if Matching(SlotKey(cameras[0]), cams) == [] then [cameras[0]] else []) + Missing(cameras[1..], cams)
  }

  /** gather's inner loop: every result for the slot that has an image is appended. */
  method AppendMatching<I(==)>(key: string, cams: seq<Camera<I>>, before: seq<Camera<I>>)
    returns (ok: seq<Camera<I>>, found: bool)
    ensures ok == before + Matching(key, cams) && (found <==> Matching(key, cams) != [])
  {
    ok, found := before, false;
    var k := 0;
    assert cams[0..] == cams;
    while k < |cams|
      invariant 0 <= k <= |cams|
      invariant before + Matching(key, cams) == ok + Matching(key, cams[k..])
      invariant Matching(key, cams) != [] <==> found || Matching(key, cams[k..]) != []
    {
      assert cams[k..][1..] == cams[k + 1..];
      if cams[k].name == key && cams[k].image.Some? {
        ok := ok + [cams[k]];
        found := true;
      }
      k := k + 1;
    }
    assert cams[k..] == [];
  }

  /** gather's outer loop, over the cameras of the specification. */
  method Gather<I(==)>(cameras: seq<string>, cams: seq<Camera<I>>)
    returns (ok: seq<Camera<I>>, missing: seq<string>, failed: bool)
    ensures ok == OkCams(cameras, cams) && missing == Missing(cameras, cams) && (failed <==> ok == [])
  {
    hide Matching, SlotKey;
    ok, missing := [], [];
    var i := 0;
    assert cameras[0..] == cameras;
    while i < |cameras|
      invariant 0 <= i <= |cameras|
      invariant OkCams(cameras, cams) == ok + OkCams(cameras[i..], cams)
      invariant Missing(cameras, cams) == missing + Missing(cameras[i..], cams)
    {
      var found;
      ok, found := AppendMatching(SlotKey(cameras[i]), cams, ok);
      assert cameras[i..][1..] == cameras[i + 1..];
      if !found { missing := missing + [cameras[i]]; }
      i := i + 1;
    }
    assert cameras[i..] == [];
    failed := ok == [];
  }

  /** The decoded cameras in the order of the specification. */
  function InOrder<I>(cameras: seq<string>, decoded: map<string, Option<I>>): seq<Camera<I>>
  {
    if cameras == [] then []
    else
      (if cameras[0] in decoded && decoded[cameras[0]].Some? then [Camera(SlotKey(cameras[0]), decoded[cameras[0]])]
        else [])
      + InOrder(cameras[1..], decoded)
  }

  ghost predicate DistinctKeys(cameras: seq<string>)
  {
    forall i, j :: 0 <= i < j < |cameras| ==> SlotKey(cameras[i]) != SlotKey(cameras[j])
  }

  /** One result for each camera in `sent`, in any order, as dispatch_decode makes them. */
  function ResultsOf<I>(sent: seq<string>, decoded: map<string, Option<I>>): (r: seq<Camera<I>>)
    requires forall c <- sent :: c in decoded
    ensures |r| == |sent|
  {
    seq(|sent|, i requires 0 <= i < |sent| => assert sent[i] in sent; Camera(SlotKey(sent[i]), decoded[sent[i]]))
  }

  lemma MatchingFirst<I>(key: string, sent: seq<string>, decoded: map<string, Option<I>>)
    requires sent != [] && forall c <- sent :: c in decoded
    ensures (forall c <- sent[1..] :: c in decoded) && sent[0] in decoded
    ensures Matching(key, ResultsOf(sent, decoded)) ==
            (if SlotKey(sent[0]) == key && decoded[sent[0]].Some? then [Camera(SlotKey(sent[0]), decoded[sent[0]])]
              else [])
            + Matching(key, ResultsOf(sent[1..], decoded))
  {
    hide SlotKey;
    assert sent[0] in sent && forall c <- sent[1..] :: c in sent;
    assert ResultsOf(sent, decoded)[1..] == ResultsOf(sent[1..], decoded);
  }

  lemma {:induction false} MatchingOne<I>(cam: string, sent: seq<string>, decoded: map<string, Option<I>>)
    requires forall c <- sent :: c in decoded
    requires forall c <- sent :: SlotKey(c) == SlotKey(cam) ==> c == cam
    requires forall i, j :: 0 <= i < j < |sent| ==> sent[i] != sent[j]
    ensures Matching(SlotKey(cam), ResultsOf(sent, decoded)) ==
            if cam in sent && decoded[cam].Some? then [Camera(SlotKey(cam), decoded[cam])] else []
    decreases |sent|
  {
    hide SlotKey;
    if sent != [] {
      var rest := sent[1..];
      assert forall c <- rest :: c in sent;
      assert sent[0] in sent && sent == [sent[0]] + rest && sent[0] !in rest;
      MatchingFirst(SlotKey(cam), sent, decoded);
      hide Matching, ResultsOf;
      MatchingOne(cam, rest, decoded);
    }
  }

  /** Whatever order the jobs were sent in, gather lists every camera that decoded once,
      in the specification's order, as long as the cameras' slots are distinct. */
  lemma {:induction false} GatherInOrder<I>(cameras: seq<string>, all: seq<string>, sent: seq<string>,
      decoded: map<string, Option<I>>)
    requires DistinctKeys(all) && (forall c <- cameras :: c in all) && (forall c <- sent :: c in all)
    requires forall i, j :: 0 <= i < j < |sent| ==> sent[i] != sent[j]
    requires forall c <- all :: c in decoded <==> c in sent
    requires forall c <- sent :: c in decoded
    ensures OkCams(cameras, ResultsOf(sent, decoded)) == InOrder(cameras, decoded)
    ensures forall c :: c in Missing(cameras, ResultsOf(sent, decoded)) <==>
              c in cameras && !(c in sent && decoded[c].Some?)
  {
    if cameras != [] {
      var cam := cameras[0];
      assert cam in cameras && forall c <- cameras[1..] :: c in cameras;
      GatherInOrder(cameras[1..], all, sent, decoded);
      MatchingOne(cam, sent, decoded);
      assert cameras == [cam] + cameras[1..];
    }
  }
}
