/**
 Noise double-buffering and the action queue of the CUDA-graph engine (engine.py).  Draw k
 is the k-th block the seeded generator produces; the eager path uses them one by one.
 */
module NoisePrefetch {
  import opened Wrappers
  import Powers

  /** One inference: by the graph or by the eager fallback, with given noise or without. */
  datatype Request = Request(graph: bool, implicit: bool)

  /** drawn: blocks taken from the generator; staged: the block in the staging buffer. */
  datatype State = State(drawn: nat, staged: nat, ready: bool)

  const START := State(0, 0, false)

  /** The new state, and the draw an implicit request used. */
  function Step(s: State, r: Request): (State, Option<nat>)
  {
    if !r.implicit then (s, None)
    else if !r.graph then (s.(drawn := s.drawn + 1), Some(s.drawn))
    else if s.ready then (State(s.drawn + 1, s.drawn, true), Some(s.staged))
    else (State(s.drawn + 2, s.drawn + 1, true), Some(s.drawn))
  }

  /** The draws used by the implicit requests of a run, in order. */
  function Used(s: State, run: seq<Request>): seq<nat>
    decreases |run|
  {
    if run == [] then []
    else
      var (next, used) := Step(s, run[0]);
      (if used.Some? then [used.value] else []) + Used(next, run[1..])
  }

  function Implicit(run: seq<Request>): nat
  {
    if run == [] then 0 else (if run[0].implicit then 1 else 0) + Implicit(run[1..])
  }

  /** The eager engine's draws: one after another. */
  function Eager(from: nat, n: nat): (r: seq<nat>)
    ensures |r| == n
  {
    seq(n, i => from + i)
  }

  /** An implicit request falls back to the eager path after a graph one prefetched. */
  ghost predicate FallsBack(run: seq<Request>, prefetched: bool)
  {
    run != [] &&
    ((prefetched && run[0].implicit && !run[0].graph) ||
     FallsBack(run[1..], prefetched || (run[0].implicit && run[0].graph)))
  }

  /** Before anything was prefetched the next draw is the generator's; afterwards it is the
      staged one, just behind the generator. */
  function NextDraw(s: State): nat
  {
    if s.ready then s.staged else s.drawn
  }

  ghost predicate InStep(s: State)
  {
    s.ready ==> s.drawn == s.staged + 1
  }

  lemma EagerCons(from: nat, n: nat)
    ensures Eager(from, n + 1) == [from] + Eager(from + 1, n)
  {
  }

  lemma {:induction false} MatchesEager(s: State, run: seq<Request>)
    requires InStep(s) && !FallsBack(run, s.ready)
    ensures Used(s, run) == Eager(NextDraw(s), Implicit(run))
    decreases |run|
  {
    if run != [] {
      MatchesEager(Step(s, run[0]).0, run[1..]);
      EagerCons(NextDraw(s), Implicit(run[1..]));
    }
  }

  lemma {:induction false} UsedLength(s: State, run: seq<Request>)
    ensures |Used(s, run)| == Implicit(run)
    decreases |run|
  {
    if run != [] { UsedLength(Step(s, run[0]).0, run[1..]); }
  }

  /** The fallback uses the draw after the staged one. */
  lemma {:induction false} FallbackSkips(s: State, run: seq<Request>)
    requires InStep(s) && FallsBack(run, s.ready)
    ensures Used(s, run) != Eager(NextDraw(s), Implicit(run))
    decreases |run|
  {
    var (next, used) := Step(s, run[0]);
    UsedLength(next, run[1..]);
    if s.ready && run[0].implicit && !run[0].graph {
      assert Used(s, run)[0] == s.drawn && Eager(NextDraw(s), Implicit(run))[0] == s.staged;
    } else {
      FallbackSkips(next, run[1..]);
      if run[0].implicit {
        EagerCons(NextDraw(s), Implicit(run[1..]));
        assert Used(s, run)[1..] == Used(next, run[1..]);
        assert Eager(NextDraw(s), Implicit(run))[1..] == Eager(NextDraw(next), Implicit(run[1..]));
      }
    }
  }

  /** The k-th implicit request uses the k-th draw, as without prefetching, exactly when
      no implicit request falls back to the eager path once noise has been prefetched. */
  lemma SameNoiseExactlyWhen(run: seq<Request>)
    ensures Used(START, run) == Eager(0, Implicit(run)) <==> !FallsBack(run, false)
  {
    if FallsBack(run, false) { FallbackSkips(START, run); } else { MatchesEager(START, run); }
  }

  /** For instance: the second request falls back, and uses the third draw. */
  lemma FallbackAfterGraph()
    ensures Used(START, [Request(true, true), Request(false, true)]) == [0, 2] != Eager(0, 2)
  {
    var run := [Request(true, true), Request(false, true)];
    assert Eager(0, 2)[1] == 1;
    assert run[1..] == [Request(false, true)] && run[1..][1..] == [];
  }

  // ---------------------------------------------------------------- the engine

  /** An action of a chunk: which inference produced it, and its position there. */
  datatype Action = Action(chunk: nat, index: nat)

  class Engine {
    const chunkSize: nat
    const perChunk: nat  // n_action_steps
    var state: State
    var queue: seq<Action>
    var inferences: nat
    ghost var history: seq<Request>
    ghost var noise: seq<nat>

    constructor (chunkSize: nat, perChunk: nat)
      ensures this.chunkSize == chunkSize && this.perChunk == perChunk
      ensures state == START && queue == [] && inferences == 0 && history == [] && noise == []
    {
      this.chunkSize, this.perChunk := chunkSize, perChunk;
      state, queue, inferences, history, noise := START, [], 0, [], [];
    }

    /** The noise used so far is what the run of requests uses from the start. */
    ghost predicate Valid()
      reads this
    {
      forall more: seq<Request> :: noise + Used(state, more) == Used(START, history + more)
    }

    /** _run_graph or the eager fallback: the static noise buffer gets the staged block or
        a fresh one, and only implicit graph requests prefetch the next. */
    method Infer(r: Request) returns (used: Option<nat>)
      requires Valid()
      modifies this`state, this`inferences, this`history, this`noise
      ensures Valid() && used == Step(old(state), r).1 && state == Step(old(state), r).0
      ensures history == old(history) + [r] && inferences == old(inferences) + 1
    {
      ghost var was := state;
      used := None;
      if r.implicit && r.graph {
        if state.ready {
          used := Some(state.staged);
          state := state.(ready := false);
        } else {
          used := Some(state.drawn);
          state := state.(drawn := state.drawn + 1);
        }
        state := State(state.drawn + 1, state.drawn, true);
      } else if r.implicit {
        used := Some(state.drawn);
        state := state.(drawn := state.drawn + 1);
      }
      ghost var took := if used.Some? then [used.value] else [];
      forall more: seq<Request>
        ensures noise + took + Used(state, more) == Used(START, history + [r] + more)
      {
        assert ([r] + more)[1..] == more;
        assert history + [r] + more == history + ([r] + more);
        assert noise + (took + Used(state, more)) == noise + took + Used(state, more);
        assert noise + Used(was, [r] + more) == Used(START, history + ([r] + more));
      }
      noise := noise + took;
      history := history + [r];
      inferences := inferences + 1;
    }

    function PerChunk(): (n: nat)
      ensures n <= chunkSize && n <= perChunk && (n == chunkSize || n == perChunk)
    {
      if chunkSize < perChunk then chunkSize else perChunk
    }

    /** The queue is the rest of the last chunk's first n_action_steps actions. */
    ghost predicate QueueValid()
      reads this
    {
      && |queue| <= PerChunk() && (queue != [] ==> inferences > 0)
      && forall i :: 0 <= i < |queue| ==> queue[i] == Action(inferences - 1, PerChunk() - |queue| + i)
    }

    /** select_action: infers a chunk only when the queue is empty. */
    method SelectAction(r: Request) returns (action: Action)
      requires Valid() && QueueValid() && PerChunk() > 0
      modifies this
      ensures Valid() && QueueValid()
      ensures if old(queue) == [] then
                && inferences == old(inferences) + 1 && history == old(history) + [r]
                && action == Action(old(inferences), 0) && |queue| == PerChunk() - 1
              else
                && inferences == old(inferences) && history == old(history)
                && action == Action(inferences - 1, PerChunk() - |old(queue)|) && queue == old(queue)[1..]
    {
      if queue == [] {
        var _ := Infer(r);
        var last: nat := inferences - 1;
        queue := seq(PerChunk(), i requires 0 <= i => Action(last, i));
      }
      action := queue[0];
      queue := queue[1..];
    }

    /** The k-th action is action k mod n of inference k div n. */
    method SelectMany(requests: seq<Request>) returns (actions: seq<Action>)
      requires Valid() && queue == [] && inferences == 0 && PerChunk() > 0
      modifies this
      ensures |actions| == |requests|
      ensures forall k :: 0 <= k < |actions| ==> actions[k] == Action(k / PerChunk(), k % PerChunk())
    {
      actions := [];
      var n := PerChunk();
      while |actions| < |requests|
        invariant |actions| <= |requests| && Valid() && QueueValid()
        invariant inferences * n == |actions| + |queue|
        invariant forall k :: 0 <= k < |actions| ==> actions[k] == Action(k / n, k % n)
      {
        ghost var was, had := inferences, queue;
        var a := SelectAction(requests[|actions|]);
        Position(n, |actions|, |had|, was);
        actions := actions + [a];
      }
    }
  }

  lemma Position(n: nat, k: nat, left: nat, inferences: nat)
    requires n > 0 && inferences * n == k + left && left <= n
    ensures left == 0 ==> k / n == inferences && k % n == 0 && (inferences + 1) * n == k + 1 + (n - 1)
    ensures left > 0 ==> inferences > 0 && k / n == inferences - 1 && k % n == n - left
  {
    if left == 0 {
      Powers.DivUnique(k, n, inferences, 0);
    } else {
      Powers.PositiveFactor(inferences, n);
      assert (inferences - 1) * n == inferences * n - n;
      Powers.DivUnique(k, n, inferences - 1, if left < n then n - left else 0);
    }
  }
}
