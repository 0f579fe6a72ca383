/**
 The action queue of real-time chunking (action_queue.py): processed actions for the
 robot beside the original ones they came from, consumed by an index.  Against it, the
 simple thing: what is still to be handed out, without the index.
 */
module ActionQueue {
  import opened Wrappers

  /** s[n:] as Python slices: nothing when n is past the end. */
  function Drop<T>(s: seq<T>, n: nat): seq<T>
  {
    if n <= |s| then s[n..] else []
  }

  function Clamp(delay: int, bound: nat): nat
  {
    if delay < 0 then 0 else if delay > bound then bound else delay
  }

  function Min(a: nat, b: nat): nat
  {
    if a < b then a else b
  }

  /** Original and processed actions not handed out yet.  behind: actions handed out whose
      originals are still missing, because there were fewer of them. */
  datatype Pending<O, P> = Pending(originals: seq<O>, processed: seq<P>, behind: nat)

  class Queue<O, P> {
    const enabled: bool
    var queue: Option<seq<P>>
    var originalQueue: Option<seq<O>>
    var lastIndex: nat

    ghost predicate Valid()
      reads this
    {
      match queue
      case None => originalQueue == None && lastIndex == 0
      case Some(q) => originalQueue.Some? && lastIndex <= |q|
    }

    ghost function Now(): Pending<O, P>
      requires Valid()
      reads this
    {
      if queue.None? then Pending([], [], 0)
      else
        var o := originalQueue.value;
        Pending(Drop(o, lastIndex), queue.value[lastIndex..], if lastIndex > |o| then lastIndex - |o| else 0)
    }

    constructor (enabled: bool)
      ensures this.enabled == enabled && Valid() && Now() == Pending([], [], 0)
    {
      this.enabled := enabled;
      queue, originalQueue, lastIndex := None, None, 0;
    }

    /** get: the oldest pending action, None exactly when there is none. */
    method Get() returns (action: Option<P>)
      requires Valid()
      modifies this`lastIndex
      ensures Valid() && action == (if old(Now()).processed == [] then None else Some(old(Now()).processed[0]))
      ensures Now() == AfterGet(old(Now()))
    {
      if queue.None? || lastIndex >= |queue.value| { return None; }
      action := Some(queue.value[lastIndex]);
      lastIndex := lastIndex + 1;
    }

    method Clear()
      modifies this
      ensures Valid() && Now() == Pending([], [], 0)
    {
      queue, originalQueue, lastIndex := None, None, 0;
    }

    method Size() returns (n: nat)
      requires Valid()
      ensures n == |Now().processed|
    {
      n := if queue.None? then 0 else |queue.value| - lastIndex;
    }

    /** Both left-overs; None for both when nothing was merged since the last clear. */
    method LeftOvers() returns (originals: Option<seq<O>>, processed: Option<seq<P>>)
      requires Valid()
      ensures originals.Some? <==> processed.Some?
      ensures processed.Some? ==> originals.value == Now().originals && processed.value == Now().processed
      ensures processed.None? ==> Now() == Pending([], [], 0)
    {
      if queue.None? { return None, None; }
      originals, processed := Some(Drop(originalQueue.value, lastIndex)), Some(queue.value[lastIndex..]);
    }

    /** _check_and_resolve_delays: a mismatch is only reported. */
    method ResolveDelay(realDelay: int, indexBefore: Option<int>) returns (delay: int)
      ensures forall bound: nat :: Clamp(delay, bound) == Clamp(realDelay, bound)
    {
      if indexBefore.Some? {
        var d := lastIndex - indexBefore.value;
        if (if d < 0 then 0 else d) != realDelay { return realDelay; }
      }
      delay := if realDelay < 0 then 0 else realDelay;
    }

    /** merge, with chunks of any lengths and whatever index was noted before. */
    method Merge(originals: seq<O>, processed: seq<P>, realDelay: int, indexBefore: Option<int>)
      requires Valid()
      modifies this
      ensures Valid() && queue.Some?
      ensures Now() == if enabled then Replaced(originals, processed, realDelay)
                       else Appended(old(Now()), originals, processed)
    {
      var delay := ResolveDelay(realDelay, indexBefore);
      assert Clamp(delay, Min(|originals|, |processed|)) == Clamp(realDelay, Min(|originals|, |processed|));
      if enabled {
        Replace(originals, processed, delay);
      } else {
        Append(originals, processed);
      }
    }

    /** _replace_actions_queue */
    method Replace(originals: seq<O>, processed: seq<P>, delay: int)
      modifies this
      ensures Valid() && queue.Some? && Now() == Replaced(originals, processed, delay)
    {
      var clamped := Clamp(delay, Min(|originals|, |processed|));
      originalQueue := Some(originals[clamped..]);
      queue := Some(processed[clamped..]);
      lastIndex := 0;
    }

    /** _append_actions_queue */
    method Append(originals: seq<O>, processed: seq<P>)
      requires Valid()
      modifies this
      ensures Valid() && queue.Some? && Now() == Appended(old(Now()), originals, processed)
    {
      if queue.None? {
        originalQueue, queue := Some(originals), Some(processed);
        return;
      }
      var os, ps := originalQueue.value + originals, queue.value + processed;
      originalQueue := Some(Drop(os, lastIndex));
      queue := Some(ps[lastIndex..]);
      lastIndex := 0;
    }
  }

  // ---------------------------------------------------------------- the simple thing

  function AfterGet<O, P>(p: Pending<O, P>): Pending<O, P>
  {
    if p.processed == [] then p
    else if p.originals == [] then Pending([], p.processed[1..], p.behind + 1)
    else Pending(p.originals[1..], p.processed[1..], p.behind)
  }

  /** A new chunk less the actions executed while it was computed. */
  function Replaced<O, P>(originals: seq<O>, processed: seq<P>, delay: int): Pending<O, P>
  {
    var d := Clamp(delay, Min(|originals|, |processed|));
    Pending(originals[d..], processed[d..], 0)
  }

  /** The delay is cut off at 0 and at the shorter chunk. */
  lemma ReplacedIs<O, P>(originals: seq<O>, processed: seq<P>, delay: int)
    ensures var r := Replaced(originals, processed, delay);
            && (delay <= 0 ==> r == Pending(originals, processed, 0))
            && (0 <= delay <= |originals| && delay <= |processed| ==>
                  r == Pending(originals[delay..], processed[delay..], 0))
            && (delay >= |originals| && |originals| <= |processed| ==>
                  r == Pending([], processed[|originals|..], 0))
            && (delay >= |processed| && |processed| <= |originals| ==>
                  r == Pending(originals[|processed|..], [], 0))
  {
  }

  /** The chunk behind what is pending; originals of actions handed out already go. */
  function Appended<O, P>(p: Pending<O, P>, originals: seq<O>, processed: seq<P>): Pending<O, P>
  {
    Pending(Drop(p.originals + originals, p.behind), p.processed + processed, 0)
  }

  datatype Operation<O, P> = Get | Clear | Merge(originals: seq<O>, processed: seq<P>, delay: int)

  /** What an operation makes of the pending actions, and what it hands out. */
  function Step<O, P>(enabled: bool, p: Pending<O, P>, op: Operation<O, P>): (Pending<O, P>, seq<P>)
  {
    match op
    case Get => (AfterGet(p), if p.processed == [] then [] else [p.processed[0]])
    case Clear => (Pending([], [], 0), [])
    case Merge(os, ps, delay) => (if enabled then Replaced(os, ps, delay) else Appended(p, os, ps), [])
  }

  function Outputs<O, P>(enabled: bool, p: Pending<O, P>, ops: seq<Operation<O, P>>): seq<P>
    decreases |ops|
  {
    if ops == [] then []
    else
      var (next, out) := Step(enabled, p, ops[0]);
      out + Outputs(enabled, next, ops[1..])
  }

  /** Where a run of operations ends. */
  function After<O, P>(enabled: bool, p: Pending<O, P>, ops: seq<Operation<O, P>>): Pending<O, P>
    decreases |ops|
  {
    if ops == [] then p else After(enabled, Step(enabled, p, ops[0]).0, ops[1..])
  }

  method Perform<O, P>(q: Queue<O, P>, op: Operation<O, P>) returns (out: seq<P>)
    requires q.Valid()
    modifies q
    ensures q.Valid() && (q.Now(), out) == Step(q.enabled, old(q.Now()), op)
  {
    out := [];
    match op
    case Get =>
      var a := q.Get();
      if a.Some? { out := [a.value]; }
    case Clear => q.Clear();
    case Merge(os, ps, delay) => q.Merge(os, ps, delay, None);
  }

  lemma RunStep<O, P>(enabled: bool, p: Pending<O, P>, ops: seq<Operation<O, P>>, next: Pending<O, P>, before: seq<P>,
      out: seq<P>)
    requires ops != [] && (next, out) == Step(enabled, p, ops[0])
    ensures before + Outputs(enabled, p, ops) == before + out + Outputs(enabled, next, ops[1..])
    ensures After(enabled, p, ops) == After(enabled, next, ops[1..])
  {
    hide Step;
    assert before + (out + Outputs(enabled, next, ops[1..])) == before + out + Outputs(enabled, next, ops[1..]);
  }

  /** Any run of operations hands out, and leaves pending, exactly what the simple thing
      does. */
  method RunQueue<O, P>(q: Queue<O, P>, ops: seq<Operation<O, P>>) returns (out: seq<P>)
    requires q.Valid()
    modifies q
    ensures q.Valid() && out == Outputs(q.enabled, old(q.Now()), ops) && q.Now() == After(q.enabled, old(q.Now()), ops)
  {
    hide Outputs, After, Step;
    out := [];
    var i := 0;
    assert ops[0..] == ops;
    while i < |ops|
      invariant 0 <= i <= |ops| && q.Valid()
      invariant out + Outputs(q.enabled, q.Now(), ops[i..]) == Outputs(q.enabled, old(q.Now()), ops)
      invariant After(q.enabled, q.Now(), ops[i..]) == After(q.enabled, old(q.Now()), ops)
    {
      ghost var before := q.Now();
      var more := Perform(q, ops[i]);
      assert ops[i..][1..] == ops[i + 1..];
      RunStep(q.enabled, before, ops[i..], q.Now(), out, more);
      out := out + more;
      i := i + 1;
    }
    RunEnds(q.enabled, q.Now(), ops[i..]);
    assert out + [] == out;
  }

  lemma RunEnds<O, P>(enabled: bool, p: Pending<O, P>, ops: seq<Operation<O, P>>)
    requires ops == []
    ensures Outputs(enabled, p, ops) == [] && After(enabled, p, ops) == p
  {
  }

  // ---------------------------------------------------------------- alignment

  /** Every pending action has its original beside it. */
  predicate Aligned<O, P>(p: Pending<O, P>)
  {
    |p.originals| == |p.processed| && p.behind == 0
  }

  /** An operation keeps the two sides aligned exactly when it is not a merge of chunks of
      different lengths. */
  lemma StepAlignedExactlyWhen<O, P>(enabled: bool, p: Pending<O, P>, op: Operation<O, P>)
    requires Aligned(p)
    ensures Aligned(Step(enabled, p, op).0) <==> (op.Merge? ==> |op.originals| == |op.processed|)
  {
  }

  /** An original and its processed action. */
  datatype Pair<O, P> = Pair(original: O, processed: P)

  function Zip<O, P>(os: seq<O>, ps: seq<P>): (r: seq<Pair<O, P>>)
    requires |os| == |ps|
    ensures |r| == |os|
  {
    seq(|os|, i requires 0 <= i < |os| => Pair(os[i], ps[i]))
  }

  function Pairs<O, P>(p: Pending<O, P>): seq<Pair<O, P>>
    requires Aligned(p)
  {
    Zip(p.originals, p.processed)
  }

  /** With chunks of one length the queue is a queue of pairs: get takes the first pair,
      merge replaces the pairs by the chunk's less its first ones, or appends them. */
  lemma StepPairs<O, P>(enabled: bool, p: Pending<O, P>, op: Operation<O, P>)
    requires Aligned(p) && (op.Merge? ==> |op.originals| == |op.processed|)
    ensures Aligned(Step(enabled, p, op).0)
    ensures Pairs(Step(enabled, p, op).0) ==
            match op
            case Get => if Pairs(p) == [] then [] else Pairs(p)[1..]
            case Clear => []
            case Merge(os, ps, delay) =>
              if enabled then Zip(os, ps)[Clamp(delay, |os|)..] else Pairs(p) + Zip(os, ps)
  {
  }

  /** And so over any run. */
  lemma {:induction false} RunAligned<O, P>(enabled: bool, p: Pending<O, P>, ops: seq<Operation<O, P>>)
    requires Aligned(p) && forall op <- ops :: op.Merge? ==> |op.originals| == |op.processed|
    ensures Aligned(After(enabled, p, ops))
    decreases |ops|
  {
    if ops != [] {
      assert ops[0] in ops && forall op <- ops[1..] :: op in ops;
      StepAlignedExactlyWhen(enabled, p, ops[0]);
      RunAligned(enabled, Step(enabled, p, ops[0]).0, ops[1..]);
    }
  }

  /** Nothing is lost or reordered: n gets in a row hand out the first n pending actions. */
  lemma {:induction false} GetsInOrder<O, P>(enabled: bool, p: Pending<O, P>, n: nat)
    requires n <= |p.processed|
    ensures Outputs(enabled, p, seq(n, _ => Operation<O, P>.Get)) == p.processed[..n]
    decreases n
  {
    if n > 0 {
      var ops := seq(n, _ => Operation<O, P>.Get);
      assert ops[1..] == seq(n - 1, _ => Operation<O, P>.Get);
      GetsInOrder(enabled, AfterGet(p), n - 1);
      assert p.processed[..n] == [p.processed[0]] + p.processed[1..][..n - 1];
    }
  }
}
