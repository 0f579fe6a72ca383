/**
 The recorder and the bit comparison of phase_check.py: a recorded case replays to what
 the phase did when it was recorded, whatever the caller wrote since.
 */
module PhaseCheck {
  import opened Snapshot
  import opened Shapes

  /** What the phase leaves in the buffers it is said to write. */
  function Outputs(t: Tensors, mem: Memory, writes: set<string>): Contents
    requires Valid(t, mem)
  {
    map n | n in t && n in writes :: Read(t[n], mem[t[n].storage])
  }

  /** contents has exactly the written tensors, each with its own elements. */
  ghost predicate HoldsWritten(contents: Contents, t: Tensors, mem: Memory, writes: set<string>)
    requires Valid(t, mem)
  {
    && (forall n :: n in contents <==> n in t && n in writes)
    && (forall n <- contents :: |contents[n]| == Numel(t[n].shape))
    && (forall n, e: nat :: n in contents && e < Numel(t[n].shape) ==> contents[n][e] == Element(t, mem, n, e))
  }

  lemma OutputsHold(t: Tensors, mem: Memory, writes: set<string>)
    requires Valid(t, mem)
    ensures HoldsWritten(Outputs(t, mem, writes), t, mem, writes)
  {
  }

  /** Two memories agree on every element of every written tensor. */
  ghost predicate SameWritten(t: Tensors, ma: Memory, mb: Memory, writes: set<string>)
    requires Valid(t, ma) && Valid(t, mb)
  {
    forall n, e: nat :: n in t && n in writes && e < Numel(t[n].shape) ==> Element(t, ma, n, e) == Element(t, mb, n, e)
  }

  lemma SameKeys(t: Tensors, ma: Memory, mb: Memory, writes: set<string>)
    requires Valid(t, ma) && Valid(t, mb)
    ensures Outputs(t, ma, writes).Keys == Outputs(t, mb, writes).Keys
  {
    hide Read;
  }

  lemma OutputsEqualExactlyWhen(t: Tensors, ma: Memory, mb: Memory, writes: set<string>)
    requires Valid(t, ma) && Valid(t, mb)
    ensures Outputs(t, ma, writes) == Outputs(t, mb, writes) <==> SameWritten(t, ma, mb, writes)
  {
    OutputsHold(t, ma, writes);
    OutputsHold(t, mb, writes);
    hide Outputs, Element, Valid;
    var a, b := Outputs(t, ma, writes), Outputs(t, mb, writes);
    if SameWritten(t, ma, mb, writes) {
      forall n | n in a
        ensures n in b && a[n] == b[n]
      {
      }
      assert a.Keys == b.Keys;
    } else {
      var n, e: nat :| n in t && n in writes && e < Numel(t[n].shape) && Element(t, ma, n, e) != Element(t, mb, n, e);
      assert a[n][e] != b[n][e];
    }
  }

  /** Running a phase on the tensors themselves, step by step and in place. */
  method Run(t: Tensors, phase: Phase)
    requires Valid(t, MemoryOf(t))
    modifies Storages(t)
    ensures Valid(t, MemoryOf(t)) && MemoryOf(t) == Exec(t, old(MemoryOf(t)), phase)
  {
    hide Exec, ReadAll;
    var i := 0;
    assert phase[0..] == phase;
    while i < |phase|
      invariant 0 <= i <= |phase|
      invariant Valid(t, MemoryOf(t)) && Exec(t, MemoryOf(t), phase[i..]) == Exec(t, old(MemoryOf(t)), phase)
    {
      ghost var before := MemoryOf(t);
      var w := phase[i](ReadAll(t, MemoryOf(t)));
      Store(t, w);
      ExecStep(t, before, phase[i..]);
      assert phase[i..][1..] == phase[i + 1..];
      i := i + 1;
    }
    ExecNothing(t, MemoryOf(t), phase[i..]);
  }

  lemma ExecStep(t: Tensors, mem: Memory, phase: Phase)
    requires Valid(t, mem) && phase != []
    ensures Exec(t, mem, phase) == Exec(t, Do(t, mem, phase[0](ReadAll(t, mem))), phase[1..])
  {
  }

  lemma ExecNothing(t: Tensors, mem: Memory, phase: Phase)
    requires Valid(t, mem) && phase == []
    ensures Exec(t, mem, phase) == mem
  {
  }

  method Store(t: Tensors, w: Write)
    requires Valid(t, MemoryOf(t))
    modifies Storages(t)
    ensures Valid(t, MemoryOf(t)) && MemoryOf(t) == Do(t, old(MemoryOf(t)), w)
  {
    if Proper(t, w) {
      var v := t[w.name];
      v.storage.cells := Poke(v.storage.cells, Address(v, w.element), w.bytes);
    }
  }

  /** One call of one phase: its entry tensors, and a clone of what it wrote. */
  datatype Case = Case(key: string, tensors: Tensors, names: seq<string>, exits: Contents)

  /** Replaying phase on the case's entry gives its recorded exits. */
  ghost predicate Recorded(c: Case, phase: Phase, writes: set<string>)
    reads Storages(c.tensors)
  {
    && Lists(c.names, c.tensors) && Valid(c.tensors, MemoryOf(c.tensors))
    && c.exits == Outputs(c.tensors, Exec(c.tensors, MemoryOf(c.tensors), phase), writes)
  }

  lemma SameOutputs(a: Tensors, ma: Memory, b: Tensors, mb: Memory, phase: Phase, writes: set<string>)
    requires Isomorphic(a, ma, b, mb) && Valid(a, ma) && Valid(b, mb)
    ensures Outputs(a, Exec(a, ma, phase), writes) == Outputs(b, Exec(b, mb, phase), writes)
  {
    hide Exec, Read;
    IsomorphicExec(a, ma, b, mb, phase);
    var ca, cb := ReadAll(a, Exec(a, ma, phase)), ReadAll(b, Exec(b, mb, phase));
    forall n | n in a
      ensures Read(a[n], Exec(a, ma, phase)[a[n].storage]) == Read(b[n], Exec(b, mb, phase)[b[n].storage])
    {
      assert ca[n] == cb[n];
    }
  }

  class Recorder {
    const perPhase: nat
    var pending: seq<Case>  // at most one
    var cases: map<string, seq<Case>>

    constructor (perPhase: nat)
      ensures this.perPhase == perPhase && pending == [] && cases == map[]
    {
      this.perPhase := perPhase;
      pending := [];
      cases := map[];
    }

    predicate Wants(key: string)
      reads this
    {
      (if key in cases then |cases[key]| else 0) < perPhase
    }

    /** The snapshot is taken before the phase runs. */
    method Enter(key: string, t: Tensors, names: seq<string>)
      requires Lists(names, t)
      modifies this`pending
      ensures if !Wants(key) then pending == old(pending)
              else
                && |pending| == 1 && pending[0].key == key && pending[0].names == names
                && fresh(Storages(pending[0].tensors))
                && t.Keys == pending[0].tensors.Keys
                && Isomorphic(t, MemoryOf(t), pending[0].tensors, MemoryOf(pending[0].tensors))
    {
      hide Isomorphic, Lists;
      if !Wants(key) { return; }
      var copy := TakeSnapshot(t, names);
      label before:
      pending := [Case(key, copy, names, map[])];
      Untouched@before(t);
      Untouched@before(copy);
    }

    method Exit(key: string, t: Tensors, writes: set<string>)
      requires Valid(t, MemoryOf(t)) && |pending| <= 1
      modifies this
      ensures pending == []
      ensures cases ==
              if old(pending) == [] || old(pending)[0].key != key then old(cases)
              else
                var c := old(pending)[0].(exits := Outputs(t, MemoryOf(t), writes));
                old(cases)[key := (if key in old(cases) then old(cases)[key] else []) + [c]]
      ensures old(pending) != [] && old(pending)[0].key == key ==>
                && key in cases && cases[key] != []
                && HoldsWritten(cases[key][|cases[key]| - 1].exits, t, MemoryOf(t), writes)
    {
      OutputsHold(t, MemoryOf(t), writes);
      hide Outputs, InBounds, HoldsWritten, Valid, MemoryOf;
      var was := pending;
      pending := [];
      if was == [] || was[0].key != key { return; }
      Untouched(t);
      var c := was[0].(exits := Outputs(t, MemoryOf(t), writes));
      label before:
      cases := cases[key := (if key in cases then cases[key] else []) + [c]];
      Untouched@before(t);
    }

    /** dispatch with a recorder installed: the first perPhase calls of a phase are recorded;
        the new case replays to what the phase did, and keeps doing so whatever the caller
        later writes to its own buffers. */
    method Dispatch(key: string, t: Tensors, names: seq<string>, phase: Phase, writes: set<string>)
      requires Lists(names, t) && Valid(t, MemoryOf(t)) && |pending| <= 1
      modifies this, Storages(t)
      ensures MemoryOf(t) == Exec(t, old(MemoryOf(t)), phase)
      ensures var n := if key in old(cases) then |old(cases)[key]| else 0;
              && (n < perPhase ==>
                    && key in cases && |cases[key]| == n + 1
                    && fresh(Storages(cases[key][n].tensors)) && Recorded(cases[key][n], phase, writes))
              && (n >= perPhase && old(pending) == [] ==> cases == old(cases))
    {
      hide Outputs, InBounds, Exec, Isomorphic, Lists, Read, MemoryOf, Valid;
      var wanted := Wants(key);
      Enter(key, t, names);
      Untouched(t);
      ghost var copy := if wanted then pending[0].tensors else map[];
      if wanted {
        SameNames(names, t, copy);
        RunBeside(t, phase, copy, writes);
      } else {
        Run(t, phase);
      }
      label before:
      Exit(key, t, writes);
      Untouched@before(t);
      Untouched@before(copy);
    }
  }

  lemma SameNames(names: seq<string>, t: Tensors, copy: Tensors)
    requires Lists(names, t) && t.Keys == copy.Keys
    ensures Lists(names, copy)
  {
    assert forall n :: n in t <==> n in copy;
  }

  /** While the phase runs on t, a copy on storages of its own stays at the entry. */
  method RunBeside(t: Tensors, phase: Phase, ghost copy: Tensors, ghost writes: set<string>)
    requires Valid(t, MemoryOf(t)) && Isomorphic(t, MemoryOf(t), copy, MemoryOf(copy))
    requires Storages(t) !! Storages(copy)
    modifies Storages(t)
    ensures MemoryOf(t) == Exec(t, old(MemoryOf(t)), phase) && Valid(t, MemoryOf(t))
    ensures MemoryOf(copy) == old(MemoryOf(copy)) && Valid(copy, MemoryOf(copy))
    ensures Outputs(t, MemoryOf(t), writes) == Outputs(copy, Exec(copy, MemoryOf(copy), phase), writes)
  {
    hide Exec, Isomorphic, InBounds, Read, Outputs;
    ghost var before, entry := MemoryOf(t), MemoryOf(copy);
    IsomorphicValid(t, before, copy, entry);
    SameOutputs(t, before, copy, entry, phase, writes);
    Run(t, phase);
    forall s | s in Storages(copy)
      ensures s.cells == old(s.cells)
    {
      assert s !in Storages(t);
    }
    Untouched(copy);
  }

  /** Case.replay: on a snapshot of the entry, so that the entry itself stays as recorded. */
  method Replay(c: Case, impl: Phase, writes: set<string>) returns (got: Contents)
    requires Lists(c.names, c.tensors) && Valid(c.tensors, MemoryOf(c.tensors))
    ensures got == Outputs(c.tensors, Exec(c.tensors, MemoryOf(c.tensors), impl), writes)
    ensures HoldsWritten(got, c.tensors, Exec(c.tensors, MemoryOf(c.tensors), impl), writes)
  {
    OutputsHold(c.tensors, Exec(c.tensors, MemoryOf(c.tensors), impl), writes);
    hide Outputs, InBounds, Exec, Isomorphic, Lists, Read, HoldsWritten;
    var t := TakeSnapshot(c.tensors, c.names);
    IsomorphicValid(c.tensors, MemoryOf(c.tensors), t, MemoryOf(t));
    IsomorphicSymmetric(c.tensors, MemoryOf(c.tensors), t, MemoryOf(t));
    RunBeside(t, impl, c.tensors, writes);
    Untouched(c.tensors);
    got := Outputs(t, MemoryOf(t), writes);
  }

  /** check: the recorded phase itself always passes, and another implementation passes
      exactly when it leaves the same bytes in every written buffer. */
  method Check(c: Case, impl: Phase, ghost phase: Phase, writes: set<string>) returns (ok: bool)
    requires Recorded(c, phase, writes)
    ensures var mem := MemoryOf(c.tensors);
            ok <==> SameWritten(c.tensors, Exec(c.tensors, mem, impl), Exec(c.tensors, mem, phase), writes)
    ensures impl == phase ==> ok
  {
    hide Exec, Read, Element, Outputs, SameWritten, HoldsWritten;
    var got := Replay(c, impl, writes);
    ghost var mem := MemoryOf(c.tensors);
    SameKeys(c.tensors, Exec(c.tensors, mem, impl), Exec(c.tensors, mem, phase), writes);
    ok := forall n | n in c.exits :: n in got ==> got[n] == c.exits[n];
    OutputsEqualExactlyWhen(c.tensors, Exec(c.tensors, mem, impl), Exec(c.tensors, mem, phase), writes);
  }
}
