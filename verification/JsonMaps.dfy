/**
 JSON objects as std::map keeps them: assigning a key keeps the members sorted, and
 looking a key up finds its last assignment.
 */
module JsonMaps {
  import opened Wrappers
  import opened Json

  function InsertAll<T>(acc: seq<Member<T>>, ms: seq<Member<T>>): seq<Member<T>>
    decreases |ms|
  {
    if ms == [] then acc else InsertAll(Insert(acc, ms[0].key, ms[0].value), ms[1..])
  }

  lemma {:induction false} LessAntisymmetric(a: string, b: string)
    requires Less(a, b)
    ensures a != b && !Less(b, a)
    decreases |b|
  {
    if a != [] && a[0] == b[0] { LessAntisymmetric(a[1..], b[1..]); }
  }

  lemma {:induction false} LessTransitive(a: string, b: string, c: string)
    requires Less(a, b) && Less(b, c)
    ensures Less(a, c)
    decreases |a|
  {
    if a != [] && a[0] == b[0] == c[0] { LessTransitive(a[1..], b[1..], c[1..]); }
  }

  lemma {:induction false} LessTotal(a: string, b: string)
    ensures Less(a, b) || a == b || Less(b, a)
    decreases |a|
  {
    if a != [] && b != [] && a[0] == b[0] {
      LessTotal(a[1..], b[1..]);
      if a[1..] == b[1..] { assert a == [a[0]] + a[1..] == b; }
    }
  }

  lemma {:induction false} InsertLast<T>(ms: seq<Member<T>>, key: string, value: T)
    requires forall i :: 0 <= i < |ms| ==> Less(ms[i].key, key)
    ensures Insert(ms, key, value) == ms + [Member(key, value)]
  {
    if ms != [] {
      LessAntisymmetric(ms[0].key, key);
      InsertLast(ms[1..], key, value);
    }
  }

  lemma {:induction false} InsertAllSorted<T>(acc: seq<Member<T>>, ms: seq<Member<T>>)
    requires Sorted(acc + ms)
    ensures InsertAll(acc, ms) == acc + ms
    decreases |ms|
  {
    if ms != [] {
      forall i | 0 <= i < |acc|
        ensures Less(acc[i].key, ms[0].key)
      {
        assert (acc + ms)[i] == acc[i] && (acc + ms)[|acc|] == ms[0];
      }
      InsertLast(acc, ms[0].key, ms[0].value);
      assert acc + ms == acc + [ms[0]] + ms[1..];
      InsertAllSorted(acc + [ms[0]], ms[1..]);
    } else {
      assert acc + ms == acc;
    }
  }

  lemma {:induction false} FindInsert<T>(ms: seq<Member<T>>, key: string, v: T, other: string)
    ensures Find(Insert(ms, key, v), other) == if other == key then Some(v) else Find(ms, other)
  {
    hide Less;
    if ms != [] && !Less(key, ms[0].key) && ms[0].key != key { FindInsert(ms[1..], key, v, other); }
  }

  lemma {:induction false} InsertKeeps<T>(ms: seq<Member<T>>, key: string, v: T, m: Member<T>)
    requires m in Insert(ms, key, v)
    ensures m.key == key || m in ms
  {
    hide Less;
    if ms != [] && !Less(key, ms[0].key) && ms[0].key != key && m != ms[0] { InsertKeeps(ms[1..], key, v, m); }
  }

  /** A std::map stays a map: assigning a key keeps the members sorted. */
  lemma {:induction false} InsertSorted<T>(ms: seq<Member<T>>, key: string, v: T)
    requires Sorted(ms)
    ensures Sorted(Insert(ms, key, v))
  {
    hide Less;
    var r := Insert(ms, key, v);
    if ms == [] {
    } else if Less(key, ms[0].key) {
      forall j | 1 <= j < |r|
        ensures Less(key, r[j].key)
      {
        if j > 1 { LessTransitive(key, ms[0].key, ms[j - 1].key); }
      }
    } else if ms[0].key != key {
      LessTotal(key, ms[0].key);
      InsertSorted(ms[1..], key, v);
      forall j | 1 <= j < |r|
        ensures Less(ms[0].key, r[j].key)
      {
        assert r[j] in Insert(ms[1..], key, v);
        InsertKeeps(ms[1..], key, v, r[j]);
      }
    }
  }

  /** The last binding of a key wins, in whatever order keys are assigned. */
  function Binding<T>(acc: seq<Member<T>>, ms: seq<Member<T>>, key: string): Option<T>
  {
    if ms == [] then Find(acc, key)
    else if ms[|ms| - 1].key == key then Some(ms[|ms| - 1].value)
    else Binding(acc, ms[..|ms| - 1], key)
  }

  lemma {:induction false} InsertAllLast<T>(acc: seq<Member<T>>, ms: seq<Member<T>>, m: Member<T>)
    ensures InsertAll(acc, ms + [m]) == Insert(InsertAll(acc, ms), m.key, m.value)
    decreases |ms|
  {
    hide Insert;
    if ms == [] {
      assert ([] + [m])[1..] == [];
    } else {
      assert (ms + [m])[1..] == ms[1..] + [m];
      InsertAllLast(Insert(acc, ms[0].key, ms[0].value), ms[1..], m);
    }
  }

  lemma {:induction false} FindInsertAll<T>(acc: seq<Member<T>>, ms: seq<Member<T>>, key: string)
    ensures Find(InsertAll(acc, ms), key) == Binding(acc, ms, key)
    decreases |ms|
  {
    hide Insert, Find;
    if ms != [] {
      var front, m := ms[..|ms| - 1], ms[|ms| - 1];
      assert ms == front + [m];
      InsertAllLast(acc, front, m);
      FindInsert(InsertAll(acc, front), m.key, m.value, key);
      FindInsertAll(acc, front, key);
    }
  }

  lemma {:induction false} BoundOnce<T>(ms: seq<Member<T>>, i: nat, n: nat)
    requires i < n <= |ms| && forall j :: 0 <= j < |ms| && j != i ==> ms[j].key != ms[i].key
    ensures Binding([], ms[..n], ms[i].key) == Some(ms[i].value)
    ensures n == |ms| ==> ms[..n] == ms
  {
    hide Find;
    if n - 1 > i {
      BoundOnce(ms, i, n - 1);
      assert ms[..n][..n - 1] == ms[..n - 1];
    }
  }
}
