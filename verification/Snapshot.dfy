/**
 Snapshots of named views into shared storages (phase_check.py): a copy must behave under
 a phase exactly as the original does, aliases included.
 */
module Snapshot {
  import opened Shapes
  import Powers

  /** A block of memory, byte by byte. */
  class Storage {
    var cells: seq<int>

    constructor (cells: seq<int>)
      ensures this.cells == cells
    {
      this.cells := cells;
    }
  }

  /** A strided view: `width` bytes an element, offset and strides counted in elements. */
  datatype View = View(storage: Storage, offset: nat, shape: seq<nat>, stride: seq<nat>, width: nat)

  type Tensors = map<string, View>
  type Elements = seq<seq<int>>
  type Contents = map<string, Elements>
  type Memory = map<Storage, seq<int>>

  function Storages(t: Tensors): set<Storage>
  {
    set n | n in t :: t[n].storage
  }

  function MemoryOf(t: Tensors): Memory
    reads Storages(t)
  {
    map s | s in Storages(t) :: s.cells
  }

  // ---------------------------------------------------------------- views

  /** Where the e-th element (last dimension fastest) is, in elements from the view's offset. */
  function Position(e: nat, shape: seq<nat>, stride: seq<nat>): nat
    requires |shape| == |stride|
    decreases |shape|
  {
    if shape == [] || shape[|shape| - 1] == 0 then 0
    else
      var k := |shape| - 1;
      (e % shape[k]) * stride[k] + Position(e / shape[k], shape[..k], stride[..k])
  }

  function Address(v: View, e: nat): nat
    requires |v.shape| == |v.stride|
  {
    (v.offset + Position(e, v.shape, v.stride)) * v.width
  }

  ghost predicate InBounds(v: View, size: nat)
  {
    |v.shape| == |v.stride| && forall e: nat :: e < Numel(v.shape) ==> Address(v, e) + v.width <= size
  }

  ghost predicate Valid(t: Tensors, mem: Memory)
  {
    forall n <- t :: t[n].storage in mem && InBounds(t[n], |mem[t[n].storage]|)
  }

  /** Element (i, j) of a matrix is i times the first stride and j times the second away, ... */
  lemma MatrixPosition(rows: nat, cols: nat, s: nat, t: nat, i: nat, j: nat)
    requires i < rows && j < cols
    ensures Numel([rows, cols]) == rows * cols && i * cols + j < rows * cols
    ensures Position(i * cols + j, [rows, cols], [s, t]) == i * s + j * t
  {
    var e := i * cols + j;
    Powers.DivUnique(e, cols, i, j);
    Powers.MulMono(i + 1, rows, cols);
    assert [rows, cols][..1] == [rows] && [s, t][..1] == [s] && [rows][..0] == [] && [s][..0] == [];
    assert Numel([rows]) == Numel([]) * rows;
    assert i % rows == i && i / rows == 0 by { Powers.DivUnique(i, rows, 0, i); }
    assert Position(i, [rows], [s]) == i * s + Position(0, [], []);
  }

  /** ... so swapping shape and strides transposes. */
  lemma Transposes(rows: nat, cols: nat, s: nat, t: nat, i: nat, j: nat)
    requires i < rows && j < cols
    ensures 0 <= i * cols + j && 0 <= j * rows + i
    ensures Position(i * cols + j, [rows, cols], [s, t]) == Position(j * rows + i, [cols, rows], [t, s])
  {
    MatrixPosition(rows, cols, s, t, i, j);
    MatrixPosition(cols, rows, t, s, j, i);
  }

  /** The view's elements, in order. */
  function Read(v: View, cells: seq<int>): Elements
    requires InBounds(v, |cells|)
  {
    seq(Numel(v.shape), e requires 0 <= e < Numel(v.shape) => cells[Address(v, e)..Address(v, e) + v.width])
  }

  function ReadAll(t: Tensors, mem: Memory): Contents
    requires Valid(t, mem)
  {
    map n | n in t :: Read(t[n], mem[t[n].storage])
  }

  // ---------------------------------------------------------------- phases

  datatype Write = Write(name: string, element: nat, bytes: seq<int>)

  /** A deterministic phase: each step looks at the contents of its tensors and writes
      one element of one of them. */
  type Phase = seq<Contents -> Write>

  predicate Proper(t: Tensors, w: Write)
  {
    w.name in t && |t[w.name].shape| == |t[w.name].stride| && w.element < Numel(t[w.name].shape)
    && |w.bytes| == t[w.name].width
  }

  function Poke(cells: seq<int>, at: nat, bytes: seq<int>): (r: seq<int>)
    requires at + |bytes| <= |cells|
    ensures |r| == |cells|
  {
    cells[..at] + bytes + cells[at + |bytes|..]
  }

  function Do(t: Tensors, mem: Memory, w: Write): (r: Memory)
    requires Valid(t, mem)
    ensures Valid(t, r)
  {
    if !Proper(t, w) then mem
    else
      var v := t[w.name];
      mem[v.storage := Poke(mem[v.storage], Address(v, w.element), w.bytes)]
  }

  function Exec(t: Tensors, mem: Memory, phase: Phase): (r: Memory)
    requires Valid(t, mem)
    ensures Valid(t, r)
  {
    if phase == [] then mem else Exec(t, Do(t, mem, phase[0](ReadAll(t, mem))), phase[1..])
  }

  // ---------------------------------------------------------------- isomorphic tensors

  predicate SameGeometry(a: View, b: View)
  {
    a.offset == b.offset && a.shape == b.shape && a.stride == b.stride && a.width == b.width
  }

  /** The same names with the same geometry over the same bytes, and two names share
      their storage on one side exactly when they do on the other. */
  ghost predicate Isomorphic(a: Tensors, ma: Memory, b: Tensors, mb: Memory)
  {
    && a.Keys == b.Keys
    && (forall n <- a :: SameGeometry(a[n], b[n]))
    && (forall n <- a :: a[n].storage in ma && b[n].storage in mb && ma[a[n].storage] == mb[b[n].storage])
    && (forall n, m :: n in a && m in a ==> (a[n].storage == a[m].storage <==> b[n].storage == b[m].storage))
  }

  lemma {:induction false} SamePositions(a: View, b: View, size: nat)
    requires SameGeometry(a, b) && InBounds(a, size)
    ensures InBounds(b, size)
    ensures forall e: nat :: e < Numel(a.shape) ==> Address(a, e) == Address(b, e)
  {
    forall e: nat | e < Numel(a.shape)
      ensures Address(a, e) == Address(b, e)
    {
    }
  }

  lemma SameRead(a: View, b: View, cells: seq<int>)
    requires SameGeometry(a, b) && InBounds(a, |cells|)
    ensures InBounds(b, |cells|) && Read(a, cells) == Read(b, cells)
  {
    hide InBounds;
    SamePositions(a, b, |cells|);
  }

  lemma IsomorphicValid(a: Tensors, ma: Memory, b: Tensors, mb: Memory)
    requires Isomorphic(a, ma, b, mb) && Valid(a, ma)
    ensures Valid(b, mb) && ReadAll(a, ma) == ReadAll(b, mb)
  {
    hide InBounds, Read;
    forall n | n in b
      ensures InBounds(b[n], |mb[b[n].storage]|)
      ensures Read(a[n], ma[a[n].storage]) == Read(b[n], mb[b[n].storage])
    {
      SameRead(a[n], b[n], ma[a[n].storage]);
    }
  }

  lemma IsomorphicDo(a: Tensors, ma: Memory, b: Tensors, mb: Memory, w: Write)
    requires Isomorphic(a, ma, b, mb) && Valid(a, ma) && Valid(b, mb)
    ensures Isomorphic(a, Do(a, ma, w), b, Do(b, mb, w))
  {
    if Proper(a, w) { SamePositions(a[w.name], b[w.name], |ma[a[w.name].storage]|); }
  }

  /** A phase cannot tell an isomorphic copy from the original. */
  lemma {:induction false} IsomorphicExec(a: Tensors, ma: Memory, b: Tensors, mb: Memory, phase: Phase)
    requires Isomorphic(a, ma, b, mb) && Valid(a, ma) && Valid(b, mb)
    ensures Isomorphic(a, Exec(a, ma, phase), b, Exec(b, mb, phase))
    ensures ReadAll(a, Exec(a, ma, phase)) == ReadAll(b, Exec(b, mb, phase))
    decreases |phase|
  {
    IsomorphicValid(a, ma, b, mb);
    if phase != [] {
      var w := phase[0](ReadAll(a, ma));
      IsomorphicDo(a, ma, b, mb, w);
      IsomorphicExec(a, Do(a, ma, w), b, Do(b, mb, w), phase[1..]);
    }
  }

  // ---------------------------------------------------------------- cloning name by name

  /** Byte k of the storage is part of element e of the view. */
  predicate Covers(v: View, e: nat, k: nat)
  {
    |v.shape| == |v.stride| && e < Numel(v.shape) && Address(v, e) <= k < Address(v, e) + v.width
  }

  /** Two different elements, of one name or of two, have byte k in common. */
  predicate SharesByte(t: Tensors, n: string, e: nat, m: string, f: nat, k: nat)
  {
    && n in t && m in t && t[n].storage == t[m].storage && (n, e) != (m, f)
    && Covers(t[n], e, k) && Covers(t[m], f, k)
  }

  ghost predicate NothingShared(t: Tensors)
  {
    forall n, e: nat, m, f: nat, k: nat :: !SharesByte(t, n, e, m, f, k)
  }

  /** b holds, under the same names, the elements of a, no two of them sharing a byte: what
      clone() of each tensor gives, whatever strides it chooses. */
  ghost predicate Cloned(a: Tensors, ma: Memory, b: Tensors, mb: Memory)
  {
    && a.Keys == b.Keys && Valid(a, ma) && Valid(b, mb) && NothingShared(b)
    && (forall n <- a :: a[n].shape == b[n].shape && a[n].width == b[n].width)
    && ReadAll(a, ma) == ReadAll(b, mb)
  }

  function Element(t: Tensors, mem: Memory, n: string, e: nat): seq<int>
    requires Valid(t, mem) && n in t && e < Numel(t[n].shape)
  {
    mem[t[n].storage][Address(t[n], e)..Address(t[n], e) + t[n].width]
  }

  /** A write is read back where it was made, and nowhere else if no byte is shared. */
  lemma WrittenElement(t: Tensors, mem: Memory, w: Write, n: string, e: nat)
    requires Valid(t, mem) && Proper(t, w) && n in t && e < Numel(t[n].shape)
    requires forall k: nat :: !SharesByte(t, w.name, w.element, n, e, k)
    ensures Element(t, Do(t, mem, w), n, e) == if (n, e) == (w.name, w.element) then w.bytes else Element(t, mem, n, e)
  {
    var v := t[w.name];
    if (n, e) != (w.name, w.element) && t[n].storage == v.storage {
      var before, after := mem[v.storage], Do(t, mem, w)[v.storage];
      forall k | Address(t[n], e) <= k < Address(t[n], e) + t[n].width
        ensures after[k] == before[k]
      {
        assert !SharesByte(t, w.name, w.element, n, e, k);
      }
    }
  }

  lemma ElementIs(t: Tensors, mem: Memory, n: string)
    requires Valid(t, mem) && n in t
    ensures |ReadAll(t, mem)[n]| == Numel(t[n].shape)
    ensures forall e: nat :: e < Numel(t[n].shape) ==> ReadAll(t, mem)[n][e] == Element(t, mem, n, e)
  {
  }

  lemma ElementsOfReads(a: Tensors, ma: Memory, b: Tensors, mb: Memory, n: string, e: nat)
    requires Valid(a, ma) && Valid(b, mb) && ReadAll(a, ma) == ReadAll(b, mb)
    requires n in a && n in b && a[n].shape == b[n].shape && e < Numel(a[n].shape)
    ensures Element(a, ma, n, e) == Element(b, mb, n, e)
  {
    hide Valid, Element, ReadAll;
    ElementIs(a, ma, n);
    ElementIs(b, mb, n);
  }

  lemma SameNamed(a: Tensors, ma: Memory, b: Tensors, mb: Memory, n: string)
    requires n in a && n in b && Valid(a, ma) && Valid(b, mb) && a[n].shape == b[n].shape
    requires forall e: nat :: e < Numel(a[n].shape) ==> Element(a, ma, n, e) == Element(b, mb, n, e)
    ensures n in ReadAll(a, ma) && n in ReadAll(b, mb) && ReadAll(a, ma)[n] == ReadAll(b, mb)[n]
  {
    hide Valid, Element, ReadAll;
    ContentsKeys(a, ma);
    ContentsKeys(b, mb);
    ElementIs(a, ma, n);
    ElementIs(b, mb, n);
  }

  lemma ReadsOfElements(a: Tensors, ma: Memory, b: Tensors, mb: Memory)
    requires a.Keys == b.Keys && Valid(a, ma) && Valid(b, mb) && forall n <- a :: a[n].shape == b[n].shape
    requires forall n, e: nat :: n in a && e < Numel(a[n].shape) ==> Element(a, ma, n, e) == Element(b, mb, n, e)
    ensures ReadAll(a, ma) == ReadAll(b, mb)
  {
    hide Valid, Element, ReadAll;
    ContentsKeys(a, ma);
    ContentsKeys(b, mb);
    forall n | n in a
      ensures ReadAll(a, ma)[n] == ReadAll(b, mb)[n]
    {
      SameNamed(a, ma, b, mb, n);
    }
  }

  lemma ClonedDo(a: Tensors, ma: Memory, b: Tensors, mb: Memory, w: Write)
    requires Cloned(a, ma, b, mb) && NothingShared(a)
    ensures Cloned(a, Do(a, ma, w), b, Do(b, mb, w))
  {
    if Proper(a, w) {
      var ma', mb' := Do(a, ma, w), Do(b, mb, w);
      forall n, e: nat | n in a && e < Numel(a[n].shape)
        ensures Element(a, ma', n, e) == Element(b, mb', n, e)
      {
        ElementsOfReads(a, ma, b, mb, n, e);
        WrittenElement(a, ma, w, n, e);
        WrittenElement(b, mb, w, n, e);
      }
      ReadsOfElements(a, ma', b, mb');
    }
  }

  lemma {:induction false} ClonedExec(a: Tensors, ma: Memory, b: Tensors, mb: Memory, phase: Phase)
    requires Cloned(a, ma, b, mb) && NothingShared(a)
    ensures Cloned(a, Exec(a, ma, phase), b, Exec(b, mb, phase))
    decreases |phase|
  {
    hide NothingShared;
    if phase != [] {
      var w := phase[0](ReadAll(a, ma));
      ClonedDo(a, ma, b, mb, w);
      ClonedExec(a, Do(a, ma, w), b, Do(b, mb, w), phase[1..]);
    }
  }

  /** The write that changes byte k of element e, and nothing else. */
  function Mark(t: Tensors, mem: Memory, n: string, e: nat, k: nat): (w: Write)
    requires Valid(t, mem) && n in t && Covers(t[n], e, k)
    ensures Proper(t, w) && w.name == n && w.element == e
  {
    var was := Element(t, mem, n, e);
    Write(n, e, was[k - Address(t[n], e) := mem[t[n].storage][k] + 1])
  }

  /** It changes every element that has the byte. */
  lemma MarkSeen(t: Tensors, mem: Memory, n: string, e: nat, m: string, f: nat, k: nat)
    requires Valid(t, mem) && SharesByte(t, n, e, m, f, k)
    ensures Element(t, Do(t, mem, Mark(t, mem, n, e, k)), m, f) != Element(t, mem, m, f)
  {
    var w := Mark(t, mem, n, e, k);
    var s, at := t[m].storage, Address(t[m], f);
    assert Do(t, mem, w)[s][k] == mem[s][k] + 1;
    assert Element(t, mem, m, f)[k - at] == mem[s][k];
    assert Element(t, Do(t, mem, w), m, f)[k - at] == Do(t, mem, w)[s][k];
  }

  lemma OneStep(a: Tensors, ma: Memory, w: Write)
    requires Valid(a, ma)
    ensures Exec(a, ma, [_ => w]) == Do(a, ma, w)
  {
    var phase: Phase := [_ => w];
    assert phase[1..] == [] && phase[0](ReadAll(a, ma)) == w;
    assert Exec(a, Do(a, ma, w), phase[1..]) == Do(a, ma, w);
  }

  ghost predicate Faithful(a: Tensors, ma: Memory, b: Tensors, mb: Memory, phase: Phase)
    requires Valid(a, ma) && Valid(b, mb)
  {
    ReadAll(a, Exec(a, ma, phase)) == ReadAll(b, Exec(b, mb, phase))
  }

  /** Writing one of two elements that share a byte changes the other, but not in a clone. */
  lemma SharingShows(a: Tensors, ma: Memory, b: Tensors, mb: Memory, n: string, e: nat, m: string, f: nat, k: nat)
    returns (phase: Phase)
    requires Cloned(a, ma, b, mb) && SharesByte(a, n, e, m, f, k)
    ensures !Faithful(a, ma, b, mb, phase)
  {
    hide Do, Exec, ReadAll, Mark, Element;
    var w := Mark(a, ma, n, e, k);
    phase := [_ => w];
    OneStep(a, ma, w);
    OneStep(b, mb, w);
    ElementsOfReads(a, ma, b, mb, m, f);
    MarkSeen(a, ma, n, e, m, f, k);
    WrittenElement(b, mb, w, m, f);
    if Faithful(a, ma, b, mb, phase) { ElementsOfReads(a, Do(a, ma, w), b, Do(b, mb, w), m, f); }
  }

  /** Cloning tensor by tensor reproduces every phase exactly when no two elements, of one
      name or of two, share a byte; grouping by storage (IsomorphicExec) needs no such
      condition. */
  lemma PerTensorCloneFaithfulExactlyWhen(a: Tensors, ma: Memory, b: Tensors, mb: Memory)
    requires Cloned(a, ma, b, mb)
    ensures (forall phase :: Faithful(a, ma, b, mb, phase)) <==> NothingShared(a)
  {
    hide Cloned;
    assert Valid(a, ma) && Valid(b, mb) by { ClonedValid(a, ma, b, mb); }
    if NothingShared(a) {
      forall phase
        ensures Faithful(a, ma, b, mb, phase)
      {
        ClonedExec(a, ma, b, mb, phase);
        ClonedValid(a, Exec(a, ma, phase), b, Exec(b, mb, phase));
      }
    } else {
      var n, e: nat, m, f: nat, k: nat :| SharesByte(a, n, e, m, f, k);
      var phase := SharingShows(a, ma, b, mb, n, e, m, f, k);
    }
  }

  lemma ClonedValid(a: Tensors, ma: Memory, b: Tensors, mb: Memory)
    requires Cloned(a, ma, b, mb)
    ensures Valid(a, ma) && Valid(b, mb) && ReadAll(a, ma) == ReadAll(b, mb)
  {
  }

  /** One name is enough: the elements of an expanded tensor (stride 0) are one element. */
  lemma ExpandedShares(s: Storage)
    ensures SharesByte(map["x" := View(s, 0, [2], [0], 1)], "x", 0, "x", 1, 0)
  {
    var v := View(s, 0, [2], [0], 1);
    assert Numel([2]) == Numel([]) * 2 by { assert [2][..0] == []; }
    assert Position(1, [2], [0]) == 0 && Position(0, [2], [0]) == 0;
  }

  // ---------------------------------------------------------------- a contiguous clone

  /** The strides of a contiguous tensor, times c. */
  function RowMajor(shape: seq<nat>, c: nat): (r: seq<nat>)
    ensures |r| == |shape|
  {
    if shape == [] then [] else RowMajor(shape[..|shape| - 1], c * shape[|shape| - 1]) + [c]
  }

  lemma {:induction false} RowMajorPosition(e: nat, shape: seq<nat>, c: nat)
    requires e < Numel(shape)
    ensures Position(e, shape, RowMajor(shape, c)) == e * c
    decreases |shape|
  {
    if shape != [] {
      var k := |shape| - 1;
      var d := shape[k];
      RowMajorStep(e, d, c, Numel(shape[..k]));
      RowMajorPosition(e / d, shape[..k], c * d);
      assert RowMajor(shape, c)[..k] == RowMajor(shape[..k], c * d);
    }
  }

  lemma RowMajorStep(e: nat, d: nat, c: nat, n: nat)
    requires e < n * d
    ensures d > 0 && e / d < n && (e % d) * c + (e / d) * (c * d) == e * c
  {
    Powers.PositiveFactor(d, n);
    var q, r := Powers.Euclid(e, d);
    if q >= n { Powers.MulMono(n, q, d); }
    assert (q * d + r) * c == q * (c * d) + r * c;
  }

  function Flatten(es: Elements): seq<int>
  {
    if es == [] then [] else Flatten(es[..|es| - 1]) + es[|es| - 1]
  }

  lemma {:induction false} FlattenAt(es: Elements, width: nat, e: nat)
    requires e < |es| && forall x <- es :: |x| == width
    ensures |Flatten(es)| == |es| * width && 0 <= e * width && e * width + width <= |es| * width
    ensures Flatten(es)[e * width..e * width + width] == es[e]
  {
    var k := |es| - 1;
    var front := Flatten(es[..k]);
    assert es[k] in es;
    FlattenLength(es[..k], width);
    FlattenLength(es, width);
    Powers.MulMono(e + 1, |es|, width);
    OneMore(e, width);
    if e < k {
      Powers.MulMono(e + 1, k, width);
      FlattenAt(es[..k], width, e);
      assert (front + es[k])[e * width..e * width + width] == front[e * width..e * width + width];
    }
  }

  lemma {:induction false} FlattenLength(es: Elements, width: nat)
    requires forall x <- es :: |x| == width
    ensures |Flatten(es)| == |es| * width
  {
    if es != [] {
      var k := |es| - 1;
      assert es[k] in es;
      FlattenLength(es[..k], width);
      OneMore(k, width);
    }
  }

  lemma OneMore(k: nat, width: nat)
    ensures (k + 1) * width == k * width + width
  {
  }

  /** clone(): the elements in order, one after another, in a storage of its own. */
  function CloneView(v: View, dst: Storage): View
  {
    View(dst, 0, v.shape, RowMajor(v.shape, 1), v.width)
  }

  lemma CloneCell(v: View, es: Elements, dst: Storage, e: nat)
    requires e < Numel(v.shape) == |es| && forall x <- es :: |x| == v.width
    ensures Address(CloneView(v, dst), e) == e * v.width && e * v.width + v.width <= |Flatten(es)|
    ensures Flatten(es)[e * v.width..e * v.width + v.width] == es[e]
  {
    hide Flatten, Numel;
    RowMajorPosition(e, v.shape, 1);
    FlattenAt(es, v.width, e);
  }

  lemma CloneRead(v: View, cells: seq<int>, dst: Storage)
    requires InBounds(v, |cells|)
    ensures var flat := Flatten(Read(v, cells));
            InBounds(CloneView(v, dst), |flat|) && Read(CloneView(v, dst), flat) == Read(v, cells)
    ensures forall e: nat :: e < Numel(v.shape) ==> Address(CloneView(v, dst), e) == e * v.width
  {
    hide Flatten, RowMajor, Position, Address, Numel;
    var es := Read(v, cells);
    forall e: nat | e < Numel(v.shape)
      ensures Address(CloneView(v, dst), e) == e * v.width && e * v.width + v.width <= |Flatten(es)|
      ensures Flatten(es)[e * v.width..e * v.width + v.width] == es[e]
    {
      CloneCell(v, es, dst, e);
    }
  }

  lemma Apart(e: nat, f: nat, width: nat, k: nat)
    requires e * width <= k < e * width + width && f * width <= k < f * width + width
    ensures e == f
  {
    if e < f { Powers.MulMono(e + 1, f, width); }
    if f < e { Powers.MulMono(f + 1, e, width); }
  }

  /** out holds contiguous clones of t's tensors, each in a storage of its own. */
  ghost predicate Clones(t: Tensors, contents: Contents, out: Tensors)
    reads Storages(out)
  {
    && (forall n <- out :: n in t && n in contents && out[n] == CloneView(t[n], out[n].storage))
    && (forall n <- out :: out[n].storage.cells == Flatten(contents[n]))
    && (forall n, m :: n in out && m in out && out[n].storage == out[m].storage ==> n == m)
  }

  lemma CloneMore(t: Tensors, contents: Contents, out: Tensors, n: string, dst: Storage)
    requires Clones(t, contents, out) && n in t && n in contents
    requires dst.cells == Flatten(contents[n]) && dst !in Storages(out)
    ensures Clones(t, contents, out[n := CloneView(t[n], dst)])
    ensures Storages(out[n := CloneView(t[n], dst)]) <= Storages(out) + {dst}
  {
    hide Flatten, CloneView;
    assert CloneView(t[n], dst).storage == dst by { CloneStorage(t[n], dst); }
  }

  lemma CloneStorage(v: View, dst: Storage)
    ensures CloneView(v, dst).storage == dst
  {
  }

  lemma Listed(names: seq<string>, t: Tensors, n: string) returns (j: nat)
    requires Lists(names, t) && n in t
    ensures j < |names| && names[j] == n
  {
    j :| 0 <= j < |names| && names[j] == n;
  }

  lemma ListedIn(names: seq<string>, t: Tensors, j: nat)
    requires Lists(names, t) && j < |names|
    ensures names[j] in t
  {
  }

  method CloneOne(t: Tensors, n: string, before: Tensors, ghost contents: Contents) returns (out: Tensors)
    requires n in t && Valid(t, MemoryOf(t)) && contents == ReadAll(t, MemoryOf(t)) && Clones(t, contents, before)
    ensures out.Keys == before.Keys + {n} && Clones(t, contents, out)
    ensures forall m <- out :: fresh(out[m].storage) || (m in before && out[m] == before[m])
  {
    hide InBounds, Read, CloneView, Flatten;
    var dst := new Storage(Flatten(Read(t[n], t[n].storage.cells)));
    CloneMore(t, contents, before, n, dst);
    CloneStorage(t[n], dst);
    out := before[n := CloneView(t[n], dst)];
  }

  lemma NoClones(t: Tensors, contents: Contents)
    ensures Clones(t, contents, map[]) && Storages(map[]) == {}
  {
  }

  twostate lemma Untouched(t: Tensors)
    requires forall s <- Storages(t) :: s.cells == old(s.cells)
    ensures MemoryOf(t) == old(MemoryOf(t))
  {
    hide Storages;
  }

  /** What the comment in _snapshot warns of: every tensor cloned on its own. */
  method CloneEach(t: Tensors, names: seq<string>) returns (out: Tensors)
    requires Lists(names, t) && Valid(t, MemoryOf(t))
    ensures fresh(Storages(out)) && Cloned(t, MemoryOf(t), out, MemoryOf(out))
  {
    hide CloneView, Clones, Cloned, ReadAll, Valid, MemoryOf, Lists;
    ghost var mem := MemoryOf(t);
    out := map[];
    NoClones(t, ReadAll(t, mem));
    var i := 0;
    while i < |names|
      invariant 0 <= i <= |names| && MemoryOf(t) == mem && Clones(t, ReadAll(t, mem), out)
      invariant forall m <- out :: m in t && fresh(out[m].storage)
      invariant forall j :: 0 <= j < i ==> names[j] in out
    {
      label before:
      ListedIn(names, t, i);
      out := CloneOne(t, names[i], out, ReadAll(t, mem));
      Untouched@before(t);
      i := i + 1;
    }
    forall n | n in t
      ensures n in out
    {
      var j := Listed(names, t, n);
    }
    ClonesAreCloned(t, out);
  }

  lemma CloneOf(t: Tensors, out: Tensors, n: string)
    requires Valid(t, MemoryOf(t)) && Clones(t, ReadAll(t, MemoryOf(t)), out) && n in out
    ensures var cells := out[n].storage.cells;
            InBounds(out[n], |cells|) && Read(out[n], cells) == ReadAll(t, MemoryOf(t))[n]
    ensures forall e: nat :: e < Numel(t[n].shape) ==> Address(out[n], e) == e * t[n].width
  {
    hide Read, InBounds, Flatten, Address;
    CloneRead(t[n], t[n].storage.cells, out[n].storage);
  }

  lemma ReadsAgree(a: Contents, b: Tensors, mb: Memory)
    requires a.Keys == b.Keys && Valid(b, mb) && forall n <- b :: Read(b[n], mb[b[n].storage]) == a[n]
    ensures ReadAll(b, mb) == a
  {
    hide Read;
  }

  lemma ClonesValid(t: Tensors, out: Tensors)
    requires Valid(t, MemoryOf(t)) && t.Keys == out.Keys && Clones(t, ReadAll(t, MemoryOf(t)), out)
    ensures Valid(out, MemoryOf(out))
    ensures forall n <- t :: n in ReadAll(t, MemoryOf(t)) &&
              Read(out[n], out[n].storage.cells) == ReadAll(t, MemoryOf(t))[n]
  {
    hide Read, InBounds, Flatten, Address, ReadAll, Clones;
    ContentsKeys(t, MemoryOf(t));
    forall n | n in t
      ensures InBounds(out[n], |out[n].storage.cells|)
      ensures Read(out[n], out[n].storage.cells) == ReadAll(t, MemoryOf(t))[n]
    {
      CloneOf(t, out, n);
    }
  }

  lemma ClonesAreCloned(t: Tensors, out: Tensors)
    requires Valid(t, MemoryOf(t)) && t.Keys == out.Keys && Clones(t, ReadAll(t, MemoryOf(t)), out)
    ensures Cloned(t, MemoryOf(t), out, MemoryOf(out))
  {
    assert forall n <- t :: t[n].shape == out[n].shape && t[n].width == out[n].width;
    ClonesValid(t, out);
    ClonesApart(t, out);
    hide Read, InBounds, ReadAll, Clones, NothingShared, Valid;
    ContentsKeys(t, MemoryOf(t));
    ReadsAgree(ReadAll(t, MemoryOf(t)), out, MemoryOf(out));
  }

  lemma ContentsKeys(t: Tensors, mem: Memory)
    requires Valid(t, mem)
    ensures ReadAll(t, mem).Keys == t.Keys
  {
  }

  lemma ClonesApart(t: Tensors, out: Tensors)
    requires Valid(t, MemoryOf(t)) && Clones(t, ReadAll(t, MemoryOf(t)), out)
    ensures NothingShared(out)
  {
    hide Read, InBounds, Flatten, Address, ReadAll;
    forall n, e: nat, m, f: nat, k: nat
      ensures !SharesByte(out, n, e, m, f, k)
    {
      if SharesByte(out, n, e, m, f, k) {
        CloneOf(t, out, n);
        Apart(e, f, t[n].width, k);
        assert false;
      }
    }
  }

  // ---------------------------------------------------------------- the code

  ghost predicate Lists(names: seq<string>, t: Tensors)
  {
    (forall i, j :: 0 <= i < j < |names| ==> names[i] != names[j]) && (forall n :: n in t <==> n in names)
  }

  /** out has, for the first names, views with t's geometry over the copies of t's storages. */
  ghost predicate Rebuilt(t: Tensors, out: Tensors, copies: map<Storage, Storage>)
  {
    && (forall n <- out :: n in t && t[n].storage in copies)
    && (forall n <- out :: SameGeometry(t[n], out[n]) && out[n].storage == copies[t[n].storage])
  }

  ghost predicate Copied(copies: map<Storage, Storage>)
    reads copies.Keys, copies.Values
  {
    && (forall s <- copies :: copies[s].cells == s.cells)
    && (forall s, r :: s in copies && r in copies && copies[s] == copies[r] ==> s == r)
  }

  lemma RebuiltMore(t: Tensors, before: Tensors, after: Tensors, copies: map<Storage, Storage>,
                    s: Storage, dst: Storage, members: seq<string>)
    requires Rebuilt(t, before, copies) && s !in copies
    requires forall n <- members :: n in t && t[n].storage == s
    requires after.Keys == before.Keys + set n | n in members
    requires forall n <- before :: after[n] == before[n]
    requires forall n <- members :: SameGeometry(t[n], after[n]) && after[n].storage == dst
    ensures Rebuilt(t, after, copies[s := dst])
  {
    forall n | n in after
      ensures n in t && t[n].storage in copies[s := dst]
      ensures SameGeometry(t[n], after[n]) && after[n].storage == copies[s := dst][t[n].storage]
    {
      if n !in before { assert n in members; }
    }
  }

  lemma RebuiltNames(t: Tensors, out: Tensors, copies: map<Storage, Storage>)
    requires Rebuilt(t, out, copies) && forall n <- t :: n in out
    ensures out.Keys == t.Keys
  {
  }

  lemma IsomorphicSymmetric(a: Tensors, ma: Memory, b: Tensors, mb: Memory)
    requires Isomorphic(a, ma, b, mb)
    ensures Isomorphic(b, mb, a, ma)
  {
  }

  lemma RebuiltIsomorphic(t: Tensors, out: Tensors, copies: map<Storage, Storage>)
    requires t.Keys == out.Keys && Copied(copies) && Rebuilt(t, out, copies)
    ensures Isomorphic(t, MemoryOf(t), out, MemoryOf(out))
  {
  }

  /** Every name is in the group of its storage, once it was looked at. */
  method GroupByStorage(t: Tensors, names: seq<string>) returns (groups: map<Storage, seq<string>>, order: seq<Storage>)
    requires Lists(names, t)
    ensures forall s :: s in groups <==> s in order
    ensures forall a, b :: 0 <= a < b < |order| ==> order[a] != order[b]
    ensures forall s <- groups, n <- groups[s] :: n in t && t[n].storage == s
    ensures forall n <- t :: t[n].storage in groups && n in groups[t[n].storage]
  {
    groups, order := map[], [];
    var i := 0;
    while i < |names|
      invariant 0 <= i <= |names|
      invariant forall s :: s in groups <==> s in order
      invariant forall a, b :: 0 <= a < b < |order| ==> order[a] != order[b]
      invariant forall s <- groups, n <- groups[s] :: n in t && t[n].storage == s
      invariant forall j :: 0 <= j < i ==> t[names[j]].storage in groups && names[j] in groups[t[names[j]].storage]
    {
      var s := t[names[i]].storage;
      if s !in groups {
        order := order + [s];
        groups := groups[s := []];
      }
      groups := groups[s := groups[s] + [names[i]]];
      i := i + 1;
    }
  }

  /** Rebuilds the members of one group on its clone. */
  method RebuildGroup(t: Tensors, members: seq<string>, dst: Storage, before: Tensors) returns (out: Tensors)
    requires forall n <- members :: n in t && n !in before
    ensures out.Keys == before.Keys + set n | n in members
    ensures forall n <- before :: out[n] == before[n]
    ensures forall n <- members :: SameGeometry(t[n], out[n]) && out[n].storage == dst
  {
    out := before;
    var j := 0;
    while j < |members|
      invariant 0 <= j <= |members|
      invariant out.Keys == before.Keys + set n | n in members[..j]
      invariant forall n <- before :: out[n] == before[n]
      invariant forall n <- members[..j] :: SameGeometry(t[n], out[n]) && out[n].storage == dst
    {
      var v := t[members[j]];
      out := out[members[j] := View(dst, v.offset, v.shape, v.stride, v.width)];
      j := j + 1;
    }
    assert members[..j] == members;
  }

  /** _snapshot: names are grouped by storage, each storage is cloned once, and every
      name is rebuilt on its group's clone. */
  method TakeSnapshot(t: Tensors, names: seq<string>) returns (out: Tensors)
    requires Lists(names, t)
    ensures fresh(Storages(out)) && out.Keys == t.Keys && Isomorphic(t, MemoryOf(t), out, MemoryOf(out))
  {
    var groups, order := GroupByStorage(t, names);
    out := map[];
    ghost var copies: map<Storage, Storage> := map[];
    assert Rebuilt(t, out, copies);
    hide Rebuilt, Isomorphic;
    var g := 0;
    while g < |order|
      invariant 0 <= g <= |order|
      invariant forall s :: s in copies <==> s in order[..g]
      invariant (forall s <- copies :: fresh(copies[s])) && forall n <- out :: fresh(out[n].storage)
      invariant Copied(copies) && Rebuilt(t, out, copies)
      invariant forall n <- t :: n in out <==> t[n].storage in order[..g]
    {
      var s := order[g];
      var dst := new Storage(s.cells);
      assert s !in copies;
      ghost var before := out;
      out := RebuildGroup(t, groups[s], dst, out);
      RebuiltMore(t, before, out, copies, s, dst, groups[s]);
      copies := copies[s := dst];
      assert order[..g + 1] == order[..g] + [s];
      g := g + 1;
    }
    assert order[..g] == order;
    RebuiltNames(t, out, copies);
    RebuiltIsomorphic(t, out, copies);
  }
}
