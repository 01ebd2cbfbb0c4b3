/**
 * The n-ary cartesian product of `src/lib/cartesian.ts` (and its copies in
 * `src/index.ts` and `src/index.js`), which folds the argument lists with
 * `reduce` and builds each tuple with a one-level `flat()`; next to it the
 * plain product of tuples it is meant to compute, and the facts that relate
 * the two.
 */
module Cartesian {
  import opened Wrappers
  import opened Values

  // ---------------------------------------------------------------------
  // Arithmetic helpers

  lemma MulLe(a: nat, b: nat, m: nat)
    requires a <= b
    ensures a * m <= b * m
  {}

  lemma MulSucc(i: nat, m: nat)
    ensures (i + 1) * m == i * m + m
  {}

  // ---------------------------------------------------------------------
  // The product as written

  /** What `[x].flat()` contributes: an array spreads its elements, any other value stays whole. */
  function Spread(v: Value): seq<Value> {
    if v.Arr? then v.elems else [v]
  }

  /** `[ae, be].flat()`. */
  function Pair(a: Value, b: Value): Value {
    Arr(Spread(a) + Spread(b))
  }

  /** `b.map((be) => [ae, be].flat())`. */
  function Row(ae: Value, b: seq<Value>): seq<Value> {
    seq(|b|, j requires 0 <= j < |b| => Pair(ae, b[j]))
  }

  /** `a.flatMap((ae) => b.map((be) => [ae, be].flat()))`, one step of the reduction. */
  function Step(a: seq<Value>, b: seq<Value>): (r: seq<Value>)
    ensures |r| == |a| * |b|
  {
    if a == [] then []
    else
      MulSucc(|a| - 1, |b|);
      Row(a[0], b) + Step(a[1..], b)
  }

  /** Element `i * |b| + j` of a step pairs `a[i]` with `b[j]`. */
  lemma {:induction false} StepAt(a: seq<Value>, b: seq<Value>, i: nat, j: nat)
    requires i < |a| && j < |b|
    ensures i * |b| + j < |Step(a, b)|
    ensures Step(a, b)[i * |b| + j] == Pair(a[i], b[j])
    decreases i
  {
    var row := Row(a[0], b);
    var rest := Step(a[1..], b);
    assert Step(a, b) == row + rest;
    if i == 0 {
      assert i * |b| == 0;
      assert Step(a, b)[j] == row[j];
    } else {
      StepAt(a[1..], b, i - 1, j);
      MulSucc(i - 1, |b|);
      var k := (i - 1) * |b| + j;
      assert i * |b| + j == |row| + k;
      assert Step(a, b)[|row| + k] == rest[k];
      assert a[1..][i - 1] == a[i];
    }
  }

  /** The number of tuples the product of `lists` has. */
  function Product<T>(lists: seq<seq<T>>): nat {
    if |lists| == 0 then 1 else Product(lists[..|lists| - 1]) * |lists[|lists| - 1]|
  }

  /** `pairs.reduce(step)`: a left fold seeded with the first list itself. */
  function Reduce(lists: seq<seq<Value>>): (r: seq<Value>)
    requires |lists| >= 1
    ensures |r| == Product(lists)
  {
    if |lists| == 1 then
      assert lists[..0] == [];
      lists[0]
    else Step(Reduce(lists[..|lists| - 1]), lists[|lists| - 1])
  }

  /**
   * `cartesian(...pairs)`: `None` stands for the `TypeError` that `reduce`
   * raises on an empty argument list.
   */
  function CartesianAsWritten(lists: seq<seq<Value>>): (r: Option<seq<Value>>)
    ensures r.None? <==> |lists| == 0
    ensures r.Some? ==> |r.value| == Product(lists)
  {
    if |lists| == 0 then None else Some(Reduce(lists))
  }

  /** Any empty list empties the product, and only an empty list does. */
  lemma {:induction false} ProductZeroIff<T>(lists: seq<seq<T>>)
    ensures Product(lists) == 0 <==> exists k :: 0 <= k < |lists| && lists[k] == []
  {
    if |lists| > 0 {
      var init := lists[..|lists| - 1];
      ProductZeroIff(init);
      assert forall k :: 0 <= k < |init| ==> init[k] == lists[k];
      if Product(lists) == 0 && |lists[|lists| - 1]| != 0 {
        assert Product(init) == 0;
      }
    }
  }

  /** A single argument list comes back unchanged: `reduce` without a seed never runs the step. */
  lemma SingleListUnchanged(l: seq<Value>)
    ensures CartesianAsWritten([l]) == Some(l)
  {}

  // ---------------------------------------------------------------------
  // The plain product of tuples

  function TRow<T>(t: seq<T>, b: seq<T>): seq<seq<T>> {
    seq(|b|, j requires 0 <= j < |b| => t + [b[j]])
  }

  /** `acc.flatMap((t) => b.map((x) => [...t, x]))`. */
  function TStep<T>(acc: seq<seq<T>>, b: seq<T>): (r: seq<seq<T>>)
    ensures |r| == |acc| * |b|
  {
    if acc == [] then []
    else
      MulSucc(|acc| - 1, |b|);
      TRow(acc[0], b) + TStep(acc[1..], b)
  }

  lemma {:induction false} TStepAt<T>(acc: seq<seq<T>>, b: seq<T>, i: nat, j: nat)
    requires i < |acc| && j < |b|
    ensures i * |b| + j < |TStep(acc, b)|
    ensures TStep(acc, b)[i * |b| + j] == acc[i] + [b[j]]
    decreases i
  {
    if i > 0 {
      TStepAt(acc[1..], b, i - 1, j);
      MulSucc(i - 1, |b|);
    }
  }

  /** Every way of picking one element from each list, as a tuple. */
  function Tuples<T>(lists: seq<seq<T>>): (r: seq<seq<T>>)
    ensures |r| == Product(lists)
  {
    if |lists| == 0 then [[]]
    else TStep(Tuples(lists[..|lists| - 1]), lists[|lists| - 1])
  }

  /** An index vector picking one position in each list. */
  ghost predicate ValidChoice<T>(lists: seq<seq<T>>, idx: seq<nat>) {
    |idx| == |lists| && forall k :: 0 <= k < |lists| ==> idx[k] < |lists[k]|
  }

  /** The tuple an index vector picks. */
  function Choice<T>(lists: seq<seq<T>>, idx: seq<nat>): seq<T>
    requires ValidChoice(lists, idx)
  {
    seq(|idx|, k requires 0 <= k < |idx| => lists[k][idx[k]])
  }

  /**
   * The position of a choice in lexicographic order, first list most
   * significant: the mixed-radix number with digits `idx`.
   */
  function Rank<T>(lists: seq<seq<T>>, idx: seq<nat>): (r: nat)
    requires ValidChoice(lists, idx)
    ensures r < Product(lists)
  {
    if |lists| == 0 then 0
    else
      var n := |lists| - 1;
      var prev := Rank(lists[..n], idx[..n]);
      MulLe(prev + 1, Product(lists[..n]), |lists[n]|);
      MulSucc(prev, |lists[n]|);
      prev * |lists[n]| + idx[n]
  }

  /**
   * The tuples come in lexicographic order of their index vectors, the first
   * list varying slowest: the tuple at position `Rank(idx)` is `Choice(idx)`.
   */
  lemma {:induction false} TuplesAt<T>(lists: seq<seq<T>>, idx: seq<nat>)
    requires ValidChoice(lists, idx)
    ensures Tuples(lists)[Rank(lists, idx)] == Choice(lists, idx)
  {
    if |lists| > 0 {
      var n := |lists| - 1;
      assert ValidChoice(lists[..n], idx[..n]);
      TuplesAt(lists[..n], idx[..n]);
      var prev := Rank(lists[..n], idx[..n]);
      TStepAt(Tuples(lists[..n]), lists[n], prev, idx[n]);
      assert Choice(lists, idx) == Choice(lists[..n], idx[..n]) + [lists[n][idx[n]]];
    }
  }

  // ---------------------------------------------------------------------
  // How the written product relates to the plain one

  /** A value that `flat()` leaves whole. */
  predicate Atomic(v: Value) {
    !v.Arr?
  }

  function Wrap(ts: seq<seq<Value>>): (r: seq<Value>)
    ensures |r| == |ts|
    ensures forall i :: 0 <= i < |ts| ==> r[i] == Arr(ts[i])
  {
    seq(|ts|, i requires 0 <= i < |ts| => Arr(ts[i]))
  }

  lemma {:induction false} StepAgrees(a: seq<Value>, ta: seq<seq<Value>>, b: seq<Value>)
    requires |a| == |ta|
    requires forall i :: 0 <= i < |a| ==> Spread(a[i]) == ta[i]
    requires forall j :: 0 <= j < |b| ==> Atomic(b[j])
    ensures Step(a, b) == Wrap(TStep(ta, b))
  {
    if a != [] {
      StepAgrees(a[1..], ta[1..], b);
      assert Row(a[0], b) == Wrap(TRow(ta[0], b));
      assert Wrap(TRow(ta[0], b) + TStep(ta[1..], b)) == Wrap(TRow(ta[0], b)) + Wrap(TStep(ta[1..], b));
    }
  }

  /**
   * Over lists of values that are not arrays, the written product yields
   * exactly the plain tuples, in the same order, once two or more lists are
   * combined.
   */
  lemma {:induction false} AtomicProductAgrees(lists: seq<seq<Value>>)
    requires |lists| >= 2
    requires forall k, j :: 0 <= k < |lists| && 0 <= j < |lists[k]| ==> Atomic(lists[k][j])
    ensures CartesianAsWritten(lists) == Some(Wrap(Tuples(lists)))
  {
    var n := |lists| - 1;
    var init := lists[..n];
    assert forall k, j :: 0 <= k < |init| && 0 <= j < |init[k]| ==> Atomic(init[k][j]);
    if |lists| == 2 {
      assert init == [lists[0]];
      assert init[..0] == [];
      var t0 := Tuples(init);
      assert Tuples(init[..0]) == [[]];
      var e: seq<seq<Value>> := [[]];
      assert e[1..] == [];
      assert t0 == TStep([[]], lists[0]) == TRow([], lists[0]) + [];
      forall i | 0 <= i < |lists[0]|
        ensures Spread(lists[0][i]) == t0[i]
      {
        assert t0[i] == [] + [lists[0][i]];
      }
      assert Reduce(init) == lists[0];
      StepAgrees(lists[0], t0, lists[n]);
    } else {
      AtomicProductAgrees(init);
      var prev := Wrap(Tuples(init));
      StepAgrees(prev, Tuples(init), lists[n]);
    }
  }

  // ---------------------------------------------------------------------
  // Products of paths

  function SegValue(s: Seg): Value {
    match s
    case Key(k) => Str(k)
    case Idx(i) => Num(i)
  }

  function SegValues(p: Path): (vs: seq<Value>)
    ensures |vs| == |p|
    ensures forall i :: 0 <= i < |p| ==> vs[i] == SegValue(p[i])
  {
    seq(|p|, i requires 0 <= i < |p| => SegValue(p[i]))
  }

  /** A path as the JavaScript array `['$', 'items', 0, ...]`. */
  function PathValue(p: Path): Value {
    Arr(SegValues(p))
  }

  function PathValues(ps: seq<Path>): (vs: seq<Value>)
    ensures |vs| == |ps|
    ensures forall i :: 0 <= i < |ps| ==> vs[i] == PathValue(ps[i])
  {
    seq(|ps|, i requires 0 <= i < |ps| => PathValue(ps[i]))
  }

  function PathLists(lists: seq<seq<Path>>): (r: seq<seq<Value>>)
    ensures |r| == |lists|
    ensures forall k :: 0 <= k < |lists| ==> r[k] == PathValues(lists[k])
  {
    seq(|lists|, k requires 0 <= k < |lists| => PathValues(lists[k]))
  }

  /** The concatenation of a tuple of paths. */
  function Concat(ps: seq<Path>): Path {
    if |ps| == 0 then [] else Concat(ps[..|ps| - 1]) + ps[|ps| - 1]
  }

  function ConcatEach(ts: seq<seq<Path>>): (r: seq<Path>)
    ensures |r| == |ts|
    ensures forall i :: 0 <= i < |ts| ==> r[i] == Concat(ts[i])
  {
    seq(|ts|, i requires 0 <= i < |ts| => Concat(ts[i]))
  }

  /** Every way of picking one path per list, each choice concatenated into one path. */
  function PathProduct(lists: seq<seq<Path>>): (r: seq<Path>)
    ensures |r| == Product(lists)
  {
    ConcatEach(Tuples(lists))
  }

  /** One row of the step over path arrays is the row of concatenated paths. */
  lemma PathRowAgrees(a0: Value, t0: seq<Path>, b: seq<Path>)
    requires a0 == PathValue(Concat(t0))
    ensures Row(a0, PathValues(b)) == PathValues(ConcatEach(TRow(t0, b)))
  {
    var bv := PathValues(b);
    var row := TRow(t0, b);
    forall j | 0 <= j < |b|
      ensures Row(a0, bv)[j] == PathValues(ConcatEach(row))[j]
    {
      ConcatSnoc(t0, b[j]);
    }
  }

  /** Appending a path to a tuple appends its segments to the concatenation, as `[ae, be].flat()` does. */
  lemma ConcatSnoc(t0: seq<Path>, x: Path)
    ensures PathValue(Concat(t0 + [x])) == Pair(PathValue(Concat(t0)), PathValue(x))
  {
    assert (t0 + [x])[..|t0|] == t0;
    assert Concat(t0 + [x]) == Concat(t0) + x;
    assert SegValues(Concat(t0) + x) == SegValues(Concat(t0)) + SegValues(x);
  }

  lemma PathValuesOfConcat(x: seq<seq<Path>>, y: seq<seq<Path>>)
    ensures PathValues(ConcatEach(x + y)) == PathValues(ConcatEach(x)) + PathValues(ConcatEach(y))
  {
  }

  lemma {:induction false} PathStepAgrees(a: seq<Value>, ta: seq<seq<Path>>, b: seq<Path>)
    requires |a| == |ta|
    requires forall i :: 0 <= i < |a| ==> a[i] == PathValue(Concat(ta[i]))
    ensures Step(a, PathValues(b)) == PathValues(ConcatEach(TStep(ta, b)))
  {
    if a != [] {
      PathStepAgrees(a[1..], ta[1..], b);
      PathRowAgrees(a[0], ta[0], b);
      PathValuesOfConcat(TRow(ta[0], b), TStep(ta[1..], b));
    }
  }

  /**
   * Over lists of paths, the one-level flattening concatenates: the written
   * product of path arrays is the product of concatenated paths, for any
   * non-empty number of lists.
   */
  lemma {:induction false} PathProductAgrees(lists: seq<seq<Path>>)
    requires |lists| >= 1
    ensures CartesianAsWritten(PathLists(lists)) == Some(PathValues(PathProduct(lists)))
  {
    ReduceOfPaths(lists);
  }

  lemma {:induction false} ReduceOfPaths(lists: seq<seq<Path>>)
    requires |lists| >= 1
    ensures Reduce(PathLists(lists)) == PathValues(PathProduct(lists))
  {
    var n := |lists| - 1;
    var pl := PathLists(lists);
    if |lists| == 1 {
      assert lists[..0] == [];
      var t := Tuples(lists);
      assert t == TStep([[]], lists[0]) == TRow([], lists[0]) + [];
      forall i | 0 <= i < |lists[0]|
        ensures PathProduct(lists)[i] == lists[0][i]
      {
        assert [lists[0][i]][..0] == [];
        assert Concat([lists[0][i]]) == Concat([]) + lists[0][i];
      }
    } else {
      ReduceOfPaths(lists[..n]);
      assert pl[..n] == PathLists(lists[..n]);
      var prev := Reduce(PathLists(lists[..n]));
      var tprev := Tuples(lists[..n]);
      forall i | 0 <= i < |prev|
        ensures prev[i] == PathValue(Concat(tprev[i]))
      {
      }
      PathStepAgrees(prev, tprev, lists[n]);
    }
  }
}
