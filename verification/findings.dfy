/**
 * The multi-path branch of `src/main.ts` (and `src/index.ts`) exactly as
 * written, set beside the corrected `Engine.Multi` the rest of the model
 * uses.
 */
module Findings {
  import opened Wrappers
  import opened Values
  import opened Cartesian
  import opened Targets
  import opened Rows
  import opened Engine

  /** A row candidate whose path may be `undefined` (`cartesianPaths[i]` past the end). */
  datatype LooseRow = LooseRow(value: Value, path: Option<Path>, to: Target)

  datatype LooseOutcome = LooseCommon(values: seq<Value>) | LooseRows(rows: seq<LooseRow>)

  /** The per-argument path lists as collected, without padding. */
  function RawPaths(lists: seq<seq<Node>>): (r: seq<seq<Path>>)
    ensures |r| == |lists|
    ensures forall k :: 0 <= k < |lists| ==> r[k] == NodePaths(lists[k])
  {
    seq(|lists|, k requires 0 <= k < |lists| => NodePaths(lists[k]))
  }

  /** The argument tuples as the transform receives them: each flattened product spread into arguments. */
  function AsWrittenTuples(lists: seq<seq<Node>>): (r: seq<seq<Value>>)
    requires |lists| >= 1
    ensures |r| == Product(ArgValues(lists))
  {
    var products := Reduce(ArgValues(lists));
    seq(|products|, i requires 0 <= i < |products| => Spread(products[i]))
  }

  /**
   * `src/main.ts:219-261` as written. The path product is
   * `cartesian(...argsPaths)`, which equals `PathProduct` of the unpadded
   * lists (`Cartesian.PathProductAgrees`); a computed value past its end
   * gets an `undefined` path, on which the later sort and
   * `findParentPath` throw a `TypeError`.
   */
  function MultiAsWritten(env: Env, source: Value, to: Target, args: seq<Value>, fn: Value)
    : (r: Result<LooseOutcome, Error>)
    requires |args| >= 2
  {
    var lists := ResolveAll(env.resolve, source, args);
    var values :- ComputeEach(env.call, fn, AsWrittenTuples(lists));
    if !AnyIdx(lists) then Ok(LooseCommon(values))
    else
      Ok(LooseRows(Padded(values, PathProduct(RawPaths(lists)), to)))
  }

  /**
   * As written, one missing argument among row-scoped ones leaves every
   * computed value without a path: the rule cannot produce rows and the
   * call ends in a `TypeError`.
   */
  lemma MissingArgumentLosesPaths(env: Env, source: Value, to: Target, args: seq<Value>, fn: Value, k: nat)
    requires |args| >= 2 && k < |args|
    requires env.resolve(source, args[k]) == []
    requires AnyIdx(ResolveAll(env.resolve, source, args))
    ensures MultiAsWritten(env, source, to, args, fn).Ok? ==>
      MultiAsWritten(env, source, to, args, fn).value.LooseRows?
      && |MultiAsWritten(env, source, to, args, fn).value.rows| > 0
      && forall i :: 0 <= i < |MultiAsWritten(env, source, to, args, fn).value.rows| ==>
        MultiAsWritten(env, source, to, args, fn).value.rows[i].path.None?
  {
    var lists := ResolveAll(env.resolve, source, args);
    var values := ComputeEach(env.call, fn, AsWrittenTuples(lists));
    if values.Ok? {
      NoPathsWhenMissing(lists, k);
      assert MultiAsWritten(env, source, to, args, fn) == Ok(LooseRows(Padded(values.value, [], to)));
    }
  }

  /** One argument with nothing found empties the product of the unpadded path lists. */
  lemma NoPathsWhenMissing(lists: seq<seq<Node>>, k: nat)
    requires k < |lists| && lists[k] == []
    ensures PathProduct(RawPaths(lists)) == []
  {
    ProductZeroIff(RawPaths(lists));
    assert RawPaths(lists)[k] == [];
  }

  /**
   * Corrected, the same rule yields one row per tuple, each keyed by the
   * paths of the arguments that were found.
   */
  lemma MissingArgumentKeepsRows(env: Env, source: Value, to: Target, args: seq<Value>, fn: Value, k: nat)
    requires k < |args|
    requires env.resolve(source, args[k]) == []
    requires AnyIdx(ResolveAll(env.resolve, source, args))
    ensures Multi(env, source, to, args, fn).Ok? ==>
      Multi(env, source, to, args, fn).value.ToRows?
      && |Multi(env, source, to, args, fn).value.rows| > 0
  {
  }

  /** Every value found for any argument is not an array. */
  predicate AtomicArgs(lists: seq<seq<Node>>) {
    forall k, j :: 0 <= k < |lists| && 0 <= j < |lists[k]| ==> Atomic(lists[k][j].value)
  }

  function Loosen(o: Outcome): LooseOutcome {
    match o
    case ToCommon(vs) => LooseCommon(vs)
    case ToRows(rs) =>
      LooseRows(seq(|rs|, i requires 0 <= i < |rs| => LooseRow(rs[i].value, Some(rs[i].path), rs[i].to)))
  }

  lemma AsWrittenTuplesAtomic(lists: seq<seq<Node>>)
    requires |lists| >= 2 && AtomicArgs(lists)
    ensures AsWrittenTuples(lists) == Tuples(ArgValues(lists))
  {
    var vl := ArgValues(lists);
    forall k, j | 0 <= k < |vl| && 0 <= j < |vl[k]|
      ensures Atomic(vl[k][j])
    {
      if lists[k] != [] {
        assert vl[k][j] == lists[k][j].value;
      }
    }
    AtomicProductAgrees(vl);
  }

  /**
   * When every argument is found and no found value is an array, the code
   * as written and the corrected branch agree exactly.
   */
  lemma AgreesWhenPresentAndAtomic(env: Env, source: Value, to: Target, args: seq<Value>, fn: Value)
    requires |args| >= 2
    requires forall k :: 0 <= k < |args| ==> env.resolve(source, args[k]) != []
    requires AtomicArgs(ResolveAll(env.resolve, source, args))
    ensures MultiAsWritten(env, source, to, args, fn) == match Multi(env, source, to, args, fn)
      case Ok(o) => Ok(Loosen(o))
      case Err(e) => Err(e)
  {
    var lists := ResolveAll(env.resolve, source, args);
    AsWrittenTuplesAtomic(lists);
    assert RawPaths(lists) == ArgPaths(lists);
    var tuples := Tuples(ArgValues(lists));
    match ComputeEach(env.call, fn, tuples)
    case Err(e) =>
    case Ok(values) =>
      if AnyIdx(lists) {
        var paths := PathProduct(ArgPaths(lists));
        ProductSameShape(ArgValues(lists), ArgPaths(lists));
        var rows := Zip(values, paths, to);
        assert Multi(env, source, to, args, fn) == Ok(ToRows(rows));
        assert MultiAsWritten(env, source, to, args, fn) == Ok(LooseRows(Padded(values, paths, to)));
        LoosenZip(values, paths, to);
      }
  }

  /** The rows as written, a value past the end of the paths getting none. */
  function Padded(values: seq<Value>, paths: seq<Path>, to: Target): (r: seq<LooseRow>)
    ensures |r| == |values|
    ensures forall i :: 0 <= i < |r| ==>
      r[i].value == values[i] && r[i].to == to && r[i].path == (if i < |paths| then Some(paths[i]) else None)
  {
    seq(|values|, i requires 0 <= i < |values| =>
      LooseRow(values[i], if i < |paths| then Some(paths[i]) else None, to))
  }

  /** With as many paths as values, no row is left without one. */
  lemma LoosenZip(values: seq<Value>, paths: seq<Path>, to: Target)
    requires |values| == |paths|
    ensures Loosen(ToRows(Zip(values, paths, to))) == LooseRows(Padded(values, paths, to))
  {
  }

  /**
   * An array-valued argument is spread: with `[1, 2]` found for the first
   * path and `3` for the second, the transform receives three arguments as
   * written and two once corrected.
   */
  lemma ArrayArgumentSpread(p: Path, q: Path)
    ensures var lists := [[Node(Arr([Num(1), Num(2)]), p)], [Node(Num(3), q)]];
      AsWrittenTuples(lists) == [[Num(1), Num(2), Num(3)]]
      && Tuples(ArgValues(lists)) == [[Arr([Num(1), Num(2)]), Num(3)]]
  {
    var lists := [[Node(Arr([Num(1), Num(2)]), p)], [Node(Num(3), q)]];
    assert NodeValues(lists[0]) == [Arr([Num(1), Num(2)])];
    assert NodeValues(lists[1]) == [Num(3)];
    assert ArgValues(lists) == [[Arr([Num(1), Num(2)])], [Num(3)]];
    SpreadExample();
  }

  /** The product as written on the example's values, step by step. */
  lemma SpreadExample()
    ensures Reduce([[Arr([Num(1), Num(2)])], [Num(3)]]) == [Arr([Num(1), Num(2), Num(3)])]
    ensures Tuples([[Arr([Num(1), Num(2)])], [Num(3)]]) == [[Arr([Num(1), Num(2)]), Num(3)]]
  {
    var a := Arr([Num(1), Num(2)]);
    var lists := [[a], [Num(3)]];
    assert lists[..1] == [[a]];
    assert lists[..1][..0] == [];
    assert Reduce(lists[..1]) == [a];
    assert Cartesian.Step([a], [Num(3)]) == Row(a, [Num(3)]) + Cartesian.Step([], [Num(3)]) == [Pair(a, Num(3))];
    var t0 := Tuples(lists[..1]);
    assert Tuples(lists[..1][..0]) == [[]];
    var e: seq<seq<Value>> := [[]];
    assert e[1..] == [];
    assert TRow([], [a])[0] == [] + [a] == [a];
    assert t0 == TStep([[]], [a]) == TRow([], [a]) + [] == [[a]];
    assert [[a]][1..] == [];
    assert TRow([a], [Num(3)])[0] == [a] + [Num(3)] == [a, Num(3)];
    assert |TRow([a], [Num(3)])| == 1;
    assert TStep(t0, [Num(3)]) == TRow([a], [Num(3)]) + [] == [[a, Num(3)]];
    assert Pair(a, Num(3)) == Arr([Num(1), Num(2)] + [Num(3)]);
    assert [Num(1), Num(2)] + [Num(3)] == [Num(1), Num(2), Num(3)];
  }
}
