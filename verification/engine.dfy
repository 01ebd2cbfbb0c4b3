/**
 * The reference engine of `src/main.ts`: rule classification, node
 * resolution, the common/row decision, multi-path products, grouping,
 * the common overlay and the `[]` merge. The assembly phases after rule
 * collection are shared with `src/index.ts`.
 */
module Engine {
  import opened Wrappers
  import opened Values
  import opened Paths
  import opened Cartesian
  import opened Validators
  import opened Targets
  import opened OrderedMaps
  import opened Rows
  import Batch

  datatype Error =
    | GrammarError                 // `parse(mapping)` rejected the mapping
    | InvalidRule(msg: string)     // a rule validator threw
    | TransformError(msg: string)  // a transform returned a function
    | Thrown(msg: string)          // a user transform threw
    | TypeError(msg: string)       // a JavaScript `TypeError`

  /** One `[to, from]` entry of the mapping object. */
  datatype Rule = Rule(to: Target, from: Value)

  /**
   * What the engine calls but does not define: the path library's
   * `jp.nodes(source, expr)`, the user functions (by identity), and the
   * mapping grammar.
   */
  datatype Env = Env(
    resolve: (Value, Value) -> seq<Node>,
    call: (nat, seq<Value>) -> Result<Value, string>,
    accepts: seq<Rule> -> bool)

  const FunctionResult := "the function cannot return a function type value"
  const NotCallable := "fn is not a function"

  // ---------------------------------------------------------------------
  // Transforms

  /** `args.map(arg => !arg ? "" : arg)`. */
  function Clean(args: seq<Value>): (r: seq<Value>)
    ensures |r| == |args|
    ensures forall i :: 0 <= i < |args| ==> Truthy(r[i]) || r[i] == Str("")
    ensures forall i :: 0 <= i < |args| ==> Truthy(args[i]) ==> r[i] == args[i]
  {
    seq(|args|, i requires 0 <= i < |args| => if Truthy(args[i]) then args[i] else Str(""))
  }

  /**
   * `computeFunction` (and `computeValueArrayFunction` of `src/index.ts`):
   * the function sees every falsy argument as `""`; an `undefined` result
   * becomes `""` and a function-valued result is an error.
   */
  function ComputeFunction(call: (nat, seq<Value>) -> Result<Value, string>, fn: Value, args: seq<Value>)
    : (r: Result<Value, Error>)
    ensures r.Ok? ==> r.value != Undefined && !r.value.Fn?
    ensures r.Ok? ==> fn.Fn? && (call(fn.id, Clean(args)) == Ok(r.value)
                                 || (call(fn.id, Clean(args)) == Ok(Undefined) && r.value == Str("")))
    ensures r == Err(TransformError(FunctionResult)) <==> fn.Fn? && call(fn.id, Clean(args)).Ok? && call(fn.id, Clean(args)).value.Fn?
    ensures !fn.Fn? ==> r == Err(TypeError(NotCallable))
    ensures fn.Fn? && call(fn.id, Clean(args)).Err? ==> r == Err(Thrown(call(fn.id, Clean(args)).error))
    ensures fn.Fn? && call(fn.id, Clean(args)).Ok? && !call(fn.id, Clean(args)).value.Fn? ==>
      r == Ok(if call(fn.id, Clean(args)).value == Undefined then Str("") else call(fn.id, Clean(args)).value)
  {
    if !fn.Fn? then Err(TypeError(NotCallable))
    else
      match call(fn.id, Clean(args))
      case Err(m) => Err(Thrown(m))
      case Ok(v) =>
        if v.Fn? then Err(TransformError(FunctionResult))
        else if v == Undefined then Ok(Str(""))
        else Ok(v)
  }

  /** `computeFunction` on every tuple in order; the first failure aborts. */
  function ComputeEach(call: (nat, seq<Value>) -> Result<Value, string>, fn: Value, tuples: seq<seq<Value>>)
    : (r: Result<seq<Value>, Error>)
    ensures r.Ok? ==> |r.value| == |tuples|
    ensures r.Ok? ==> forall i :: 0 <= i < |tuples| ==> ComputeFunction(call, fn, tuples[i]) == Ok(r.value[i])
    ensures r.Err? ==> exists i :: 0 <= i < |tuples| && ComputeFunction(call, fn, tuples[i]) == Err(r.error)
  {
    if tuples == [] then Ok([])
    else
      var v :- ComputeFunction(call, fn, tuples[0]);
      var rest :- ComputeEach(call, fn, tuples[1..]);
      assert forall i :: 1 <= i < |tuples| ==> tuples[1..][i - 1] == tuples[i];
      Ok([v] + rest)
  }

  // ---------------------------------------------------------------------
  // Rule collection

  /** `isCommonProp`. */
  predicate IsCommonProp(nodes: seq<Node>) {
    |nodes| == 1 && !(LastIdxIndex(nodes[0].path) != |nodes[0].path| - 1 && IdxCount(nodes[0].path) > 1)
  }

  /**
   * A match set is common exactly when it is a single node whose path has
   * at most one index segment or ends with an index segment.
   */
  lemma CommonPropIff(nodes: seq<Node>)
    ensures IsCommonProp(nodes) <==>
      |nodes| == 1 && (IdxCount(nodes[0].path) <= 1 || (|nodes[0].path| > 0 && Last(nodes[0].path).Idx?))
  {
    if |nodes| == 1 && |nodes[0].path| > 0 && Last(nodes[0].path).Idx? {
      assert LastIdxIndex(nodes[0].path) == |nodes[0].path| - 1;
    }
  }

  function Last(p: Path): Seg
    requires |p| > 0
  {
    p[|p| - 1]
  }

  /** The collected state of the rule loop: `commonProps`, `propsToMerge` and `arrNodes`. */
  datatype Acc = Acc(common: Value, merge: seq<Target>, rows: seq<RowNode>)

  const Start := Acc(Obj([]), [], [])

  /** `set.add(t)` on an insertion-ordered set. */
  function AddTarget(ts: seq<Target>, t: Target): (r: seq<Target>)
    ensures t in r
    ensures forall u :: u in r <==> u in ts || u == t
    ensures ts <= r
  {
    if t in ts then ts else ts + [t]
  }

  function AsRows(nodes: seq<Node>, to: Target): (r: seq<RowNode>)
    ensures |r| == |nodes|
    ensures forall i :: 0 <= i < |nodes| ==> r[i] == RowNode(nodes[i].value, nodes[i].path, to)
  {
    seq(|nodes|, i requires 0 <= i < |nodes| => RowNode(nodes[i].value, nodes[i].path, to))
  }

  function NodeValues(nodes: seq<Node>): (r: seq<Value>)
    ensures |r| == |nodes|
    ensures forall i :: 0 <= i < |nodes| ==> r[i] == nodes[i].value
  {
    seq(|nodes|, i requires 0 <= i < |nodes| => nodes[i].value)
  }

  function NodePaths(nodes: seq<Node>): (r: seq<Path>)
    ensures |r| == |nodes|
    ensures forall i :: 0 <= i < |nodes| ==> r[i] == nodes[i].path
  {
    seq(|nodes|, i requires 0 <= i < |nodes| => nodes[i].path)
  }

  /** `addProp` of each value in turn. */
  function AddEach(obj: Value, to: Target, vs: seq<Value>): Value
    decreases |vs|
  {
    if vs == [] then obj else AddEach(AddProp(obj, to, vs[0]), to, vs[1..])
  }

  /** The row nodes of a single-path rule whose transform runs on every node. */
  function TransformRows(call: (nat, seq<Value>) -> Result<Value, string>, fn: Value, nodes: seq<Node>, to: Target)
    : (r: Result<seq<RowNode>, Error>)
    ensures r.Ok? ==> |r.value| == |nodes|
    ensures r.Ok? ==> forall i :: 0 <= i < |nodes| ==>
      r.value[i].path == nodes[i].path && r.value[i].to == to
      && ComputeFunction(call, fn, [nodes[i].value]) == Ok(r.value[i].value)
  {
    var vs :- ComputeEach(call, fn, seq(|nodes|, i requires 0 <= i < |nodes| => [nodes[i].value]));
    Ok(seq(|nodes|, i requires 0 <= i < |nodes| => RowNode(vs[i], nodes[i].path, to)))
  }

  /** `jp.nodes(source, arg)` for every argument of a multi-path rule. */
  function ResolveAll(resolve: (Value, Value) -> seq<Node>, source: Value, args: seq<Value>): (r: seq<seq<Node>>)
    ensures |r| == |args|
    ensures forall k :: 0 <= k < |args| ==> r[k] == resolve(source, args[k])
  {
    seq(|args|, k requires 0 <= k < |args| => resolve(source, args[k]))
  }

  /** The argument values, a missing argument read as a single `undefined`. */
  function ArgValues(lists: seq<seq<Node>>): (r: seq<seq<Value>>)
    ensures |r| == |lists|
    ensures forall k :: 0 <= k < |lists| ==> r[k] == if lists[k] == [] then [Undefined] else NodeValues(lists[k])
    ensures forall k :: 0 <= k < |lists| ==> r[k] != [] && |lists[k]| <= |r[k]| <= |lists[k]| + 1
    ensures Product(r) > 0
  {
    var r := seq(|lists|, k requires 0 <= k < |lists| => if lists[k] == [] then [Undefined] else NodeValues(lists[k]));
    ProductZeroIff(r);
    r
  }

  /** The argument paths, a missing argument contributing the empty path. */
  function ArgPaths(lists: seq<seq<Node>>): (r: seq<seq<Path>>)
    ensures |r| == |lists|
    ensures forall k :: 0 <= k < |lists| ==> r[k] == if lists[k] == [] then [[]] else NodePaths(lists[k])
    ensures forall k :: 0 <= k < |lists| ==> |r[k]| == |ArgValues(lists)[k]|
  {
    seq(|lists|, k requires 0 <= k < |lists| => if lists[k] == [] then [[]] else NodePaths(lists[k]))
  }

  /** `argsPaths.flat(2).some(Number.isInteger)`. */
  predicate AnyIdx(lists: seq<seq<Node>>) {
    exists k, j, s :: 0 <= k < |lists| && 0 <= j < |lists[k]| && 0 <= s < |lists[k][j].path|
      && lists[k][j].path[s].Idx?
  }

  lemma {:induction false} ProductSameShape<T, U>(a: seq<seq<T>>, b: seq<seq<U>>)
    requires |a| == |b|
    requires forall k :: 0 <= k < |a| ==> |a[k]| == |b[k]|
    ensures Product(a) == Product(b)
    decreases |a|
  {
    if |a| > 0 {
      ProductSameShape(a[..|a| - 1], b[..|b| - 1]);
    }
  }

  function Zip(values: seq<Value>, paths: seq<Path>, to: Target): (r: seq<RowNode>)
    requires |values| == |paths|
    ensures |r| == |values|
    ensures forall i :: 0 <= i < |r| ==> r[i] == RowNode(values[i], paths[i], to)
  {
    seq(|values|, i requires 0 <= i < |values| => RowNode(values[i], paths[i], to))
  }

  /** Where the values of a multi-path rule go. */
  datatype Outcome = ToCommon(values: seq<Value>) | ToRows(rows: seq<RowNode>)

  function ApplyOutcome(acc: Acc, to: Target, o: Outcome): Acc {
    match o
    case ToCommon(vs) => acc.(common := AddEach(acc.common, to, vs))
    case ToRows(rs) => acc.(rows := acc.rows + rs)
  }

  /**
   * A rule with several source paths and a combiner: one computed value per
   * tuple of the argument product (a missing argument read as `undefined`);
   * if no argument path holds an index the values go to the common
   * properties, otherwise each becomes a row whose path is the
   * concatenation of its tuple's argument paths.
   */
  function Multi(env: Env, source: Value, to: Target, args: seq<Value>, fn: Value): (r: Result<Outcome, Error>)
    ensures var lists := ResolveAll(env.resolve, source, args);
      r.Ok? ==> (r.value.ToRows? <==> AnyIdx(lists))
    ensures var lists := ResolveAll(env.resolve, source, args);
      r.Ok? && r.value.ToCommon? ==>
        |r.value.values| == Product(ArgValues(lists))
        && forall i :: 0 <= i < |r.value.values| ==>
          ComputeFunction(env.call, fn, Tuples(ArgValues(lists))[i]) == Ok(r.value.values[i])
    ensures var lists := ResolveAll(env.resolve, source, args);
      r.Ok? && r.value.ToRows? ==>
        |r.value.rows| == Product(ArgValues(lists)) == |PathProduct(ArgPaths(lists))|
        && forall i :: 0 <= i < |r.value.rows| ==>
          r.value.rows[i].to == to && r.value.rows[i].path == PathProduct(ArgPaths(lists))[i]
          && ComputeFunction(env.call, fn, Tuples(ArgValues(lists))[i]) == Ok(r.value.rows[i].value)
  {
    var lists := ResolveAll(env.resolve, source, args);
    var values :- ComputeEach(env.call, fn, Tuples(ArgValues(lists)));
    Ok(Dispatch(lists, values, to))
  }

  /** Sends the computed values to the common properties, or pairs them with the product paths as rows. */
  function Dispatch(lists: seq<seq<Node>>, values: seq<Value>, to: Target): (r: Outcome)
    requires |values| == |Tuples(ArgValues(lists))|
    ensures r.ToRows? <==> AnyIdx(lists)
    ensures r.ToCommon? ==> r.values == values
    ensures r.ToRows? ==>
      |r.rows| == |values| == |PathProduct(ArgPaths(lists))|
      && forall i :: 0 <= i < |r.rows| ==>
        r.rows[i] == RowNode(values[i], PathProduct(ArgPaths(lists))[i], to)
  {
    if !AnyIdx(lists) then ToCommon(values)
    else
      ProductSameShape(ArgValues(lists), ArgPaths(lists));
      ToRows(Zip(values, PathProduct(ArgPaths(lists)), to))
  }

  /** `b` keeps every row and every registered target of `a`, in order, and may add more after them. */
  predicate Extends(a: Acc, b: Acc) {
    a.rows <= b.rows && a.merge <= b.merge
  }

  /** One iteration of the rule loop of `src/main.ts`. */
  function Step(env: Env, source: Value, acc: Acc, rule: Rule): (r: Result<Acc, Error>)
    ensures rule.from == Undefined ==> r == Ok(acc)
    ensures r.Ok? ==> Extends(acc, r.value)
  {
    var to := rule.to;
    var from := rule.from;
    if from == Undefined then Ok(acc)
    else
      var acc := if HasBrackets(to) then acc.(merge := AddTarget(acc.merge, to)) else acc;
      if !(IsStrPath(from) || IsArrPath(from)) then
        Ok(acc.(common := AddProp(acc.common, to, from)))
      else if IsStrPath(from) then
        var nodes := env.resolve(source, from);
        if nodes == [] then Ok(acc)
        else if IsCommonProp(nodes) then Ok(acc.(common := AddProp(acc.common, to, nodes[0].value)))
        else Ok(acc.(rows := acc.rows + AsRows(nodes, to)))
      else if |from.elems| == 2 then
        var fn := from.elems[1];
        var nodes := env.resolve(source, from.elems[0]);
        if nodes == [] then Ok(acc)
        else if IsCommonProp(nodes) then
          var v :- ComputeFunction(env.call, fn, [nodes[0].value]);
          Ok(acc.(common := AddProp(acc.common, to, v)))
        else
          var rows :- TransformRows(env.call, fn, nodes, to);
          Ok(acc.(rows := acc.rows + rows))
      else if |from.elems| > 2 then
        var o :- Multi(env, source, to, from.elems[..|from.elems| - 1], from.elems[|from.elems| - 1]);
        Ok(ApplyOutcome(acc, to, o))
      else Ok(acc)
  }

  /** The rule loop, in mapping order; the first exception aborts. */
  function Collect(env: Env, source: Value, rules: seq<Rule>, acc: Acc): (r: Result<Acc, Error>)
    ensures r.Ok? ==> Extends(acc, r.value)
    decreases |rules|
  {
    if rules == [] then Ok(acc)
    else
      var acc' :- Step(env, source, acc, rules[0]);
      Collect(env, source, rules[1..], acc')
  }

  // ---------------------------------------------------------------------
  // Assembly (shared with `src/index.ts`)

  /** Groups keyed by `findParentPath(path, 1).toString()`; folding under `findParentPath(path, 2)`, which always exists. */
  const MainGrouping := Grouping((p: Path) => PathToString(FindParentPath(p, 1)), (p: Path) => Some(FindParentPath(p, 2)))

  /** `Object.assign(obj, commonProps)` on every group. */
  function OverlayAll<K>(m: OMap<K, Value>, common: Value): (r: OMap<K, Value>)
    ensures |r| == |m|
    ensures forall i :: 0 <= i < |m| ==> r[i] == Entry(m[i].key, Assign(m[i].val, common))
  {
    seq(|m|, i requires 0 <= i < |m| => Entry(m[i].key, Assign(m[i].val, common)))
  }

  /** `Array.prototype.flat()` one level deep. */
  function Flat(vs: seq<Value>): Value {
    Arr(FlatElems(vs))
  }

  function FlatElems(vs: seq<Value>): seq<Value> {
    if vs == [] then [] else (if vs[0].Arr? then vs[0].elems else [vs[0]]) + FlatElems(vs[1..])
  }

  /** The merge pass's maps: merged rows by level-2 parent, and the remaining groups. */
  datatype MergeState = MergeState(parents: OMap<string, Value>, groups: OMap<string, Value>)

  /** The objects already merged under a level-2 key: `propParentToObjArr.get(newKey) ?? []`. */
  function Held(parents: OMap<string, Value>, key: string): seq<Value> {
    var held := MapGet(parents, key);
    if held.Some? && held.value.Arr? then held.value.elems else []
  }

  /** One node of a `[]` target: move its group into the merged row of its level-2 parent. */
  function MergeNode(prop: Target, node: RowNode, st: MergeState): (r: MergeState)
    ensures |r.parents| + |r.groups| <= |st.parents| + |st.groups|
    ensures var oldKey := PathToString(FindParentPath(node.path, 1));
      MapGet(st.groups, oldKey).None? ==> r == st
    ensures var oldKey := PathToString(FindParentPath(node.path, 1));
      var newKey := PathToString(FindParentPath(node.path, 2));
      MapGet(st.groups, oldKey).Some? ==>
        MapGet(r.groups, oldKey).None?
        && (forall k :: k != oldKey ==> MapGet(r.groups, k) == MapGet(st.groups, k))
        && MapGet(r.parents, newKey) == Some(Arr([MergeObjArr(Held(st.parents, newKey) + [MapGet(st.groups, oldKey).value], prop)]))
        && (forall k :: k != newKey ==> MapGet(r.parents, k) == MapGet(st.parents, k))
    ensures UniqueMapKeys(st.groups) ==> UniqueMapKeys(r.groups)
    ensures UniqueMapKeys(st.parents) ==> UniqueMapKeys(r.parents)
  {
    var oldKey := PathToString(FindParentPath(node.path, 1));
    var newKey := PathToString(FindParentPath(node.path, 2));
    match MapGet(st.groups, oldKey)
    case None => st
    case Some(found) =>
      Promote(st, oldKey, newKey, MergeObjArr(Held(st.parents, newKey) + [found], prop))
  }

  /** Stores `merged` as the one-element row array of `newKey` and drops the group of `oldKey`. */
  function Promote(st: MergeState, oldKey: string, newKey: string, merged: Value): (r: MergeState)
    requires MapGet(st.groups, oldKey).Some?
    ensures |r.parents| + |r.groups| <= |st.parents| + |st.groups|
    ensures MapGet(r.groups, oldKey).None?
    ensures forall k :: k != oldKey ==> MapGet(r.groups, k) == MapGet(st.groups, k)
    ensures MapGet(r.parents, newKey) == Some(Arr([merged]))
    ensures forall k :: k != newKey ==> MapGet(r.parents, k) == MapGet(st.parents, k)
    ensures UniqueMapKeys(st.groups) ==> UniqueMapKeys(r.groups)
    ensures UniqueMapKeys(st.parents) ==> UniqueMapKeys(r.parents)
  {
    MergeState(MapSet(st.parents, newKey, Arr([merged])), MapDelete(st.groups, oldKey))
  }

  function MergeRows(to: Target, rows: seq<RowNode>, st: MergeState): (r: MergeState)
    ensures |r.parents| + |r.groups| <= |st.parents| + |st.groups|
    ensures UniqueMapKeys(st.groups) ==> UniqueMapKeys(r.groups)
    ensures UniqueMapKeys(st.parents) ==> UniqueMapKeys(r.parents)
    decreases |rows|
  {
    if rows == [] then st
    else
      var st' := if rows[0].to == to then MergeNode(TruncAfterLast(to, TEmpty), rows[0], st) else st;
      MergeRows(to, rows[1..], st')
  }

  function MergeAll(targets: seq<Target>, rows: seq<RowNode>, st: MergeState): (r: MergeState)
    ensures |r.parents| + |r.groups| <= |st.parents| + |st.groups|
    ensures UniqueMapKeys(st.groups) ==> UniqueMapKeys(r.groups)
    ensures UniqueMapKeys(st.parents) ==> UniqueMapKeys(r.parents)
    decreases |targets|
  {
    if targets == [] then st else MergeAll(targets[1..], rows, MergeRows(targets[0], rows, st))
  }

  /** The rows grouped by their level-1 parent path, ancestors folded into their level-2 descendants. */
  function RowGroups(rows: seq<RowNode>): (r: OMap<string, Value>)
    ensures UniqueMapKeys(r)
    ensures GroupsHold(MainGrouping, rows, r)
  {
    GroupHolds(MainGrouping, rows);
    Group(MainGrouping, rows)
  }

  /** Everything after the rule loop: sort, group, overlay, merge, flatten. */
  function Assemble(acc: Acc): seq<Value> {
    var rows := SortByDepth(acc.rows);
    var groups := RowGroups(rows);
    if KeyCount(acc.common) > 0 && groups == [] then [acc.common]
    else
      var groups := if KeyCount(acc.common) > 0 then OverlayAll(groups, acc.common) else groups;
      if acc.merge == [] then FlatElems(MapValues(groups))
      else
        var st := MergeAll(acc.merge, rows, MergeState([], groups));
        FlatElems(MapValues(MapSetAll(st.parents, st.groups)))
  }

  /** `mapObj` of `src/main.ts`. */
  function MapObj(env: Env, source: Value, rules: seq<Rule>): (r: Result<seq<Value>, Error>)
    ensures !env.accepts(rules) ==> r == Err(GrammarError)
    ensures env.accepts(rules) && Collect(env, source, rules, Start).Err? ==> r == Err(Collect(env, source, rules, Start).error)
    ensures r.Err? ==> r.error == GrammarError || Collect(env, source, rules, Start).Err?
  {
    if !env.accepts(rules) then Err(GrammarError)
    else
      var acc :- Collect(env, source, rules, Start);
      Ok(Assemble(acc))
  }

  /** `mapObj` with fixed rules, as a function of the source. */
  function OnSource(env: Env, rules: seq<Rule>): Value -> Result<seq<Value>, Error> {
    source => MapObj(env, source, rules)
  }

  /** `mapObjArr` of `src/main.ts`: the in-order concatenation of `mapObj` over every source. */
  method MapObjArr(env: Env, sources: seq<Value>, rules: seq<Rule>) returns (r: Result<seq<Value>, Error>)
    ensures r == Batch.Outcome(OnSource(env, rules), sources)
  {
    r := Batch.ForEachSource(OnSource(env, rules), sources);
  }
}
