/**
 * The `src/index.js` variant of `mapObj`. It differs from `src/main.ts` in
 * the rule loop and the merge pass: falsy sources are skipped, every `[]`
 * of a target is rewritten to `[*]` before anything else, transforms are
 * called with no argument cleaning and no check of their result, a match
 * set is common by a rule of its own, `findParentPath` yields `null` below
 * the requested level, and the merge pass regroups every group by the
 * level-2 parent it reads back from the group's string key.
 */
module IndexJs {
  import opened Wrappers
  import opened Values
  import opened Paths
  import opened Cartesian
  import opened Targets
  import opened OrderedMaps
  import opened Rows
  import opened Engine
  import Batch

  const FromLastNotFunction := "the last element of the 'from' array must be a function"
  const FromNoArgument := "there should be at least one more element than the function in the 'from' array"
  const SplitOfUndefined := "Cannot read properties of undefined (reading 'split')"

  // ---------------------------------------------------------------------
  // Transforms

  /** `fn(...args)`: the arguments as found, the result as returned. */
  function Call(call: (nat, seq<Value>) -> Result<Value, string>, fn: Value, args: seq<Value>)
    : (r: Result<Value, Error>)
    requires fn.Fn?
    ensures r.Ok? <==> call(fn.id, args).Ok?
    ensures r.Ok? ==> r.value == call(fn.id, args).value
    ensures r.Err? ==> r.error.Thrown?
  {
    match call(fn.id, args)
    case Ok(v) => Ok(v)
    case Err(m) => Err(Thrown(m))
  }

  /** Calling `fn` on `args` returns `v`. */
  predicate Yields(call: (nat, seq<Value>) -> Result<Value, string>, fn: Value, args: seq<Value>, v: Value)
    requires fn.Fn?
  {
    call(fn.id, args) == Ok(v)
  }

  /** `fn` on every tuple in order; the first exception aborts. */
  function CallEach(call: (nat, seq<Value>) -> Result<Value, string>, fn: Value, tuples: seq<seq<Value>>)
    : (r: Result<seq<Value>, Error>)
    requires fn.Fn?
    ensures r.Err? ==> exists i :: 0 <= i < |tuples| && call(fn.id, tuples[i]).Err?
    ensures r.Err? ==> r.error.Thrown?
    ensures r.Ok? ==> |r.value| == |tuples|
    ensures r.Ok? ==> forall i :: 0 <= i < |tuples| ==> Yields(call, fn, tuples[i], r.value[i])
  {
    if tuples == [] then Ok([])
    else
      var v :- Call(call, fn, tuples[0]);
      assert forall i :: 1 <= i < |tuples| ==> tuples[1..][i - 1] == tuples[i];
      var rest :- CallEach(call, fn, tuples[1..]);
      Ok([v] + rest)
  }

  /** The row nodes of a single-path rule, each value passed through `fn` when there is one. */
  function CallRows(call: (nat, seq<Value>) -> Result<Value, string>, fn: Value, nodes: seq<Node>, to: Target)
    : (r: Result<seq<RowNode>, Error>)
    requires fn.Fn?
    ensures r.Err? ==> r.error.Thrown?
    ensures r.Ok? ==> |r.value| == |nodes|
    ensures r.Ok? ==> forall i :: 0 <= i < |nodes| ==>
      r.value[i].path == nodes[i].path && r.value[i].to == to
      && Yields(call, fn, [nodes[i].value], r.value[i].value)
  {
    var vs :- CallEach(call, fn, seq(|nodes|, i requires 0 <= i < |nodes| => [nodes[i].value]));
    Ok(seq(|nodes|, i requires 0 <= i < |nodes| => RowNode(vs[i], nodes[i].path, to)))
  }

  // ---------------------------------------------------------------------
  // The common test

  /**
   * The common test of `src/index.js` on a non-empty match set: common
   * unless the first node's last index segment is not its final segment
   * and there are several nodes or the first path holds two index segments.
   */
  predicate IsCommonJs(nodes: seq<Node>)
    requires |nodes| > 0
  {
    var p := nodes[0].path;
    !(LastIdxIndex(p) != |p| - 1 && (|nodes| > 1 || IdxCount(p) > 1))
  }

  /**
   * On a single node the test agrees with `isCommonProp` of `src/main.ts`;
   * several nodes are common here exactly when the first path is empty or
   * ends with an index segment, where `src/main.ts` never calls them common.
   */
  lemma CommonJsAgainstMain(nodes: seq<Node>)
    requires |nodes| > 0
    ensures |nodes| == 1 ==> (IsCommonJs(nodes) <==> IsCommonProp(nodes))
    ensures |nodes| > 1 ==> !IsCommonProp(nodes)
    ensures |nodes| > 1 ==>
      (IsCommonJs(nodes) <==> nodes[0].path == [] || nodes[0].path[|nodes[0].path| - 1].Idx?)
  {
    var p := nodes[0].path;
    if p != [] && p[|p| - 1].Idx? {
      assert LastIdxIndex(p) == |p| - 1;
    }
  }

  // ---------------------------------------------------------------------
  // The rule loop

  /** `addProp` of each value in turn. */
  function SetEach(obj: Value, to: Target, vs: seq<Value>): Value
    decreases |vs|
  {
    if vs == [] then obj else SetEach(SetTarget(obj, to, vs[0]), to, vs[1..])
  }

  /** The target a rule writes to: every `[]` read as `[*]`. */
  function Rewrite(t: Target): (r: Target)
    ensures TEmpty !in r
  {
    ReplaceEmpty(t, TStar)
  }

  /** The `propsToMerge` key of a target holding `[]`: the rewritten target up to and including its last `[*]`. */
  function MergeKey(t: Target): Target {
    TruncAfterLast(Rewrite(t), TStar)
  }

  /**
   * The merge key is a prefix of the rewritten target that ends with `[*]`,
   * has no `[*]` after it and no `[]` in it, and covers every `[]` of the
   * original target.
   */
  lemma MergeKeyShape(t: Target)
    requires HasEmpty(t)
    ensures var k := MergeKey(t);
      |k| > 0 && k <= Rewrite(t) && k[|k| - 1] == TStar && TStar !in Rewrite(t)[|k|..]
      && TEmpty !in k && TEmpty !in t[|k|..]
  {
    var r := Rewrite(t);
    var i :| 0 <= i < |t| && t[i] == TEmpty;
    assert r[i] == TStar;
    var k := MergeKey(t);
    assert TEmpty !in k by {
      forall j | 0 <= j < |k|
        ensures k[j] != TEmpty
      {
        assert k[j] == r[j];
      }
    }
    forall j | |k| <= j < |t|
      ensures t[j] != TEmpty
    {
      assert r[|k|..][j - |k|] == r[j];
    }
  }

  /** Registering the merge key of a rule's target. */
  function RegisterJs(merge: seq<Target>, t: Target): seq<Target> {
    if HasEmpty(t) then AddTarget(merge, MergeKey(t)) else merge
  }

  /** The single-path branch, on the nodes found and the function if any. */
  function Single(env: Env, acc: Acc, to: Target, fn: Option<Value>, nodes: seq<Node>): (r: Result<Acc, Error>)
    requires fn.Some? ==> fn.value.Fn?
    ensures r.Err? ==> r.error.Thrown? && fn.Some? && nodes != []
    ensures nodes != [] && IsCommonJs(nodes) && fn.Some? ==>
      (r.Ok? <==> env.call(fn.value.id, [nodes[0].value]).Ok?)
    ensures r.Ok? ==> r.value.merge == acc.merge
    ensures r.Ok? ==> acc.rows <= r.value.rows
    ensures nodes == [] ==> r == Ok(acc)
    ensures r.Ok? && nodes != [] && IsCommonJs(nodes) ==>
      r.value.rows == acc.rows
      && (fn.None? ==> r.value.common == SetTarget(acc.common, to, nodes[0].value))
      && (fn.Some? ==> r.value.common == SetTarget(acc.common, to, env.call(fn.value.id, [nodes[0].value]).value))
    ensures r.Ok? && nodes != [] && !IsCommonJs(nodes) ==>
      r.value.common == acc.common && |r.value.rows| == |acc.rows| + |nodes|
      && forall i :: 0 <= i < |nodes| ==>
        r.value.rows[|acc.rows| + i].path == nodes[i].path && r.value.rows[|acc.rows| + i].to == to
        && (fn.None? ==> r.value.rows[|acc.rows| + i].value == nodes[i].value)
        && (fn.Some? ==> Yields(env.call, fn.value, [nodes[i].value], r.value.rows[|acc.rows| + i].value))
    ensures fn.None? ==> r.Ok?
  {
    if nodes == [] then Ok(acc)
    else if IsCommonJs(nodes) then
      var v :- if fn.Some? then Call(env.call, fn.value, [nodes[0].value]) else Ok(nodes[0].value);
      Ok(acc.(common := SetTarget(acc.common, to, v)))
    else
      var rows :- if fn.Some? then CallRows(env.call, fn.value, nodes, to) else Ok(AsRows(nodes, to));
      Ok(acc.(rows := acc.rows + rows))
  }

  /**
   * A rule with several source paths and a function, with the correction
   * `Engine.Multi` makes (a missing argument contributes the empty path),
   * the function called on each argument tuple as found.
   */
  function MultiJs(env: Env, source: Value, to: Target, args: seq<Value>, fn: Value): (r: Result<Outcome, Error>)
    requires fn.Fn?
    ensures r.Err? ==> r.error.Thrown?
    ensures var lists := ResolveAll(env.resolve, source, args);
      r.Ok? ==> (r.value.ToRows? <==> AnyIdx(lists))
    ensures var lists := ResolveAll(env.resolve, source, args);
      r.Ok? && r.value.ToCommon? ==>
        |r.value.values| == Product(ArgValues(lists))
        && forall i :: 0 <= i < |r.value.values| ==>
          Yields(env.call, fn, Tuples(ArgValues(lists))[i], r.value.values[i])
    ensures var lists := ResolveAll(env.resolve, source, args);
      r.Ok? && r.value.ToRows? ==>
        |r.value.rows| == Product(ArgValues(lists)) == |PathProduct(ArgPaths(lists))|
        && forall i :: 0 <= i < |r.value.rows| ==>
          r.value.rows[i].to == to && r.value.rows[i].path == PathProduct(ArgPaths(lists))[i]
          && Yields(env.call, fn, Tuples(ArgValues(lists))[i], r.value.rows[i].value)
  {
    var lists := ResolveAll(env.resolve, source, args);
    var values :- CallEach(env.call, fn, Tuples(ArgValues(lists)));
    if !AnyIdx(lists) then Ok(ToCommon(values))
    else
      ProductSameShape(ArgValues(lists), ArgPaths(lists));
      Ok(ToRows(Zip(values, PathProduct(ArgPaths(lists)), to)))
  }

  function ApplyJs(acc: Acc, to: Target, o: Outcome): Acc {
    match o
    case ToCommon(vs) => acc.(common := SetEach(acc.common, to, vs))
    case ToRows(rs) => acc.(rows := acc.rows + rs)
  }

  /** One iteration of the rule loop of `src/index.js`. */
  function Step(env: Env, source: Value, acc: Acc, rule: Rule): (r: Result<Acc, Error>)
    ensures r.Ok? ==> r.value.merge == if Truthy(rule.from) then RegisterJs(acc.merge, rule.to) else acc.merge
  {
    var from := rule.from;
    if !Truthy(from) then Ok(acc)
    else
      var to := Rewrite(rule.to);
      var acc := acc.(merge := RegisterJs(acc.merge, rule.to));
      if from.Arr? then
        if from.elems == [] then Ok(acc)
        else
          var fn := from.elems[|from.elems| - 1];
          var args := from.elems[..|from.elems| - 1];
          if !fn.Fn? then Err(InvalidRule(FromLastNotFunction))
          else if args == [] then Err(InvalidRule(FromNoArgument))
          else if |args| == 1 then Single(env, acc, to, Some(fn), env.resolve(source, args[0]))
          else
            var o :- MultiJs(env, source, to, args, fn);
            Ok(ApplyJs(acc, to, o))
      else Single(env, acc, to, None, env.resolve(source, from))
  }

  function Collect(env: Env, source: Value, rules: seq<Rule>, acc: Acc): Result<Acc, Error>
    decreases |rules|
  {
    if rules == [] then Ok(acc)
    else
      var acc' :- Step(env, source, acc, rules[0]);
      Collect(env, source, rules[1..], acc')
  }

  /** No row target holds `[]`. */
  predicate Rewritten(rows: seq<RowNode>) {
    forall i :: 0 <= i < |rows| ==> TEmpty !in rows[i].to
  }

  /**
   * Every row a rule adds writes to the rule's rewritten target, so no row
   * target holds `[]` and the `[]`-to-`[0]` step of the shared `AddProp` is
   * a no-op on them (`Targets.ReplaceAbsent`).
   */
  lemma StepRowsRewritten(env: Env, source: Value, acc: Acc, rule: Rule)
    requires Rewritten(acc.rows)
    ensures Step(env, source, acc, rule).Ok? ==> Rewritten(Step(env, source, acc, rule).value.rows)
    ensures Step(env, source, acc, rule).Ok? ==> acc.rows <= Step(env, source, acc, rule).value.rows
    ensures Step(env, source, acc, rule).Ok? ==> forall i ::
      |acc.rows| <= i < |Step(env, source, acc, rule).value.rows| ==>
        Step(env, source, acc, rule).value.rows[i].to == Rewrite(rule.to)
  {
    var r := Step(env, source, acc, rule);
    if r.Ok? {
      StepAdds(env, source, acc, rule);
      RewrittenExtends(acc.rows, r.value.rows, Rewrite(rule.to));
    }
  }

  /** `r` keeps the rows of `acc` and every row it adds writes to `to`. */
  predicate AddsRowsTo(acc: Acc, r: Acc, to: Target) {
    acc.rows <= r.rows && forall i :: |acc.rows| <= i < |r.rows| ==> r.rows[i].to == to
  }

  lemma RewrittenExtends(rows: seq<RowNode>, rows': seq<RowNode>, to: Target)
    requires Rewritten(rows) && rows <= rows' && TEmpty !in to
    requires forall i :: |rows| <= i < |rows'| ==> rows'[i].to == to
    ensures Rewritten(rows')
  {
    forall i | 0 <= i < |rows'|
      ensures TEmpty !in rows'[i].to
    {
      if i < |rows| {
        assert rows'[i] == rows[i];
      }
    }
  }

  lemma SingleAdds(env: Env, acc: Acc, to: Target, fn: Option<Value>, nodes: seq<Node>)
    requires fn.Some? ==> fn.value.Fn?
    ensures Single(env, acc, to, fn, nodes).Ok? ==> AddsRowsTo(acc, Single(env, acc, to, fn, nodes).value, to)
  {
    if nodes != [] && !IsCommonJs(nodes) {
      var rows := if fn.Some? then CallRows(env.call, fn.value, nodes, to) else Ok(AsRows(nodes, to));
      if rows.Ok? {
        assert Single(env, acc, to, fn, nodes) == Ok(acc.(rows := acc.rows + rows.value));
        assert forall i :: 0 <= i < |rows.value| ==> rows.value[i].to == to;
      }
    }
  }

  lemma ApplyJsAdds(acc: Acc, to: Target, o: Outcome)
    requires o.ToRows? ==> forall i :: 0 <= i < |o.rows| ==> o.rows[i].to == to
    ensures AddsRowsTo(acc, ApplyJs(acc, to, o), to)
  {
    if o.ToRows? {
      assert ApplyJs(acc, to, o).rows == acc.rows + o.rows;
    }
  }

  lemma StepAdds(env: Env, source: Value, acc: Acc, rule: Rule)
    ensures Step(env, source, acc, rule).Ok? ==> AddsRowsTo(acc, Step(env, source, acc, rule).value, Rewrite(rule.to))
  {
    var from := rule.from;
    if Truthy(from) {
      var to := Rewrite(rule.to);
      var acc' := acc.(merge := RegisterJs(acc.merge, rule.to));
      if from.Arr? {
        if from.elems != [] {
          var fn := from.elems[|from.elems| - 1];
          var args := from.elems[..|from.elems| - 1];
          if fn.Fn? && |args| == 1 {
            SingleAdds(env, acc', to, Some(fn), env.resolve(source, args[0]));
          } else if fn.Fn? && |args| > 1 {
            var o := MultiJs(env, source, to, args, fn);
            if o.Ok? {
              ApplyJsAdds(acc', to, o.value);
              assert Step(env, source, acc, rule) == Ok(ApplyJs(acc', to, o.value));
            }
          }
        }
      } else {
        SingleAdds(env, acc', to, None, env.resolve(source, from));
      }
    }
  }

  lemma {:induction false} CollectRowsRewritten(env: Env, source: Value, rules: seq<Rule>, acc: Acc)
    requires Rewritten(acc.rows)
    ensures Collect(env, source, rules, acc).Ok? ==> Rewritten(Collect(env, source, rules, acc).value.rows)
    decreases |rules|
  {
    if rules != [] {
      StepRowsRewritten(env, source, acc, rules[0]);
      if Step(env, source, acc, rules[0]).Ok? {
        CollectRowsRewritten(env, source, rules[1..], Step(env, source, acc, rules[0]).value);
      }
    }
  }

  /** A falsy source (`undefined`, `null`, `false`, `0`, `""`) is skipped and registers nothing. */
  lemma FalsySourceSkipped(env: Env, source: Value, acc: Acc, rule: Rule)
    requires !Truthy(rule.from)
    ensures Step(env, source, acc, rule) == Ok(acc)
  {
  }

  /** An empty array source is skipped without error, after its target is registered for merging. */
  lemma EmptyArraySkipped(env: Env, source: Value, acc: Acc, to: Target)
    ensures Step(env, source, acc, Rule(to, Arr([]))) == Ok(acc.(merge := RegisterJs(acc.merge, to)))
  {
  }

  /**
   * An array source whose last element is not a function throws, and so
   * does an array holding only the function.
   */
  lemma MalformedArrayThrows(env: Env, source: Value, acc: Acc, rule: Rule)
    requires rule.from.Arr? && |rule.from.elems| > 0
    ensures !rule.from.elems[|rule.from.elems| - 1].Fn? ==>
      Step(env, source, acc, rule) == Err(InvalidRule(FromLastNotFunction))
    ensures |rule.from.elems| == 1 && rule.from.elems[0].Fn? ==>
      Step(env, source, acc, rule) == Err(InvalidRule(FromNoArgument))
    ensures Step(env, source, acc, rule) == Err(InvalidRule(FromLastNotFunction))
      <==> !rule.from.elems[|rule.from.elems| - 1].Fn?
  {
    var n := |rule.from.elems|;
    if rule.from.elems[n - 1].Fn? {
      assert Step(env, source, acc, rule) != Err(InvalidRule(FromLastNotFunction)) by {
        if n == 1 {
          assert rule.from.elems[..n - 1] == [];
        }
      }
    }
  }

  // ---------------------------------------------------------------------
  // Assembly

  /** The group key, `findParentPath(path, 1)?.toString()`: `None` is the `undefined` key. */
  function KeyOf(p: Path): Option<string> {
    match FindParentPathStrict(p, 1)
    case Some(q) => Some(PathToString(q))
    case None => None
  }

  /**
   * Grouping as `src/index.js` does it: rows fold only under a level-2
   * parent that exists. (The fold writes `jp.stringify(pNode.to)`, which
   * renders the target it was given.)
   */
  const JsGrouping := Grouping((p: Path) => KeyOf(p), (p: Path) => FindParentPathStrict(p, 2))

  /**
   * The merge map, keyed by the string form of a level-2 parent, or (`None`)
   * by a freshly built path array, which no later lookup can find.
   */
  type ParentMap = OMap<Option<string>, seq<Value>>

  /** One group of the merge pass: parse its key back into a path and merge it into its level-2 parent's row. */
  function MergeEntry(to: Target, k: Option<string>, v: Value, pm: ParentMap): (r: Result<ParentMap, Error>)
    ensures k.None? <==> r == Err(TypeError(SplitOfUndefined))
    ensures r.Ok? ==> |pm| <= |r.value| <= |pm| + 1
    ensures k.Some? && FindParentPathStrict(StrToPath(k.value), 2).Some? ==>
      var key := Some(PathToString(FindParentPathStrict(StrToPath(k.value), 2).value));
      r.Ok? && MapGet(r.value, key) == Some([MergeObjArr(MapGet(pm, key).GetOr([]) + [v], to)])
      && forall j :: Some(j) != key ==> MapGet(r.value, Some(j)) == MapGet(pm, Some(j))
    ensures k.Some? && FindParentPathStrict(StrToPath(k.value), 2).None? ==> r == Ok(pm + [Entry(None, [v])])
  {
    if k.None? then Err(TypeError(SplitOfUndefined))
    else
      var indexParent := StrToPath(k.value);
      match FindParentPathStrict(indexParent, 2)
      case Some(pp) =>
        var key := Some(PathToString(pp));
        Ok(MapSet(pm, key, [MergeObjArr(MapGet(pm, key).GetOr([]) + [v], to)]))
      case None => Ok(pm + [Entry(None, [v])])
  }

  function MergeEntries(to: Target, groups: OMap<Option<string>, Value>, pm: ParentMap): Result<ParentMap, Error>
    decreases |groups|
  {
    if groups == [] then Ok(pm)
    else
      var pm' :- MergeEntry(to, groups[0].key, groups[0].val, pm);
      MergeEntries(to, groups[1..], pm')
  }

  /** The merge pass: every group, once per merge key. */
  function MergeAllJs(targets: seq<Target>, groups: OMap<Option<string>, Value>, pm: ParentMap): Result<ParentMap, Error>
    decreases |targets|
  {
    if targets == [] then Ok(pm)
    else
      var pm' :- MergeEntries(targets[0], groups, pm);
      MergeAllJs(targets[1..], groups, pm')
  }

  /** `Array.from(m.values()).flat()` over lists of objects. */
  function ConcatLists(m: ParentMap): seq<Value> {
    if m == [] then [] else m[0].val + ConcatLists(m[1..])
  }

  /** Every entry of the merge map holds exactly one (merged) object. */
  predicate OneEach(pm: ParentMap) {
    forall e :: e in pm ==> |e.val| == 1
  }

  /** The key a group is merged under, when its key has a level-2 parent. */
  function ParentKey(k: Option<string>): Option<string> {
    if k.None? then None
    else match FindParentPathStrict(StrToPath(k.value), 2)
      case Some(pp) => Some(PathToString(pp))
      case None => None
  }

  /** One merge step keeps every entry a single object and loses no key; its own parent key is then present. */
  lemma MergeEntryKeeps(to: Target, k: Option<string>, v: Value, pm: ParentMap)
    requires OneEach(pm)
    ensures MergeEntry(to, k, v, pm).Ok? ==>
      OneEach(MergeEntry(to, k, v, pm).value)
      && (forall x :: x in MapKeys(pm) ==> x in MapKeys(MergeEntry(to, k, v, pm).value))
      && (ParentKey(k).Some? ==> ParentKey(k) in MapKeys(MergeEntry(to, k, v, pm).value))
  {
    if k.Some? {
      match FindParentPathStrict(StrToPath(k.value), 2)
      case Some(pp) =>
        var key := Some(PathToString(pp));
        SetEntries(pm, key, [MergeObjArr(MapGet(pm, key).GetOr([]) + [v], to)]);
      case None =>
        AppendKeys(pm, Entry(None, [v]));
    }
  }

  /**
   * The merge of all groups for one target: every entry stays a single
   * object, and each group whose key has a level-2 parent has that
   * parent's entry.
   */
  lemma {:induction false} MergeEntriesKeeps(to: Target, groups: OMap<Option<string>, Value>, pm: ParentMap)
    requires OneEach(pm)
    ensures MergeEntries(to, groups, pm).Ok? ==>
      OneEach(MergeEntries(to, groups, pm).value)
      && (forall x :: x in MapKeys(pm) ==> x in MapKeys(MergeEntries(to, groups, pm).value))
      && (forall i :: 0 <= i < |groups| && ParentKey(groups[i].key).Some? ==>
            ParentKey(groups[i].key) in MapKeys(MergeEntries(to, groups, pm).value))
    decreases |groups|
  {
    if groups != [] {
      MergeEntryKeeps(to, groups[0].key, groups[0].val, pm);
      var step := MergeEntry(to, groups[0].key, groups[0].val, pm);
      if step.Ok? {
        MergeEntriesKeeps(to, groups[1..], step.value);
        assert forall i :: 1 <= i < |groups| ==> groups[i] == groups[1..][i - 1];
      }
    }
  }

  /** The whole merge pass keeps every entry a single object and gives every such group its parent's entry. */
  lemma {:induction false} MergeAllJsKeeps(targets: seq<Target>, groups: OMap<Option<string>, Value>, pm: ParentMap)
    requires OneEach(pm)
    ensures MergeAllJs(targets, groups, pm).Ok? ==>
      OneEach(MergeAllJs(targets, groups, pm).value)
      && (targets != [] ==> forall i :: 0 <= i < |groups| && ParentKey(groups[i].key).Some? ==>
            ParentKey(groups[i].key) in MapKeys(MergeAllJs(targets, groups, pm).value))
    decreases |targets|
  {
    if targets != [] {
      MergeEntriesKeeps(targets[0], groups, pm);
      var step := MergeEntries(targets[0], groups, pm);
      if step.Ok? {
        MergeAllJsKeeps(targets[1..], groups, step.value);
        if targets[1..] != [] {
          MergeAllJsKeys(targets[1..], groups, step.value);
        }
      }
    }
  }

  /** Later merges lose no key. */
  lemma {:induction false} MergeAllJsKeys(targets: seq<Target>, groups: OMap<Option<string>, Value>, pm: ParentMap)
    requires OneEach(pm)
    ensures MergeAllJs(targets, groups, pm).Ok? ==>
      forall x :: x in MapKeys(pm) ==> x in MapKeys(MergeAllJs(targets, groups, pm).value)
    decreases |targets|
  {
    if targets != [] {
      MergeEntriesKeeps(targets[0], groups, pm);
      var step := MergeEntries(targets[0], groups, pm);
      if step.Ok? {
        MergeAllJsKeys(targets[1..], groups, step.value);
      }
    }
  }

  /** Flattening a map of single objects gives one row per entry, in order. */
  lemma {:induction false} ConcatOneEach(pm: ParentMap)
    requires OneEach(pm)
    ensures ConcatLists(pm) == seq(|pm|, i requires 0 <= i < |pm| => pm[i].val[0])
  {
    if pm != [] {
      assert pm[0] in pm;
      assert OneEach(pm[1..]) by {
        forall e | e in pm[1..] ensures |e.val| == 1 {
          assert e in pm;
        }
      }
      ConcatOneEach(pm[1..]);
    }
  }

  /** Everything after the rule loop: sort, group, overlay, merge, flatten. */
  function Assemble(acc: Acc): (r: Result<seq<Value>, Error>)
    ensures acc.rows == [] ==> r == Ok(if KeyCount(acc.common) > 0 then [acc.common] else [])
    ensures acc.merge == [] ==> r.Ok?
  {
    var sorted := SortByDepth(acc.rows);
    assert |sorted| == |acc.rows| by {
      assert |multiset(sorted)| == |multiset(acc.rows)|;
    }
    GroupsIffRows(JsGrouping, sorted);
    var groups := Group(JsGrouping, sorted);
    if groups == [] then Ok(if KeyCount(acc.common) > 0 then [acc.common] else [])
    else
      var groups := OverlayAll(groups, acc.common);
      if acc.merge == [] then Ok(FlatElems(MapValues(groups)))
      else
        var pm :- MergeAllJs(acc.merge, groups, []);
        Ok(ConcatLists(pm))
  }

  /**
   * With no row-scoped nodes the result is the common properties alone,
   * or nothing when there are none; with some, there is at least one group.
   */
  lemma NoRowsResult(acc: Acc)
    ensures acc.rows == [] ==>
      Assemble(acc) == Ok(if KeyCount(acc.common) > 0 then [acc.common] else [])
    ensures acc.rows != [] ==> Group(JsGrouping, SortByDepth(acc.rows)) != []
  {
    var sorted := SortByDepth(acc.rows);
    assert |sorted| == |acc.rows| by {
      assert |multiset(sorted)| == |multiset(acc.rows)|;
    }
    GroupsIffRows(JsGrouping, sorted);
  }

  /**
   * With merge targets, the result has one row per entry of the merge map,
   * and every group whose key has a level-2 parent is merged into that
   * parent's row.
   */
  lemma MergedRows(acc: Acc)
    requires acc.merge != []
    ensures
      var groups := OverlayAll(Group(JsGrouping, SortByDepth(acc.rows)), acc.common);
      var merged := MergeAllJs(acc.merge, groups, []);
      Group(JsGrouping, SortByDepth(acc.rows)) != [] && merged.Ok? ==>
        OneEach(merged.value)
        && Assemble(acc) == Ok(seq(|merged.value|, i requires 0 <= i < |merged.value| => merged.value[i].val[0]))
        && forall i :: 0 <= i < |groups| && ParentKey(groups[i].key).Some? ==>
             ParentKey(groups[i].key) in MapKeys(merged.value)
  {
    var groups := OverlayAll(Group(JsGrouping, SortByDepth(acc.rows)), acc.common);
    MergeAllJsKeeps(acc.merge, groups, []);
    var merged := MergeAllJs(acc.merge, groups, []);
    if Group(JsGrouping, SortByDepth(acc.rows)) != [] && merged.Ok? {
      ConcatOneEach(merged.value);
    }
  }

  /** `mapObj` of `src/index.js`. */
  function MapObj(env: Env, source: Value, rules: seq<Rule>): (r: Result<seq<Value>, Error>)
    ensures Collect(env, source, rules, Start).Err? ==> r == Err(Collect(env, source, rules, Start).error)
    ensures Collect(env, source, rules, Start).Ok? && Collect(env, source, rules, Start).value.rows == [] ==>
      var common := Collect(env, source, rules, Start).value.common;
      r == Ok(if KeyCount(common) > 0 then [common] else [])
  {
    var acc :- Collect(env, source, rules, Start);
    Assemble(acc)
  }

  function OnSource(env: Env, rules: seq<Rule>): Value -> Result<seq<Value>, Error> {
    source => MapObj(env, source, rules)
  }

  /** `mapObjArr` of `src/index.js`. */
  method MapObjArr(env: Env, sources: seq<Value>, rules: seq<Rule>) returns (r: Result<seq<Value>, Error>)
    ensures r == Batch.Outcome(OnSource(env, rules), sources)
  {
    r := Batch.ForEachSource(OnSource(env, rules), sources);
  }
}
