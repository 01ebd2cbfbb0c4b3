/** Properties of the `src/main.ts` engine as a whole. */
module EngineLaws {
  import opened Wrappers
  import opened Values
  import opened Paths
  import opened Validators
  import opened Targets
  import opened OrderedMaps
  import opened Rows
  import opened Engine

  /** Running the rule loop over two lists is running it over the first, then the second. */
  lemma {:induction false} CollectAppend(env: Env, source: Value, r1: seq<Rule>, r2: seq<Rule>, acc: Acc)
    ensures Collect(env, source, r1 + r2, acc) ==
      match Collect(env, source, r1, acc)
      case Ok(mid) => Collect(env, source, r2, mid)
      case Err(e) => Err(e)
    decreases |r1|
  {
    if r1 == [] {
      assert r1 + r2 == r2;
    } else {
      assert (r1 + r2)[0] == r1[0];
      assert (r1 + r2)[1..] == r1[1..] + r2;
      match Step(env, source, acc, r1[0])
      case Err(e) =>
      case Ok(a) => CollectAppend(env, source, r1[1..], r2, a);
    }
  }

  /** A rule whose source is `undefined` is skipped, wherever it stands in the mapping. */
  lemma UndefinedRuleIsSkipped(env: Env, source: Value, before: seq<Rule>, to: Target, after: seq<Rule>)
    ensures Collect(env, source, before + [Rule(to, Undefined)] + after, Start)
         == Collect(env, source, before + after, Start)
  {
    CollectAppend(env, source, before + [Rule(to, Undefined)], after, Start);
    CollectAppend(env, source, before, [Rule(to, Undefined)], Start);
    CollectAppend(env, source, before, after, Start);
  }

  /** A literal source (neither a path string nor an array headed by one) is written verbatim into the common properties. */
  lemma LiteralGoesToCommon(env: Env, source: Value, acc: Acc, to: Target, lit: Value)
    requires lit != Undefined && !IsStrPath(lit) && !IsArrPath(lit)
    ensures Step(env, source, acc, Rule(to, lit)).Ok?
    ensures Step(env, source, acc, Rule(to, lit)).value.common == AddProp(acc.common, to, lit)
    ensures Step(env, source, acc, Rule(to, lit)).value.rows == acc.rows
  {
  }

  /** With a target of property names, the literal can be read back at that path of the common properties. */
  lemma LiteralReadsBack(env: Env, source: Value, acc: Acc, to: Target, lit: Value)
    requires lit != Undefined && !IsStrPath(lit) && !IsArrPath(lit)
    requires NamesOnly(to) && Settable(acc.common, Concrete(to))
    ensures Get(Step(env, source, acc, Rule(to, lit)).value.common, Concrete(to)) == lit
  {
    AddPropNamesOnly(acc.common, to, lit);
  }

  /** A path rule that matches nothing changes neither the common properties nor the rows. */
  lemma UnmatchedPathChangesNothing(env: Env, source: Value, acc: Acc, to: Target, from: Value)
    requires IsStrPath(from) && env.resolve(source, from) == []
    ensures Step(env, source, acc, Rule(to, from)).Ok?
    ensures var acc' := Step(env, source, acc, Rule(to, from)).value;
      acc'.common == acc.common && acc'.rows == acc.rows
      && acc'.merge == if HasBrackets(to) then AddTarget(acc.merge, to) else acc.merge
  {
  }

  /**
   * A path rule that matches something: a common match writes the first
   * node's value at the target of the common properties, any other match
   * appends one row per node, carrying its value and path, and nothing else
   * changes.
   */
  lemma PathMatched(env: Env, source: Value, acc: Acc, to: Target, from: Value)
    requires IsStrPath(from) && env.resolve(source, from) != []
    ensures var nodes := env.resolve(source, from);
      var r := Step(env, source, acc, Rule(to, from));
      r.Ok?
      && r.value.merge == (if HasBrackets(to) then AddTarget(acc.merge, to) else acc.merge)
      && (IsCommonProp(nodes) ==>
            r.value.common == AddProp(acc.common, to, nodes[0].value) && r.value.rows == acc.rows)
      && (!IsCommonProp(nodes) ==>
            r.value.common == acc.common && r.value.rows == acc.rows + AsRows(nodes, to))
  {
  }

  /**
   * A path-and-transform rule that matches something: a common match
   * writes the transformed first value into the common properties, any
   * other match appends the transformed rows; a failing transform is the
   * step's error.
   */
  lemma TransformMatched(env: Env, source: Value, acc: Acc, to: Target, from: Value)
    requires from.Arr? && |from.elems| == 2 && IsArrPath(from)
    requires env.resolve(source, from.elems[0]) != []
    ensures var nodes := env.resolve(source, from.elems[0]);
      var fn := from.elems[1];
      var r := Step(env, source, acc, Rule(to, from));
      var v := ComputeFunction(env.call, fn, [nodes[0].value]);
      IsCommonProp(nodes) ==>
        (v.Err? ==> r == Err(v.error))
        && (v.Ok? ==> r.Ok? && r.value.common == AddProp(acc.common, to, v.value) && r.value.rows == acc.rows)
    ensures var nodes := env.resolve(source, from.elems[0]);
      var fn := from.elems[1];
      var r := Step(env, source, acc, Rule(to, from));
      var rows := TransformRows(env.call, fn, nodes, to);
      !IsCommonProp(nodes) ==>
        (rows.Err? ==> r == Err(rows.error))
        && (rows.Ok? ==> r.Ok? && r.value.common == acc.common && r.value.rows == acc.rows + rows.value)
  {
  }

  lemma {:induction false} SortEmpty(rows: seq<RowNode>)
    requires rows == []
    ensures SortByDepth(rows) == []
  {
    var r := SortByDepth(rows);
    assert |multiset(r)| == 0;
  }

  lemma {:induction false} MergeAllNoRows(targets: seq<Target>, st: MergeState)
    ensures MergeAll(targets, [], st) == st
    decreases |targets|
  {
    if targets != [] {
      MergeAllNoRows(targets[1..], st);
    }
  }

  /** Without row-scoped nodes the result is the common properties alone, or nothing when there are none. */
  lemma NoRowsResult(acc: Acc)
    requires acc.rows == []
    ensures Assemble(acc) == if KeyCount(acc.common) > 0 then [acc.common] else []
  {
    SortEmpty(acc.rows);
    assert RowGroups([]) == [];
    MergeAllNoRows(acc.merge, MergeState([], []));
  }

  // ---------------------------------------------------------------------
  // Every row carries the common properties

  /** Every value of the map is an object. */
  predicate AllObj<K>(m: OMap<K, Value>) {
    forall i :: 0 <= i < |m| ==> m[i].val.Obj?
  }

  lemma {:induction false} QueryElemsPaths(es: seq<Value>, i: nat, rest: Target)
    requires i <= |es|
    ensures forall j :: 0 <= j < |QueryElems(es, i, rest)| ==> |QueryElems(es, i, rest)[j].path| > 0
    decreases |es| - i
  {
    if i < |es| {
      QueryElemsPaths(es, i + 1, rest);
    }
  }

  lemma {:induction false} QueryFieldsPaths(fs: seq<Field>, rest: Target)
    ensures forall j :: 0 <= j < |QueryFields(fs, rest)| ==> |QueryFields(fs, rest)[j].path| > 0
    decreases |fs|
  {
    if fs != [] {
      QueryFieldsPaths(fs[1..], rest);
    }
  }

  /** A match of a non-empty target lies strictly below the root. */
  lemma QueryPathsNonEmpty(v: Value, t: Target)
    requires t != []
    ensures forall j :: 0 <= j < |Query(v, t)| ==> |Query(v, t)[j].path| > 0
  {
    match t[0]
    case TStar =>
      if v.Arr? { QueryElemsPaths(v.elems, 0, t[1..]); }
      else if v.Obj? { QueryFieldsPaths(v.fields, t[1..]); }
    case _ =>
  }

  /** Writing below the root of an object leaves an object. */
  lemma AddPropKeepsObj(obj: Value, t: Target, v: Value)
    requires obj.Obj? && t != []
    ensures AddProp(obj, t, v).Obj?
  {
    var t1 := ReplaceEmpty(t, TIdx(0));
    var t' := if Query(obj, t1) == [] then ReplaceLastStar(t1) else t1;
    QueryPathsNonEmpty(obj, t');
    var ms := Query(obj, t');
    var p := if ms != [] then ms[0].path else Concrete(t');
    assert p != [];
    assert AddProp(obj, t, v) == DeepSet(obj, p, v);
  }

  lemma {:induction false} AddAllKeepsObj(obj: Value, rows: seq<RowNode>)
    requires obj.Obj? && forall j :: 0 <= j < |rows| ==> rows[j].to != []
    ensures AddAll(obj, rows).Obj?
    decreases |rows|
  {
    if rows != [] {
      AddPropKeepsObj(obj, rows[0].to, rows[0].value);
      AddAllKeepsObj(AddProp(obj, rows[0].to, rows[0].value), rows[1..]);
    }
  }

  lemma SetKeepsAllObj<K(!new)>(m: OMap<K, Value>, k: K, v: Value)
    requires AllObj(m) && v.Obj?
    ensures AllObj(MapSet(m, k, v))
  {
    var r := MapSet(m, k, v);
    SetEntries(m, k, v);
    forall i | 0 <= i < |r|
      ensures r[i].val.Obj?
    {
      assert r[i] in r;
      if r[i] != Entry(k, v) {
        var j :| 0 <= j < |m| && m[j] == r[i];
      }
    }
  }

  lemma GetOfAllObj<K(!new)>(m: OMap<K, Value>, k: K)
    requires AllObj(m)
    ensures MapGet(m, k).GetOr(Obj([])).Obj?
  {
    if MapGet(m, k).Some? {
      var j :| 0 <= j < |m| && m[j] == Entry(k, MapGet(m, k).value);
    }
  }

  /** When every row has a non-empty target, every group is an object. */
  lemma {:induction false} GroupFromAllObj<K(!new)>(g: Grouping<K>, rows: seq<RowNode>, i: nat, ignored: seq<bool>, m: OMap<K, Value>)
    requires |ignored| == |rows| && i <= |rows|
    requires AllObj(m) && Avoids(rows, [])
    ensures AllObj(GroupFrom(g, rows, i, ignored, m))
    decreases |rows| - i
  {
    if i < |rows| && !ignored[i] {
      var node := rows[i];
      var key := g.keyOf(node.path);
      GetOfAllObj(m, key);
      var obj := AddProp(MapGet(m, key).GetOr(Obj([])), node.to, node.value);
      AddPropKeepsObj(MapGet(m, key).GetOr(Obj([])), node.to, node.value);
      match g.parentOf(node.path)
      case None =>
        SetKeepsAllObj(m, key, obj);
        GroupFromAllObj(g, rows, i + 1, ignored, MapSet(m, key, obj));
      case Some(parent) =>
        var depth := |node.path|;
        GatherKeepsAllObj(m, key, obj, rows, parent, depth);
        GroupFromAllObj(g, rows, i + 1, Mark(ignored, rows, parent, depth),
          MapSet(m, key, AddAll(obj, Gathered(rows, parent, depth))));
    } else if i < |rows| {
      GroupFromAllObj(g, rows, i + 1, ignored, m);
    }
  }

  lemma GatherKeepsAllObj<K(!new)>(m: OMap<K, Value>, key: K, obj: Value, rows: seq<RowNode>, parent: Path, depth: nat)
    requires AllObj(m) && obj.Obj? && Avoids(rows, [])
    ensures AllObj(MapSet(m, key, AddAll(obj, Gathered(rows, parent, depth))))
  {
    var gathered := Gathered(rows, parent, depth);
    forall j | 0 <= j < |gathered|
      ensures gathered[j].to != []
    {
      assert gathered[j] in gathered;
    }
    AddAllKeepsObj(obj, gathered);
    SetKeepsAllObj(m, key, AddAll(obj, gathered));
  }

  lemma {:induction false} FlatOfObjs(vs: seq<Value>)
    requires forall i :: 0 <= i < |vs| ==> vs[i].Obj?
    ensures FlatElems(vs) == vs
  {
    if vs != [] {
      FlatOfObjs(vs[1..]);
    }
  }

  lemma KeyedIsNonEmpty(common: Value, k: string)
    requires common.Obj? && k in Keys(common.fields)
    ensures KeyCount(common) > 0
  {
  }

  lemma SortedTargets(rows: seq<RowNode>)
    requires forall j :: 0 <= j < |rows| ==> rows[j].to != []
    ensures forall j :: 0 <= j < |SortByDepth(rows)| ==> SortByDepth(rows)[j].to != []
  {
    var sorted := SortByDepth(rows);
    forall j | 0 <= j < |sorted|
      ensures sorted[j].to != []
    {
      assert sorted[j] in multiset(sorted);
      assert sorted[j] in multiset(rows);
      var x :| 0 <= x < |rows| && rows[x] == sorted[j];
    }
  }

  lemma OverlayCarries(groups: OMap<string, Value>, common: seq<Field>, k: string)
    requires AllObj(groups) && UniqueKeys(common) && k in Keys(common)
    ensures forall v :: v in MapValues(OverlayAll(groups, Obj(common))) ==> v.Obj? && Lookup(v.fields, k) == Lookup(common, k)
    ensures FlatElems(MapValues(OverlayAll(groups, Obj(common)))) == MapValues(OverlayAll(groups, Obj(common)))
  {
    var over := OverlayAll(groups, Obj(common));
    forall i | 0 <= i < |over|
      ensures over[i].val.Obj? && Lookup(over[i].val.fields, k) == Lookup(common, k)
    {
      AssignOverlays(groups[i].val.fields, common, k);
    }
    FlatOfObjs(MapValues(over));
  }

  lemma AssembleOverlaid(acc: Acc)
    requires acc.merge == [] && KeyCount(acc.common) > 0 && RowGroups(SortByDepth(acc.rows)) != []
    ensures Assemble(acc) == FlatElems(MapValues(OverlayAll(RowGroups(SortByDepth(acc.rows)), acc.common)))
  {
  }

  lemma AssembleNoGroups(acc: Acc)
    requires KeyCount(acc.common) > 0 && RowGroups(SortByDepth(acc.rows)) == []
    ensures Assemble(acc) == [acc.common]
  {
  }

  /** The case with at least one group: the groups are objects and each receives the common properties. */
  lemma GroupedRowsGetCommon(acc: Acc, k: string)
    requires acc.merge == [] && acc.common.Obj? && UniqueKeys(acc.common.fields)
    requires k in Keys(acc.common.fields) && RowGroups(SortByDepth(acc.rows)) != []
    requires AllObj(RowGroups(SortByDepth(acc.rows)))
    ensures forall v :: v in Assemble(acc) ==> v.Obj? && Lookup(v.fields, k) == Lookup(acc.common.fields, k)
  {
    KeyedIsNonEmpty(acc.common, k);
    AssembleOverlaid(acc);
    OverlayCarries(RowGroups(SortByDepth(acc.rows)), acc.common.fields, k);
  }

  /** Grouping rows whose targets are non-empty yields only objects. */
  lemma RowGroupsAllObj(rows: seq<RowNode>)
    requires forall j :: 0 <= j < |rows| ==> rows[j].to != []
    ensures AllObj(RowGroups(SortByDepth(rows)))
  {
    SortedTargets(rows);
    var sorted := SortByDepth(rows);
    GroupFromAllObj(MainGrouping, sorted, 0, seq(|sorted|, _ => false), []);
  }

  /**
   * Without `[]` targets to merge, every object of the result holds each
   * common property with the common value.
   */
  lemma EveryRowGetsCommon(acc: Acc, k: string)
    requires acc.merge == [] && acc.common.Obj? && UniqueKeys(acc.common.fields)
    requires k in Keys(acc.common.fields)
    requires forall j :: 0 <= j < |acc.rows| ==> acc.rows[j].to != []
    ensures forall v :: v in Assemble(acc) ==> v.Obj? && Lookup(v.fields, k) == Lookup(acc.common.fields, k)
  {
    if RowGroups(SortByDepth(acc.rows)) != [] {
      RowGroupsAllObj(acc.rows);
      GroupedRowsGetCommon(acc, k);
    } else {
      KeyedIsNonEmpty(acc.common, k);
      AssembleNoGroups(acc);
    }
  }

  // ---------------------------------------------------------------------
  // A rule that finds nothing contributes nothing

  /** The `propsToMerge` registration a rule performs before it is resolved. */
  function Register(merge: seq<Target>, rule: Rule): (r: seq<Target>)
    ensures merge <= r
  {
    if rule.from != Undefined && HasBrackets(rule.to) then AddTarget(merge, rule.to) else merge
  }

  function RegisterAll(merge: seq<Target>, rules: seq<Rule>): seq<Target>
    decreases |rules|
  {
    if rules == [] then merge else RegisterAll(Register(merge, rules[0]), rules[1..])
  }

  function WithMerge(r: Result<Acc, Error>, merge: seq<Target>): Result<Acc, Error> {
    if r.Ok? then Ok(r.value.(merge := merge)) else r
  }

  /**
   * Resolving a rule does not depend on the targets registered so far: it
   * registers its own target and otherwise only extends the common
   * properties and the rows.
   */
  lemma StepIgnoresMerge(env: Env, source: Value, acc: Acc, rule: Rule, merge: seq<Target>)
    ensures Step(env, source, acc, rule).Ok? ==> Step(env, source, acc, rule).value.merge == Register(acc.merge, rule)
    ensures Step(env, source, acc.(merge := merge), rule) == WithMerge(Step(env, source, acc, rule), Register(merge, rule))
  {
    if rule.from != Undefined && IsStrPath(rule.from) {
      StrIgnoresMerge(env, source, acc, rule, merge);
    } else if rule.from != Undefined && IsArrPath(rule.from) {
      ArrIgnoresMerge(env, source, acc, rule, merge);
    } else {
      LiteralIgnoresMerge(env, source, acc, rule, merge);
    }
  }

  /** `StepIgnoresMerge` for a string path. */
  lemma StrIgnoresMerge(env: Env, source: Value, acc: Acc, rule: Rule, merge: seq<Target>)
    requires rule.from != Undefined && IsStrPath(rule.from)
    ensures Step(env, source, acc, rule).Ok? ==> Step(env, source, acc, rule).value.merge == Register(acc.merge, rule)
    ensures Step(env, source, acc.(merge := merge), rule) == WithMerge(Step(env, source, acc, rule), Register(merge, rule))
  {
  }

  /** `StepIgnoresMerge` for a path array with a function. */
  lemma ArrIgnoresMerge(env: Env, source: Value, acc: Acc, rule: Rule, merge: seq<Target>)
    requires rule.from != Undefined && !IsStrPath(rule.from) && IsArrPath(rule.from)
    ensures Step(env, source, acc, rule).Ok? ==> Step(env, source, acc, rule).value.merge == Register(acc.merge, rule)
    ensures Step(env, source, acc.(merge := merge), rule) == WithMerge(Step(env, source, acc, rule), Register(merge, rule))
  {
  }

  /** `StepIgnoresMerge` for `undefined` and for a literal. */
  lemma LiteralIgnoresMerge(env: Env, source: Value, acc: Acc, rule: Rule, merge: seq<Target>)
    requires rule.from == Undefined || !(IsStrPath(rule.from) || IsArrPath(rule.from))
    ensures Step(env, source, acc, rule).Ok? ==> Step(env, source, acc, rule).value.merge == Register(acc.merge, rule)
    ensures Step(env, source, acc.(merge := merge), rule) == WithMerge(Step(env, source, acc, rule), Register(merge, rule))
  {
  }

  lemma {:induction false} CollectIgnoresMerge(env: Env, source: Value, rules: seq<Rule>, acc: Acc, merge: seq<Target>)
    ensures Collect(env, source, rules, acc).Ok? ==> Collect(env, source, rules, acc).value.merge == RegisterAll(acc.merge, rules)
    ensures Collect(env, source, rules, acc.(merge := merge)) == WithMerge(Collect(env, source, rules, acc), RegisterAll(merge, rules))
    decreases |rules|
  {
    if rules != [] {
      StepIgnoresMerge(env, source, acc, rules[0], merge);
      match Step(env, source, acc, rules[0])
      case Err(_) =>
      case Ok(a) =>
        CollectIgnoresMerge(env, source, rules[1..], a, Register(merge, rules[0]));
    }
  }

  /** The merge targets other than `t`, in order. */
  function Without(ts: seq<Target>, t: Target): (r: seq<Target>)
    ensures forall u :: u in r <==> u in ts && u != t
  {
    if ts == [] then [] else (if ts[0] == t then [] else [ts[0]]) + Without(ts[1..], t)
  }

  lemma {:induction false} WithoutAppend(ts: seq<Target>, u: Target, t: Target)
    ensures Without(ts + [u], t) == Without(ts, t) + (if u == t then [] else [u])
  {
    if ts != [] {
      assert (ts + [u])[1..] == ts[1..] + [u];
      WithoutAppend(ts[1..], u, t);
    }
  }

  /** Registering a target other than `t` keeps two registrations that agree away from `t` in agreement. */
  lemma RegisterKeepsAgreement(m1: seq<Target>, m2: seq<Target>, rule: Rule, t: Target)
    requires Without(m1, t) == Without(m2, t) && rule.to != t
    ensures Without(Register(m1, rule), t) == Without(Register(m2, rule), t)
  {
    WithoutAppend(m1, rule.to, t);
    WithoutAppend(m2, rule.to, t);
    assert rule.to in m1 <==> rule.to in Without(m1, t);
    assert rule.to in m2 <==> rule.to in Without(m2, t);
  }

  lemma {:induction false} RegisterAllKeepsAgreement(m1: seq<Target>, m2: seq<Target>, rules: seq<Rule>, t: Target)
    requires Without(m1, t) == Without(m2, t)
    requires forall i :: 0 <= i < |rules| ==> rules[i].to != t
    ensures Without(RegisterAll(m1, rules), t) == Without(RegisterAll(m2, rules), t)
    decreases |rules|
  {
    if rules != [] {
      RegisterKeepsAgreement(m1, m2, rules[0], t);
      RegisterAllKeepsAgreement(Register(m1, rules[0]), Register(m2, rules[0]), rules[1..], t);
    }
  }

  /** Registering a rule's own target changes nothing away from that target. */
  lemma RegisterOwn(m: seq<Target>, rule: Rule)
    ensures Without(Register(m, rule), rule.to) == Without(m, rule.to)
  {
    WithoutAppend(m, rule.to, rule.to);
  }

  lemma {:induction false} MergeRowsUnused(to: Target, rows: seq<RowNode>, st: MergeState)
    requires forall j :: 0 <= j < |rows| ==> rows[j].to != to
    ensures MergeRows(to, rows, st) == st
    decreases |rows|
  {
    if rows != [] {
      MergeRowsUnused(to, rows[1..], st);
    }
  }

  /** A merge target no row carries can be dropped from the merge pass. */
  lemma {:induction false} MergeAllUnused(targets: seq<Target>, rows: seq<RowNode>, st: MergeState, t: Target)
    requires forall j :: 0 <= j < |rows| ==> rows[j].to != t
    ensures MergeAll(targets, rows, st) == MergeAll(Without(targets, t), rows, st)
    decreases |targets|
  {
    if targets != [] {
      var rest := Without(targets[1..], t);
      if targets[0] == t {
        MergeRowsUnused(t, rows, st);
        MergeAllUnused(targets[1..], rows, st, t);
        assert Without(targets, t) == rest;
      } else {
        MergeAllUnused(targets[1..], rows, MergeRows(targets[0], rows, st), t);
        assert Without(targets, t) == [targets[0]] + rest;
        assert ([targets[0]] + rest)[1..] == rest;
      }
    }
  }

  /**
   * The merge pass on a top-level `k[]` target: the first group filed
   * under a level-2 parent becomes its merged row, and each later group
   * appends its `k` elements after the elements merged there before.
   */
  lemma MergeNodeAppends(k: string, node: RowNode, st: MergeState)
    requires MapGet(st.groups, PathToString(FindParentPath(node.path, 1))).Some?
    requires MapGet(st.groups, PathToString(FindParentPath(node.path, 1))).value.Obj?
    requires var held := Held(st.parents, PathToString(FindParentPath(node.path, 2)));
      held == [] || (|held| == 1 && held[0].Obj?)
    ensures var found := MapGet(st.groups, PathToString(FindParentPath(node.path, 1))).value;
      var newKey := PathToString(FindParentPath(node.path, 2));
      var held := Held(st.parents, newKey);
      var first := if held == [] then found else held[0];
      var before := if held == [] then [] else ElemsOf(held[0], k);
      MapGet(MergeNode([TKey(k), TEmpty], node, st).parents, newKey)
        == Some(Arr([Obj(Put(first.fields, k, Arr(before + ElemsOf(found, k))))]))
  {
    var found := MapGet(st.groups, PathToString(FindParentPath(node.path, 1))).value;
    var held := Held(st.parents, PathToString(FindParentPath(node.path, 2)));
    MergeOneMore(held, found, k);
  }

  lemma SortedAvoids(rows: seq<RowNode>, t: Target)
    requires forall j :: 0 <= j < |rows| ==> rows[j].to != t
    ensures forall j :: 0 <= j < |SortByDepth(rows)| ==> SortByDepth(rows)[j].to != t
  {
    var sorted := SortByDepth(rows);
    forall j | 0 <= j < |sorted|
      ensures sorted[j].to != t
    {
      assert sorted[j] in multiset(sorted);
      assert sorted[j] in multiset(rows);
      var x :| 0 <= x < |rows| && rows[x] == sorted[j];
    }
  }

  lemma AssembleUnfold(acc: Acc)
    ensures var groups := RowGroups(SortByDepth(acc.rows));
      var over := if KeyCount(acc.common) > 0 then OverlayAll(groups, acc.common) else groups;
      Assemble(acc) ==
        if KeyCount(acc.common) > 0 && groups == [] then [acc.common]
        else if acc.merge == [] then FlatElems(MapValues(over))
        else
          var st := MergeAll(acc.merge, SortByDepth(acc.rows), MergeState([], over));
          FlatElems(MapValues(MapSetAll(st.parents, st.groups)))
  {
  }

  /** A registered merge target that no row carries does not change the result. */
  lemma AssembleIgnoresUnused(acc: Acc, merge: seq<Target>, t: Target)
    requires forall j :: 0 <= j < |acc.rows| ==> acc.rows[j].to != t
    requires Without(merge, t) == Without(acc.merge, t)
    ensures Assemble(acc.(merge := merge)) == Assemble(acc)
  {
    var acc' := acc.(merge := merge);
    var rows := SortByDepth(acc.rows);
    var groups := RowGroups(rows);
    var over := if KeyCount(acc.common) > 0 then OverlayAll(groups, acc.common) else groups;
    SortedAvoids(acc.rows, t);
    AssembleUnfold(acc);
    AssembleUnfold(acc');
    MergeAllUnused(merge, rows, MergeState([], over), t);
    MergeAllUnused(acc.merge, rows, MergeState([], over), t);
    MergeAllNoRows([], MergeState([], over));
    if KeyCount(acc.common) > 0 {
      OverlayUnique(groups, acc.common);
    }
    SetAllIntoEmpty(over);
    if merge != [] && acc.merge == [] {
      assert Without(merge, t) == [];
    }
    if merge == [] && acc.merge != [] {
      assert Without(acc.merge, t) == [];
    }
  }

  lemma OverlayUnique(groups: OMap<string, Value>, common: Value)
    requires UniqueMapKeys(groups)
    ensures UniqueMapKeys(OverlayAll(groups, common))
  {
    SameKeysUnique(OverlayAll(groups, common), groups);
  }

  /** No row writes to target `t`. */
  predicate Avoids(rows: seq<RowNode>, t: Target) {
    forall j :: 0 <= j < |rows| ==> rows[j].to != t
  }

  /** Every row a rule adds carries that rule's target. */
  lemma StepRowTargets(env: Env, source: Value, acc: Acc, rule: Rule, t: Target)
    requires Avoids(acc.rows, t)
    requires rule.to != t
    ensures Step(env, source, acc, rule).Ok? ==> Avoids(Step(env, source, acc, rule).value.rows, t)
  {
    var from := rule.from;
    if from != Undefined && IsStrPath(from) {
      StrRowTargets(env, source, acc, rule, t);
    } else if from != Undefined && IsArrPath(from) && |from.elems| == 2 {
      PairRowTargets(env, source, acc, rule, t);
    } else if from != Undefined && IsArrPath(from) && |from.elems| > 2 {
      MultiRowTargets(env, source, acc, rule, t);
    }
  }

  lemma StrRowTargets(env: Env, source: Value, acc: Acc, rule: Rule, t: Target)
    requires Avoids(acc.rows, t) && rule.to != t
    requires rule.from != Undefined && IsStrPath(rule.from)
    ensures Step(env, source, acc, rule).Ok? ==> Avoids(Step(env, source, acc, rule).value.rows, t)
  {
    var r := Step(env, source, acc, rule);
    var nodes := env.resolve(source, rule.from);
    if nodes != [] && !IsCommonProp(nodes) {
      assert r.value.rows == acc.rows + AsRows(nodes, rule.to);
      assert Avoids(AsRows(nodes, rule.to), t);
      AppendAvoids(acc.rows, AsRows(nodes, rule.to), t);
    }
  }

  lemma PairRowTargets(env: Env, source: Value, acc: Acc, rule: Rule, t: Target)
    requires Avoids(acc.rows, t) && rule.to != t
    requires rule.from != Undefined && !IsStrPath(rule.from) && IsArrPath(rule.from) && |rule.from.elems| == 2
    ensures Step(env, source, acc, rule).Ok? ==> Avoids(Step(env, source, acc, rule).value.rows, t)
  {
    var r := Step(env, source, acc, rule);
    var nodes := env.resolve(source, rule.from.elems[0]);
    if r.Ok? && nodes != [] && !IsCommonProp(nodes) {
      var rows := TransformRows(env.call, rule.from.elems[1], nodes, rule.to);
      assert rows.Ok? && r.value.rows == acc.rows + rows.value;
      assert Avoids(rows.value, t);
      AppendAvoids(acc.rows, rows.value, t);
    }
  }

  lemma MultiRowTargets(env: Env, source: Value, acc: Acc, rule: Rule, t: Target)
    requires Avoids(acc.rows, t) && rule.to != t
    requires rule.from != Undefined && !IsStrPath(rule.from) && IsArrPath(rule.from) && |rule.from.elems| > 2
    ensures Step(env, source, acc, rule).Ok? ==> Avoids(Step(env, source, acc, rule).value.rows, t)
  {
    var r := Step(env, source, acc, rule);
    var from := rule.from;
    if r.Ok? {
      var o := Multi(env, source, rule.to, from.elems[..|from.elems| - 1], from.elems[|from.elems| - 1]);
      assert o.Ok?;
      if o.value.ToRows? {
        assert r.value.rows == acc.rows + o.value.rows;
        assert Avoids(o.value.rows, t);
        AppendAvoids(acc.rows, o.value.rows, t);
      }
    }
  }

  lemma AppendAvoids(a: seq<RowNode>, b: seq<RowNode>, t: Target)
    requires Avoids(a, t) && Avoids(b, t)
    ensures Avoids(a + b, t)
  {
    assert forall j :: 0 <= j < |a + b| ==> (a + b)[j] == if j < |a| then a[j] else b[j - |a|];
  }

  lemma {:induction false} CollectRowTargets(env: Env, source: Value, rules: seq<Rule>, acc: Acc, t: Target)
    requires Avoids(acc.rows, t)
    requires forall i :: 0 <= i < |rules| ==> rules[i].to != t
    ensures Collect(env, source, rules, acc).Ok? ==> Avoids(Collect(env, source, rules, acc).value.rows, t)
    decreases |rules|
  {
    if rules != [] {
      StepRowTargets(env, source, acc, rules[0], t);
      if Step(env, source, acc, rules[0]).Ok? {
        CollectRowTargets(env, source, rules[1..], Step(env, source, acc, rules[0]).value, t);
      }
    }
  }

  /**
   * A rule that resolves nothing: `undefined`, a path with no match, a
   * path-and-transform pair whose path has no match, or an array holding
   * only a path.
   */
  predicate FindsNothing(env: Env, source: Value, rule: Rule) {
    var from := rule.from;
    from == Undefined
    || (IsStrPath(from) && env.resolve(source, from) == [])
    || (!IsStrPath(from) && IsArrPath(from)
        && (|from.elems| == 1 || (|from.elems| == 2 && env.resolve(source, from.elems[0]) == [])))
  }

  lemma StepFindsNothing(env: Env, source: Value, acc: Acc, rule: Rule)
    requires FindsNothing(env, source, rule)
    ensures Step(env, source, acc, rule) == Ok(acc.(merge := Register(acc.merge, rule)))
  {
  }

  /**
   * A rule that resolves nothing contributes nothing: as long as no other
   * rule writes to the same target, the mapping gives the same result, or
   * the same error, with the rule left out.
   */
  lemma RuleFindingNothingContributesNothing(env: Env, source: Value, before: seq<Rule>, rule: Rule, after: seq<Rule>)
    requires FindsNothing(env, source, rule)
    requires forall i :: 0 <= i < |before| ==> before[i].to != rule.to
    requires forall i :: 0 <= i < |after| ==> after[i].to != rule.to
    requires env.accepts(before + [rule] + after) == env.accepts(before + after)
    ensures MapObj(env, source, before + [rule] + after) == MapObj(env, source, before + after)
  {
    var t := rule.to;
    CollectAppend(env, source, before + [rule], after, Start);
    CollectAppend(env, source, before, [rule], Start);
    CollectAppend(env, source, before, after, Start);
    CollectRowTargets(env, source, before, Start, t);
    match Collect(env, source, before, Start)
    case Err(_) =>
    case Ok(a1) =>
      StepFindsNothing(env, source, a1, rule);
      assert Collect(env, source, before + [rule], Start) == Ok(a1.(merge := Register(a1.merge, rule)));
      CollectIgnoresMerge(env, source, after, a1, Register(a1.merge, rule));
      CollectRowTargets(env, source, after, a1, t);
      match Collect(env, source, after, a1)
      case Err(_) =>
      case Ok(a2) =>
        RegisterOwn(a1.merge, rule);
        RegisterAllKeepsAgreement(Register(a1.merge, rule), a1.merge, after, t);
        AssembleIgnoresUnused(a2, RegisterAll(Register(a1.merge, rule), after), t);
  }
}
