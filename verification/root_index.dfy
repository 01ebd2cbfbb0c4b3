/**
 * The oldest variant, the root `index.js`. Mappings hold plain path strings
 * (no functions). Output objects are kept per "row index": the first array
 * index found in a matched node's path, or -1 when there is none. Key 0
 * starts with one empty object. A mapping that matches one node writes
 * into every output object. A mapping that matches several nodes fills the
 * row lists group by group.
 */
module RootIndex {
  import opened Wrappers
  import opened Values
  import opened Targets
  import opened OrderedMaps
  import IndexJs
  import Engine
  import Batch

  /** A mapping `{from, to}`; `from` is an optional path written without the leading `$.`. */
  datatype Mapping = Mapping(to: Target, from: Option<string>)

  /** `jp.nodes` on the source, given the full expression `"$." + from`. */
  type Resolver = (Value, string) -> seq<Node>

  /** `outputObjects`: row index to the output objects of that row, in insertion order. */
  type Outputs = OMap<int, seq<Value>>

  /** The loop state: the output objects and the `arrToMerge` set, in insertion order. */
  datatype State = State(out: Outputs, merge: seq<Target>)

  const Start := State([Entry(0, [Obj([])])], [])

  /** `if (mapping.from)`: a missing or empty path is falsy. */
  predicate HasFrom(m: Mapping) {
    m.from.Some? && m.from.value != ""
  }

  // ---------------------------------------------------------------------
  // Grouping matched nodes by row index

  /** The first numeric element of a node path, or -1 when there is none. */
  function FirstIdx(p: Path): (r: int)
    ensures (forall i :: 0 <= i < |p| ==> !p[i].Idx?) ==> r == -1
    ensures forall i :: 0 <= i < |p| && p[i].Idx? && (forall j :: 0 <= j < i ==> !p[j].Idx?) ==> r == p[i].index
  {
    if p == [] then -1
    else if p[0].Idx? then p[0].index
    else
      var r := FirstIdx(p[1..]);
      assert forall i :: 1 <= i < |p| ==> p[1..][i - 1] == p[i];
      r
  }

  /** The nodes whose row index is `k`, in their original order. */
  function Having(nodes: seq<Node>, k: int): (r: seq<Node>)
    ensures |r| <= |nodes|
    ensures forall n :: n in r ==> n in nodes && FirstIdx(n.path) == k
  {
    if nodes == [] then []
    else
      var last := nodes[|nodes| - 1];
      Having(nodes[..|nodes| - 1], k) + (if FirstIdx(last.path) == k then [last] else [])
  }

  /** The current list under `k`, or the empty list. */
  function ListAt<V>(m: OMap<int, seq<V>>, k: int): seq<V> {
    match MapGet(m, k)
    case Some(l) => l
    case None => []
  }

  /** `Map.groupBy(nodes, firstIdx)`: keys in order of first appearance, each with its nodes. */
  function GroupBy(nodes: seq<Node>): (r: OMap<int, seq<Node>>)
    ensures UniqueMapKeys(r)
    ensures forall i :: 0 <= i < |r| ==> |r[i].val| > 0
  {
    if nodes == [] then []
    else
      var m := GroupBy(nodes[..|nodes| - 1]);
      var n := nodes[|nodes| - 1];
      var k := FirstIdx(n.path);
      var r := MapSet(m, k, ListAt(m, k) + [n]);
      SetEntries(m, k, ListAt(m, k) + [n]);
      assert forall i :: 0 <= i < |r| ==> r[i] in r;
      r
  }

  /**
   * Each group holds exactly the nodes with its row index, in their order,
   * and a row index is a key exactly when some node has it.
   */
  lemma {:induction false} GroupByIsFilter(nodes: seq<Node>, k: int)
    ensures MapGet(GroupBy(nodes), k) == if Having(nodes, k) == [] then None else Some(Having(nodes, k))
  {
    if nodes != [] {
      var pre := nodes[..|nodes| - 1];
      var n := nodes[|nodes| - 1];
      var m := GroupBy(pre);
      GroupByIsFilter(pre, k);
      assert ListAt(m, k) == Having(pre, k);
      if FirstIdx(n.path) == k {
        assert Having(nodes, k) == Having(pre, k) + [n];
        assert GroupBy(nodes) == MapSet(m, k, ListAt(m, k) + [n]);
      } else {
        assert Having(nodes, k) == Having(pre, k);
        assert MapGet(GroupBy(nodes), k) == MapGet(m, k);
      }
    }
  }

  /** Every node lands in the group of its own row index. */
  lemma NodeInItsGroup(nodes: seq<Node>, i: nat)
    requires i < |nodes|
    ensures var g := MapGet(GroupBy(nodes), FirstIdx(nodes[i].path));
      g.Some? && nodes[i] in g.value
  {
    var k := FirstIdx(nodes[i].path);
    HavingHolds(nodes, i);
    GroupByIsFilter(nodes, k);
  }

  lemma {:induction false} HavingHolds(nodes: seq<Node>, i: nat)
    requires i < |nodes|
    ensures nodes[i] in Having(nodes, FirstIdx(nodes[i].path))
  {
    if i < |nodes| - 1 {
      HavingHolds(nodes[..|nodes| - 1], i);
    }
  }

  // ---------------------------------------------------------------------
  // Writing values into the output objects

  function Max(a: nat, b: nat): nat {
    if a < b then b else a
  }

  /**
   * The fill loop over `i < max(v.length, arr.length)`, from index `i` on:
   * a new row is pushed from `obj`; a row beyond the values gets the last
   * value written into `obj`; any other row gets its own value.
   */
  function FillFrom(arr: seq<Value>, obj: Value, to: Target, vs: seq<Value>, i: nat): (r: seq<Value>)
    requires vs != [] && i <= |arr|
    ensures |r| == Max(|vs|, |arr|)
    ensures forall j :: 0 <= j < i ==> r[j] == arr[j]
    ensures forall j :: i <= j < |r| ==>
      r[j] == if j < |arr| && j < |vs| then SetTarget(arr[j], to, vs[j])
              else if j < |vs| then SetTarget(obj, to, vs[j])
              else SetTarget(obj, to, vs[|vs| - 1])
    decreases Max(|vs|, |arr|) - i
  {
    if i >= Max(|vs|, |arr|) then arr
    else if i >= |arr| then FillFrom(arr + [SetTarget(obj, to, vs[i])], obj, to, vs, i + 1)
    else if i >= |vs| then FillFrom(arr[i := SetTarget(obj, to, vs[|vs| - 1])], obj, to, vs, i + 1)
    else FillFrom(arr[i := SetTarget(arr[i], to, vs[i])], obj, to, vs, i + 1)
  }

  function Fill(arr: seq<Value>, obj: Value, to: Target, vs: seq<Value>): (r: seq<Value>)
    requires vs != []
    ensures |r| == Max(|vs|, |arr|)
    ensures forall j :: 0 <= j < |r| ==>
      r[j] == if j < |arr| && j < |vs| then SetTarget(arr[j], to, vs[j])
              else if j < |vs| then SetTarget(obj, to, vs[j])
              else SetTarget(obj, to, vs[|vs| - 1])
  {
    FillFrom(arr, obj, to, vs, 0)
  }

  /** Every list is non-empty, and key 0 is present: the object a new row is copied from. */
  predicate Live(out: Outputs) {
    0 in MapKeys(out) && forall i :: 0 <= i < |out| ==> |out[i].val| > 0
  }

  /** The first object of row 0, which every new row starts from. */
  function Template(out: Outputs): (r: Value)
    requires Live(out)
    ensures Entry(0, [r] + ListAt(out, 0)[1..]) in out
  {
    var l := MapGet(out, 0).value;
    assert l == [l[0]] + l[1..];
    l[0]
  }

  lemma LiveLists(out: Outputs, k: int)
    requires Live(out) && k in MapKeys(out)
    ensures |ListAt(out, k)| > 0
  {
  }

  /**
   * One group of a multi-node mapping: the group's key ends with at least
   * as many objects as the group has values, and no other row changes.
   */
  function Place(out: Outputs, to: Target, k: int, vs: seq<Value>): (r: Outputs)
    requires Live(out) && vs != []
    ensures Live(r)
    ensures Covers(r, k, |vs|)
    ensures forall k' :: k' != k ==> MapGet(r, k') == MapGet(out, k')
  {
    var arr := ListAt(out, k);
    var obj := if arr != [] then arr[0] else Template(out);
    var l := Fill(arr, obj, to, vs);
    SetLive(out, k, l);
    MapSet(out, k, l)
  }

  /** Setting a row to a non-empty list keeps the rows live. */
  lemma SetLive(out: Outputs, k: int, l: seq<Value>)
    requires Live(out) && l != []
    ensures Live(MapSet(out, k, l))
  {
    var r := MapSet(out, k, l);
    SetEntries(out, k, l);
    assert forall i :: 0 <= i < |r| ==> r[i] in r;
  }

  /** Row `k` exists and holds at least `n` objects. */
  predicate Covers(out: Outputs, k: int, n: nat) {
    MapGet(out, k).Some? && |MapGet(out, k).value| >= n
  }

  /**
   * What a group writes: the existing list of its key is filled, or a new
   * one is started from a copy of row 0's first object.
   */
  lemma PlaceFills(out: Outputs, to: Target, k: int, vs: seq<Value>)
    requires Live(out) && vs != []
    ensures MapGet(Place(out, to, k, vs), k) == Some(
      var arr := ListAt(out, k);
      Fill(arr, if arr != [] then arr[0] else Template(out), to, vs))
  {
  }

  /** The groups of a multi-node mapping, handled in key order. */
  function PlaceAll(out: Outputs, to: Target, groups: OMap<int, seq<Node>>): (r: Outputs)
    requires Live(out) && UniqueMapKeys(groups)
    requires forall i :: 0 <= i < |groups| ==> |groups[i].val| > 0
    ensures Live(r)
    ensures forall k :: k !in MapKeys(groups) ==> MapGet(r, k) == MapGet(out, k)
    decreases |groups|
  {
    if groups == [] then out
    else
      var placed := Place(out, to, groups[0].key, Engine.NodeValues(groups[0].val));
      assert forall i :: 1 <= i < |groups| ==> groups[1..][i - 1] == groups[i];
      PlaceAll(placed, to, groups[1..])
  }

  /** Every key with nodes ends with at least as many objects as it has nodes. */
  lemma {:induction false} PlaceAllCovers(out: Outputs, to: Target, groups: OMap<int, seq<Node>>, i: nat)
    requires Live(out) && UniqueMapKeys(groups)
    requires forall j :: 0 <= j < |groups| ==> |groups[j].val| > 0
    requires i < |groups|
    ensures Covers(PlaceAll(out, to, groups), groups[i].key, |groups[i].val|)
    decreases |groups|
  {
    if i == 0 {
      PlaceAllFirst(out, to, groups);
    } else {
      var placed := Place(out, to, groups[0].key, Engine.NodeValues(groups[0].val));
      PlaceAllShift(out, to, groups, i);
      PlaceAllCovers(placed, to, groups[1..], i - 1);
    }
  }

  /** Group `i > 0` is placed by the recursive call on the later groups. */
  lemma PlaceAllShift(out: Outputs, to: Target, groups: OMap<int, seq<Node>>, i: nat)
    requires Live(out) && UniqueMapKeys(groups)
    requires forall j :: 0 <= j < |groups| ==> |groups[j].val| > 0
    requires 0 < i < |groups|
    ensures UniqueMapKeys(groups[1..])
    ensures forall j :: 0 <= j < |groups[1..]| ==> |groups[1..][j].val| > 0
    ensures groups[1..][i - 1] == groups[i]
    ensures var placed := Place(out, to, groups[0].key, Engine.NodeValues(groups[0].val));
      Covers(PlaceAll(placed, to, groups[1..]), groups[i].key, |groups[i].val|)
      ==> Covers(PlaceAll(out, to, groups), groups[i].key, |groups[i].val|)
  {
    var placed := Place(out, to, groups[0].key, Engine.NodeValues(groups[0].val));
    assert PlaceAll(out, to, groups) == PlaceAll(placed, to, groups[1..]);
  }

  /** The first group is covered, and the later groups leave its key alone. */
  lemma PlaceAllFirst(out: Outputs, to: Target, groups: OMap<int, seq<Node>>)
    requires Live(out) && UniqueMapKeys(groups) && groups != []
    requires forall j :: 0 <= j < |groups| ==> |groups[j].val| > 0
    ensures Covers(PlaceAll(out, to, groups), groups[0].key, |groups[0].val|)
  {
    var k0 := groups[0].key;
    var placed := Place(out, to, k0, Engine.NodeValues(groups[0].val));
    var r := PlaceAll(placed, to, groups[1..]);
    assert PlaceAll(out, to, groups) == r;
    assert k0 !in MapKeys(groups[1..]);
    assert MapGet(r, k0) == MapGet(placed, k0);
  }

  /** The single-node branch: the value is written into every output object. */
  function WriteAll(out: Outputs, to: Target, v: Value): (r: Outputs)
    ensures MapKeys(r) == MapKeys(out)
    ensures |r| == |out|
    ensures forall i :: 0 <= i < |r| ==>
      r[i].key == out[i].key && |r[i].val| == |out[i].val|
      && forall j :: 0 <= j < |r[i].val| ==> r[i].val[j] == SetTarget(out[i].val[j], to, v)
  {
    var r := seq(|out|, i requires 0 <= i < |out| =>
      Entry(out[i].key, seq(|out[i].val|, j requires 0 <= j < |out[i].val| => SetTarget(out[i].val[j], to, v))));
    SameKeysUnique(r, out);
    r
  }

  lemma WriteAllLive(out: Outputs, to: Target, v: Value)
    requires Live(out)
    ensures Live(WriteAll(out, to, v))
  {
  }

  /** One mapping of the main loop. */
  function Step(resolve: Resolver, source: Value, st: State, m: Mapping): (r: State)
    requires Live(st.out)
    ensures Live(r.out)
    ensures var found := HasFrom(m) && resolve(source, "$." + m.from.value) != [];
      r.merge == if !HasFrom(m) || found then IndexJs.RegisterJs(st.merge, m.to) else st.merge
  {
    var to := IndexJs.Rewrite(m.to);
    if HasFrom(m) then
      var nodes := resolve(source, "$." + m.from.value);
      if nodes == [] then st
      else
        var out := if |nodes| == 1 then WriteAll(st.out, to, nodes[0].value)
          else PlaceAll(st.out, to, GroupBy(nodes));
        WriteAllLive(st.out, to, nodes[0].value);
        State(out, IndexJs.RegisterJs(st.merge, m.to))
    else
      st.(merge := IndexJs.RegisterJs(st.merge, m.to))
  }

  function Collect(resolve: Resolver, source: Value, ms: seq<Mapping>, st: State): (r: State)
    requires Live(st.out)
    ensures Live(r.out)
    decreases |ms|
  {
    if ms == [] then st else Collect(resolve, source, ms[1..], Step(resolve, source, st, ms[0]))
  }

  // ---------------------------------------------------------------------
  // Merging and output

  /** One `arrToMerge` entry: every row list collapses to its merged object. */
  function MergeTarget(out: Outputs, to: Target): (r: Outputs)
    ensures MapKeys(r) == MapKeys(out)
    ensures |r| == |out|
    ensures forall i :: 0 <= i < |r| ==> r[i] == Entry(out[i].key, [MergeObjArr(out[i].val, to)])
  {
    var r := seq(|out|, i requires 0 <= i < |out| => Entry(out[i].key, [MergeObjArr(out[i].val, to)]));
    SameKeysUnique(r, out);
    r
  }

  function MergeTargets(out: Outputs, ts: seq<Target>): (r: Outputs)
    ensures MapKeys(r) == MapKeys(out)
    ensures ts != [] ==> forall i :: 0 <= i < |r| ==> |r[i].val| == 1
    ensures ts == [] ==> r == out
    decreases |ts|
  {
    if ts == [] then out
    else
      var r := MergeTargets(MergeTarget(out, ts[0]), ts[1..]);
      assert ts[1..] == [] ==> r == MergeTarget(out, ts[0]);
      r
  }

  function Flatten(ls: seq<seq<Value>>): (r: seq<Value>)
    ensures forall v :: v in r <==> exists i :: 0 <= i < |ls| && v in ls[i]
  {
    if ls == [] then []
    else
      var r := ls[0] + Flatten(ls[1..]);
      assert forall i :: 1 <= i < |ls| ==> ls[1..][i - 1] == ls[i];
      r
  }

  /** `filter((obj) => Object.keys(obj).length > 0)`. */
  function NonEmpty(vs: seq<Value>): (r: seq<Value>)
    ensures forall v :: v in r <==> v in vs && KeyCount(v) > 0
  {
    if vs == [] then []
    else (if KeyCount(vs[0]) > 0 then [vs[0]] else []) + NonEmpty(vs[1..])
  }

  /** `mapObj` of the root `index.js`. */
  function MapObj(resolve: Resolver, source: Value, ms: seq<Mapping>): (r: seq<Value>)
    ensures forall v :: v in r ==> KeyCount(v) > 0
  {
    var st := Collect(resolve, source, ms, Start);
    NonEmpty(Flatten(MapValues(MergeTargets(st.out, st.merge))))
  }

  /** Every output object is one of the (merged) row objects and has a property. */
  lemma OutputFromRows(resolve: Resolver, source: Value, ms: seq<Mapping>, v: Value)
    ensures var st := Collect(resolve, source, ms, Start);
      var rows := MergeTargets(st.out, st.merge);
      v in MapObj(resolve, source, ms) <==> KeyCount(v) > 0 && exists i :: 0 <= i < |rows| && v in rows[i].val
  {
    var st := Collect(resolve, source, ms, Start);
    var rows := MergeTargets(st.out, st.merge);
    var ls := MapValues(rows);
    assert forall i :: 0 <= i < |rows| ==> ls[i] == rows[i].val;
  }

  /** A mapping with a missing or empty `from` changes no object; it only registers its `[]` target. */
  lemma FalsyFromOnlyRegisters(resolve: Resolver, source: Value, st: State, m: Mapping)
    requires Live(st.out) && !HasFrom(m)
    ensures Step(resolve, source, st, m) == State(st.out, IndexJs.RegisterJs(st.merge, m.to))
  {
  }

  /** A mapping whose path matches nothing is skipped entirely, registration included. */
  lemma UnmatchedIsSkipped(resolve: Resolver, source: Value, st: State, m: Mapping)
    requires Live(st.out) && HasFrom(m) && resolve(source, "$." + m.from.value) == []
    ensures Step(resolve, source, st, m) == st
  {
  }

  /** A mapping that matches exactly one node writes its value into every output object of every row. */
  lemma SingleNodeEverywhere(resolve: Resolver, source: Value, st: State, m: Mapping)
    requires Live(st.out) && HasFrom(m)
    requires |resolve(source, "$." + m.from.value)| == 1
    ensures var v := resolve(source, "$." + m.from.value)[0].value;
      var r := Step(resolve, source, st, m).out;
      MapKeys(r) == MapKeys(st.out) && |r| == |st.out|
      && forall i :: 0 <= i < |r| ==> (|r[i].val| == |st.out[i].val|
        && forall j :: 0 <= j < |r[i].val| ==> r[i].val[j] == SetTarget(st.out[i].val[j], IndexJs.Rewrite(m.to), v))
  {
  }

  /**
   * A mapping that matches several nodes leaves every row index none of
   * them has alone, and gives each row index of a node at least as many
   * objects as it has nodes.
   */
  lemma MultiNodeRows(resolve: Resolver, source: Value, st: State, m: Mapping, k: int)
    requires Live(st.out) && HasFrom(m)
    requires |resolve(source, "$." + m.from.value)| > 1
    ensures var nodes := resolve(source, "$." + m.from.value);
      var r := Step(resolve, source, st, m).out;
      (Having(nodes, k) == [] ==> MapGet(r, k) == MapGet(st.out, k))
      && (Having(nodes, k) != [] ==> MapGet(r, k).Some? && |MapGet(r, k).value| >= |Having(nodes, k)|)
  {
    var nodes := resolve(source, "$." + m.from.value);
    var g := GroupBy(nodes);
    GroupByIsFilter(nodes, k);
    if Having(nodes, k) != [] {
      var i :| 0 <= i < |g| && g[i].key == k by {
        KeysLength(g);
        var i :| 0 <= i < |MapKeys(g)| && MapKeys(g)[i] == k;
        KeysAt(g, i);
      }
      assert Entry(k, g[i].val) in g;
      UniqueEntry(g, i, Having(nodes, k));
      PlaceAllCovers(st.out, IndexJs.Rewrite(m.to), g, i);
    }
  }

  lemma {:induction false} UniqueEntry<V>(m: OMap<int, V>, i: nat, v: V)
    requires UniqueMapKeys(m) && i < |m| && MapGet(m, m[i].key) == Some(v)
    ensures m[i].val == v
  {
    if i > 0 && m[0].key != m[i].key {
      UniqueEntry(m[1..], i - 1, v);
    } else if i > 0 {
      KeysAt(m[1..], i - 1);
    }
  }

  lemma {:induction false} CollectUnmatched(resolve: Resolver, source: Value, ms: seq<Mapping>, st: State)
    requires Live(st.out)
    requires forall i :: 0 <= i < |ms| ==> HasFrom(ms[i]) && resolve(source, "$." + ms[i].from.value) == []
    ensures Collect(resolve, source, ms, st) == st
    decreases |ms|
  {
    if ms != [] {
      UnmatchedIsSkipped(resolve, source, st, ms[0]);
      CollectUnmatched(resolve, source, ms[1..], st);
    }
  }

  /** When every mapping has a path and none matches, `mapObj` returns no object. */
  lemma UnmatchedGivesNothing(resolve: Resolver, source: Value, ms: seq<Mapping>)
    requires forall i :: 0 <= i < |ms| ==> HasFrom(ms[i]) && resolve(source, "$." + ms[i].from.value) == []
    ensures MapObj(resolve, source, ms) == []
  {
    CollectUnmatched(resolve, source, ms, Start);
    assert MapValues(Start.out) == [[Obj([])]];
    assert Flatten([[Obj([])]]) == [Obj([])];
  }

  lemma CollectEmptyFrom(resolve: Resolver, source: Value, k: string)
    ensures Collect(resolve, source, [Mapping([TKey(k), TEmpty], None)], Start) == State(Start.out, [[TKey(k), TStar]])
  {
    var m := Mapping([TKey(k), TEmpty], None);
    var t := [TKey(k), TStar];
    assert IndexJs.Rewrite(m.to) == t;
    assert HasEmpty(m.to);
    assert IndexJs.RegisterJs([], m.to) == [t];
    assert Step(resolve, source, Start, m) == State(Start.out, [t]);
    assert [m][1..] == [] && [m][0] == m;
  }

  lemma MergeIntoEmpty(k: string)
    ensures MergeObjArr([Obj([])], [TKey(k), TStar]) == Obj([Field(k, Arr([]))])
  {
    var t := [TKey(k), TStar];
    ReplaceAbsent(t, TStar);
    assert QueryValues(Obj([]), t) == [];
    assert CollectAll([Obj([])], t) == [];
    var to := [TKey(k)];
    assert t[..1] == to;
    ReplaceAbsent(to, TIdx(0));
    assert Query(Obj([]), to) == [];
    NoStarUnchanged(to);
    assert Concrete(to) == [Key(k)];
    assert DeepSet(Obj([]), [Key(k)], Arr([])) == Obj([Field(k, Arr([]))]);
  }

  /**
   * A lone `{to: "k[]"}` with no `from` is still registered for merging,
   * so the result is one object holding an empty array under `k`.
   */
  lemma EmptyFromStillCreatesArray(resolve: Resolver, source: Value, k: string)
    ensures MapObj(resolve, source, [Mapping([TKey(k), TEmpty], None)]) == [Obj([Field(k, Arr([]))])]
  {
    CollectEmptyFrom(resolve, source, k);
    OutputOfEmptyMerge(k);
  }

  /** Merging `k[*]` into the empty start output leaves the one object `{k: []}`. */
  lemma OutputOfEmptyMerge(k: string)
    ensures NonEmpty(Flatten(MapValues(MergeTargets(Start.out, [[TKey(k), TStar]])))) == [Obj([Field(k, Arr([]))])]
  {
    var t := [TKey(k), TStar];
    var made := Obj([Field(k, Arr([]))]);
    MergeIntoEmpty(k);
    assert MergeTarget(Start.out, t) == [Entry(0, [made])];
    assert MergeTargets(Start.out, [t]) == [Entry(0, [made])];
    assert MapValues([Entry(0, [made])]) == [[made]];
    assert Flatten([[made]]) == [made];
    KeptAlone(made);
  }

  /** A single object with a property survives the final filter. */
  lemma KeptAlone(v: Value)
    requires KeyCount(v) > 0
    ensures NonEmpty([v]) == [v]
  {
    assert [v][1..] == [];
  }

  function OnSource(resolve: Resolver, ms: seq<Mapping>): Value -> Result<seq<Value>, string> {
    source => Ok(MapObj(resolve, source, ms))
  }

  /** `mapObjArr` of the root `index.js`; it never fails. */
  method MapObjArr(resolve: Resolver, sources: seq<Value>, ms: seq<Mapping>) returns (r: seq<Value>)
    ensures r == Batch.ConcatOk(OnSource(resolve, ms), sources)
  {
    var res := Batch.ForEachSource(OnSource(resolve, ms), sources);
    Batch.OutcomeIsConcat(OnSource(resolve, ms), sources);
    r := res.value;
  }
}
