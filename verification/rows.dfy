/**
 * Row-scoped nodes and the two passes `mapObj` makes over them in every
 * variant that collects them: the deepest-first sort and the grouping pass
 * that folds shallower ancestor rows into deeper ones.
 */
module Rows {
  import opened Wrappers
  import opened Values
  import opened Paths
  import opened Targets
  import opened OrderedMaps

  /** A resolved node that did not go to the common properties, with the target it is written to. */
  datatype RowNode = RowNode(value: Value, path: Path, to: Target)

  // ---------------------------------------------------------------------
  // `arrNodes.sort((a, b) => b.path.length - a.path.length)`, a stable sort

  predicate DeepestFirst(rows: seq<RowNode>) {
    forall i, j :: 0 <= i < j < |rows| ==> |rows[i].path| >= |rows[j].path|
  }

  /** The rows whose path has exactly `d` segments, in their original order. */
  function AtDepth(rows: seq<RowNode>, d: nat): (r: seq<RowNode>)
    ensures forall i :: 0 <= i < |r| ==> |r[i].path| == d
  {
    if rows == [] then [] else (if |rows[0].path| == d then [rows[0]] else []) + AtDepth(rows[1..], d)
  }

  /** The rows whose path has at most `d` segments, in their original order. */
  function UpTo(rows: seq<RowNode>, d: nat): seq<RowNode> {
    if rows == [] then [] else (if |rows[0].path| <= d then [rows[0]] else []) + UpTo(rows[1..], d)
  }

  function SortFrom(rows: seq<RowNode>, d: nat): seq<RowNode>
    decreases d
  {
    if d == 0 then AtDepth(rows, 0) else AtDepth(rows, d) + SortFrom(rows, d - 1)
  }

  lemma {:induction false} SortFromSorted(rows: seq<RowNode>, d: nat)
    ensures forall i :: 0 <= i < |SortFrom(rows, d)| ==> |SortFrom(rows, d)[i].path| <= d
    ensures DeepestFirst(SortFrom(rows, d))
    decreases d
  {
    if d > 0 {
      SortFromSorted(rows, d - 1);
      var a := AtDepth(rows, d);
      var b := SortFrom(rows, d - 1);
      assert SortFrom(rows, d) == a + b;
      assert forall i :: 0 <= i < |a + b| ==> (a + b)[i] == if i < |a| then a[i] else b[i - |a|];
    }
  }

  function MaxDepth(rows: seq<RowNode>): (m: nat)
    ensures forall i :: 0 <= i < |rows| ==> |rows[i].path| <= m
  {
    if rows == [] then 0
    else
      var m := MaxDepth(rows[1..]);
      if |rows[0].path| > m then |rows[0].path| else m
  }

  /**
   * The deepest-first order in which the grouping pass visits rows: a
   * permutation, sorted by non-increasing path length.
   */
  function SortByDepth(rows: seq<RowNode>): (r: seq<RowNode>)
    ensures multiset(r) == multiset(rows)
    ensures DeepestFirst(r)
  {
    var r := SortFrom(rows, MaxDepth(rows));
    SortFromSorted(rows, MaxDepth(rows));
    assert multiset(r) == multiset(rows) by {
      SortFromPermutes(rows, MaxDepth(rows));
      UpToAll(rows, MaxDepth(rows));
    }
    r
  }

  lemma {:induction false} UpToSplit(rows: seq<RowNode>, d: nat)
    requires d > 0
    ensures multiset(UpTo(rows, d)) == multiset(AtDepth(rows, d)) + multiset(UpTo(rows, d - 1))
  {
    if rows != [] {
      UpToSplit(rows[1..], d);
    }
  }

  lemma {:induction false} UpToZero(rows: seq<RowNode>)
    ensures UpTo(rows, 0) == AtDepth(rows, 0)
  {
    if rows != [] {
      UpToZero(rows[1..]);
    }
  }

  lemma {:induction false} UpToAll(rows: seq<RowNode>, d: nat)
    requires forall i :: 0 <= i < |rows| ==> |rows[i].path| <= d
    ensures UpTo(rows, d) == rows
  {
    if rows != [] {
      UpToAll(rows[1..], d);
    }
  }

  /** The first `d + 1` depth bands hold exactly the rows no deeper than `d`. */
  predicate BandsPermute(rows: seq<RowNode>, d: nat) {
    multiset(SortFrom(rows, d)) == multiset(UpTo(rows, d))
  }

  lemma {:induction false} SortFromPermutes(rows: seq<RowNode>, d: nat)
    ensures BandsPermute(rows, d)
    decreases d
  {
    if d == 0 {
      PermutesZero(rows);
    } else {
      SortFromPermutes(rows, d - 1);
      PermutesStep(rows, d);
    }
  }

  lemma PermutesZero(rows: seq<RowNode>)
    ensures BandsPermute(rows, 0)
  {
    UpToZero(rows);
  }

  lemma PermutesStep(rows: seq<RowNode>, d: nat)
    requires d > 0 && BandsPermute(rows, d - 1)
    ensures BandsPermute(rows, d)
  {
    UpToSplit(rows, d);
    SortFromStep(rows, d);
  }

  lemma SortFromStep(rows: seq<RowNode>, d: nat)
    requires d > 0
    ensures multiset(SortFrom(rows, d)) == multiset(AtDepth(rows, d)) + multiset(SortFrom(rows, d - 1))
  {
    var a := AtDepth(rows, d);
    var b := SortFrom(rows, d - 1);
    assert SortFrom(rows, d) == a + b;
  }

  lemma {:induction false} AtDepthConcat(a: seq<RowNode>, b: seq<RowNode>, d: nat)
    ensures AtDepth(a + b, d) == AtDepth(a, d) + AtDepth(b, d)
  {
    if a == [] {
      assert a + b == b;
    } else {
      assert (a + b)[0] == a[0];
      assert (a + b)[1..] == a[1..] + b;
      AtDepthConcat(a[1..], b, d);
      var head := if |a[0].path| == d then [a[0]] else [];
      assert AtDepth(a + b, d) == head + AtDepth(a[1..] + b, d);
      assert head + (AtDepth(a[1..], d) + AtDepth(b, d)) == (head + AtDepth(a[1..], d)) + AtDepth(b, d);
    }
  }

  lemma {:induction false} AtDepthTwice(rows: seq<RowNode>, d: nat, e: nat)
    ensures AtDepth(AtDepth(rows, e), d) == if d == e then AtDepth(rows, d) else []
  {
    if rows != [] {
      AtDepthTwice(rows[1..], d, e);
      var head := if |rows[0].path| == e then [rows[0]] else [];
      AtDepthConcat(head, AtDepth(rows[1..], e), d);
    }
  }

  lemma {:induction false} SortFromAtDepth(rows: seq<RowNode>, top: nat, d: nat)
    ensures AtDepth(SortFrom(rows, top), d) == if d <= top then AtDepth(rows, d) else []
    decreases top
  {
    AtDepthTwice(rows, d, top);
    if top > 0 {
      SortFromAtDepth(rows, top - 1, d);
      AtDepthConcat(AtDepth(rows, top), SortFrom(rows, top - 1), d);
    }
  }

  lemma {:induction false} AtDepthBeyond(rows: seq<RowNode>, d: nat)
    requires forall i :: 0 <= i < |rows| ==> |rows[i].path| < d
    ensures AtDepth(rows, d) == []
  {
    if rows != [] {
      AtDepthBeyond(rows[1..], d);
    }
  }

  /** The sort is stable: rows of equal depth keep their relative order. */
  lemma SortIsStable(rows: seq<RowNode>, d: nat)
    ensures AtDepth(SortByDepth(rows), d) == AtDepth(rows, d)
  {
    SortFromAtDepth(rows, MaxDepth(rows), d);
    if d > MaxDepth(rows) {
      AtDepthBeyond(rows, d);
    }
  }

  // ---------------------------------------------------------------------
  // Grouping and folding

  /**
   * What distinguishes the variants' grouping passes: the map key of a
   * row's group (from its level-1 parent path) and the level-2 parent under
   * which shallower rows are gathered, when there is one.
   */
  datatype Grouping<K> = Grouping(keyOf: Path -> K, parentOf: Path -> Option<Path>)

  /** The filter of the fold: `includesPath(other.path, parent) && other.path.length < depth`. */
  predicate Gathers(parent: Path, depth: nat, other: RowNode) {
    IncludesPath(other.path, parent) && |other.path| < depth
  }

  /** The rows the filter selects, in list order. */
  function Gathered(rows: seq<RowNode>, parent: Path, depth: nat): (r: seq<RowNode>)
    ensures forall x {:trigger x in r} :: x in r <==> x in rows && Gathers(parent, depth, x)
  {
    if rows == [] then []
    else (if Gathers(parent, depth, rows[0]) then [rows[0]] else []) + Gathered(rows[1..], parent, depth)
  }

  /** `addProp` of every row in turn. */
  function AddAll(obj: Value, rows: seq<RowNode>): Value
    decreases |rows|
  {
    if rows == [] then obj else AddAll(AddProp(obj, rows[0].to, rows[0].value), rows[1..])
  }

  /** `pNode.ignore = true` for every row the filter selects. */
  function Mark(ignored: seq<bool>, rows: seq<RowNode>, parent: Path, depth: nat): seq<bool>
    requires |ignored| == |rows|
  {
    seq(|rows|, j requires 0 <= j < |rows| => ignored[j] || Gathers(parent, depth, rows[j]))
  }

  /** The grouping loop from row `i` on, with the current `ignore` flags and group map. */
  function GroupFrom<K(==,!new)>(g: Grouping<K>, rows: seq<RowNode>, i: nat, ignored: seq<bool>, m: OMap<K, Value>)
    : (r: OMap<K, Value>)
    requires |ignored| == |rows| && i <= |rows|
    ensures UniqueMapKeys(m) ==> UniqueMapKeys(r)
    decreases |rows| - i
  {
    if i == |rows| then m
    else if ignored[i] then GroupFrom(g, rows, i + 1, ignored, m)
    else
      var node := rows[i];
      var key := g.keyOf(node.path);
      var obj := AddProp(MapGet(m, key).GetOr(Obj([])), node.to, node.value);
      match g.parentOf(node.path)
      case None => GroupFrom(g, rows, i + 1, ignored, MapSet(m, key, obj))
      case Some(parent) =>
        var depth := |node.path|;
        GroupFrom(g, rows, i + 1, Mark(ignored, rows, parent, depth),
                  MapSet(m, key, AddAll(obj, Gathered(rows, parent, depth))))
  }

  function Group<K(==,!new)>(g: Grouping<K>, rows: seq<RowNode>): (r: OMap<K, Value>)
    ensures UniqueMapKeys(r)
  {
    GroupFrom(g, rows, 0, seq(|rows|, _ => false), [])
  }

  /** Row `j`, when processed, gathers row `i`. */
  ghost predicate Folds<K>(g: Grouping<K>, rows: seq<RowNode>, j: nat, i: nat)
    requires j < |rows| && i < |rows|
  {
    g.parentOf(rows[j].path).Some? && Gathers(g.parentOf(rows[j].path).value, |rows[j].path|, rows[i])
  }

  /** Row `i` is processed rather than skipped: no earlier processed row gathered it. */
  ghost predicate Live<K>(g: Grouping<K>, rows: seq<RowNode>, i: nat)
    requires i < |rows|
    decreases i
  {
    !exists j {:trigger Folds(g, rows, j, i)} :: 0 <= j < i && Live(g, rows, j) && Folds(g, rows, j, i)
  }

  /** The `ignore` flags before row `i` is processed: set exactly on the rows an earlier live row gathered. */
  ghost predicate FlagsAt<K>(g: Grouping<K>, rows: seq<RowNode>, i: nat, ignored: seq<bool>)
    requires |ignored| == |rows|
  {
    forall j :: i <= j < |rows| ==>
      (ignored[j] <==> exists j' {:trigger Folds(g, rows, j', j)} :: 0 <= j' < i && Live(g, rows, j') && Folds(g, rows, j', j))
  }

  /** The flag of the row about to be processed says whether it is live. */
  lemma FlagsHere<K>(g: Grouping<K>, rows: seq<RowNode>, i: nat, ignored: seq<bool>)
    requires |ignored| == |rows| && i < |rows|
    requires FlagsAt(g, rows, i, ignored)
    ensures ignored[i] <==> !Live(g, rows, i)
  {
  }

  lemma FlagsSkip<K>(g: Grouping<K>, rows: seq<RowNode>, i: nat, ignored: seq<bool>)
    requires |ignored| == |rows| && i < |rows|
    requires FlagsAt(g, rows, i, ignored) && ignored[i]
    ensures FlagsAt(g, rows, i + 1, ignored)
  {
    FlagsHere(g, rows, i, ignored);
  }

  lemma FlagsNoParent<K>(g: Grouping<K>, rows: seq<RowNode>, i: nat, ignored: seq<bool>)
    requires |ignored| == |rows| && i < |rows|
    requires FlagsAt(g, rows, i, ignored) && g.parentOf(rows[i].path).None?
    ensures FlagsAt(g, rows, i + 1, ignored)
  {
    forall j | i + 1 <= j < |rows|
      ensures !Folds(g, rows, i, j)
    {
    }
  }

  lemma FlagsMark<K>(g: Grouping<K>, rows: seq<RowNode>, i: nat, ignored: seq<bool>, parent: Path)
    requires |ignored| == |rows| && i < |rows|
    requires FlagsAt(g, rows, i, ignored) && Live(g, rows, i) && g.parentOf(rows[i].path) == Some(parent)
    ensures FlagsAt(g, rows, i + 1, Mark(ignored, rows, parent, |rows[i].path|))
  {
    var ignored' := Mark(ignored, rows, parent, |rows[i].path|);
    forall j | i + 1 <= j < |rows|
      ensures ignored'[j] <==> exists j' :: 0 <= j' < i + 1 && Live(g, rows, j') && Folds(g, rows, j', j)
    {
      assert Folds(g, rows, i, j) <==> Gathers(parent, |rows[i].path|, rows[j]);
    }
  }

  lemma KeysAfterSet<K(!new), V>(m: OMap<K, V>, key: K, v: V, k: K)
    ensures k in MapKeys(MapSet(m, key, v)) <==> k in MapKeys(m) || k == key
  {
  }

  /** Some live row at `i` or later has key `k`, scanned in the order `GroupFrom` visits the rows. */
  ghost predicate KeyLater<K>(g: Grouping<K>, rows: seq<RowNode>, i: nat, k: K)
    decreases |rows| - i
  {
    i < |rows| && ((Live(g, rows, i) && g.keyOf(rows[i].path) == k) || KeyLater(g, rows, i + 1, k))
  }

  lemma {:induction false} KeyLaterIff<K>(g: Grouping<K>, rows: seq<RowNode>, i: nat, k: K)
    ensures KeyLater(g, rows, i, k) <==> exists j :: i <= j < |rows| && Live(g, rows, j) && g.keyOf(rows[j].path) == k
    decreases |rows| - i
  {
    if i < |rows| {
      KeyLaterIff(g, rows, i + 1, k);
      if !(Live(g, rows, i) && g.keyOf(rows[i].path) == k) {
        forall j | i <= j < |rows| && Live(g, rows, j) && g.keyOf(rows[j].path) == k
          ensures i + 1 <= j
        {
        }
      }
    }
  }

  lemma {:induction false} GroupFromKeys<K(!new)>(g: Grouping<K>, rows: seq<RowNode>, i: nat, ignored: seq<bool>, m: OMap<K, Value>, k: K)
    requires |ignored| == |rows| && i <= |rows|
    requires FlagsAt(g, rows, i, ignored)
    ensures k in MapKeys(GroupFrom(g, rows, i, ignored, m)) <==> (k in MapKeys(m) || KeyLater(g, rows, i, k))
    decreases |rows| - i
  {
    if i < |rows| {
      if ignored[i] {
        FlagsSkip(g, rows, i, ignored);
        LiveFromNext(g, rows, i, ignored, k);
        GroupFromKeysSkipped(g, rows, i, ignored, m, k);
      } else {
        FlagsHere(g, rows, i, ignored);
        GroupFromKeysLive(g, rows, i, ignored, m, k);
      }
    }
  }

  lemma {:induction false} GroupFromKeysSkipped<K(!new)>(g: Grouping<K>, rows: seq<RowNode>, i: nat, ignored: seq<bool>, m: OMap<K, Value>, k: K)
    requires |ignored| == |rows| && i < |rows| && ignored[i]
    requires FlagsAt(g, rows, i + 1, ignored)
    requires KeyLater(g, rows, i, k) <==> KeyLater(g, rows, i + 1, k)
    ensures k in MapKeys(GroupFrom(g, rows, i, ignored, m)) <==> (k in MapKeys(m) || KeyLater(g, rows, i, k))
    decreases |rows| - i, 0
  {
    GroupFromKeys(g, rows, i + 1, ignored, m, k);
    SkipKeys(g, rows, i, ignored, m, k);
  }

  /** A skipped row changes neither the groups nor the keys still to come. */
  lemma SkipKeys<K(!new)>(g: Grouping<K>, rows: seq<RowNode>, i: nat, ignored: seq<bool>, m: OMap<K, Value>, k: K)
    requires |ignored| == |rows| && i < |rows| && ignored[i]
    requires KeyLater(g, rows, i, k) <==> KeyLater(g, rows, i + 1, k)
    requires k in MapKeys(GroupFrom(g, rows, i + 1, ignored, m)) <==> (k in MapKeys(m) || KeyLater(g, rows, i + 1, k))
    ensures k in MapKeys(GroupFrom(g, rows, i, ignored, m)) <==> (k in MapKeys(m) || KeyLater(g, rows, i, k))
  {
    assert GroupFrom(g, rows, i, ignored, m) == GroupFrom(g, rows, i + 1, ignored, m);
  }

  lemma {:induction false} GroupFromKeysLive<K(!new)>(g: Grouping<K>, rows: seq<RowNode>, i: nat, ignored: seq<bool>, m: OMap<K, Value>, k: K)
    requires |ignored| == |rows| && i < |rows| && !ignored[i]
    requires FlagsAt(g, rows, i, ignored) && Live(g, rows, i)
    ensures k in MapKeys(GroupFrom(g, rows, i, ignored, m)) <==> (k in MapKeys(m) || KeyLater(g, rows, i, k))
    decreases |rows| - i, 0
  {
    var node := rows[i];
    var key := g.keyOf(node.path);
    var obj := AddProp(MapGet(m, key).GetOr(Obj([])), node.to, node.value);
    LiveFromHere(g, rows, i, k);
    match g.parentOf(node.path)
    case None =>
      var m' := MapSet(m, key, obj);
      assert GroupFrom(g, rows, i, ignored, m) == GroupFrom(g, rows, i + 1, ignored, m');
      FlagsNoParent(g, rows, i, ignored);
      GroupFromKeys(g, rows, i + 1, ignored, m', k);
      KeysAfterSet(m, key, obj, k);
    case Some(parent) =>
      var depth := |node.path|;
      var ignored' := Mark(ignored, rows, parent, depth);
      var m' := MapSet(m, key, AddAll(obj, Gathered(rows, parent, depth)));
      assert GroupFrom(g, rows, i, ignored, m) == GroupFrom(g, rows, i + 1, ignored', m');
      FlagsMark(g, rows, i, ignored, parent);
      GroupFromKeys(g, rows, i + 1, ignored', m', k);
      KeysAfterSet(m, key, AddAll(obj, Gathered(rows, parent, depth)), k);
  }

  /** A row that is not live adds no key to the ones the later rows have. */
  lemma LiveFromNext<K>(g: Grouping<K>, rows: seq<RowNode>, i: nat, ignored: seq<bool>, k: K)
    requires |ignored| == |rows| && i < |rows|
    requires FlagsAt(g, rows, i, ignored) && ignored[i]
    ensures KeyLater(g, rows, i, k) <==> KeyLater(g, rows, i + 1, k)
  {
    FlagsHere(g, rows, i, ignored);
  }

  /** A live row adds its own key to the ones the later rows have. */
  lemma LiveFromHere<K>(g: Grouping<K>, rows: seq<RowNode>, i: nat, k: K)
    requires i < |rows| && Live(g, rows, i)
    ensures KeyLater(g, rows, i, k) <==> g.keyOf(rows[i].path) == k || KeyLater(g, rows, i + 1, k)
  {
  }

  /**
   * The groups are exactly the keys of the live rows: a row that an earlier
   * row folded in never opens a group of its own.
   */
  lemma GroupKeys<K(!new)>(g: Grouping<K>, rows: seq<RowNode>, k: K)
    ensures k in MapKeys(Group(g, rows)) <==>
      exists j :: 0 <= j < |rows| && Live(g, rows, j) && g.keyOf(rows[j].path) == k
  {
    GroupFromKeys(g, rows, 0, seq(|rows|, _ => false), [], k);
    KeyLaterIff(g, rows, 0, k);
  }

  /**
   * The first row is never folded, so some group exists exactly when
   * there is at least one row.
   */
  lemma GroupsIffRows<K(!new)>(g: Grouping<K>, rows: seq<RowNode>)
    ensures Group(g, rows) == [] <==> rows == []
  {
    if rows != [] {
      assert Live(g, rows, 0);
      GroupKeys(g, rows, g.keyOf(rows[0].path));
      assert g.keyOf(rows[0].path) in MapKeys(Group(g, rows));
    }
  }

  // ---------------------------------------------------------------------
  // What a group holds

  /** What a processed row writes into its group: itself, then every row its parent gathers. */
  function Visit<K>(g: Grouping<K>, rows: seq<RowNode>, i: nat): (r: seq<RowNode>)
    requires i < |rows|
    ensures |r| >= 1 && r[0] == rows[i]
    ensures g.parentOf(rows[i].path).None? ==> r == [rows[i]]
    ensures g.parentOf(rows[i].path).Some? ==> r[1..] == Gathered(rows, g.parentOf(rows[i].path).value, |rows[i].path|)
  {
    [rows[i]] + match g.parentOf(rows[i].path)
      case None => []
      case Some(parent) => Gathered(rows, parent, |rows[i].path|)
  }

  /** A row a live row folds is among what it writes. */
  lemma FoldedInVisit<K>(g: Grouping<K>, rows: seq<RowNode>, j: nat, i: nat)
    requires j < |rows| && i < |rows| && Folds(g, rows, j, i)
    ensures rows[i] in Visit(g, rows, j)
  {
    var v := Visit(g, rows, j);
    assert rows[i] in v[1..];
  }

  /** Every write into group `k` from row `i` on, in the order the loop makes them. */
  ghost function Writes<K>(g: Grouping<K>, rows: seq<RowNode>, i: nat, k: K): seq<RowNode>
    decreases |rows| - i
  {
    if i >= |rows| then []
    else (if Live(g, rows, i) && g.keyOf(rows[i].path) == k then Visit(g, rows, i) else []) + Writes(g, rows, i + 1, k)
  }

  /** `addProp` of a concatenation is `addProp` of the first part, then of the second. */
  lemma {:induction false} AddAllAppend(obj: Value, a: seq<RowNode>, b: seq<RowNode>)
    ensures AddAll(obj, a + b) == AddAll(AddAll(obj, a), b)
    decreases |a|
  {
    if a == [] {
      assert a + b == b;
    } else {
      var ab := a + b;
      assert ab != [] && ab[0] == a[0] && ab[1..] == a[1..] + b;
      assert AddAll(obj, ab) == AddAll(AddProp(obj, a[0].to, a[0].value), a[1..] + b);
      AddAllAppend(AddProp(obj, a[0].to, a[0].value), a[1..], b);
    }
  }

  /** With no live row of key `k` left, nothing more is written into `k`. */
  lemma {:induction false} WritesNone<K>(g: Grouping<K>, rows: seq<RowNode>, i: nat, k: K)
    requires !KeyLater(g, rows, i, k)
    ensures Writes(g, rows, i, k) == []
    decreases |rows| - i
  {
    if i < |rows| {
      WritesNone(g, rows, i + 1, k);
    }
  }

  /** The value a live row leaves in its group: its own `addProp`, then every gathered row's. */
  lemma VisitValue<K>(g: Grouping<K>, rows: seq<RowNode>, i: nat, base: Value)
    requires i < |rows|
    ensures g.parentOf(rows[i].path).None? ==>
      AddAll(base, Visit(g, rows, i)) == AddProp(base, rows[i].to, rows[i].value)
    ensures g.parentOf(rows[i].path).Some? ==>
      AddAll(base, Visit(g, rows, i))
        == AddAll(AddProp(base, rows[i].to, rows[i].value), Gathered(rows, g.parentOf(rows[i].path).value, |rows[i].path|))
  {
    var v := Visit(g, rows, i);
    assert AddAll(base, v) == AddAll(AddProp(base, rows[i].to, rows[i].value), v[1..]);
  }

  /** One live turn of the loop, as the next flags and groups it hands on. */
  ghost predicate LiveTurn<K(!new)>(g: Grouping<K>, rows: seq<RowNode>, i: nat, ignored: seq<bool>, m: OMap<K, Value>,
                                    ignored': seq<bool>, m': OMap<K, Value>)
    requires |ignored| == |rows| && i < |rows|
  {
    var k := g.keyOf(rows[i].path);
    |ignored'| == |rows| && FlagsAt(g, rows, i + 1, ignored')
    && GroupFrom(g, rows, i, ignored, m) == GroupFrom(g, rows, i + 1, ignored', m')
    && MapGet(m', k) == Some(AddAll(MapGet(m, k).GetOr(Obj([])), Visit(g, rows, i)))
    && forall k' :: k' != k ==> MapGet(m', k') == MapGet(m, k')
  }

  /** The flags and groups a live row hands on. */
  function NextFlags<K>(g: Grouping<K>, rows: seq<RowNode>, i: nat, ignored: seq<bool>): (r: seq<bool>)
    requires |ignored| == |rows| && i < |rows|
    ensures |r| == |rows|
  {
    match g.parentOf(rows[i].path)
    case None => ignored
    case Some(parent) => Mark(ignored, rows, parent, |rows[i].path|)
  }

  function NextGroups<K(==,!new)>(g: Grouping<K>, rows: seq<RowNode>, i: nat, m: OMap<K, Value>): OMap<K, Value>
    requires i < |rows|
  {
    var key := g.keyOf(rows[i].path);
    MapSet(m, key, AddAll(MapGet(m, key).GetOr(Obj([])), Visit(g, rows, i)))
  }

  /**
   * One turn of the grouping loop: a row that is not live changes nothing;
   * a live row with key `k` sets `k`'s group to its old value (or `{}`)
   * with the row's `addProp` and then every gathered row's, and leaves
   * every other group alone.
   */
  lemma GroupStep<K(!new)>(g: Grouping<K>, rows: seq<RowNode>, i: nat, ignored: seq<bool>, m: OMap<K, Value>)
    requires |ignored| == |rows| && i < |rows|
    requires FlagsAt(g, rows, i, ignored)
    ensures !Live(g, rows, i) ==>
      FlagsAt(g, rows, i + 1, ignored) && GroupFrom(g, rows, i, ignored, m) == GroupFrom(g, rows, i + 1, ignored, m)
    ensures Live(g, rows, i) ==>
      LiveTurn(g, rows, i, ignored, m, NextFlags(g, rows, i, ignored), NextGroups(g, rows, i, m))
  {
    FlagsHere(g, rows, i, ignored);
    if ignored[i] {
      FlagsSkip(g, rows, i, ignored);
    } else {
      var node := rows[i];
      var key := g.keyOf(node.path);
      var base := MapGet(m, key).GetOr(Obj([]));
      VisitValue(g, rows, i, base);
      match g.parentOf(node.path)
      case None =>
        FlagsNoParent(g, rows, i, ignored);
      case Some(parent) =>
        FlagsMark(g, rows, i, ignored, parent);
    }
  }

  /** What the loop leaves in group `k` from row `i` on, stated as the in-order writes into it. */
  ghost predicate HoldsWrites<K(!new)>(g: Grouping<K>, rows: seq<RowNode>, i: nat, r: OMap<K, Value>, m: OMap<K, Value>, k: K)
  {
    MapGet(r, k) == if KeyLater(g, rows, i, k) then Some(AddAll(MapGet(m, k).GetOr(Obj([])), Writes(g, rows, i, k))) else MapGet(m, k)
  }

  /**
   * The grouping loop from row `i` on leaves in group `k` the old group
   * (or `{}`) with every later write into `k` added in order, and leaves a
   * key no later live row has as it was.
   */
  lemma {:induction false} GroupFromContents<K(!new)>(g: Grouping<K>, rows: seq<RowNode>, i: nat, ignored: seq<bool>, m: OMap<K, Value>, k: K)
    requires |ignored| == |rows| && i <= |rows|
    requires FlagsAt(g, rows, i, ignored)
    ensures HoldsWrites(g, rows, i, GroupFrom(g, rows, i, ignored, m), m, k)
    decreases |rows| - i, 1
  {
    if i < |rows| {
      FlagsHere(g, rows, i, ignored);
      if ignored[i] {
        FlagsSkip(g, rows, i, ignored);
        WritesSkip(g, rows, i, k);
        GroupFromContentsSkipped(g, rows, i, ignored, m, k);
        SkipGroupFrom(g, rows, i, ignored, m);
      } else {
        GroupFromContentsLive(g, rows, i, ignored, m, k);
      }
    }
  }

  lemma {:induction false} GroupFromContentsSkipped<K(!new)>(g: Grouping<K>, rows: seq<RowNode>, i: nat, ignored: seq<bool>, m: OMap<K, Value>, k: K)
    requires |ignored| == |rows| && i < |rows|
    requires Writes(g, rows, i, k) == Writes(g, rows, i + 1, k) && KeyLater(g, rows, i, k) == KeyLater(g, rows, i + 1, k)
    requires FlagsAt(g, rows, i + 1, ignored)
    ensures HoldsWrites(g, rows, i, GroupFrom(g, rows, i + 1, ignored, m), m, k)
    decreases |rows| - i, 0
  {
    GroupFromContents(g, rows, i + 1, ignored, m, k);
  }

  lemma SkipGroupFrom<K(!new)>(g: Grouping<K>, rows: seq<RowNode>, i: nat, ignored: seq<bool>, m: OMap<K, Value>)
    requires |ignored| == |rows| && i < |rows| && ignored[i]
    ensures GroupFrom(g, rows, i, ignored, m) == GroupFrom(g, rows, i + 1, ignored, m)
  {
  }

  lemma {:induction false} GroupFromContentsLive<K(!new)>(g: Grouping<K>, rows: seq<RowNode>, i: nat, ignored: seq<bool>, m: OMap<K, Value>, k: K)
    requires |ignored| == |rows| && i < |rows| && Live(g, rows, i)
    requires FlagsAt(g, rows, i, ignored)
    ensures HoldsWrites(g, rows, i, GroupFrom(g, rows, i, ignored, m), m, k)
    decreases |rows| - i, 0
  {
    GroupStep(g, rows, i, ignored, m);
    var ignored', m' := NextFlags(g, rows, i, ignored), NextGroups(g, rows, i, m);
    assert LiveTurn(g, rows, i, ignored, m, ignored', m');
    GroupFromContents(g, rows, i + 1, ignored', m', k);
    LiveContents(g, rows, i, m, m', GroupFrom(g, rows, i, ignored, m), k);
  }

  /** A row that is not live writes nothing and opens no group. */
  lemma WritesSkip<K>(g: Grouping<K>, rows: seq<RowNode>, i: nat, k: K)
    requires i < |rows| && !Live(g, rows, i)
    ensures Writes(g, rows, i, k) == Writes(g, rows, i + 1, k)
    ensures KeyLater(g, rows, i, k) == KeyLater(g, rows, i + 1, k)
  {
    assert Writes(g, rows, i, k) == [] + Writes(g, rows, i + 1, k);
  }

  /** A live row writes what it visits into its own group, and nothing into the others. */
  lemma {:induction false} WritesLive<K>(g: Grouping<K>, rows: seq<RowNode>, i: nat, k: K)
    requires i < |rows| && Live(g, rows, i)
    ensures g.keyOf(rows[i].path) == k ==>
      Writes(g, rows, i, k) == Visit(g, rows, i) + Writes(g, rows, i + 1, k) && KeyLater(g, rows, i, k)
    ensures g.keyOf(rows[i].path) != k ==>
      Writes(g, rows, i, k) == Writes(g, rows, i + 1, k) && (KeyLater(g, rows, i, k) == KeyLater(g, rows, i + 1, k))
  {
    if g.keyOf(rows[i].path) != k {
      WritesOtherKey(g, rows, i, k);
    } else {
      WritesOwnKey(g, rows, i, k);
    }
  }

  /** A live row writes what it visits into its own group. */
  lemma {:induction false} WritesOwnKey<K>(g: Grouping<K>, rows: seq<RowNode>, i: nat, k: K)
    requires i < |rows| && Live(g, rows, i) && g.keyOf(rows[i].path) == k
    ensures Writes(g, rows, i, k) == Visit(g, rows, i) + Writes(g, rows, i + 1, k) && KeyLater(g, rows, i, k)
  {
  }

  /** Any row writes nothing into a group other than its own. */
  lemma {:induction false} WritesOtherKey<K>(g: Grouping<K>, rows: seq<RowNode>, i: nat, k: K)
    requires i < |rows| && g.keyOf(rows[i].path) != k
    ensures Writes(g, rows, i, k) == Writes(g, rows, i + 1, k) && (KeyLater(g, rows, i, k) == KeyLater(g, rows, i + 1, k))
  {
    NothingWritten(g, rows, i, k);
  }

  lemma {:induction false} NothingWritten<K>(g: Grouping<K>, rows: seq<RowNode>, i: nat, k: K)
    requires i < |rows| && g.keyOf(rows[i].path) != k
    ensures Writes(g, rows, i, k) == Writes(g, rows, i + 1, k)
  {
    assert Writes(g, rows, i, k) == [] + Writes(g, rows, i + 1, k);
  }

  /** The live case of `GroupFromContents`, from the next row's contents. */
  lemma LiveContents<K(!new)>(g: Grouping<K>, rows: seq<RowNode>, i: nat, m: OMap<K, Value>, m': OMap<K, Value>, r: OMap<K, Value>, k: K)
    requires i < |rows| && Live(g, rows, i)
    requires MapGet(m', g.keyOf(rows[i].path)) == Some(AddAll(MapGet(m, g.keyOf(rows[i].path)).GetOr(Obj([])), Visit(g, rows, i)))
    requires forall k' :: k' != g.keyOf(rows[i].path) ==> MapGet(m', k') == MapGet(m, k')
    requires HoldsWrites(g, rows, i + 1, r, m', k)
    ensures HoldsWrites(g, rows, i, r, m, k)
  {
    var key := g.keyOf(rows[i].path);
    WritesLive(g, rows, i, k);
    if k == key {
      var base := MapGet(m, k).GetOr(Obj([]));
      AddAllAppend(base, Visit(g, rows, i), Writes(g, rows, i + 1, k));
      if !KeyLater(g, rows, i + 1, k) {
        WritesNone(g, rows, i + 1, k);
        assert Visit(g, rows, i) + [] == Visit(g, rows, i);
      }
    }
  }

  /**
   * What a group holds: `{}` with every write into it added in loop order,
   * the live rows of that key each followed by the rows they gather; a key
   * no live row has has no group.
   */
  lemma GroupContents<K(!new)>(g: Grouping<K>, rows: seq<RowNode>, k: K)
    ensures MapGet(Group(g, rows), k) ==
      if exists j :: 0 <= j < |rows| && Live(g, rows, j) && g.keyOf(rows[j].path) == k
      then Some(AddAll(Obj([]), Writes(g, rows, 0, k)))
      else None
  {
    GroupFromContents(g, rows, 0, seq(|rows|, _ => false), [], k);
    KeyLaterIff(g, rows, 0, k);
  }

  /** Every group of `r` is `{}` with its writes added in loop order, and only live rows' keys have one. */
  ghost predicate GroupsHold<K(!new)>(g: Grouping<K>, rows: seq<RowNode>, r: OMap<K, Value>) {
    forall k :: MapGet(r, k) ==
      if exists j :: 0 <= j < |rows| && Live(g, rows, j) && g.keyOf(rows[j].path) == k
      then Some(AddAll(Obj([]), Writes(g, rows, 0, k)))
      else None
  }

  lemma GroupHolds<K(!new)>(g: Grouping<K>, rows: seq<RowNode>)
    ensures GroupsHold(g, rows, Group(g, rows))
  {
    forall k {
      GroupContents(g, rows, k);
    }
  }


  lemma VisitInOwnWrites<K>(g: Grouping<K>, rows: seq<RowNode>, j: nat, k: K, x: RowNode)
    requires j < |rows| && Live(g, rows, j) && g.keyOf(rows[j].path) == k && x in Visit(g, rows, j)
    ensures x in Writes(g, rows, j, k)
  {
    WritesLive(g, rows, j, k);
  }

  /** Everything a live row writes is among the writes into its group from any earlier row on. */
  lemma VisitInWrites<K>(g: Grouping<K>, rows: seq<RowNode>, i: nat, j: nat, k: K, x: RowNode)
    requires i <= j < |rows| && Live(g, rows, j) && g.keyOf(rows[j].path) == k && x in Visit(g, rows, j)
    ensures x in Writes(g, rows, i, k)
  {
    VisitInOwnWrites(g, rows, j, k, x);
    WritesFrom(g, rows, i, j, k, x);
  }

  /** A write from row `j` on is a write from any earlier row on. */
  lemma WritesFrom<K>(g: Grouping<K>, rows: seq<RowNode>, i: nat, j: nat, k: K, x: RowNode)
    requires i <= j < |rows| && x in Writes(g, rows, j, k)
    ensures x in Writes(g, rows, i, k)
  {
    WritesSplit(g, rows, i, j, k);
  }

  lemma AppendAssoc(a: seq<RowNode>, b: seq<RowNode>, c: seq<RowNode>)
    ensures a + (b + c) == (a + b) + c
  {
  }

  /** The writes from row `i` on: those of rows `i` to `j - 1`, then those from row `j` on. */
  lemma {:induction false} WritesSplit<K>(g: Grouping<K>, rows: seq<RowNode>, i: nat, j: nat, k: K)
    requires i <= j
    ensures exists pre :: Writes(g, rows, i, k) == pre + Writes(g, rows, j, k)
    decreases j - i
  {
    if i == j {
      assert Writes(g, rows, i, k) == [] + Writes(g, rows, j, k);
    } else {
      WritesSplit(g, rows, i + 1, j, k);
      var pre :| Writes(g, rows, i + 1, k) == pre + Writes(g, rows, j, k);
      if i < |rows| {
        var own := if Live(g, rows, i) && g.keyOf(rows[i].path) == k then Visit(g, rows, i) else [];
        assert Writes(g, rows, i, k) == own + Writes(g, rows, i + 1, k);
        AppendAssoc(own, pre, Writes(g, rows, j, k));
      } else {
        assert Writes(g, rows, i, k) == [] + Writes(g, rows, j, k);
      }
    }
  }

  /**
   * Every row lands in a group: a live row in its own, and a row that is
   * not live in the group of the earlier live row that gathered it.
   */
  lemma EveryRowWritten<K>(g: Grouping<K>, rows: seq<RowNode>, i: nat)
    requires i < |rows|
    ensures exists j :: (0 <= j <= i && Live(g, rows, j)
      && rows[i] in Writes(g, rows, 0, g.keyOf(rows[j].path)))
  {
    if Live(g, rows, i) {
      VisitInWrites(g, rows, 0, i, g.keyOf(rows[i].path), rows[i]);
    } else {
      var j :| 0 <= j < i && Live(g, rows, j) && Folds(g, rows, j, i);
      FoldedInVisit(g, rows, j, i);
      VisitInWrites(g, rows, 0, j, g.keyOf(rows[j].path), rows[i]);
    }
  }

  // ---------------------------------------------------------------------
  // Reading a group back

  /** Every write uses a target of property names. */
  predicate AllNamed(ws: seq<RowNode>) {
    forall n :: 0 <= n < |ws| ==> NamesOnly(ws[n].to)
  }

  /** Every write goes to `p` itself or to a place apart from it. */
  predicate ClearOf(ws: seq<RowNode>, p: Path) {
    forall n :: 0 <= n < |ws| ==> Concrete(ws[n].to) == p || Apart(Concrete(ws[n].to), p)
  }

  /** Every write goes to a place apart from `p`. */
  predicate AllApart(ws: seq<RowNode>, p: Path) {
    forall n :: 0 <= n < |ws| ==> Apart(Concrete(ws[n].to), p)
  }

  lemma TailNamed(ws: seq<RowNode>, p: Path)
    requires ws != []
    ensures AllNamed(ws) ==> AllNamed(ws[1..])
    ensures ClearOf(ws, p) ==> ClearOf(ws[1..], p)
    ensures AllApart(ws, p) ==> AllApart(ws[1..], p)
  {
    assert forall n :: 0 <= n < |ws[1..]| ==> ws[1..][n] == ws[n + 1];
  }

  /** Writes with targets of names keep a path of names writable when they go to it or apart from it. */
  lemma {:induction false} AddAllKeepsSettable(obj: Value, ws: seq<RowNode>, p: Path)
    requires AllNamed(ws) && ClearOf(ws, p) && Named(p) && Settable(obj, p)
    ensures Settable(AddAll(obj, ws), p)
    decreases |ws|
  {
    if ws != [] {
      var q := Concrete(ws[0].to);
      AddPropIsDeepSet(obj, ws[0].to, ws[0].value);
      NamedConcrete(ws[0].to);
      if q == p {
        SettableAfterSame(obj, p, ws[0].value);
      } else {
        SettableAfterApart(obj, q, ws[0].value, p);
      }
      TailNamed(ws, p);
      AddAllKeepsSettable(AddProp(obj, ws[0].to, ws[0].value), ws[1..], p);
    }
  }

  /** Writes apart from `p` leave what `p` reads unchanged. */
  lemma {:induction false} AddAllKeepsApart(obj: Value, ws: seq<RowNode>, p: Path)
    requires AllNamed(ws) && Named(p) && AllApart(ws, p)
    ensures Get(AddAll(obj, ws), p) == Get(obj, p)
    decreases |ws|
  {
    if ws != [] {
      NamedConcrete(ws[0].to);
      AddPropIsDeepSet(obj, ws[0].to, ws[0].value);
      DeepSetKeepsApart(obj, Concrete(ws[0].to), ws[0].value, p);
      TailNamed(ws, p);
      AddAllKeepsApart(AddProp(obj, ws[0].to, ws[0].value), ws[1..], p);
    }
  }

  /** Splitting the writes around the `n`-th one keeps their properties. */
  lemma SplitAround(ws: seq<RowNode>, n: nat, p: Path)
    requires n < |ws| && AllNamed(ws) && ClearOf(ws, p)
    requires forall n' :: n < n' < |ws| ==> Concrete(ws[n'].to) != p
    ensures ws == ws[..n] + [ws[n]] + ws[n + 1..]
    ensures AllNamed(ws[..n]) && ClearOf(ws[..n], p)
    ensures AllNamed(ws[n + 1..]) && AllApart(ws[n + 1..], p)
  {
    assert forall i :: 0 <= i < n ==> ws[..n][i] == ws[i];
    assert forall i :: n + 1 <= i < |ws| ==> ws[n + 1..][i - n - 1] == ws[i];
  }

  /**
   * With targets of property names, the `n`-th write reads back its value
   * at its target, provided every other write goes to that place or apart
   * from it, and no later write goes to the same place.
   */
  lemma AddAllReadsBack(obj: Value, ws: seq<RowNode>, n: nat)
    requires n < |ws| && AllNamed(ws)
    requires Settable(obj, Concrete(ws[n].to))
    requires ClearOf(ws, Concrete(ws[n].to))
    requires forall n' :: n < n' < |ws| ==> Concrete(ws[n'].to) != Concrete(ws[n].to)
    ensures Get(AddAll(obj, ws), Concrete(ws[n].to)) == ws[n].value
  {
    var p := Concrete(ws[n].to);
    var w := ws[n];
    NamedConcrete(w.to);
    SplitAround(ws, n, p);
    var pre, post := ws[..n], ws[n + 1..];
    AddAllAppend(obj, pre + [w], post);
    AddAllAppend(obj, pre, [w]);
    AddAllKeepsSettable(obj, pre, p);
    var before := AddAll(obj, pre);
    var after := AddAll(before, [w]);
    assert after == AddProp(before, w.to, w.value);
    AddPropIsDeepSet(before, w.to, w.value);
    GetAfterSet(before, p, w.value);
    AddAllKeepsApart(after, post, p);
  }

  /** `{}` can take a write at any path of names. */
  lemma SettableEmpty(p: Path)
    requires Named(p)
    ensures Settable(Obj([]), p)
  {
    if p != [] {
      SettableFalsy(Undefined, p[1..]);
      assert Child([], p[0].name) == Undefined;
    }
  }

  /**
   * In the group of key `k`, a row written with a target of names reads
   * back its value there, unless a later write into the group goes to the
   * same place; every other write must go there or apart from it.
   */
  lemma GroupReadsBack<K(!new)>(g: Grouping<K>, rows: seq<RowNode>, k: K, n: nat)
    requires n < |Writes(g, rows, 0, k)|
    requires AllNamed(Writes(g, rows, 0, k))
    requires ClearOf(Writes(g, rows, 0, k), Concrete(Writes(g, rows, 0, k)[n].to))
    requires forall n' :: n < n' < |Writes(g, rows, 0, k)| ==>
      Concrete(Writes(g, rows, 0, k)[n'].to) != Concrete(Writes(g, rows, 0, k)[n].to)
    ensures MapGet(Group(g, rows), k).Some?
    ensures Get(MapGet(Group(g, rows), k).value, Concrete(Writes(g, rows, 0, k)[n].to)) == Writes(g, rows, 0, k)[n].value
  {
    var ws := Writes(g, rows, 0, k);
    if !KeyLater(g, rows, 0, k) {
      WritesNone(g, rows, 0, k);
    }
    KeyLaterIff(g, rows, 0, k);
    GroupContents(g, rows, k);
    NamedConcrete(ws[n].to);
    SettableEmpty(Concrete(ws[n].to));
    AddAllReadsBack(Obj([]), ws, n);
  }
}
