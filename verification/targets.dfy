/**
 * The write side of the mapper: target paths, the query the path library
 * runs on an output object, its deep `value` setter, and the assembly
 * primitives built on them (`addProp`, `mergeObjArr`, `Object.assign`).
 *
 * A target is modelled already parsed into segments: `.name`, `[n]`, `[*]`
 * and the mapper's own `[]` marker. Property names in targets are assumed
 * to contain none of the characters `.`, `[`, `]`, `*`.
 */
module Targets {
  import opened Wrappers
  import opened Values

  datatype TSeg = TKey(name: string) | TIdx(index: nat) | TStar | TEmpty

  type Target = seq<TSeg>

  /** The string form of a target, `$` followed by its segments. */
  function Render(t: Target): string {
    if t == [] then "$" else Render(t[..|t| - 1]) + RenderSeg(t[|t| - 1])
  }

  function RenderSeg(s: TSeg): string {
    match s
    case TKey(k) => "." + k
    case TIdx(i) => "[" + NatToString(i) + "]"
    case TStar => "[*]"
    case TEmpty => "[]"
  }

  /** `to.includes("[") && to.includes("]")`. */
  predicate HasBrackets(t: Target) {
    exists i :: 0 <= i < |t| && !t[i].TKey?
  }

  /** `to.includes("[]")`. */
  predicate HasEmpty(t: Target) {
    TEmpty in t
  }

  /** `replaceAll("[]", ...)`: every `[]` becomes `s`. */
  function ReplaceEmpty(t: Target, s: TSeg): (r: Target)
    ensures |r| == |t|
    ensures forall i :: 0 <= i < |t| ==> r[i] == (if t[i] == TEmpty then s else t[i])
  {
    seq(|t|, i requires 0 <= i < |t| => if t[i] == TEmpty then s else t[i])
  }

  /**
   * `to.substring(0, to.lastIndexOf(m) + |m|)` for a bracket marker `m`: up
   * to and including the last occurrence of `s`; just `$` when there is none.
   */
  function TruncAfterLast(t: Target, s: TSeg): (r: Target)
    ensures r <= t
    ensures s in t ==> |r| > 0 && r[|r| - 1] == s && s !in t[|r|..]
    ensures s !in t ==> r == []
  {
    if t == [] then []
    else if t[|t| - 1] == s then t
    else
      var r := TruncAfterLast(t[..|t| - 1], s);
      assert t[..|t| - 1][|r|..] + [t[|t| - 1]] == t[|r|..];
      r
  }

  /** Every rendered target starts with the root `$`. */
  lemma {:induction false} RenderedFromRoot(t: Target)
    ensures |Render(t)| >= 1 && Render(t)[0] == '$'
    decreases |t|
  {
    if t != [] {
      RenderedFromRoot(t[..|t| - 1]);
    }
  }

  /** A prefix of a target renders as a prefix of its string. */
  lemma {:induction false} RenderPrefix(a: Target, b: Target)
    requires a <= b
    ensures Render(a) <= Render(b)
    decreases |b|
  {
    if |a| < |b| {
      var b' := b[..|b| - 1];
      assert a <= b';
      RenderPrefix(a, b');
      assert Render(b) == Render(b') + RenderSeg(b[|b| - 1]);
    } else {
      assert a == b;
    }
  }

  /**
   * The merge prop of `src/main.ts`, `to.substring(0, to.lastIndexOf("[]") + 2)`,
   * on the rendered target: a prefix of it, ending with its last `[]`, or
   * its first character `$` when it has no `[]`.
   */
  lemma MergePropRendered(to: Target)
    ensures Render(TruncAfterLast(to, TEmpty)) <= Render(to)
    ensures TEmpty !in to ==> Render(TruncAfterLast(to, TEmpty)) == Render(to)[..1] == "$"
    ensures TEmpty in to ==>
      var s := Render(TruncAfterLast(to, TEmpty));
      |s| >= 2 && s[|s| - 2..] == "[]"
  {
    var r := TruncAfterLast(to, TEmpty);
    RenderPrefix(r, to);
    RenderedFromRoot(to);
    if TEmpty in to {
      assert Render(r) == Render(r[..|r| - 1]) + "[]";
    }
  }

  /** Replacing a marker that does not occur changes nothing. */
  lemma ReplaceAbsent(t: Target, s: TSeg)
    requires TEmpty !in t
    ensures ReplaceEmpty(t, s) == t
  {
  }

  /**
   * After `replaceAll("[]", s)` no `[]` is left unless `s` is `[]` itself,
   * and a target without `[]` comes back unchanged.
   */
  lemma ReplaceEmptyClears(t: Target, s: TSeg)
    ensures s != TEmpty ==> TEmpty !in ReplaceEmpty(t, s)
    ensures TEmpty !in t ==> ReplaceEmpty(t, s) == t
  {
    if TEmpty !in t {
      ReplaceAbsent(t, s);
    }
  }

  /** Replace the last `[*]` by `[0]` (the `lastIndexOf("*")` fallback of `addProp`). */
  function ReplaceLastStar(t: Target): (r: Target)
    ensures |r| == |t|
  {
    if t == [] then []
    else if t[|t| - 1] == TStar then t[..|t| - 1] + [TIdx(0)]
    else ReplaceLastStar(t[..|t| - 1]) + [t[|t| - 1]]
  }

  /**
   * The components the path library's `_vivify` walks when nothing matches:
   * a name or index as such, a wildcard as the property name `*`.
   */
  function Concrete(t: Target): (p: Path)
    ensures |p| == |t|
  {
    seq(|t|, i requires 0 <= i < |t| =>
      match t[i]
      case TKey(k) => Key(k)
      case TIdx(n) => Idx(n)
      case TStar => Key("*")
      case TEmpty => Idx(0))
  }

  // ---------------------------------------------------------------------
  // Reading an output object

  /** A query match: the concrete path below the root and the value found there. */
  datatype Match = Match(path: Path, value: Value)

  function Under(s: Seg, ms: seq<Match>): (r: seq<Match>)
    ensures |r| == |ms|
    ensures forall i :: 0 <= i < |ms| ==> r[i] == Match([s] + ms[i].path, ms[i].value)
  {
    seq(|ms|, i requires 0 <= i < |ms| => Match([s] + ms[i].path, ms[i].value))
  }

  function Child(fs: seq<Field>, k: string): Value {
    Lookup(fs, k).GetOr(Undefined)
  }

  function At(es: seq<Value>, i: int): Value {
    if 0 <= i < |es| then es[i] else Undefined
  }

  /**
   * `jp.nodes(obj, t)` for the target grammar: names, indices and wildcards;
   * absent and `undefined` members match nothing, `[*]` walks array
   * elements or object values in order.
   */
  function Query(v: Value, t: Target): seq<Match>
    decreases |t|, 0
  {
    if t == [] then [Match([], v)]
    else
      match t[0]
      case TKey(k) =>
        if v.Obj? && Child(v.fields, k) != Undefined then Under(Key(k), Query(Child(v.fields, k), t[1..]))
        else []
      case TIdx(i) =>
        if v.Arr? && At(v.elems, i) != Undefined then Under(Idx(i), Query(v.elems[i], t[1..]))
        else []
      case TStar =>
        if v.Arr? then QueryElems(v.elems, 0, t[1..])
        else if v.Obj? then QueryFields(v.fields, t[1..])
        else []
      case TEmpty => []
  }

  function QueryElems(es: seq<Value>, i: nat, rest: Target): seq<Match>
    requires i <= |es|
    decreases |rest|, 1, |es| - i
  {
    if i == |es| then []
    else
      (if es[i] == Undefined then [] else Under(Idx(i), Query(es[i], rest)))
      + QueryElems(es, i + 1, rest)
  }

  function QueryFields(fs: seq<Field>, rest: Target): seq<Match>
    decreases |rest|, 1, |fs|
  {
    if fs == [] then []
    else
      (if fs[0].val == Undefined then [] else Under(Key(fs[0].key), Query(fs[0].val, rest)))
      + QueryFields(fs[1..], rest)
  }

  /** `jp.query(obj, t)`: the values of the matches. */
  function QueryValues(v: Value, t: Target): (r: seq<Value>)
    ensures |r| == |Query(v, t)|
  {
    var ms := Query(v, t);
    seq(|ms|, i requires 0 <= i < |ms| => ms[i].value)
  }

  /** The value at a concrete path, `undefined` when any step is missing. */
  function Get(doc: Value, p: Path): Value
    decreases |p|
  {
    if p == [] then doc
    else
      match p[0]
      case Key(k) => if doc.Obj? then Get(Child(doc.fields, k), p[1..]) else Undefined
      case Idx(i) =>
        if doc.Arr? && i >= 0 then Get(At(doc.elems, i), p[1..])
        else if doc.Obj? then Get(Child(doc.fields, IntToString(i)), p[1..])
        else Undefined
  }

  // ---------------------------------------------------------------------
  // Writing into an output object

  /** The container `_vivify` creates for a missing step: an object before a name, an array before an index. */
  function Fresh(s: Seg): Value {
    if s.Key? then Obj([]) else Arr([])
  }

  /** `arr[i] = x`, growing the array with holes when `i` is past its end. */
  function SetAt(es: seq<Value>, i: nat, x: Value): (r: seq<Value>)
    ensures |r| == if i < |es| then |es| else i + 1
    ensures r[i] == x
    ensures forall j :: 0 <= j < |es| && j != i ==> r[j] == es[j]
  {
    if i < |es| then es[i := x] else es + seq(i - |es|, _ => Undefined) + [x]
  }

  /**
   * The deep setter (`jp.value(obj, path, value)`): a falsy step is replaced
   * by a fresh container, an existing object or array is updated in place,
   * and a step into any other value is silently ignored as JavaScript's
   * property assignment on a primitive is.
   */
  function DeepSet(doc: Value, p: Path, v: Value): Value
    decreases |p|
  {
    if p == [] then v
    else
      var base := if Truthy(doc) then doc else Fresh(p[0]);
      match p[0]
      case Key(k) =>
        if base.Obj? then Obj(Put(base.fields, k, DeepSet(Child(base.fields, k), p[1..], v)))
        else base
      case Idx(i) =>
        if base.Arr? && i >= 0 then Arr(SetAt(base.elems, i, DeepSet(At(base.elems, i), p[1..], v)))
        else if base.Obj? then
          Obj(Put(base.fields, IntToString(i), DeepSet(Child(base.fields, IntToString(i)), p[1..], v)))
        else base
  }

  /** Every step of `p` is, or will be made, a container of the kind the next segment needs. */
  predicate Settable(doc: Value, p: Path)
    decreases |p|
  {
    if p == [] then true
    else
      var base := if Truthy(doc) then doc else Fresh(p[0]);
      match p[0]
      case Key(k) => base.Obj? && Settable(Child(base.fields, k), p[1..])
      case Idx(i) =>
        if base.Arr? && i >= 0 then Settable(At(base.elems, i), p[1..])
        else base.Obj? && Settable(Child(base.fields, IntToString(i)), p[1..])
  }

  /** Reading back what the deep setter wrote yields the value written. */
  lemma {:induction false} GetAfterSet(doc: Value, p: Path, v: Value)
    requires Settable(doc, p)
    ensures Get(DeepSet(doc, p, v), p) == v
    decreases |p|
  {
    if p != [] {
      var base := if Truthy(doc) then doc else Fresh(p[0]);
      match p[0]
      case Key(k) =>
        GetAfterSet(Child(base.fields, k), p[1..], v);
        ThroughName(doc, p, v, k);
      case Idx(i) =>
        if base.Arr? && i >= 0 {
          GetAfterSet(At(base.elems, i), p[1..], v);
          ThroughElement(doc, p, v, i);
        } else {
          GetAfterSet(Child(base.fields, IntToString(i)), p[1..], v);
          ThroughName(doc, p, v, IntToString(i));
        }
    }
  }

  /** One step of `GetAfterSet` through a property: reading back under the name reads back below it. */
  lemma ThroughName(doc: Value, p: Path, v: Value, k: string)
    requires p != [] && (p[0] == Key(k) || (p[0].Idx? && IntToString(p[0].index) == k))
    requires var base := if Truthy(doc) then doc else Fresh(p[0]);
      base.Obj?
      && Get(DeepSet(Child(base.fields, k), p[1..], v), p[1..]) == v
    ensures Get(DeepSet(doc, p, v), p) == v
  {
  }

  /** One step of `GetAfterSet` through an array element. */
  lemma ThroughElement(doc: Value, p: Path, v: Value, i: int)
    requires p != [] && p[0] == Idx(i)
    requires var base := if Truthy(doc) then doc else Fresh(p[0]);
      base.Arr? && i >= 0 && Get(DeepSet(At(base.elems, i), p[1..], v), p[1..]) == v
    ensures Get(DeepSet(doc, p, v), p) == v
  {
  }

  /** Writing below one property of an object leaves every other property as it was. */
  lemma DeepSetKeepsSiblings(fs: seq<Field>, k: string, rest: Path, v: Value, k': string)
    requires k' != k
    ensures DeepSet(Obj(fs), [Key(k)] + rest, v).Obj?
    ensures Lookup(DeepSet(Obj(fs), [Key(k)] + rest, v).fields, k') == Lookup(fs, k')
  {
    assert ([Key(k)] + rest)[1..] == rest;
  }

  /**
   * `addProp` core shared by all variants (`jp.nodes`, the wildcard fallback
   * and `jp.value`): when the target matches, the first match is
   * overwritten; otherwise the last `[*]` is read as `[0]` and the path is
   * created.
   */
  function SetTarget(obj: Value, t: Target, v: Value): Value {
    var t' := if Query(obj, t) == [] then ReplaceLastStar(t) else t;
    var ms := Query(obj, t');
    if ms != [] then DeepSet(obj, ms[0].path, v) else DeepSet(obj, Concrete(t'), v)
  }

  /** `addProp` of `src/main.ts` and `src/index.ts`: `[]` in the key first becomes `[0]`. */
  function AddProp(obj: Value, t: Target, v: Value): Value {
    SetTarget(obj, ReplaceEmpty(t, TIdx(0)), v)
  }

  /** A target made of property names only. */
  predicate NamesOnly(t: Target) {
    forall i :: 0 <= i < |t| ==> t[i].TKey?
  }

  lemma {:induction false} NamesOnlyQuery(v: Value, t: Target)
    requires NamesOnly(t)
    ensures Query(v, t) == [] || Query(v, t) == [Match(Concrete(t), Get(v, Concrete(t)))]
    decreases |t|
  {
    if t != [] {
      var k := t[0].name;
      if v.Obj? && Child(v.fields, k) != Undefined {
        NamesOnlyQuery(Child(v.fields, k), t[1..]);
        assert Concrete(t) == [Key(k)] + Concrete(t[1..]);
      }
    }
  }

  /**
   * `addProp` with a target of property names writes the value at exactly
   * that path, whether or not the path existed before.
   */
  lemma AddPropNamesOnly(obj: Value, t: Target, v: Value)
    requires NamesOnly(t)
    requires Settable(obj, Concrete(t))
    ensures Get(AddProp(obj, t, v), Concrete(t)) == v
  {
    var t0 := ReplaceEmpty(t, TIdx(0));
    assert t0 == t;
    NamesOnlyQuery(obj, t);
    if Query(obj, t) == [] {
      assert ReplaceLastStar(t) == t by {
        NoStarUnchanged(t);
      }
    }
    GetAfterSet(obj, Concrete(t), v);
  }

  /** A concrete path made of property names only. */
  predicate Named(p: Path) {
    forall i :: 0 <= i < |p| ==> p[i].Key?
  }

  /** Neither path is a prefix of the other: they lead to disjoint places. */
  predicate Apart(p: Path, q: Path) {
    !(p <= q) && !(q <= p)
  }

  lemma NamedConcrete(t: Target)
    requires NamesOnly(t)
    ensures Named(Concrete(t))
  {
  }

  /** With a target of names `addProp` is the deep setter at that path, whatever the object holds. */
  lemma AddPropIsDeepSet(obj: Value, t: Target, v: Value)
    requires NamesOnly(t)
    ensures AddProp(obj, t, v) == DeepSet(obj, Concrete(t), v)
  {
    assert ReplaceEmpty(t, TIdx(0)) == t;
    NamesOnlyQuery(obj, t);
    if Query(obj, t) == [] {
      NoStarUnchanged(t);
    }
  }

  /** Every path of names can be written into a falsy value, which the setter replaces by `{}`. */
  lemma {:induction false} SettableFalsy(doc: Value, p: Path)
    requires Named(p) && !Truthy(doc)
    ensures Settable(doc, p)
    decreases |p|
  {
    if p != [] {
      SettableFalsy(Undefined, p[1..]);
    }
  }

  /** What the setter, the writability test and the reader do at the first name of a path. */
  function Base(doc: Value, s: Seg): Value {
    if Truthy(doc) then doc else Fresh(s)
  }

  lemma NamedHead(doc: Value, p: Path, v: Value)
    requires Named(p) && p != []
    ensures Base(doc, p[0]).Obj? ==>
      DeepSet(doc, p, v) == Obj(Put(Base(doc, p[0]).fields, p[0].name, DeepSet(Child(Base(doc, p[0]).fields, p[0].name), p[1..], v)))
    ensures !Base(doc, p[0]).Obj? ==> DeepSet(doc, p, v) == Base(doc, p[0])
    ensures Settable(doc, p) <==> Base(doc, p[0]).Obj? && Settable(Child(Base(doc, p[0]).fields, p[0].name), p[1..])
  {
  }

  lemma GetHead(doc: Value, p: Path)
    requires Named(p) && p != []
    ensures Get(doc, p) == if doc.Obj? then Get(Child(doc.fields, p[0].name), p[1..]) else Undefined
  {
  }

  /** Below a falsy value the reader finds `undefined` and the setter starts from `{}`. */
  lemma GetBase(doc: Value, p: Path)
    requires Named(p) && p != []
    ensures Base(doc, p[0]).Obj? ==> Get(doc, p) == Get(Child(Base(doc, p[0]).fields, p[0].name), p[1..])
  {
    GetHead(doc, p);
    GetUndefined(p[1..]);
  }

  /** Writing a path keeps it writable. */
  lemma {:induction false} SettableAfterSame(doc: Value, p: Path, v: Value)
    requires Named(p) && Settable(doc, p)
    ensures Settable(DeepSet(doc, p, v), p)
    decreases |p|
  {
    if p != [] {
      var base := Base(doc, p[0]);
      var k := p[0].name;
      NamedHead(doc, p, v);
      SettableAfterSame(Child(base.fields, k), p[1..], v);
      NamedHead(DeepSet(doc, p, v), p, v);
    }
  }

  /** Two paths apart that start with the same name are apart after it. */
  lemma ApartTails(p: Path, q: Path)
    requires Apart(p, q) && p[0] == q[0]
    ensures Apart(p[1..], q[1..])
  {
    assert p == [p[0]] + p[1..] && q == [q[0]] + q[1..];
  }

  /** Writing a path apart from `p` keeps `p` writable. */
  lemma {:induction false} SettableAfterApart(doc: Value, q: Path, v: Value, p: Path)
    requires Named(p) && Named(q) && Apart(p, q) && Settable(doc, p)
    ensures Settable(DeepSet(doc, q, v), p)
    decreases |p|
  {
    NamedHead(doc, p, v);
    if p[0] == q[0] {
      ApartTails(p, q);
      SettableAfterApart(Child(Base(doc, p[0]).fields, p[0].name), q[1..], v, p[1..]);
      SettableBelow(doc, q, v, p);
    } else {
      SettableBeside(doc, q, v, p);
    }
  }

  /** The same-name step of `SettableAfterApart`. */
  lemma SettableBelow(doc: Value, q: Path, v: Value, p: Path)
    requires Named(p) && Named(q) && p != [] && q != [] && p[0] == q[0]
    requires Base(doc, p[0]).Obj?
    requires Settable(DeepSet(Child(Base(doc, p[0]).fields, p[0].name), q[1..], v), p[1..])
    ensures Settable(DeepSet(doc, q, v), p)
  {
    NamedHead(doc, q, v);
    NamedHead(DeepSet(doc, q, v), p, v);
  }

  /** The other-name step of `SettableAfterApart`. */
  lemma SettableBeside(doc: Value, q: Path, v: Value, p: Path)
    requires Named(p) && Named(q) && p != [] && q != [] && p[0] != q[0]
    requires Base(doc, p[0]).Obj? && Settable(Child(Base(doc, p[0]).fields, p[0].name), p[1..])
    ensures Settable(DeepSet(doc, q, v), p)
  {
    NamedHead(doc, q, v);
    NamedHead(DeepSet(doc, q, v), p, v);
    assert Base(doc, q[0]) == Base(doc, p[0]);
  }

  /** Reading along a path of names below `undefined` finds `undefined`. */
  lemma GetUndefined(p: Path)
    requires Named(p)
    ensures Get(Undefined, p) == Undefined
  {
  }

  /** Writing a path apart from `p` leaves what `p` reads unchanged. */
  lemma {:induction false} DeepSetKeepsApart(doc: Value, q: Path, v: Value, p: Path)
    requires Named(p) && Named(q) && Apart(p, q)
    ensures Get(DeepSet(doc, q, v), p) == Get(doc, p)
    decreases |p|
  {
    NamedHead(doc, q, v);
    if !Base(doc, q[0]).Obj? {
      assert DeepSet(doc, q, v) == doc;
    } else if p[0] == q[0] {
      ApartTails(p, q);
      DeepSetKeepsApart(Child(Base(doc, q[0]).fields, q[0].name), q[1..], v, p[1..]);
      GetBelow(doc, q, v, p);
    } else {
      GetBeside(doc, q, v, p);
    }
  }

  /** The same-name step of `DeepSetKeepsApart`. */
  lemma GetBelow(doc: Value, q: Path, v: Value, p: Path)
    requires Named(p) && Named(q) && |p| >= 2 && q != [] && p[0] == q[0]
    requires Base(doc, q[0]).Obj?
    requires var c := Child(Base(doc, q[0]).fields, q[0].name); Get(DeepSet(c, q[1..], v), p[1..]) == Get(c, p[1..])
    ensures Get(DeepSet(doc, q, v), p) == Get(doc, p)
  {
    NamedHead(doc, q, v);
    GetBase(doc, p);
    GetHead(DeepSet(doc, q, v), p);
  }

  /** The other-name step of `DeepSetKeepsApart`. */
  lemma GetBeside(doc: Value, q: Path, v: Value, p: Path)
    requires Named(p) && Named(q) && p != [] && q != [] && p[0] != q[0]
    requires Base(doc, q[0]).Obj?
    ensures Get(DeepSet(doc, q, v), p) == Get(doc, p)
  {
    NamedHead(doc, q, v);
    GetBase(doc, p);
    GetHead(DeepSet(doc, q, v), p);
    assert Base(doc, q[0]) == Base(doc, p[0]);
  }

  lemma {:induction false} NoStarUnchanged(t: Target)
    requires TStar !in t
    ensures ReplaceLastStar(t) == t
  {
    if t != [] {
      NoStarUnchanged(t[..|t| - 1]);
    }
  }

  /**
   * `addProp(obj, "$.k[]", v)` on an object without `k` creates the
   * one-element array `[v]` under `k` after all existing properties.
   */
  lemma SetTargetNoMatch(obj: Value, t: Target, v: Value)
    requires TStar !in t && Query(obj, t) == []
    ensures SetTarget(obj, t, v) == DeepSet(obj, Concrete(t), v)
  {
    NoStarUnchanged(t);
  }

  lemma DeepSetKeyZero(fs: seq<Field>, k: string, v: Value)
    requires k !in Keys(fs)
    ensures DeepSet(Obj(fs), [Key(k), Idx(0)], v) == Obj(Put(fs, k, Arr([v])))
  {
    DeepSetKeyStep(fs, k, [Idx(0)], v);
    assert [Key(k)] + [Idx(0)] == [Key(k), Idx(0)];
    assert Child(fs, k) == Undefined;
    DeepSetZeroFresh(v);
  }

  lemma DeepSetKeyStep(fs: seq<Field>, k: string, rest: Path, v: Value)
    ensures DeepSet(Obj(fs), [Key(k)] + rest, v) == Obj(Put(fs, k, DeepSet(Child(fs, k), rest, v)))
  {
    assert ([Key(k)] + rest)[0] == Key(k);
    assert ([Key(k)] + rest)[1..] == rest;
  }

  lemma DeepSetZeroFresh(v: Value)
    ensures DeepSet(Undefined, [Idx(0)], v) == Arr([v])
  {
    assert [Idx(0)][1..] == [];
    assert DeepSet(Undefined, [], v) == v;
    assert SetAt([], 0, v) == [v];
  }

  lemma AddPropArrayMarker(fs: seq<Field>, k: string, v: Value)
    requires k !in Keys(fs)
    ensures AddProp(Obj(fs), [TKey(k), TEmpty], v) == Obj(Put(fs, k, Arr([v])))
  {
    var t := [TKey(k), TIdx(0)];
    assert ReplaceEmpty([TKey(k), TEmpty], TIdx(0)) == t;
    assert Child(fs, k) == Undefined;
    assert Query(Obj(fs), t) == [];
    SetTargetNoMatch(Obj(fs), t, v);
    assert Concrete(t) == [Key(k), Idx(0)];
    DeepSetKeyZero(fs, k, v);
  }

  // ---------------------------------------------------------------------
  // Merging rows and overlaying common properties

  /** The in-order concatenation of every object's matches for `p`. */
  function CollectAll(objs: seq<Value>, p: Target): seq<Value> {
    if objs == [] then [] else QueryValues(objs[0], p) + CollectAll(objs[1..], p)
  }

  /**
   * `mergeObjArr` (all variants): the first object (or `{}` when there is
   * none), with the `[]` field replaced by the in-order concatenation of
   * that field's elements across all objects. `src/index.js` and the root
   * `index.js` assume a non-empty list and otherwise agree with this.
   */
  function MergeObjArr(objs: seq<Value>, prop: Target): Value {
    var first := if objs == [] then Obj([]) else objs[0];
    var p := ReplaceEmpty(prop, TStar);
    var collected := CollectAll(objs, p);
    var to := if |p| > 0 && p[|p| - 1] == TStar then p[..|p| - 1] else p;
    AddProp(first, to, Arr(collected))
  }

  /** The defined elements of an array-valued property, as `$.k[*]` reads them. */
  function ElemsOf(v: Value, k: string): seq<Value> {
    QueryValues(v, [TKey(k), TStar])
  }

  /** The in-order concatenation of `ElemsOf(objs[i], k)`. */
  function ConcatElems(objs: seq<Value>, k: string): seq<Value> {
    if objs == [] then [] else ElemsOf(objs[0], k) + ConcatElems(objs[1..], k)
  }

  lemma {:induction false} CollectIsConcat(objs: seq<Value>, k: string)
    ensures CollectAll(objs, [TKey(k), TStar]) == ConcatElems(objs, k)
  {
    if objs != [] {
      CollectIsConcat(objs[1..], k);
    }
  }

  lemma QueryTopKey(fs: seq<Field>, k: string)
    ensures Query(Obj(fs), [TKey(k)]) == if Child(fs, k) != Undefined then [Match([Key(k)], Child(fs, k))] else []
  {
    var t := [TKey(k)];
    assert t[1..] == [];
    if Child(fs, k) != Undefined {
      assert Query(Child(fs, k), []) == [Match([], Child(fs, k))];
      assert Query(Obj(fs), t) == Under(Key(k), Query(Child(fs, k), []));
      assert [Key(k)] + [] == [Key(k)];
      assert Under(Key(k), [Match([], Child(fs, k))])[0] == Match([Key(k)], Child(fs, k));
    }
  }

  lemma DeepSetTopKey(fs: seq<Field>, k: string, v: Value)
    ensures DeepSet(Obj(fs), [Key(k)], v) == Obj(Put(fs, k, v))
  {
    assert [Key(k)][1..] == [];
  }

  lemma SetTopKey(fs: seq<Field>, k: string, v: Value)
    ensures SetTarget(Obj(fs), [TKey(k)], v) == Obj(Put(fs, k, v))
  {
    var t := [TKey(k)];
    NoStarUnchanged(t);
    assert Concrete(t) == [Key(k)];
    DeepSetTopKey(fs, k, v);
    QueryTopKey(fs, k);
  }

  /**
   * Merging on a top-level `k[]` field keeps the first object and sets its
   * `k` to the concatenation, in order, of every object's `k` elements.
   */
  lemma MergeTopLevelField(objs: seq<Value>, k: string)
    requires objs == [] || objs[0].Obj?
    ensures var first := if objs == [] then [] else objs[0].fields;
      MergeObjArr(objs, [TKey(k), TEmpty]) == Obj(Put(first, k, Arr(ConcatElems(objs, k))))
  {
    var p := ReplaceEmpty([TKey(k), TEmpty], TStar);
    assert p == [TKey(k), TStar];
    assert p[..1] == [TKey(k)];
    CollectIsConcat(objs, k);
    var first := if objs == [] then [] else objs[0].fields;
    assert ReplaceEmpty([TKey(k)], TIdx(0)) == [TKey(k)];
    SetTopKey(first, k, Arr(ConcatElems(objs, k)));
  }

  /** `mergeObjArr` of at most one merged object and one more group on a top-level `k[]`. */
  lemma MergeOneMore(held: seq<Value>, found: Value, k: string)
    requires found.Obj? && (held == [] || (|held| == 1 && held[0].Obj?))
    ensures var first := if held == [] then found else held[0];
      var before := if held == [] then [] else ElemsOf(held[0], k);
      MergeObjArr(held + [found], [TKey(k), TEmpty]) == Obj(Put(first.fields, k, Arr(before + ElemsOf(found, k))))
  {
    var objs := held + [found];
    assert objs[0] == if held == [] then found else held[0];
    MergeTopLevelField(objs, k);
    ConcatOneMore(held, found, k);
  }

  lemma ConcatOneMore(held: seq<Value>, found: Value, k: string)
    requires |held| <= 1
    ensures ConcatElems(held + [found], k) == (if held == [] then [] else ElemsOf(held[0], k)) + ElemsOf(found, k)
  {
    var objs := held + [found];
    if held == [] {
      assert objs[1..] == [];
      assert ConcatElems(objs, k) == ElemsOf(found, k) + [];
    } else {
      assert objs[1..] == [found] && objs[1..][1..] == [];
      assert ConcatElems(objs[1..], k) == ElemsOf(found, k) + [];
    }
  }

  /** `Object.assign(obj, common)`: every property of `common` is copied onto `obj` in order. */
  function Assign(obj: Value, common: Value): Value {
    if obj.Obj? && common.Obj? then Obj(PutAll(obj.fields, common.fields)) else obj
  }

  function PutAll(fs: seq<Field>, src: seq<Field>): seq<Field>
    decreases |src|
  {
    if src == [] then fs else PutAll(Put(fs, src[0].key, src[0].val), src[1..])
  }

  /** After the overlay each property of `common` reads as in `common`, and every other property as before. */
  lemma {:induction false} PutAllLookup(fs: seq<Field>, src: seq<Field>, k: string)
    requires UniqueKeys(src)
    ensures Lookup(PutAll(fs, src), k) == if k in Keys(src) then Lookup(src, k) else Lookup(fs, k)
    decreases |src|
  {
    if src != [] {
      PutAllLookup(Put(fs, src[0].key, src[0].val), src[1..], k);
    }
  }

  lemma AssignOverlays(obj: seq<Field>, common: seq<Field>, k: string)
    requires UniqueKeys(common)
    ensures Assign(Obj(obj), Obj(common)).Obj?
    ensures Lookup(Assign(Obj(obj), Obj(common)).fields, k)
      == if k in Keys(common) then Lookup(common, k) else Lookup(obj, k)
  {
    PutAllLookup(obj, common, k);
  }
}
