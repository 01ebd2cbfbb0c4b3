/**
 * The `src/index.ts` variant of `mapObj`. It has no grammar; instead each
 * rule is checked on its own: bracket syntax in the target, the shape of
 * a transform array, and a "default value" classification that treats
 * everything but `$.`-paths as a literal to be deep-copied. Resolution of
 * paths, transforms and the assembly after rule collection are those of
 * `src/main.ts`.
 */
module IndexTs {
  import opened Wrappers
  import opened Values
  import opened Validators
  import opened Targets
  import opened Engine
  import Batch

  // ---------------------------------------------------------------------
  // String helpers with JavaScript semantics

  /** `s.indexOf(c)`: the first position of `c`, or -1. */
  function IndexOf(s: string, c: char): (r: int)
    ensures -1 <= r < |s|
    ensures r >= 0 ==> s[r] == c && forall p :: 0 <= p < r ==> s[p] != c
    ensures r == -1 ==> forall p :: 0 <= p < |s| ==> s[p] != c
  {
    IndexFrom(s, c, 0)
  }

  function IndexFrom(s: string, c: char, k: nat): (r: int)
    requires k <= |s|
    ensures -1 <= r < |s|
    ensures r >= 0 ==> k <= r && s[r] == c && forall p :: k <= p < r ==> s[p] != c
    ensures r == -1 ==> forall p :: k <= p < |s| ==> s[p] != c
    decreases |s| - k
  {
    if k == |s| then -1
    else if s[k] == c then k
    else IndexFrom(s, c, k + 1)
  }

  /** `s.at(i)`: a negative index counts from the end; out of range is `undefined`. */
  function CharAt(s: string, i: int): (r: Option<char>)
    ensures -|s| <= i < 0 ==> r == Some(s[i + |s|])
    ensures 0 <= i < |s| ==> r == Some(s[i])
    ensures (i < -|s| || i >= |s|) ==> r == None
  {
    var j := if i < 0 then i + |s| else i;
    if 0 <= j < |s| then Some(s[j]) else None
  }

  function StartsWith(s: string, prefix: string): bool {
    |prefix| <= |s| && s[..|prefix|] == prefix
  }

  // ---------------------------------------------------------------------
  // Target bracket syntax

  const ClosingExpected := "Expecting closing ']' after '['"
  const OpeningExpected := "Expecting openning '[' before ']'"

  /** `keyHasValidBrackets`: `true`, or the message it throws. */
  function KeyHasValidBrackets(s: string): (r: Result<bool, string>)
    ensures r.Ok? ==> r.value
    ensures r.Err? ==> r.error == ClosingExpected || r.error == OpeningExpected
    decreases |s|
  {
    var i := IndexOf(s, '[');
    if i >= 0 && CharAt(s, i + 1) != Some(']') then Err(ClosingExpected)
    else
      var j := IndexOf(s, ']');
      if j >= 0 && CharAt(s, j - 1) != Some('[') then Err(OpeningExpected)
      else if 0 < j + 1 < |s| then KeyHasValidBrackets(s[j + 1..])
      else Ok(true)
  }

  /** Every `[` is immediately followed by `]` and every `]` immediately preceded by `[`. */
  predicate Paired(s: string) {
    forall p :: 0 <= p < |s| ==> PairedAt(s, p)
  }

  predicate PairedAt(s: string, p: nat)
    requires p < |s|
  {
    (s[p] == '[' ==> p + 1 < |s| && s[p + 1] == ']')
    && (s[p] == ']' ==> p > 0 && s[p - 1] == '[')
  }

  /** `keyIncludesBrackets`. */
  predicate IncludesBrackets(s: string) {
    '[' in s || ']' in s
  }

  lemma PairedSuffix(s: string, k: nat)
    requires Paired(s) && 0 < k < |s| && s[k - 1] == ']'
    ensures Paired(s[k..])
  {
    var t := s[k..];
    forall p | 0 <= p < |t|
      ensures PairedAt(t, p)
    {
      var q := k + p;
      assert PairedAt(s, q);
      assert t[p] == s[q];
      if p + 1 < |t| {
        assert t[p + 1] == s[k + p + 1];
      }
      if p > 0 {
        assert t[p - 1] == s[k + p - 1];
      }
    }
  }

  lemma {:induction false} PairedPasses(s: string)
    requires Paired(s)
    ensures KeyHasValidBrackets(s).Ok?
    decreases |s|
  {
    PairedChecks(s);
    var j := IndexOf(s, ']');
    if 0 < j + 1 < |s| {
      var t := s[j + 1..];
      PairedSuffix(s, j + 1);
      PairedPasses(t);
      BracketsStep(s, t);
    } else {
      BracketsLast(s);
    }
  }

  /** A paired key passes both checks of one round. */
  lemma PairedChecks(s: string)
    requires Paired(s)
    ensures ChecksPass(s)
  {
    var i := IndexOf(s, '[');
    var j := IndexOf(s, ']');
    if i >= 0 {
      assert PairedAt(s, i);
    }
    if j >= 0 {
      assert PairedAt(s, j);
      assert CharAt(s, j - 1) == Some(s[j - 1]);
    }
  }

  /** Neither check of one round of `keyHasValidBrackets` throws. */
  predicate ChecksPass(s: string) {
    var i := IndexOf(s, '[');
    var j := IndexOf(s, ']');
    !(i >= 0 && CharAt(s, i + 1) != Some(']')) && !(j >= 0 && CharAt(s, j - 1) != Some('['))
  }

  /** Past both checks, the key is valid when the part after the first `]` is. */
  lemma BracketsStep(s: string, t: string)
    requires ChecksPass(s)
    requires 0 < IndexOf(s, ']') + 1 < |s| && t == s[IndexOf(s, ']') + 1..]
    ensures KeyHasValidBrackets(t).Ok? ==> KeyHasValidBrackets(s).Ok?
  {
  }

  /** Past both checks, a key whose first `]` is missing or last is valid. */
  lemma BracketsLast(s: string)
    requires ChecksPass(s)
    requires !(0 < IndexOf(s, ']') + 1 < |s|)
    ensures KeyHasValidBrackets(s).Ok?
  {
  }

  lemma {:induction false} PassingIsPaired(s: string)
    ensures KeyHasValidBrackets(s).Ok? ==> Paired(s)
    decreases |s|
  {
    var j := IndexOf(s, ']');
    if j == -1 {
      NoCloseCase(s);
    } else if j == 0 {
      if |s| > 1 {
        PassingIsPaired(s[1..]);
      }
      LeadingCloseCase(s);
    } else if KeyHasValidBrackets(s).Ok? {
      if j + 1 < |s| {
        PassingIsPaired(s[j + 1..]);
      }
      PairThenPaired(s, j);
    }
  }

  lemma NoCloseCase(s: string)
    requires IndexOf(s, ']') == -1
    ensures KeyHasValidBrackets(s).Ok? ==> Paired(s)
  {
    var i := IndexOf(s, '[');
    if i >= 0 {
      assert CharAt(s, i + 1) != Some(']');
    }
  }

  /** A key starting with `]` fails: `at(-1)` lets the first check read the last character, but a final `[` fails later. */
  lemma LeadingCloseCase(s: string)
    requires IndexOf(s, ']') == 0
    requires |s| > 1 ==> (KeyHasValidBrackets(s[1..]).Ok? ==> Paired(s[1..]))
    ensures KeyHasValidBrackets(s).Err?
  {
    var i := IndexOf(s, '[');
    assert CharAt(s, -1) == Some(s[|s| - 1]);
    if !(i >= 0 && CharAt(s, i + 1) != Some(']')) && s[|s| - 1] == '[' {
      assert |s| > 1;
      var t := s[1..];
      assert KeyHasValidBrackets(s) == KeyHasValidBrackets(t);
      EndingOpenIsUnpaired(t);
    }
  }

  lemma EndingOpenIsUnpaired(t: string)
    requires |t| > 0 && t[|t| - 1] == '['
    ensures !Paired(t)
  {
    assert !PairedAt(t, |t| - 1);
  }

  lemma PairThenPaired(s: string, j: nat)
    requires KeyHasValidBrackets(s).Ok? && 0 < j < |s| && IndexOf(s, ']') == j
    requires j + 1 < |s| ==> Paired(s[j + 1..])
    ensures Paired(s)
  {
    var i := IndexOf(s, '[');
    assert s[j - 1] == '[' by {
      assert !(CharAt(s, j - 1) != Some('['));
    }
    assert i == j - 1 by {
      assert i >= 0;
      assert CharAt(s, i + 1) == Some(']');
      assert s[i + 1] == ']';
    }
    forall p | 0 <= p < |s|
      ensures PairedAt(s, p)
    {
      if p > j {
        PairedAfter(s, j, p);
      } else if p == j {
        assert s[p - 1] == '[';
      } else if p == j - 1 {
        assert s[p + 1] == ']';
      } else {
        assert s[p] != '[' && s[p] != ']';
      }
    }
  }

  lemma PairedAfter(s: string, j: nat, p: nat)
    requires j < p < |s| && s[j] == ']' && Paired(s[j + 1..])
    ensures PairedAt(s, p)
  {
    var t := s[j + 1..];
    var q := p - j - 1;
    assert s[p] == t[q];
    assert PairedAt(t, q);
    if p + 1 < |s| {
      assert s[p + 1] == t[q + 1];
    }
    if q > 0 {
      assert s[p - 1] == t[q - 1];
    }
  }

  /** The bracket check accepts a key exactly when its brackets come only as adjacent `[]` pairs. */
  lemma ValidBracketsIff(s: string)
    ensures KeyHasValidBrackets(s).Ok? <==> Paired(s)
  {
    if Paired(s) {
      PairedPasses(s);
    }
    PassingIsPaired(s);
  }

  // ---------------------------------------------------------------------
  // Transform arrays

  const TooShort := "the array should contain at least one argument and the function"
  const LastNotFunction := "the last element of the array must be a function"
  const ArityMismatch := "the number of arguments should match with the number of arguments in the function"

  /** `isValidValueArray`: `true`, or the message it throws. */
  function IsValidValueArray(from: seq<Value>): (r: Result<bool, string>)
    ensures r.Ok? <==> |from| >= 2 && from[|from| - 1].Fn? && from[|from| - 1].arity == |from| - 1
    ensures r.Ok? ==> r.value
    ensures |from| <= 1 ==> r == Err(TooShort)
    ensures |from| >= 2 && !from[|from| - 1].Fn? ==> r == Err(LastNotFunction)
    ensures |from| >= 2 && from[|from| - 1].Fn? && from[|from| - 1].arity != |from| - 1 ==> r == Err(ArityMismatch)
  {
    if |from| <= 1 then Err(TooShort)
    else
      var fn := from[|from| - 1];
      if !fn.Fn? then Err(LastNotFunction)
      else if fn.arity != |from| - 1 then Err(ArityMismatch)
      else Ok(true)
  }

  // ---------------------------------------------------------------------
  // Rule classification

  /** `isValidFromString`: a string that is not a `$.` path. */
  predicate IsValidFromString(v: Value) {
    v.Str? && !StartsWith(v.s, "$.")
  }

  /** `isValidFromArray`: empty, or not headed by a `$.` path string. */
  predicate IsValidFromArray(v: Value) {
    v.Arr? && (|v.elems| == 0 || !v.elems[0].Str? || IsValidFromString(v.elems[0]))
  }

  /** `isValidFromObject`: a non-null, non-array object. */
  predicate IsValidFromObject(v: Value) {
    v.Obj?
  }

  /** `isFromValueDefault`: the source is a literal to be copied into the common properties. */
  predicate IsFromValueDefault(v: Value) {
    v.Num? || IsValidFromObject(v) || v.Bool? || v.Null? || IsValidFromString(v) || IsValidFromArray(v)
  }

  /** `isSingleFromValue`: a string, or an array of exactly two elements. */
  predicate IsSingleFromValue(v: Value) {
    v.Str? || (v.Arr? && |v.elems| == 2)
  }

  /**
   * Past the default-literal test (and `undefined`), the single-path branch
   * takes exactly a `$.` path string or a pair headed by one; any other
   * array goes to the multi-path branch, and all that is left is a function.
   */
  lemma SingleAfterDefault(v: Value)
    requires !IsFromValueDefault(v) && !v.Undefined?
    ensures IsSingleFromValue(v) <==> IsDotPath(v) || (v.Arr? && |v.elems| == 2 && IsDotPath(v.elems[0]))
    ensures !IsSingleFromValue(v) && v.Arr? ==> |v.elems| != 2 && IsDotPath(v.elems[0])
    ensures !IsSingleFromValue(v) && !v.Arr? ==> v.Fn?
  {
  }

  /** A `$.` path string. */
  predicate IsDotPath(v: Value) {
    v.Str? && StartsWith(v.s, "$.")
  }

  /**
   * The classification as a whole: a source is a default literal unless it
   * is `undefined`, a function, a `$.` path, or an array headed by one.
   */
  lemma DefaultIff(v: Value)
    ensures IsFromValueDefault(v) <==>
      !(v.Undefined? || v.Fn? || IsDotPath(v) || (v.Arr? && |v.elems| > 0 && IsDotPath(v.elems[0])))
  {
  }

  /**
   * Against the `src/main.ts` classifiers: away from `undefined` and
   * functions, the two variants disagree on whether a source is a literal
   * exactly when it is, or is an array headed by, a string that starts
   * with `$` but not with `$.` (such as the bare `"$"`).
   */
  lemma ClassifiersDisagree(v: Value)
    requires !v.Undefined? && !v.Fn?
    ensures IsFromValueDefault(v) != !(IsStrPath(v) || IsArrPath(v)) <==>
      var head := if v.Arr? && |v.elems| > 0 then v.elems[0] else v;
      (v.Str? || v.Arr?) && IsStrPath(head) && !IsDotPath(head)
  {
    if v.Str? && |v.s| > 0 && v.s[0] == '$' && StartsWith(v.s, "$.") {
      assert v.s[..2] == "$.";
    }
    if v.Arr? && |v.elems| > 0 && v.elems[0].Str? && StartsWith(v.elems[0].s, "$.") {
      assert v.elems[0].s[..2] == "$.";
    }
  }

  // ---------------------------------------------------------------------
  // Deep copy through JSON

  /** No `undefined` and no function anywhere inside. */
  predicate IsJson(v: Value) {
    match v
    case Undefined => false
    case Fn(_, _) => false
    case Arr(es) => forall i :: 0 <= i < |es| ==> IsJson(es[i])
    case Obj(fs) => forall i :: 0 <= i < |fs| ==> IsJson(fs[i].val)
    case _ => true
  }

  /**
   * `JSON.parse(JSON.stringify(v))`: object properties holding `undefined`
   * or a function are dropped, array elements holding them become `null`.
   */
  function JsonCopy(v: Value): (r: Value)
    ensures r.Arr? <==> v.Arr?
    ensures r.Obj? <==> v.Obj?
    ensures v.Arr? ==> |r.elems| == |v.elems|
  {
    match v
    case Arr(es) => Arr(CopyElems(es))
    case Obj(fs) => Obj(CopyFields(fs))
    case Undefined => Undefined
    case Fn(_, _) => Undefined
    case _ => v
  }

  function CopyElems(es: seq<Value>): (r: seq<Value>)
    ensures |r| == |es|
  {
    if es == [] then []
    else [if es[0].Undefined? || es[0].Fn? then Null else JsonCopy(es[0])] + CopyElems(es[1..])
  }

  function CopyFields(fs: seq<Field>): seq<Field> {
    if fs == [] then []
    else if fs[0].val.Undefined? || fs[0].val.Fn? then CopyFields(fs[1..])
    else [Field(fs[0].key, JsonCopy(fs[0].val))] + CopyFields(fs[1..])
  }

  /** The copy of a literal is pure JSON. */
  lemma {:induction false} CopyIsJson(v: Value)
    requires !v.Undefined? && !v.Fn?
    ensures IsJson(JsonCopy(v))
    decreases v, 1
  {
    match v
    case Arr(es) => ElemsCopyIsJson(v, es);
    case Obj(fs) => FieldsCopyIsJson(v, fs);
    case _ =>
  }

  lemma {:induction false} ElemsCopyIsJson(parent: Value, es: seq<Value>)
    requires forall i :: 0 <= i < |es| ==> es[i] < parent
    ensures forall i :: 0 <= i < |CopyElems(es)| ==> IsJson(CopyElems(es)[i])
    decreases parent, 0, |es|
  {
    if es != [] {
      if !(es[0].Undefined? || es[0].Fn?) {
        CopyIsJson(es[0]);
      }
      ElemsCopyIsJson(parent, es[1..]);
      assert CopyElems(es) == [CopyElems(es)[0]] + CopyElems(es[1..]);
    }
  }

  lemma {:induction false} FieldsCopyIsJson(parent: Value, fs: seq<Field>)
    requires forall i :: 0 <= i < |fs| ==> fs[i].val < parent
    ensures forall i :: 0 <= i < |CopyFields(fs)| ==> IsJson(CopyFields(fs)[i].val)
    decreases parent, 0, |fs|
  {
    if fs != [] {
      FieldsCopyIsJson(parent, fs[1..]);
      if !(fs[0].val.Undefined? || fs[0].val.Fn?) {
        CopyIsJson(fs[0].val);
        var r := CopyFields(fs);
        assert r == [Field(fs[0].key, JsonCopy(fs[0].val))] + CopyFields(fs[1..]);
        assert forall i :: 1 <= i < |r| ==> r[i] == CopyFields(fs[1..])[i - 1];
      }
    }
  }

  /** A value that is already JSON is copied unchanged; so copying twice is copying once. */
  lemma {:induction false} CopyOfJson(v: Value)
    requires IsJson(v)
    ensures JsonCopy(v) == v
    decreases v, 1
  {
    match v
    case Arr(es) => ElemsCopyOfJson(v, es);
    case Obj(fs) => FieldsCopyOfJson(v, fs);
    case _ =>
  }

  lemma {:induction false} ElemsCopyOfJson(parent: Value, es: seq<Value>)
    requires forall i :: 0 <= i < |es| ==> es[i] < parent && IsJson(es[i])
    ensures CopyElems(es) == es
    decreases parent, 0, |es|
  {
    if es != [] {
      CopyOfJson(es[0]);
      ElemsCopyOfJson(parent, es[1..]);
    }
  }

  lemma {:induction false} FieldsCopyOfJson(parent: Value, fs: seq<Field>)
    requires forall i :: 0 <= i < |fs| ==> fs[i].val < parent && IsJson(fs[i].val)
    ensures CopyFields(fs) == fs
    decreases parent, 0, |fs|
  {
    if fs != [] {
      CopyOfJson(fs[0].val);
      FieldsCopyOfJson(parent, fs[1..]);
    }
  }

  lemma CopyIdempotent(v: Value)
    requires !v.Undefined? && !v.Fn?
    ensures JsonCopy(JsonCopy(v)) == JsonCopy(v)
  {
    CopyIsJson(v);
    CopyOfJson(JsonCopy(v));
  }

  // ---------------------------------------------------------------------
  // The rule loop

  function Validated<T>(r: Result<T, string>): Result<T, Error> {
    match r
    case Ok(v) => Ok(v)
    case Err(m) => Err(InvalidRule(m))
  }

  /** One iteration of the rule loop of `src/index.ts`. */
  /** A key with brackets must pass `keyHasValidBrackets` and is then remembered for merging. */
  function Registering(acc: Acc, to: Target): (r: Result<Acc, Error>)
    ensures r.Ok? <==> !IncludesBrackets(Render(to)) || KeyHasValidBrackets(Render(to)).Ok?
    ensures r.Ok? ==> r.value == if IncludesBrackets(Render(to)) then acc.(merge := AddTarget(acc.merge, to)) else acc
  {
    var key := Render(to);
    if IncludesBrackets(key) then
      var _ :- Validated(KeyHasValidBrackets(key));
      Ok(acc.(merge := AddTarget(acc.merge, to)))
    else Ok(acc)
  }

  function Step(env: Env, source: Value, acc: Acc, rule: Rule): (r: Result<Acc, Error>)
    ensures r.Ok? ==> r.value.merge == if rule.from != Undefined && IncludesBrackets(Render(rule.to))
      then AddTarget(acc.merge, rule.to) else acc.merge
  {
    var to := rule.to;
    var from := rule.from;
    if from == Undefined then Ok(acc)
    else
      var acc :- Registering(acc, to);
      if IsFromValueDefault(from) then
        Ok(acc.(common := AddProp(acc.common, to, JsonCopy(from))))
      else if IsSingleFromValue(from) then
        var fnAndPath :- if from.Arr? then
            var _ :- Validated(IsValidValueArray(from.elems));
            Ok((Some(from.elems[1]), from.elems[0]))
          else Ok((None, from));
        var fn := fnAndPath.0;
        var nodes := env.resolve(source, fnAndPath.1);
        if nodes == [] then Ok(acc)
        else if IsCommonProp(nodes) then
          var v :- if fn.Some? then ComputeFunction(env.call, fn.value, [nodes[0].value]) else Ok(nodes[0].value);
          Ok(acc.(common := AddProp(acc.common, to, v)))
        else
          var rows :- if fn.Some? then TransformRows(env.call, fn.value, nodes, to) else Ok(AsRows(nodes, to));
          Ok(acc.(rows := acc.rows + rows))
      else if from.Arr? then
        var _ :- Validated(IsValidValueArray(from.elems));
        var o :- Multi(env, source, to, from.elems[..|from.elems| - 1], from.elems[|from.elems| - 1]);
        Ok(ApplyOutcome(acc, to, o))
      else Ok(acc)
  }

  function Collect(env: Env, source: Value, rules: seq<Rule>, acc: Acc): Result<Acc, Error>
    decreases |rules|
  {
    if rules == [] then Ok(acc)
    else
      var acc' :- Step(env, source, acc, rules[0]);
      Collect(env, source, rules[1..], acc')
  }

  /** `mapObj` of `src/index.ts`: no grammar check; the assembly is that of `src/main.ts`. */
  function MapObj(env: Env, source: Value, rules: seq<Rule>): (r: Result<seq<Value>, Error>)
    ensures r.Ok? <==> Collect(env, source, rules, Start).Ok?
    ensures r.Err? ==> r.error == Collect(env, source, rules, Start).error
  {
    var acc :- Collect(env, source, rules, Start);
    Ok(Assemble(acc))
  }

  function OnSource(env: Env, rules: seq<Rule>): Value -> Result<seq<Value>, Error> {
    source => MapObj(env, source, rules)
  }

  /** `mapObjArr` of `src/index.ts`. */
  method MapObjArr(env: Env, sources: seq<Value>, rules: seq<Rule>) returns (r: Result<seq<Value>, Error>)
    ensures r == Batch.Outcome(OnSource(env, rules), sources)
  {
    r := Batch.ForEachSource(OnSource(env, rules), sources);
  }

  // ---------------------------------------------------------------------
  // Bracket syntax of rendered targets

  /** No property name of the target contains a bracket. */
  predicate BracketFreeNames(t: Target) {
    forall i :: 0 <= i < |t| ==> t[i].TKey? ==> '[' !in t[i].name && ']' !in t[i].name
  }

  /** Only property names and `[]` markers: no explicit index and no wildcard. */
  predicate NoIndexOrStar(t: Target) {
    forall i :: 0 <= i < |t| ==> t[i].TKey? || t[i].TEmpty?
  }

  lemma PairedConcat(a: string, b: string)
    requires |a| > 0 && a[|a| - 1] != '['
    requires |b| > 0 ==> b[0] != ']'
    ensures Paired(a + b) <==> Paired(a) && Paired(b)
  {
    var s := a + b;
    if Paired(s) {
      forall p | 0 <= p < |a|
        ensures PairedAt(a, p)
      {
        assert PairedAt(s, p);
      }
      forall p | 0 <= p < |b|
        ensures PairedAt(b, p)
      {
        assert PairedAt(s, |a| + p);
      }
    }
    if Paired(a) && Paired(b) {
      forall p | 0 <= p < |s|
        ensures PairedAt(s, p)
      {
        if p < |a| {
          assert PairedAt(a, p);
        } else {
          assert PairedAt(b, p - |a|);
        }
      }
    }
  }

  lemma SegPaired(g: TSeg)
    requires g.TKey? ==> '[' !in g.name && ']' !in g.name
    ensures |RenderSeg(g)| > 0 && RenderSeg(g)[0] != ']' && RenderSeg(g)[|RenderSeg(g)| - 1] != '['
    ensures Paired(RenderSeg(g)) <==> g.TKey? || g.TEmpty?
    ensures IncludesBrackets(RenderSeg(g)) <==> !g.TKey?
  {
    var r := RenderSeg(g);
    match g
    case TKey(k) =>
      forall p | 0 <= p < |r|
        ensures PairedAt(r, p)
      {
        if p > 0 {
          assert r[p] == k[p - 1];
        }
      }
      assert r == "." + k;
      if |k| > 0 {
        assert r[|r| - 1] == k[|k| - 1];
      }
    case TIdx(n) =>
      var d := NatToString(n);
      assert r == "[" + d + "]";
      assert r[1] == d[0] && IsDigit(d[0]);
      assert !PairedAt(r, 0);
    case TStar =>
      assert !PairedAt(r, 0);
    case TEmpty =>
      assert PairedAt(r, 0) && PairedAt(r, 1);
  }

  lemma InitBracketFree(t: Target)
    requires BracketFreeNames(t) && |t| > 0
    ensures BracketFreeNames(t[..|t| - 1])
  {
    var init := t[..|t| - 1];
    forall i | 0 <= i < |init|
      ensures init[i].TKey? ==> '[' !in init[i].name && ']' !in init[i].name
    {
      assert init[i] == t[i];
    }
  }

  lemma SplitLast(t: Target)
    requires |t| > 0
    ensures NoIndexOrStar(t) <==> NoIndexOrStar(t[..|t| - 1]) && (t[|t| - 1].TKey? || t[|t| - 1].TEmpty?)
    ensures HasBrackets(t) <==> HasBrackets(t[..|t| - 1]) || !t[|t| - 1].TKey?
  {
    var init := t[..|t| - 1];
    var g := t[|t| - 1];
    if NoIndexOrStar(init) && (g.TKey? || g.TEmpty?) {
      forall i | 0 <= i < |t|
        ensures t[i].TKey? || t[i].TEmpty?
      {
        if i < |init| {
          assert t[i] == init[i];
        }
      }
    }
    if NoIndexOrStar(t) {
      forall i | 0 <= i < |init|
        ensures init[i].TKey? || init[i].TEmpty?
      {
        assert t[i] == init[i];
      }
    }
    if HasBrackets(init) {
      var i :| 0 <= i < |init| && !init[i].TKey?;
      assert t[i] == init[i];
    }
    if HasBrackets(t) && g.TKey? {
      var i :| 0 <= i < |t| && !t[i].TKey?;
      assert init[i] == t[i];
    }
  }

  lemma {:induction false} RenderShape(t: Target)
    requires BracketFreeNames(t)
    ensures |Render(t)| > 0 && Render(t)[|Render(t)| - 1] != '['
    ensures IncludesBrackets(Render(t)) <==> HasBrackets(t)
  {
    if t != [] {
      InitBracketFree(t);
      RenderShape(t[..|t| - 1]);
      SegPaired(t[|t| - 1]);
      SplitLast(t);
      assert Render(t) == Render(t[..|t| - 1]) + RenderSeg(t[|t| - 1]);
    }
  }

  /**
   * A rendered target passes the bracket check exactly when it has no
   * explicit index and no wildcard: `src/index.ts` accepts `[]` as the only
   * bracket form in a target.
   */
  lemma {:induction false} RenderedTargetIff(t: Target)
    requires BracketFreeNames(t)
    ensures KeyHasValidBrackets(Render(t)).Ok? <==> NoIndexOrStar(t)
    ensures IncludesBrackets(Render(t)) <==> HasBrackets(t)
  {
    RenderShape(t);
    ValidBracketsIff(Render(t));
    if t == [] {
      assert Render(t) == "$";
      assert PairedAt("$", 0);
    } else {
      var init := t[..|t| - 1];
      InitBracketFree(t);
      RenderedTargetIff(init);
      RenderShape(init);
      ValidBracketsIff(Render(init));
      SegPaired(t[|t| - 1]);
      PairedConcat(Render(init), RenderSeg(t[|t| - 1]));
      SplitLast(t);
    }
  }

  // ---------------------------------------------------------------------
  // The rule loop against `src/main.ts`

  /** A literal is stored as its JSON copy: pure JSON, and equal to the literal when that is JSON already. */
  lemma DefaultIsCopied(env: Env, source: Value, acc: Acc, rule: Rule)
    requires IsFromValueDefault(rule.from) && BracketFreeNames(rule.to) && NoIndexOrStar(rule.to)
    ensures Step(env, source, acc, rule).Ok?
    ensures Step(env, source, acc, rule).value.common == AddProp(acc.common, rule.to, JsonCopy(rule.from))
    ensures Step(env, source, acc, rule).value.rows == acc.rows
    ensures IsJson(JsonCopy(rule.from))
    ensures IsJson(rule.from) ==> JsonCopy(rule.from) == rule.from
  {
    RenderedTargetIff(rule.to);
    CopyIsJson(rule.from);
    if IsJson(rule.from) {
      CopyOfJson(rule.from);
    }
  }

  /** A target with an explicit index or a wildcard makes every rule that is not `undefined` throw. */
  lemma IndexedTargetRejected(env: Env, source: Value, acc: Acc, rule: Rule)
    requires rule.from != Undefined && BracketFreeNames(rule.to) && !NoIndexOrStar(rule.to)
    ensures Step(env, source, acc, rule).Err?
    ensures Step(env, source, acc, rule).error == InvalidRule(ClosingExpected)
         || Step(env, source, acc, rule).error == InvalidRule(OpeningExpected)
  {
    RenderedTargetIff(rule.to);
    var i :| 0 <= i < |rule.to| && !(rule.to[i].TKey? || rule.to[i].TEmpty?);
    assert HasBrackets(rule.to);
  }

  /**
   * On rules both variants accept, a `$.` path or a transform array headed
   * by one whose function takes one argument per path, `src/index.ts` does
   * exactly what `src/main.ts` does.
   */
  lemma AgreesWithMain(env: Env, source: Value, acc: Acc, rule: Rule)
    requires BracketFreeNames(rule.to) && NoIndexOrStar(rule.to)
    requires IsDotPath(rule.from)
      || (rule.from.Arr? && |rule.from.elems| >= 2 && IsDotPath(rule.from.elems[0])
          && IsValidValueArray(rule.from.elems).Ok?)
    ensures Step(env, source, acc, rule) == Engine.Step(env, source, acc, rule)
  {
    RenderedTargetIff(rule.to);
    if rule.from.Str? {
      PathAgrees(env, source, acc, rule);
    } else if |rule.from.elems| == 2 {
      TransformAgrees(env, source, acc, rule);
    } else {
      MultiAgrees(env, source, acc, rule);
    }
  }

  /** A `$.` path, or an array headed by one, is no default literal and is a path source to `src/main.ts`. */
  lemma DotHeadClass(v: Value)
    requires IsDotPath(v) || (v.Arr? && |v.elems| >= 1 && IsDotPath(v.elems[0]))
    ensures !IsFromValueDefault(v) && v != Undefined
    ensures v.Str? ==> IsStrPath(v)
    ensures v.Arr? ==> IsArrPath(v) && !IsStrPath(v)
  {
    var head := if v.Str? then v else v.elems[0];
    assert head.s[..2] == "$.";
  }

  lemma PathAgrees(env: Env, source: Value, acc: Acc, rule: Rule)
    requires KeyHasValidBrackets(Render(rule.to)).Ok?
    requires IncludesBrackets(Render(rule.to)) <==> HasBrackets(rule.to)
    requires IsDotPath(rule.from)
    ensures Step(env, source, acc, rule) == Engine.Step(env, source, acc, rule)
  {
    DotHeadClass(rule.from);
  }

  /** The two-element transform branch the variants share once the target is registered. */
  function TransformBranch(env: Env, source: Value, acc: Acc, to: Target, path: Value, fn: Value): Result<Acc, Error> {
    var nodes := env.resolve(source, path);
    if nodes == [] then Ok(acc)
    else if IsCommonProp(nodes) then
      var v :- ComputeFunction(env.call, fn, [nodes[0].value]);
      Ok(acc.(common := AddProp(acc.common, to, v)))
    else
      var rows :- TransformRows(env.call, fn, nodes, to);
      Ok(acc.(rows := acc.rows + rows))
  }

  function Registered(acc: Acc, to: Target): Acc {
    if HasBrackets(to) then acc.(merge := AddTarget(acc.merge, to)) else acc
  }

  lemma MainTransform(env: Env, source: Value, acc: Acc, rule: Rule)
    requires rule.from.Arr? && |rule.from.elems| == 2 && IsDotPath(rule.from.elems[0])
    ensures Engine.Step(env, source, acc, rule)
      == TransformBranch(env, source, Registered(acc, rule.to), rule.to, rule.from.elems[0], rule.from.elems[1])
  {
    DotHeadClass(rule.from);
  }

  lemma IndexTransform(env: Env, source: Value, acc: Acc, rule: Rule)
    requires KeyHasValidBrackets(Render(rule.to)).Ok?
    requires IncludesBrackets(Render(rule.to)) <==> HasBrackets(rule.to)
    requires rule.from.Arr? && |rule.from.elems| == 2 && IsDotPath(rule.from.elems[0])
    requires IsValidValueArray(rule.from.elems).Ok?
    ensures Step(env, source, acc, rule)
      == TransformBranch(env, source, Registered(acc, rule.to), rule.to, rule.from.elems[0], rule.from.elems[1])
  {
    DotHeadClass(rule.from);
    assert Registering(acc, rule.to) == Ok(Registered(acc, rule.to));
    PairBranch(env, source, acc, rule, Registered(acc, rule.to));
  }

  /** Past the bracket check, a valid path-and-transform pair takes the transform branch. */
  lemma PairBranch(env: Env, source: Value, acc: Acc, rule: Rule, acc': Acc)
    requires Registering(acc, rule.to) == Ok(acc')
    requires rule.from.Arr? && |rule.from.elems| == 2 && !IsFromValueDefault(rule.from)
    requires IsValidValueArray(rule.from.elems).Ok?
    ensures Step(env, source, acc, rule) == TransformBranch(env, source, acc', rule.to, rule.from.elems[0], rule.from.elems[1])
  {
  }

  lemma TransformAgrees(env: Env, source: Value, acc: Acc, rule: Rule)
    requires KeyHasValidBrackets(Render(rule.to)).Ok?
    requires IncludesBrackets(Render(rule.to)) <==> HasBrackets(rule.to)
    requires rule.from.Arr? && |rule.from.elems| == 2 && IsDotPath(rule.from.elems[0])
    requires IsValidValueArray(rule.from.elems).Ok?
    ensures Step(env, source, acc, rule) == Engine.Step(env, source, acc, rule)
  {
    MainTransform(env, source, acc, rule);
    IndexTransform(env, source, acc, rule);
  }

  lemma MultiAgrees(env: Env, source: Value, acc: Acc, rule: Rule)
    requires KeyHasValidBrackets(Render(rule.to)).Ok?
    requires IncludesBrackets(Render(rule.to)) <==> HasBrackets(rule.to)
    requires rule.from.Arr? && |rule.from.elems| > 2 && IsDotPath(rule.from.elems[0])
    requires IsValidValueArray(rule.from.elems).Ok?
    ensures Step(env, source, acc, rule) == Engine.Step(env, source, acc, rule)
  {
    DotHeadClass(rule.from);
  }

  /** A function given directly as the source is skipped here; `src/main.ts` stores it as a literal. */
  lemma FunctionSourceSkipped(env: Env, source: Value, acc: Acc, rule: Rule)
    requires rule.from.Fn? && BracketFreeNames(rule.to) && NoIndexOrStar(rule.to)
    ensures Step(env, source, acc, rule).Ok?
    ensures Step(env, source, acc, rule).value.common == acc.common
    ensures Step(env, source, acc, rule).value.rows == acc.rows
    ensures Engine.Step(env, source, acc, rule).Ok?
    ensures Engine.Step(env, source, acc, rule).value.common == AddProp(acc.common, rule.to, rule.from)
  {
    FunctionSourceHere(env, source, acc, rule);
    FunctionSourceInMain(env, source, acc, rule);
  }

  lemma FunctionSourceHere(env: Env, source: Value, acc: Acc, rule: Rule)
    requires rule.from.Fn? && BracketFreeNames(rule.to) && NoIndexOrStar(rule.to)
    ensures Step(env, source, acc, rule) == Ok(
      if HasBrackets(rule.to) then acc.(merge := AddTarget(acc.merge, rule.to)) else acc)
  {
    RenderedTargetIff(rule.to);
    assert !IsFromValueDefault(rule.from) && !IsSingleFromValue(rule.from);
  }

  lemma FunctionSourceInMain(env: Env, source: Value, acc: Acc, rule: Rule)
    requires rule.from.Fn?
    ensures Engine.Step(env, source, acc, rule).Ok?
    ensures Engine.Step(env, source, acc, rule).value.common == AddProp(acc.common, rule.to, rule.from)
  {
    assert !IsStrPath(rule.from) && !IsArrPath(rule.from);
  }

  /** An array holding only a path throws here; `src/main.ts` skips it. */
  lemma LonePathArrayRejected(env: Env, source: Value, acc: Acc, rule: Rule)
    requires rule.from.Arr? && |rule.from.elems| == 1 && IsDotPath(rule.from.elems[0])
    requires BracketFreeNames(rule.to) && NoIndexOrStar(rule.to)
    ensures Step(env, source, acc, rule) == Err(InvalidRule(TooShort))
    ensures Engine.Step(env, source, acc, rule).Ok?
    ensures Engine.Step(env, source, acc, rule).value.common == acc.common
    ensures Engine.Step(env, source, acc, rule).value.rows == acc.rows
  {
    RenderedTargetIff(rule.to);
    LonePathArrayCases(env, source, acc, rule);
  }

  lemma LonePathArrayCases(env: Env, source: Value, acc: Acc, rule: Rule)
    requires rule.from.Arr? && |rule.from.elems| == 1 && IsDotPath(rule.from.elems[0])
    requires KeyHasValidBrackets(Render(rule.to)).Ok?
    requires IncludesBrackets(Render(rule.to)) <==> HasBrackets(rule.to)
    ensures Step(env, source, acc, rule) == Err(InvalidRule(TooShort))
    ensures Engine.Step(env, source, acc, rule).Ok?
    ensures Engine.Step(env, source, acc, rule).value.common == acc.common
    ensures Engine.Step(env, source, acc, rule).value.rows == acc.rows
  {
    DotHeadClass(rule.from);
  }
}
