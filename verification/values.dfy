/**
 * The JavaScript values the mapper reads and writes, object field lists with
 * JavaScript's insertion-ordered property semantics, resolved path segments,
 * and decimal rendering of integers as `Number.prototype.toString` does it.
 */
module Values {
  import opened Wrappers

  /**
   * A JavaScript value. Numbers are modelled as integers; a user-supplied
   * function is an opaque `Fn` carrying an identity and its declared arity
   * (`fn.length`); calling it is delegated to the caller of the mapper.
   */
  datatype Value =
    | Undefined
    | Null
    | Bool(b: bool)
    | Num(n: int)
    | Str(s: string)
    | Arr(elems: seq<Value>)
    | Obj(fields: seq<Field>)
    | Fn(id: nat, arity: nat)

  /** One own property of an object, in insertion order. */
  datatype Field = Field(key: string, val: Value)

  /** JavaScript truthiness: `undefined`, `null`, `false`, `0` and `""` are falsy. */
  predicate Truthy(v: Value) {
    match v
    case Undefined => false
    case Null => false
    case Bool(b) => b
    case Num(n) => n != 0
    case Str(s) => s != ""
    case _ => true
  }

  /** `Object.keys(v).length` for the values the mapper produces. */
  function KeyCount(v: Value): nat {
    match v
    case Obj(fs) => |fs|
    case Arr(es) => |es|
    case Str(s) => |s|
    case _ => 0
  }

  // ---------------------------------------------------------------------
  // Object field lists

  function Keys(fs: seq<Field>): seq<string> {
    if fs == [] then [] else [fs[0].key] + Keys(fs[1..])
  }

  /** No property name occurs twice, as in every JavaScript object. */
  predicate UniqueKeys(fs: seq<Field>) {
    fs == [] || (fs[0].key !in Keys(fs[1..]) && UniqueKeys(fs[1..]))
  }

  /** `obj[k]` for an own property, `None` when the property is absent. */
  function Lookup(fs: seq<Field>, k: string): (r: Option<Value>)
    ensures r.Some? <==> k in Keys(fs)
    ensures r.Some? ==> Field(k, r.value) in fs
  {
    if fs == [] then None
    else if fs[0].key == k then Some(fs[0].val)
    else Lookup(fs[1..], k)
  }

  /**
   * `obj[k] = v`: an existing property keeps its position and takes the new
   * value, a new property is appended after all existing ones.
   */
  function Put(fs: seq<Field>, k: string, v: Value): (r: seq<Field>)
    ensures Lookup(r, k) == Some(v)
    ensures forall k' :: k' != k ==> Lookup(r, k') == Lookup(fs, k')
    ensures k in Keys(fs) ==> Keys(r) == Keys(fs)
    ensures k !in Keys(fs) ==> Keys(r) == Keys(fs) + [k]
    ensures UniqueKeys(fs) ==> UniqueKeys(r)
  {
    if fs == [] then [Field(k, v)]
    else if fs[0].key == k then [Field(k, v)] + fs[1..]
    else
      var rest := Put(fs[1..], k, v);
      ConsField(fs[0], rest);
      ConsField(fs[0], fs[1..]);
      [fs[0]] + rest
  }

  /** Keys, lookup and uniqueness of a field list with one field put in front. */
  lemma ConsField(f: Field, fs: seq<Field>)
    ensures Keys([f] + fs) == [f.key] + Keys(fs)
    ensures forall k :: Lookup([f] + fs, k) == if k == f.key then Some(f.val) else Lookup(fs, k)
    ensures UniqueKeys([f] + fs) <==> f.key !in Keys(fs) && UniqueKeys(fs)
  {
    assert ([f] + fs)[1..] == fs;
  }

  // ---------------------------------------------------------------------
  // Resolved paths

  /** One component of a resolved path: a property name or an array index. */
  datatype Seg = Key(name: string) | Idx(index: int)

  /** A resolved path as the path-query library reports it; element 0 is `Key("$")`. */
  type Path = seq<Seg>

  /** A resolved `(value, path)` pair. */
  datatype Node = Node(value: Value, path: Path)

  // ---------------------------------------------------------------------
  // Decimal rendering of integers

  function DigitChar(d: nat): char
    requires d < 10
  {
    "0123456789"[d]
  }

  predicate IsDigit(c: char) {
    '0' <= c <= '9'
  }

  function DigitValue(c: char): nat
    requires IsDigit(c)
  {
    (c as int - '0' as int) as nat
  }

  /** The shortest decimal rendering of a natural number. */
  function NatToString(n: nat): (s: string)
    ensures |s| > 0
    ensures forall i :: 0 <= i < |s| ==> IsDigit(s[i])
    decreases n
  {
    if n < 10 then [DigitChar(n)] else NatToString(n / 10) + [DigitChar(n % 10)]
  }

  /** `String(i)` for an integer. */
  function IntToString(i: int): string {
    if i < 0 then "-" + NatToString(-i) else NatToString(i)
  }

  /** The value of a string of decimal digits, most significant first. */
  function DigitsValue(s: string): nat
    requires forall i :: 0 <= i < |s| ==> IsDigit(s[i])
  {
    if s == [] then 0 else DigitsValue(s[..|s| - 1]) * 10 + DigitValue(s[|s| - 1])
  }

  /** Reading back a rendered natural number gives the number. */
  lemma {:induction false} NatToStringRoundTrip(n: nat)
    ensures DigitsValue(NatToString(n)) == n
    decreases n
  {
    if n >= 10 {
      NatToStringRoundTrip(n / 10);
      var s := NatToString(n);
      assert s[..|s| - 1] == NatToString(n / 10);
    }
  }
}
