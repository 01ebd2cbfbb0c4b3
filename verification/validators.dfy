/** The rule-source classifiers of `src/lib/validators.ts`. */
module Validators {
  import opened Values

  /** `isStrPath`: a string whose first character is `$` (the bare `"$"` included). */
  predicate IsStrPath(v: Value) {
    v.Str? && |v.s| > 0 && v.s[0] == '$'
  }

  /** `isArrPath`: an array whose first element is a path string; `arr[0]` of an empty array is falsy. */
  predicate IsArrPath(v: Value) {
    v.Arr? && |v.elems| > 0 && IsStrPath(v.elems[0])
  }

  /**
   * The two classifiers never both hold, an array path is recognised by its
   * head alone, and neither needs more than a `$` to start with: the bare
   * `"$"` is a path, while an empty array is not.
   */
  lemma Classification(v: Value, rest: seq<Value>)
    ensures IsStrPath(v) ==> !IsArrPath(v)
    ensures IsArrPath(Arr([v] + rest)) <==> IsStrPath(v)
    ensures IsStrPath(Str("$")) && !IsArrPath(Arr([]))
    ensures !IsStrPath(Str("")) && !IsArrPath(Arr([Str("")]))
  {
  }
}
