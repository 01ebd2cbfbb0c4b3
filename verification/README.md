# mapObj: rule resolution and output assembly, modelled in Dafny

mapObj turns one JSON-like source document into a list of output documents.
It is driven by a mapping from target paths to sources. A source is one of:

- a literal, copied into every output;
- a path expression, resolved with a JSONPath library;
- a path with a transform function;
- several paths with a combining function.

How many documents come out depends on the array indices in the resolved
paths:

- A match with no interior array index is a *common property*. Common
  properties are overlaid on every output document.
- Any other match is a *row-scoped node*. Row-scoped nodes are grouped by
  their nearest enclosing array index into one document per group.
- Shallower ancestor nodes are folded into their deeper descendants.
- Targets written with `[]` collect the grouped documents of a parent row
  into one array.

This project models that engine and proves properties of it. Values are
modelled as JavaScript values (`Values`), and objects keep their properties
in insertion order. Targets are modelled already parsed into segments:
names, `[n]`, `[*]` and `[]` (`Targets`). They are rooted at `$`, as the
repository writes them (`"$.line_items[]"`). Source paths are what the path
library reports, `$` first. The model covers four generations of the engine:

| module | source | what differs |
|---|---|---|
| `Engine` (+ `Rows`, `EngineLaws`) | `src/main.ts` | the reference; sources classified by `isStrPath`/`isArrPath`; merge pass per row |
| `IndexTs` | `src/index.ts` | per-rule validation (bracket syntax, transform arity), JSON-copied literals; assembly as in `src/main.ts` |
| `IndexJs` | `src/index.js` | falsy sources skipped; `[]` rewritten to `[*]`; functions called on raw arguments; merge keyed by parsing the group keys back into paths |
| `RootIndex` | `index.js` | plain path strings; output rows kept per first array index; single matches written into every row |

Shared pieces:

- `Cartesian` (`src/lib/cartesian.ts`) models the product as written and
  relates it to a reference product of tuples.
- `Validators` (`src/lib/validators.ts`) holds the two classifiers.
- `Paths` holds the parent-path search, the prefix test and the
  path-string round trip.
- `JsNumbers` models JavaScript's `+` on strings (StringToNumber, section
  7.1.4.1.1 of ECMA-262) as far as `strToPath` needs it: white space,
  signs, fractions, exponents and `0x`/`0o`/`0b` literals.
- `OrderedMaps` models JavaScript `Map`/`Set` as insertion-ordered
  association lists.
- `Batch` holds the `mapObjArr` loop, which is the same in every variant.

The path library, the user's transform functions and the grammar check are
parameters of the model (`Env`, `Resolver`). The model proves properties
for every resolver and every function.

## Model

| member | source | states |
|---|---|---|
| `Paths.FindParentPath` | src/main.ts:30-40 | the parent path at `level` is the prefix ending at the `level`-th index segment counted from the end (position 0 never counts); with fewer index segments it is the path minus its last segment |
| `Paths.ParentIsPrefix` | src/main.ts:30-40 | the parent path is always a prefix of the path |
| `Paths.ParentShape` | src/main.ts:30-40 | with enough index segments the parent ends on an index segment and keeps `level - 1` fewer of them |
| `Paths.OrNullAgrees` | src/index.ts:29-39 | the `null`-returning variant never returns `null` for a level of at least 1 and agrees with the reference |
| `Paths.StrictNullIff` | src/index.js:39-46 | this variant returns `null` exactly when there are fewer than `level` index segments, and otherwise agrees with the reference |
| `Paths.LastIdxIndex` | src/main.ts:75-88 | `findLastIndex(Number.isInteger)`: the position of the last index segment, no index segment after it, -1 when there is none |
| `Paths.IncludesPath` | src/main.ts:47-52 | `includesPath(p, q)` holds exactly when `q` is a prefix of `p` |
| `Paths.StrToPath` | src/index.js:22-29 | one segment per comma-separated part; a part that `+` reads as an integer becomes that index, and any other part stays a name with its own text |
| `Paths.StrToPathRoundTrip` | src/index.js:22-29 | `strToPath(path.toString())` gives the path back when names hold no comma and `+` reads each name as `NaN` |
| `Paths.EmptyPathReadsAsZero` | src/index.js:22-29 | the empty path does not survive the round trip: it reads back as `[0]` |
| `Paths.PartForms` | src/index.js:22-29 | parts written `1e3`, `+5`, ` 7`, `0x10`, `7.0` and the empty part all become indices; `1.5` and `name` stay names |
| `JsNumbers.TrimStartShape` | src/index.js:24-25 | drops exactly the leading white space: the result is a suffix, everything dropped is white space, and the result does not start with white space |
| `JsNumbers.TrimEndShape` | src/index.js:24-25 | drops exactly the trailing white space, symmetrically |
| `JsNumbers.BlankReadsZero` | src/index.js:24-25 | `+s` of a string of white space only, the empty string included, is 0 |
| `JsNumbers.PaddingIgnored` | src/index.js:24-25 | white space around a literal does not change what `+` reads |
| `JsNumbers.DigitsRead` | src/index.js:24-25 | a run of decimal digits reads as its decimal value |
| `JsNumbers.SignedDigitsRead` | src/index.js:24-25 | a `+` in front of digits keeps their value and a `-` negates it |
| `JsNumbers.IntToStringReads` | src/index.js:22-29 | `+String(i)` is `i` for every integer, so an index segment survives `toString` and `strToPath` |
| `JsNumbers.ExponentRead` | src/index.js:24-25 | digits, `e` and digits read as the integer mantissa times that power of ten |
| `JsNumbers.HexRead` | src/index.js:24-25 | `0x` and hexadecimal digits read as their value in radix 16 |
| `JsNumbers.ZeroFractionRead` | src/index.js:24-25 | digits, a point and only zeros read as the integer before the point |
| `JsNumbers.FractionRead` | src/index.js:24-25 | digits, a point and digits ending in a non-zero digit read, as an exact decimal, as a number that is no integer; JavaScript's rounding to a double is left out |
| `JsNumbers.NameRead` | src/index.js:24-25 | a string with no white space at either end, starting with no digit, sign or point, and other than `Infinity`, reads as `NaN` |
| `JsNumbers.Forms` | src/index.js:24-25 | `+` on `1e3`, `+5`, ` 7`, `0x10`, `7.0`, the empty string, `1.5` and `name` gives 1000, 5, 7, 16, 7, 0, a fraction and `NaN` |
| `Cartesian.CartesianAsWritten` | src/lib/cartesian.ts:4-8 | `reduce` without a seed throws on no lists; otherwise the result has one entry per combination |
| `Cartesian.SingleListUnchanged` | src/lib/cartesian.ts:4-8 | a single list comes back as it is, not wrapped into one-element tuples |
| `Cartesian.ProductZeroIff` | src/lib/cartesian.ts:4-8 | the product is empty exactly when one of the lists is empty |
| `Cartesian.TuplesAt` | src/lib/cartesian.ts:4-8 | the reference product is in lexicographic order, first list slowest: the tuple at the rank of an index choice is that choice |
| `Cartesian.AtomicProductAgrees` | src/lib/cartesian.ts:4-8 | over two or more lists of non-array values, the written product equals the reference tuples in the same order |
| `Cartesian.PathProductAgrees` | src/main.ts:240-241 | over path lists the one-level flattening concatenates: each product entry is the concatenation of its tuple's paths |
| `Validators.Classification` | src/lib/validators.ts:13-19 | a value is never both a path string and a path array; an array is a path array exactly when its head is a path string; the bare `"$"` is a path, `""` and `[]` are not |
| `Targets.ReplaceEmpty` | src/main.ts:127-129 | `replaceAll("[]", …)`: the result has the same length, every `[]` segment is replaced by the given segment and every other segment is kept in place |
| `Targets.ReplaceEmptyClears` | src/main.ts:127-129 | after the replacement no `[]` is left unless the replacement is `[]` itself, and a target without `[]` is unchanged |
| `Targets.TruncAfterLast` | src/index.js:149-156 | `to.substring(0, to.lastIndexOf("[*]") + 3)`: a prefix that ends with the last occurrence of the marker, with no marker after it, and empty when there is none; both callers in `src/index.js` and the root `index.js` cut only targets holding a `[]`, so the marker is always found there (`IndexJs.MergeKeyShape`) |
| `Targets.MergePropRendered` | src/main.ts:310 | the merge prop `to.substring(0, to.lastIndexOf("[]") + 2)`, on the rendered target: a prefix of it that ends with `[]`, or, for a target with `[n]` or `[*]` but no `[]`, its first character `$` |
| `Targets.AddPropNamesOnly` | src/main.ts:126-138 | `addProp` with a target made of names writes the value at exactly that path, whether or not the path existed |
| `Targets.AddPropArrayMarker` | src/main.ts:126-138 | `addProp(obj, "k[]", v)` on an object without `k` appends `k: [v]` after the existing properties |
| `Targets.GetAfterSet` | src/main.ts:136 | reading back what the deep setter wrote yields the value written |
| `Targets.DeepSetKeepsSiblings` | src/main.ts:136 | writing below one property leaves every other property of the object as it was |
| `Targets.DeepSetKeepsApart` | src/main.ts:136 | with name paths, writing at one path leaves every path apart from it (neither a prefix of the other) reading as before |
| `Targets.SettableAfterApart` | src/main.ts:136 | with name paths, writing at one path keeps every path apart from it writable |
| `Targets.AddPropIsDeepSet` | src/main.ts:126-138 | with a target of names, `addProp` is the deep write at that path, whether or not it matched |
| `Targets.SetTarget` | src/main.ts:130-136 | no contract of its own; `Targets.AddPropIsDeepSet`, `Targets.AddPropNamesOnly` and `Targets.GetAfterSet` state what it writes |
| `Targets.AddProp` | src/main.ts:126-138 | no contract of its own; `Targets.AddPropIsDeepSet`, `Targets.AddPropNamesOnly` and `Targets.AddPropArrayMarker` state what it writes |
| `Targets.MergeObjArr` | src/main.ts:146-159 | no contract of its own; `Targets.MergeTopLevelField` states the merge of a top-level `k[]` |
| `Targets.MergeTopLevelField` | src/main.ts:146-159 | `mergeObjArr` on a top-level `k[]` keeps the first object and sets its `k` to every object's `k` elements concatenated in order |
| `Targets.AssignOverlays` | src/main.ts:291-293 | after `Object.assign(obj, common)` each common property reads as in `common` and every other property as before |
| `Targets.PutAllLookup` | src/main.ts:292 | the overlay, one property at a time, gives each key the common value if it has one and the old value otherwise |
| `Engine.Clean` | src/main.ts:58-64 | the transform sees every falsy argument as `""` and every other argument unchanged |
| `Engine.ComputeFunction` | src/main.ts:54-73 | a source that is not a function throws `TypeError`; a throw of the function is passed on; a function-valued result is an error, and the only case of it; any other result is returned with `undefined` read as `""`, all on the cleaned arguments |
| `Engine.ComputeEach` | src/main.ts:242-246 | one computed value per tuple, in order; a failure is the failure of some tuple |
| `Engine.CommonPropIff` | src/main.ts:75-88 | matches are common exactly when there is one node whose path has at most one index segment or ends with one |
| `Engine.AddTarget` | src/main.ts:186-188 | `Set.add`: the target is present afterwards, nothing else is added, and the insertion order of earlier targets is kept |
| `Engine.TransformRows` | src/main.ts:212-217 | one row per node, in order, each with the node's path, the rule's target and the function's result on the node's value (`Engine.ComputeFunction`) |
| `Engine.ArgValues` | src/main.ts:235-239 | an argument that matches nothing contributes the single value `undefined` and the others their values in order, so every argument has at least one value and the product is never empty |
| `Engine.ArgPaths` | src/main.ts:224-233 | corrected: an argument that matches nothing contributes one empty path, so each argument has exactly as many paths as values |
| `Engine.Multi` | src/main.ts:219-260 | one computed value per tuple of the argument product; these go to the common properties exactly when no argument path has an index, and otherwise each becomes a row whose path is the concatenation of its tuple's paths |
| `Engine.Step` | src/main.ts:184-262 | a rule whose source is `undefined` changes nothing; a successful step keeps every earlier row and registered target and only appends after them |
| `Engine.Collect` | src/main.ts:184-262 | the rule loop only appends rows and targets; `EngineLaws.CollectAppend` states how it splits and that an exception stops it |
| `Engine.RowGroups` | src/main.ts:263-286 | keys are unique, and each group is `{}` with exactly its rows' writes added in loop order |
| `Engine.Assemble` | src/main.ts:287-321 | no contract of its own; `EngineLaws.NoRowsResult`, `EngineLaws.EveryRowGetsCommon` and `EngineLaws.AssembleIgnoresUnused` state what it returns |
| `Engine.MapObj` | src/main.ts:177-322 | a mapping the grammar rejects throws its `SyntaxError`; otherwise an exception of the rule loop is the result's error, and no other error arises |
| `EngineLaws.OverlayCarries` | src/main.ts:291-293 | after the overlay every group is an object holding each common property with its common value, and flattening leaves the list as it is |
| `Engine.MergeNode` | src/main.ts:299-313 | a node whose level-1 group still exists moves that group into the merged array of its level-2 parent: the parent then holds exactly `[mergeObjArr(held + [group], prop)]`, where `held` is what the parent held before (`?? []`), and the group is removed; nothing else changes |
| `EngineLaws.MergeNodeAppends` | src/main.ts:299-313 | on a top-level `k[]` target the first group filed under a parent becomes its merged row, and each later group appends its `k` elements after the elements merged there before |
| `Targets.MergeOneMore` | src/main.ts:146-159 | `mergeObjArr` of the row merged so far and one more group keeps the first object and sets its `k` to the earlier elements followed by the new group's |
| `Engine.MapObjArr` | src/main.ts:363-372 | `mapObjArr` is the first failure of `mapObj` over the sources, or all of its results concatenated in source order |
| `Rows.SortByDepth` | src/main.ts:264 | the sort is a permutation of the rows, deepest path first |
| `Rows.SortIsStable` | src/main.ts:264 | rows of equal depth keep their relative order |
| `Rows.GroupKeys` | src/main.ts:265-285 | the groups are exactly the keys of rows not folded into an earlier, deeper row |
| `Rows.GroupsIffRows` | src/main.ts:263-286 | some group exists exactly when there is at least one row-scoped node |
| `Rows.Group` | src/main.ts:265-285 | keys are unique; `Rows.GroupContents` states what each group holds |
| `Rows.GroupStep` | src/main.ts:265-285 | one loop turn: an ignored row changes nothing; a live row writes itself and then its gathered ancestors into its key's object, and flags those ancestors |
| `Rows.GroupContents` | src/main.ts:265-285 | the group of key `k` exists exactly when some live row has key `k`, and it is `{}` with, in loop order, each such row and then its gathered ancestors written at their targets |
| `Rows.EveryRowWritten` | src/main.ts:265-285 | every row is written into some group: its own, or that of the earlier live row that gathered it |
| `Rows.AddAllReadsBack` | src/main.ts:269-280 | in a run of writes to name targets, where every other write goes to the same place or apart from it (neither path a prefix of the other) and no later write goes to the same place, a write reads back its value |
| `Rows.GroupReadsBack` | src/main.ts:265-285 | with name targets, the group of a key with writes exists, and with name targets each of its writes reads back from it, provided every other write goes to the same place or apart from it and no later write goes to the same place |
| `EngineLaws.CollectAppend` | src/main.ts:184-262 | the rule loop over two lists is the loop over the first, then over the second from where it stopped; an error stops it |
| `EngineLaws.UndefinedRuleIsSkipped` | src/main.ts:185 | a rule whose source is `undefined` can be removed wherever it stands |
| `EngineLaws.LiteralGoesToCommon` | src/main.ts:189-192 | a literal source is written as it is into the common properties and adds no row |
| `EngineLaws.LiteralReadsBack` | src/main.ts:189-192 | with a target of names, the literal reads back at that path of the common properties |
| `EngineLaws.UnmatchedPathChangesNothing` | src/main.ts:193-195 | a path matching nothing changes neither the common properties nor the rows; only its bracket target is registered |
| `EngineLaws.PathMatched` | src/main.ts:193-203 | a path that matches never fails; a common match writes the first node's value at the target of the common properties and adds no row; any other match appends one row per node with its value, path and target, after the earlier rows, and leaves the common properties alone |
| `EngineLaws.TransformMatched` | src/main.ts:204-218 | with a path and a transform, a common match writes `computeFunction(fn, value)` into the common properties, any other match appends the transformed rows; a failing transform is the step's error |
| `EngineLaws.NoRowsResult` | src/main.ts:287-290 | without row-scoped nodes the result is `[common]`, or `[]` when there are no common properties |
| `EngineLaws.EveryRowGetsCommon` | src/main.ts:287-294 | without merge targets every output object holds every common property with its common value |
| `EngineLaws.RowGroupsAllObj` | src/main.ts:263-286 | grouping rows with non-empty targets yields only objects |
| `EngineLaws.StepIgnoresMerge` | src/main.ts:186-188 | resolving a rule does not depend on the targets registered so far; it only registers its own |
| `EngineLaws.AssembleIgnoresUnused` | src/main.ts:295-321 | a registered merge target that no row carries does not change the result |
| `EngineLaws.RuleFindingNothingContributesNothing` | src/main.ts:177-322 | a rule resolving nothing can be removed from the mapping without changing the result or the error, as long as no other rule shares its target |
| `Batch.ForEachSource` | src/main.ts:363-372 | the push loop returns exactly the in-order concatenation of the per-source results, or the first failure |
| `Batch.OutcomeIsConcat` | src/main.ts:363-372 | `mapObjArr` succeeds exactly when every `mapObj` call does |
| `Findings.MissingArgumentLosesPaths` | src/main.ts:235-257 | as written, one missing argument among row-scoped ones leaves every computed row without a path |
| `Findings.MissingArgumentKeepsRows` | src/main.ts:235-257 | corrected, the same rule gives one row per tuple |
| `Findings.AgreesWhenPresentAndAtomic` | src/main.ts:219-260 | when every argument is found and no found value is an array, the code as written and the corrected branch agree exactly |
| `Findings.ArrayArgumentSpread` | src/main.ts:240-246 | as written, an array found for one argument reaches the transform as several arguments |
| `IndexTs.KeyHasValidBrackets` | src/index.ts:53-64 | the check either passes or throws one of its two messages |
| `IndexTs.ValidBracketsIff` | src/index.ts:53-64 | a key passes the bracket check exactly when its brackets come only as adjacent `[]` pairs |
| `IndexTs.CharAt` | src/index.ts:53-64 | `at(i)` counts negative indices from the end and is `undefined` out of range |
| `IndexTs.RenderedTargetIff` | src/index.ts:53-69 | a target passes exactly when it has no explicit index and no wildcard, and it counts as bracketed exactly when it has a bracket segment |
| `IndexTs.IsValidValueArray` | src/index.ts:71-87 | a transform array is valid exactly when it has two or more elements, the last a function taking one argument per path; each failure has its own message |
| `IndexTs.DefaultIff` | src/index.ts:107-131 | a source is a default literal unless it is `undefined`, a function, a `$.` path, or an array headed by one |
| `IndexTs.ClassifiersDisagree` | src/index.ts:107-131 | against `src/main.ts`, the literal test differs exactly on strings (or arrays headed by strings) that start with `$` but not `$.` |
| `IndexTs.SingleAfterDefault` | src/index.ts:148-152 | past the literal test, the single-path branch takes exactly a `$.` string or a pair headed by one; other arrays go to the multi-path branch; only functions are left |
| `IndexTs.JsonCopy` | src/index.ts:221-225 | the JSON copy keeps arrays as arrays of the same length and objects as objects |
| `IndexTs.CopyIsJson` | src/index.ts:221-225 | the copy of a literal holds no `undefined` and no function |
| `IndexTs.CopyOfJson` | src/index.ts:221-225 | a value that is JSON already is copied unchanged |
| `IndexTs.CopyIdempotent` | src/index.ts:221-225 | copying twice is copying once |
| `IndexTs.Step` | src/index.ts:215-296 | a rule registers its target for merging exactly when it is not `undefined` and its key holds brackets |
| `IndexTs.DefaultIsCopied` | src/index.ts:220-226 | a literal is stored as its JSON copy and adds no row |
| `IndexTs.IndexedTargetRejected` | src/index.ts:217-219 | a target with an explicit index or a wildcard makes every rule that is not `undefined` throw |
| `IndexTs.AgreesWithMain` | src/index.ts:215-296 | on `$.` paths and valid transform arrays headed by one, a rule does exactly what it does in `src/main.ts` |
| `IndexTs.MapObj` | src/index.ts:210-358 | succeeds exactly when the rule loop does and otherwise fails with the loop's error: the assembly never throws |
| `IndexTs.FunctionSourceSkipped` | src/index.ts:215-296 | a function given as the source is skipped here, where `src/main.ts` stores it as a literal |
| `IndexTs.LonePathArrayRejected` | src/index.ts:252-256 | an array holding only a path throws here, where `src/main.ts` skips it |
| `IndexTs.MapObjArr` | src/index.ts:374-383 | `mapObjArr` is the first failure, or the in-order concatenation |
| `IndexJs.Call` | src/index.js:198 | a call succeeds exactly when the function returns, with its value unchanged; a throw is passed on |
| `IndexJs.CallEach` | src/index.js:196-200 | one value per tuple in order; a failure means some tuple made the function throw |
| `IndexJs.CommonJsAgainstMain` | src/index.js:220-227 | on one node the common test agrees with `src/main.ts`; several nodes count as common exactly when the first path is empty or ends with an index |
| `IndexJs.MergeKeyShape` | src/index.js:149-156 | the merge key is a prefix of the rewritten target ending with its last `[*]`, and every `[]` of the target lies inside it |
| `IndexJs.Single` | src/index.js:218-237 | a rule matching nothing changes nothing; a common match writes the first value, or `fn` of it, at the target of the common properties and adds no row; a row-scoped match appends, for each node in order, a row with its path, the target, and its value or `fn` of it, and leaves the common properties alone; without `fn` it never throws, and with `fn` a common match throws exactly when the call does |
| `IndexJs.MultiJs` | src/index.js:175-216 | one function result per tuple of the argument product, to the common properties exactly when no path has an index, otherwise one row per tuple keyed by its concatenated paths |
| `IndexJs.Step` | src/index.js:147-238 | a rule with a truthy source registers the merge key of its `[]` target; a rule with a falsy source registers nothing |
| `IndexJs.StepRowsRewritten` | src/index.js:233-237 | every row a rule adds carries the rule's target with `[]` read as `[*]`, after the rows already there |
| `IndexJs.FalsySourceSkipped` | src/index.js:148 | a falsy source is skipped and registers nothing |
| `IndexJs.EmptyArraySkipped` | src/index.js:160 | an empty array source is skipped after its target is registered |
| `IndexJs.MalformedArrayThrows` | src/index.js:161-172 | a last element that is not a function throws, and only then that message; a lone function throws the other message |
| `IndexJs.MergeEntry` | src/index.js:270-283 | a group key that is `undefined` ends in a `TypeError`, and only it does; a key with a level-2 parent replaces that parent's entry by the merge of its list and the group, leaving every other keyed entry alone; a key without one adds the group as a fresh entry |
| `IndexJs.MergeAllJs` | src/index.js:267-284 | no contract of its own; `IndexJs.MergeAllJsKeeps` and `IndexJs.MergedRows` state what it builds |
| `IndexJs.MergeAllJsKeeps` | src/index.js:267-284 | a successful merge pass keeps one object per entry and files every group that has a level-2 parent under that parent's key |
| `IndexJs.MergedRows` | src/index.js:267-285 | with merge targets and some group, the result is one merged object per merge-map entry, in map order |
| `IndexJs.Assemble` | src/index.js:261-288 | without rows the result is `[common]` or `[]`; without merge targets it never throws |
| `IndexJs.MapObj` | src/index.js:142-289 | an exception of the rule loop is the result; a mapping that adds no row gives `[common]` or `[]` |
| `IndexJs.NoRowsResult` | src/index.js:261-263 | without rows the result is `[common]` or `[]`; with rows there is at least one group |
| `IndexJs.MapObjArr` | src/index.js:117-126 | `mapObjArr` is the first failure, or the in-order concatenation |
| `RootIndex.FirstIdx` | index.js:79-84 | the group key of a node is its first numeric path element, -1 when there is none |
| `RootIndex.GroupByIsFilter` | index.js:79-84 | `Map.groupBy`: the group of a key holds exactly the nodes with that key, in their order, and a key exists exactly when some node has it |
| `RootIndex.NodeInItsGroup` | index.js:79-84 | every node lands in the group of its own key |
| `RootIndex.FillFrom` | index.js:94-100 | the fill loop leaves the list with `max(values, objects)` entries: the existing objects get their values; new ones start from `obj`; objects beyond the values get the last value written into `obj` |
| `RootIndex.Fill` | index.js:86-100 | the whole fill loop, entry by entry, in closed form |
| `RootIndex.Place` | index.js:86-101 | a group leaves its key with at least as many objects as it has values; no other key changes and key 0 stays non-empty |
| `RootIndex.PlaceFills` | index.js:86-101 | a group fills the existing list of its key, or a new list started from the first object of row 0 |
| `RootIndex.PlaceAll` | index.js:85-102 | keys without nodes keep their lists and key 0 stays non-empty |
| `RootIndex.PlaceAllCovers` | index.js:85-102 | every key with nodes ends with at least as many objects as it has nodes |
| `RootIndex.WriteAll` | index.js:73-77 | one match is written into every object of every row; keys, order and list lengths are kept |
| `RootIndex.SingleNodeEverywhere` | index.js:72-77 | a mapping with exactly one match writes its value into every output object |
| `RootIndex.MultiNodeRows` | index.js:78-103 | a mapping with several matches leaves rows without matches alone and gives each matched row at least as many objects as it has matches |
| `RootIndex.Step` | index.js:66-112 | a mapping registers its merge key unless it has a path that matches nothing; row 0 stays non-empty |
| `RootIndex.Collect` | index.js:66-113 | through the whole loop row 0 stays present and every row list non-empty |
| `RootIndex.FalsyFromOnlyRegisters` | index.js:67-112 | a mapping without a `from` changes no object but still registers its `[]` target |
| `RootIndex.UnmatchedIsSkipped` | index.js:70-71 | a mapping whose path matches nothing is skipped entirely, registration included |
| `RootIndex.MergeTargets` | index.js:114-118 | with merge targets, every row ends as a single merged object; keys are kept |
| `RootIndex.MapObj` | index.js:119-120 | every returned object has at least one property |
| `RootIndex.OutputFromRows` | index.js:119-120 | the result holds exactly the merged row objects that have a property |
| `RootIndex.UnmatchedGivesNothing` | index.js:62-121 | when every mapping has a path and none matches, the result is `[]` |
| `RootIndex.EmptyFromStillCreatesArray` | index.js:105-118 | a lone `k[]` mapping with no `from` yields one object `{k: []}` |
| `RootIndex.MapObjArr` | index.js:46-55 | `mapObjArr` is the in-order concatenation of `mapObj` over the sources |

## Left out

- The JSONPath library. `jp.nodes` on the source is a total function
  parameter (`resolve`), so filters, slices, unions and the library's own
  errors are not modelled. On output documents, `jp.nodes`, `jp.query` and
  `jp.value` are modelled on parsed targets only: names, `[n]`, `[*]` and
  `[]`. Property names in targets are assumed to hold no `.`, `[`, `]` or
  `*`.
- `jp.stringify(pNode.to)` in `src/index.js` is read as the identity on a
  parsed target.
- The grammar, the preprocessor and the generated parser. `parse(mapping)`
  in `src/main.ts` is the boolean parameter `accepts`, and its
  `SyntaxError` is `GrammarError`.
- The asynchronous variants (`mapObjAsync`, `mapObjArrAsync`,
  `resolveNestedPromises`). They do not change grouping.
- Sharing and in-place updates. Values are immutable here. `addProp` of
  `src/main.ts` (lines 126-138) writes into the object it is given, although
  its doc comment promises a copy, and node values are stored by reference.
  An object that a transform returns for several rows, or an object of the
  source, is therefore updated once per write, every row that shares it
  reads the last write, and the caller's source and mapping change.
  `Targets.AddProp`, `Rows.Group` (through `Rows.AddAll`) and
  `Engine.OverlayAll` give each row its own value instead.
- `structuredClone` failures. `addProp` and `mergeObjArr` of `src/index.js`
  (lines 71 and 89) and of the root `index.js` (lines 12 and 30), and
  `mergeObjArr` of `src/main.ts` (line 147), deep-copy their input, and the
  copy throws `DataCloneError` when the input holds a function. Here a copy
  is the value itself, so `Fn` values pass without an error through
  `Targets.AddProp` and `Targets.MergeObjArr` as `Engine.MergeNode`,
  `IndexJs.Single`, `IndexJs.MergeEntry`, `RootIndex.Place` and
  `RootIndex.MergeTargets` use them.
- Targets written without the leading `$.`. The path library also accepts a
  target that starts with a bare name (`"a[0]"`). For such a target without
  `[]`, the merge prop of `src/main.ts` (line 310) is the name's first
  character rather than `$`. Such targets are not modelled.
- The path library's setter on the root path `$`. `src/main.ts` reaches it
  when a registered target has `[n]` or `[*]` but no `[]`: the merge prop is
  then `$` (`Targets.MergePropRendered`). What the library does there is not
  modelled. The model's deep write at the root replaces the first object by
  the merged list, so such a row comes out as the list of its objects.
- Floating-point numbers and `Date`. Numbers are integers.
- User functions are opaque `Fn(id, arity)` values called through `call`.
  A thrown exception is an `Err`.
- The root `addProp` prefixes the key with `"$."`. Targets are modelled
  parsed, so the prefix has no counterpart.
- Mappings of the root `index.js`: `from` is a string or absent, as documented. Other
  values concatenated into `"$." + from` are not modelled.
- The crash of the root `index.js` when row 0 is missing. `RootIndex.Step`
  keeps row 0 present and non-empty (`Live`), so it cannot happen.
- `Targets.MergeObjArr`: `src/index.js` and the root `index.js` assume a
  non-empty list. The model falls back to `{}` as `src/main.ts` does. Both
  engines only merge non-empty lists.
- Behaviour of the code worth noting:
  - `isArrPath` in `src/main.ts` accepts a path array of any length, not
    only pairs.
  - The root `index.js` emits `k: []` for a `k[]` target with no
    contributing rows (`RootIndex.EmptyFromStillCreatesArray`); it does
    not omit the field.
  - `src/index.js` passes missing arguments as `undefined` rather than
    `""`.
- Engine.MergeRows: states only key uniqueness and a size bound; what one
  node does is `Engine.MergeNode`, and how groups accumulate under one
  parent is `EngineLaws.MergeNodeAppends`.
- Engine.MergeAll: states only key uniqueness and a size bound; the unused
  target law is `EngineLaws.MergeAllUnused`.
- Rows.GroupReadsBack: states read-back for targets made of names only.
  Targets with `[n]` or `[*]` write through `jp.nodes` matches, which the
  model follows but no lemma reads back. `Rows.GroupContents` still states
  every group's contents for all targets.
- Engine.Step: states only the skip of an `undefined` source and that a
  step appends; the branches are stated by `EngineLaws.LiteralGoesToCommon`,
  `EngineLaws.UnmatchedPathChangesNothing`, `EngineLaws.PathMatched`,
  `EngineLaws.TransformMatched` and `Engine.Multi`.
- IndexTs.Step: states only the merge registration; the branches are
  stated by `IndexTs.DefaultIsCopied`, `IndexTs.AgreesWithMain` and the
  rejection lemmas.
- Paths.StrToPath: `+v` is modelled for integer results only. A part that
  `+` reads as a number with a fraction, or as an infinity, stays a name
  holding its own text, where JavaScript stores the number. This changes only
  how such a part is written back (`1.50` stays `1.50`, JavaScript writes
  `1.5`). Integers beyond 2^53 are exact here, and exponents beyond the
  double range are not turned into an infinity or zero. Decimal fractions
  are read exactly, where JavaScript rounds to the nearest double: a part
  with more digits than a double holds, such as `1.0000000000000001`, is
  the integer 1 in JavaScript and becomes the index 1, while here it stays
  a name.
- JsNumbers.FractionRead: states the exact decimal reading. JavaScript
  agrees only while the digits fit a double (about 15 significant digits);
  beyond that `+` may round to an integer (`Paths.StrToPath` above).
- IndexJs.Step: states only the merge registration; the branches are
  stated by `IndexJs.Single`, `IndexJs.MultiJs` and the skip and throw
  lemmas.

## Findings

| source | as written | input that shows it | evidently intended | confidence | as-written member | corrected member |
|---|---|---|---|---|---|---|
| src/main.ts:235-257 | a missing argument is padded with `[undefined]` in the values but not in the paths, so `cartesian(...argsPaths)` is empty and every computed row gets `path: undefined`, which `findParentPath` then dereferences | `["$.items[*].a", "$.missing", fn]` on `{items: [{a: 1}]}`: one value, no path | the path list padded like the values, so the row keeps the paths of the arguments that were found | not executed | `Findings.MissingArgumentLosesPaths` | `Findings.MissingArgumentKeepsRows` |
| src/lib/cartesian.ts:4-8 | each step flattens one level (`[ae, be].flat()`), so an array found for an argument is spread into several transform arguments | `["$.tags", "$.name", fn]` with `tags: [1, 2]`, `name: 3`: `fn(1, 2, 3)` instead of `fn([1, 2], 3)` | one transform argument per path | not executed | `Findings.ArrayArgumentSpread` | `Findings.AgreesWhenPresentAndAtomic` |

The corrected multi-path branch is `Engine.Multi`. `Findings.MultiAsWritten`
models the code as written. The same two defects are in `src/index.ts` and
`src/index.js:176-214`. `IndexTs` and `IndexJs` use the corrected branch.
