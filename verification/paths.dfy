/**
 * Operations on resolved paths (`src/main.ts`, `src/index.ts`, `src/index.js`):
 * locating the enclosing array element of a node (`findParentPath`), the
 * prefix test (`includesPath`), and the comma-joined string form used as a
 * map key together with its parser (`strToPath`).
 */
module Paths {
  import opened Wrappers
  import opened Values
  import JsNumbers

  /** Number of array-index segments in a path (`Number.isInteger` holds of exactly these). */
  function IdxCount(p: Path): nat {
    if p == [] then 0 else (if p[0].Idx? then 1 else 0) + IdxCount(p[1..])
  }

  lemma IdxCountStep(p: Path, j: nat)
    requires j < |p|
    ensures IdxCount(p[j..]) == (if p[j].Idx? then 1 else 0) + IdxCount(p[j + 1..])
  {
    assert p[j..][1..] == p[j + 1..];
  }

  /** Counting from further left never sees fewer index segments. */
  lemma {:induction false} IdxCountMono(p: Path, j: nat, k: nat)
    requires j <= k <= |p|
    ensures IdxCount(p[j..]) >= IdxCount(p[k..])
    decreases k - j
  {
    if j < k {
      IdxCountStep(p, j);
      IdxCountMono(p, j + 1, k);
    }
  }

  /** `path.slice(0, -1)`: everything but the last segment (nothing for an empty path). */
  function DropLast(p: Path): Path {
    if p == [] then [] else p[..|p| - 1]
  }

  /**
   * Position `j` is where the scan of `findParentPath` stops for `level`:
   * it is an index segment, never position 0, and exactly `level` index
   * segments lie at or after it.
   */
  ghost predicate IsCut(p: Path, level: int, j: int) {
    1 <= j < |p| && p[j].Idx? && IdxCount(p[j..]) == level
  }

  /** At most one position is a cut for a given level. */
  lemma CutUnique(p: Path, level: int, j: int, k: int)
    requires IsCut(p, level, j) && IsCut(p, level, k)
    ensures j == k
  {
    if j < k {
      IdxCountStep(p, j);
      IdxCountMono(p, j + 1, k);
    } else if k < j {
      IdxCountStep(p, k);
      IdxCountMono(p, k + 1, j);
    }
  }

  /** The occurrence count once the scan has examined positions `|p|-1` down to 1. */
  function ScannedCount(p: Path): nat {
    if p == [] then 0 else IdxCount(p[1..])
  }

  /**
   * The loop shared by every `findParentPath`: walk from the last segment
   * down to position 1, counting index segments, and stop with the prefix
   * ending at the segment where the count reaches `level`. `None` means the
   * loop ran out without stopping.
   */
  function LevelCut(p: Path, level: int): (r: Option<Path>)
    ensures level >= 1 ==> (r.Some? <==> exists j :: IsCut(p, level, j))
    ensures level >= 1 ==> forall j :: IsCut(p, level, j) ==> r == Some(p[..j + 1])
  {
    assert p[|p|..] == [];
    ScanFrom(p, level, |p| - 1, 0)
  }

  function ScanFrom(p: Path, level: int, i: int, occ: nat): (r: Option<Path>)
    requires -1 <= i < |p|
    requires occ == IdxCount(p[i + 1..])
    requires level >= 1 ==> occ < level
    ensures level >= 1 ==> (r.Some? <==> exists j :: j <= i && IsCut(p, level, j))
    ensures level >= 1 ==> forall j :: j <= i && IsCut(p, level, j) ==> r == Some(p[..j + 1])
    decreases i + 1
  {
    if i <= 0 then None
    else
      var occ' := occ + (if p[i].Idx? then 1 else 0);
      IdxCountStep(p, i);
      if occ' == level then
        assert level >= 1 ==> IsCut(p, level, i);
        assert level >= 1 ==> forall j :: j <= i && IsCut(p, level, j) ==> j == i by {
          if level >= 1 {
            forall j | j <= i && IsCut(p, level, j)
              ensures j == i
            {
              CutUnique(p, level, i, j);
            }
          }
        }
        Some(p[..i + 1])
      else
        ScanFrom(p, level, i - 1, occ')
  }

  /** A cut exists exactly when the scanned part holds at least `level` index segments. */
  lemma CutExistsIff(p: Path, level: int)
    requires level >= 1
    ensures (exists j :: IsCut(p, level, j)) <==> ScannedCount(p) >= level
  {
    if ScannedCount(p) >= level {
      CutExistsFrom(p, level, 1);
    } else {
      forall j | 1 <= j < |p|
        ensures !IsCut(p, level, j)
      {
        IdxCountMono(p, 1, j);
      }
    }
  }

  lemma {:induction false} CutExistsFrom(p: Path, level: int, i: nat)
    requires level >= 1 && 1 <= i <= |p|
    requires IdxCount(p[i..]) >= level
    ensures exists j :: IsCut(p, level, j)
    decreases |p| - i
  {
    assert i < |p|;
    IdxCountStep(p, i);
    if IdxCount(p[i + 1..]) >= level {
      CutExistsFrom(p, level, i + 1);
    } else {
      assert IsCut(p, level, i);
    }
  }

  /**
   * `findParentPath` of `src/main.ts`: the prefix ending at the level-th
   * index segment counted from the end, or the path without its last
   * segment when there are fewer such segments.
   */
  function FindParentPath(p: Path, level: int): (r: Path)
    ensures level >= 1 && ScannedCount(p) >= level ==>
              exists j :: IsCut(p, level, j) && r == p[..j + 1]
    ensures level >= 1 && ScannedCount(p) < level ==> r == DropLast(p)
  {
    assert level >= 1 ==> ((exists j :: IsCut(p, level, j)) <==> ScannedCount(p) >= level) by {
      if level >= 1 {
        CutExistsIff(p, level);
      }
    }
    match LevelCut(p, level)
    case Some(q) => q
    case None => if ScannedCount(p) < level then DropLast(p) else []
  }

  /** `findParentPath` of `src/index.ts`: as above, but `null` where main.ts returns `[]`. */
  function FindParentPathOrNull(p: Path, level: int): Option<Path> {
    match LevelCut(p, level)
    case Some(q) => Some(q)
    case None => if ScannedCount(p) < level then Some(DropLast(p)) else None
  }

  /** For every level the engine uses, the two variants agree and `null` never arises. */
  lemma OrNullAgrees(p: Path, level: int)
    requires level >= 1
    ensures FindParentPathOrNull(p, level) == Some(FindParentPath(p, level))
  {
    CutExistsIff(p, level);
  }

  /** The parent path is always a prefix of the path. */
  lemma {:induction false} ParentIsPrefix(p: Path, level: int)
    requires level >= 1
    ensures FindParentPath(p, level) <= p
  {
    CutExistsIff(p, level);
  }

  /**
   * When the path has enough index segments, the parent path ends on an
   * index segment and keeps exactly `level - 1` fewer of them.
   */
  lemma ParentShape(p: Path, level: int)
    requires level >= 1 && ScannedCount(p) >= level
    ensures var r := FindParentPath(p, level);
      |r| >= 2 && r[|r| - 1].Idx? && IdxCount(r[1..]) + level - 1 == ScannedCount(p)
  {
    CutExistsIff(p, level);
    var j :| IsCut(p, level, j) && FindParentPath(p, level) == p[..j + 1];
    var r := p[..j + 1];
    IdxCountSplit(p[1..], j);
    assert r[1..] == p[1..][..j];
    assert p[1..][j..] == p[j + 1..];
    IdxCountStep(p, j);
  }

  lemma {:induction false} IdxCountSplit(p: Path, k: nat)
    requires k <= |p|
    ensures IdxCount(p) == IdxCount(p[..k]) + IdxCount(p[k..])
  {
    if k > 0 {
      assert p[1..][..k - 1] == p[..k][1..];
      assert p[1..][k - 1..] == p[k..];
      IdxCountSplit(p[1..], k - 1);
    } else {
      assert p[k..] == p;
    }
  }

  /** `findParentPath` of `src/index.js`: `null` whenever the loop does not stop. */
  function FindParentPathStrict(p: Path, level: int): Option<Path> {
    LevelCut(p, level)
  }

  /** The `src/index.js` variant yields `null` exactly when there are fewer than `level` index segments. */
  lemma StrictNullIff(p: Path, level: int)
    requires level >= 1
    ensures FindParentPathStrict(p, level).None? <==> ScannedCount(p) < level
    ensures FindParentPathStrict(p, level).Some? ==>
              FindParentPathStrict(p, level).value == FindParentPath(p, level)
  {
    CutExistsIff(p, level);
  }

  /** `path.findLastIndex(Number.isInteger)`: the position of the last index segment, `-1` when there is none. */
  function LastIdxIndex(p: Path): (r: int)
    ensures -1 <= r < |p|
    ensures r >= 0 ==> p[r].Idx?
    ensures forall j :: r < j < |p| ==> !p[j].Idx?
  {
    if p == [] then -1
    else if p[|p| - 1].Idx? then |p| - 1
    else LastIdxIndex(p[..|p| - 1])
  }

  // ---------------------------------------------------------------------
  // Prefix test

  /** `includesPath(p, q)`: every segment of `q` equals the segment of `p` at the same position. */
  function IncludesPath(p: Path, q: Path): (r: bool)
    ensures r <==> q <= p
  {
    IncludesFrom(p, q, 0)
  }

  function IncludesFrom(p: Path, q: Path, i: nat): (r: bool)
    requires i <= |q| && i <= |p| && q[..i] == p[..i]
    ensures r <==> q <= p
    decreases |q| - i
  {
    if i >= |q| then
      assert q == q[..i];
      true
    else if i >= |p| || p[i] != q[i] then false
    else
      assert q[..i + 1] == q[..i] + [q[i]];
      assert p[..i + 1] == p[..i] + [p[i]];
      IncludesFrom(p, q, i + 1)
  }

  // ---------------------------------------------------------------------
  // String form of a path, as produced by `Array.prototype.toString`

  function SegString(s: Seg): string {
    match s
    case Key(k) => k
    case Idx(i) => IntToString(i)
  }

  /** `parts.join(",")`. */
  function Join(parts: seq<string>): string {
    if |parts| == 0 then ""
    else if |parts| == 1 then parts[0]
    else parts[0] + "," + Join(parts[1..])
  }

  function FirstComma(s: string): (i: nat)
    requires ',' in s
    ensures i < |s| && s[i] == ',' && ',' !in s[..i]
  {
    if s[0] == ',' then 0 else
      assert ',' in s[1..] by {
        var k :| 0 <= k < |s| && s[k] == ',';
        assert s[1..][k - 1] == ',';
      }
      var i := FirstComma(s[1..]);
      assert s[..i + 1] == [s[0]] + s[1..][..i];
      i + 1
  }

  /** `s.split(",")`: never empty; the empty string splits into one empty part. */
  function Split(s: string): (parts: seq<string>)
    ensures |parts| >= 1
    decreases |s|
  {
    if ',' !in s then [s]
    else
      var i := FirstComma(s);
      [s[..i]] + Split(s[i + 1..])
  }

  lemma {:induction false} SplitJoin(parts: seq<string>)
    requires |parts| >= 1
    requires forall i :: 0 <= i < |parts| ==> ',' !in parts[i]
    ensures Split(Join(parts)) == parts
  {
    if |parts| > 1 {
      var s := Join(parts);
      var p0 := parts[0];
      var tail := Join(parts[1..]);
      assert s == p0 + "," + tail;
      assert s[|p0|] == ',';
      assert s[..|p0|] == p0;
      var i := FirstComma(s);
      assert i == |p0| by {
        assert forall k :: 0 <= k < |p0| ==> s[k] == p0[k];
        assert forall k :: 0 <= k < i ==> s[..i][k] == s[k];
      }
      assert s[i + 1..] == tail;
      assert Split(s) == [p0] + Split(tail);
      SplitJoin(parts[1..]);
      assert [p0] + parts[1..] == parts;
    }
  }

  function PathStrings(p: Path): (ss: seq<string>)
    ensures |ss| == |p|
    ensures forall i :: 0 <= i < |p| ==> ss[i] == SegString(p[i])
  {
    if p == [] then [] else [SegString(p[0])] + PathStrings(p[1..])
  }

  /** `path.toString()`, the key of the engine's row maps. */
  function PathToString(p: Path): string {
    Join(PathStrings(p))
  }

  /**
   * One part of a path string: `+v` decides, and a part that reads as an
   * integer becomes an index while any other part stays a property name.
   */
  function PartToSeg(v: string): (r: Seg)
    ensures r.Key? ==> r.name == v
  {
    match JsNumbers.ToNumber(v)
    case Integer(n) => Idx(n)
    case _ => Key(v)
  }

  /** `strToPath` of `src/index.js`: split on commas, numeric-looking parts become indices. */
  function StrToPath(s: string): (p: Path)
    ensures |p| == |Split(s)|
    ensures forall i :: 0 <= i < |p| ==> p[i] == PartToSeg(Split(s)[i])
  {
    var parts := Split(s);
    seq(|parts|, i requires 0 <= i < |parts| => PartToSeg(parts[i]))
  }

  /** A property name that survives the string round trip. */
  predicate PlainKey(k: string) {
    ',' !in k && JsNumbers.ToNumber(k).NotANumber?
  }

  lemma IntToStringNoComma(i: int)
    ensures ',' !in IntToString(i)
  {
    var s := IntToString(i);
    assert forall k :: 0 <= k < |s| ==> s[k] == '-' || IsDigit(s[k]);
  }

  /**
   * `strToPath` inverts `toString` on non-empty paths whose property names
   * hold no comma and do not look like numbers.
   */
  lemma StrToPathRoundTrip(p: Path)
    requires |p| >= 1
    requires forall i :: 0 <= i < |p| ==> p[i].Key? ==> PlainKey(p[i].name)
    ensures StrToPath(PathToString(p)) == p
  {
    var ss := PathStrings(p);
    forall i | 0 <= i < |p|
      ensures ',' !in ss[i] && PartToSeg(ss[i]) == p[i]
    {
      if p[i].Idx? {
        JsNumbers.IntToStringReads(p[i].index);
        IntToStringNoComma(p[i].index);
      }
    }
    SplitJoin(ss);
  }

  /**
   * `+` also reads as integers parts that `toString` never writes: an
   * exponent, a plus sign, white space, another radix and a zero fraction
   * all give indices, and only a true fraction or a name stays a property
   * name.
   */
  lemma PartForms()
    ensures PartToSeg("1e3") == Idx(1000)
    ensures PartToSeg("+5") == Idx(5)
    ensures PartToSeg(" 7") == Idx(7)
    ensures PartToSeg("0x10") == Idx(16)
    ensures PartToSeg("7.0") == Idx(7)
    ensures PartToSeg("") == Idx(0)
    ensures PartToSeg("1.5") == Key("1.5")
    ensures PartToSeg("name") == Key("name")
  {
    JsNumbers.Forms();
  }

  /** The empty path does not survive: `"".split(",")` is `[""]`, which reads back as `[0]`. */
  lemma EmptyPathReadsAsZero()
    ensures StrToPath(PathToString([])) == [Idx(0)]
  {
    assert Split("") == [""];
  }
}
