/**
 * The unary `+` of JavaScript on strings (StringToNumber, section 7.1.4.1.1
 * of ECMA-262, over the StringNumericLiteral grammar of section 7.1.4.1),
 * read only as far as the mapper needs it: whether the string is not a
 * number, an integer (and which), or some other number.
 */
module JsNumbers {
  import opened Wrappers
  import opened Values

  /** What `+s` gives: `NaN`, an integral number, or a number with a fraction (or an infinity). */
  datatype NumRead = NotANumber | Integer(n: int) | NonInteger

  // ---------------------------------------------------------------------
  // White space around the literal

  /** StrWhiteSpaceChar: the WhiteSpace and LineTerminator code points of ECMA-262, sections 12.2 and 12.3. */
  predicate IsStrWhiteSpace(c: char) {
    c == '\t' || c == '\U{B}' || c == '\U{C}' || c == ' ' || c == '\U{A0}' || c == '\U{FEFF}'
    || c == '\U{1680}' || ('\U{2000}' <= c <= '\U{200A}') || c == '\U{202F}' || c == '\U{205F}' || c == '\U{3000}'
    || c == '\n' || c == '\r' || c == '\U{2028}' || c == '\U{2029}'
  }

  predicate AllWhiteSpace(s: string) {
    forall i :: 0 <= i < |s| ==> IsStrWhiteSpace(s[i])
  }

  /** The string without its leading white space. */
  function TrimStart(s: string): string
    decreases |s|
  {
    if s != [] && IsStrWhiteSpace(s[0]) then TrimStart(s[1..]) else s
  }

  /** The string without its trailing white space. */
  function TrimEnd(s: string): string
    decreases |s|
  {
    if s != [] && IsStrWhiteSpace(s[|s| - 1]) then TrimEnd(s[..|s| - 1]) else s
  }

  /**
   * `TrimStart` drops exactly the leading white space: what is left is a
   * suffix that does not start with white space, and what is dropped is all
   * white space.
   */
  lemma {:induction false} TrimStartShape(s: string)
    ensures var r := TrimStart(s);
      |r| <= |s| && r == s[|s| - |r|..] && AllWhiteSpace(s[..|s| - |r|])
      && (r == [] || !IsStrWhiteSpace(r[0]))
      && (AllWhiteSpace(s) ==> r == [])
    decreases |s|
  {
    if s != [] && IsStrWhiteSpace(s[0]) {
      TrimStartShape(s[1..]);
      var r := TrimStart(s[1..]);
      assert s[..|s| - |r|] == [s[0]] + s[1..][..|s| - 1 - |r|];
      assert AllWhiteSpace(s) ==> AllWhiteSpace(s[1..]);
    }
  }

  /** `TrimEnd` drops exactly the trailing white space. */
  lemma {:induction false} TrimEndShape(s: string)
    ensures var r := TrimEnd(s);
      |r| <= |s| && r == s[..|r|] && AllWhiteSpace(s[|r|..])
      && (r == [] || !IsStrWhiteSpace(r[|r| - 1]))
      && (AllWhiteSpace(s) ==> r == [])
    decreases |s|
  {
    if s != [] && IsStrWhiteSpace(s[|s| - 1]) {
      TrimEndShape(s[..|s| - 1]);
      var r := TrimEnd(s[..|s| - 1]);
      assert s[|r|..] == s[..|s| - 1][|r|..] + [s[|s| - 1]];
      assert AllWhiteSpace(s) ==> AllWhiteSpace(s[..|s| - 1]);
    }
  }

  function Trim(s: string): string {
    TrimEnd(TrimStart(s))
  }

  // ---------------------------------------------------------------------
  // Digits

  predicate AllDigits(s: string) {
    forall i :: 0 <= i < |s| ==> IsDigit(s[i])
  }

  /** The value of a HexDigit, OctalDigit or BinaryDigit character, before the radix is checked. */
  function RadixDigit(c: char): Option<nat> {
    if '0' <= c <= '9' then Some((c as int - '0' as int) as nat)
    else if 'a' <= c <= 'f' then Some((c as int - 'a' as int + 10) as nat)
    else if 'A' <= c <= 'F' then Some((c as int - 'A' as int + 10) as nat)
    else None
  }

  predicate AllRadix(s: string, radix: nat) {
    forall i :: 0 <= i < |s| ==> RadixDigit(s[i]).Some? && RadixDigit(s[i]).value < radix
  }

  /** The value of digits in the given radix, most significant first. */
  function RadixValue(s: string, radix: nat): nat
    requires AllRadix(s, radix)
  {
    if s == [] then 0 else RadixValue(s[..|s| - 1], radix) * radix + RadixDigit(s[|s| - 1]).value
  }

  function Pow10(e: nat): (r: nat)
    ensures r >= 1
  {
    if e == 0 then 1 else 10 * Pow10(e - 1)
  }

  /** The first position holding one of the marks, if any. */
  function FirstOf(s: string, marks: set<char>): (r: Option<nat>)
    ensures r.Some? ==> r.value < |s| && s[r.value] in marks && forall j :: 0 <= j < r.value ==> s[j] !in marks
    ensures r.None? ==> forall j :: 0 <= j < |s| ==> s[j] !in marks
  {
    if s == [] then None
    else if s[0] in marks then Some(0)
    else match FirstOf(s[1..], marks)
      case None => None
      case Some(i) => Some(i + 1)
  }

  // ---------------------------------------------------------------------
  // The literal

  /** A mantissa: its digits read as one natural number, and how many of them follow the point. */
  datatype Mantissa = Mantissa(digits: nat, places: nat)

  /** `DecimalDigits`, `DecimalDigits . DecimalDigits?` or `. DecimalDigits`: at least one digit, at most one point. */
  function ReadMantissa(s: string): Option<Mantissa> {
    match FirstOf(s, {'.'})
    case None => if |s| >= 1 && AllDigits(s) then Some(Mantissa(DigitsValue(s), 0)) else None
    case Some(i) => PointMantissa(s[..i], s[i + 1..])
  }

  /** The digits on either side of the point read as one number. */
  function PointMantissa(whole: string, frac: string): Option<Mantissa> {
    if |whole| + |frac| >= 1 && AllDigits(whole) && AllDigits(frac) then
      Some(Mantissa(DigitsValue(whole) * Pow10(|frac|) + DigitsValue(frac), |frac|))
    else None
  }

  /** `SignedInteger` after the exponent mark: an optional sign and at least one digit. */
  function ReadExponent(s: string): Option<int> {
    if |s| >= 2 && (s[0] == '+' || s[0] == '-') && AllDigits(s[1..]) then
      Some(if s[0] == '-' then -(DigitsValue(s[1..]) as int) else DigitsValue(s[1..]))
    else if |s| >= 1 && AllDigits(s) then Some(DigitsValue(s))
    else None
  }

  /** `m / 10^k`, an integer exactly when the last `k` digits of `m` are zeros. */
  function Shrink(m: nat, k: nat): (r: NumRead)
    ensures r != NotANumber
  {
    if k == 0 then Integer(m)
    else if m % 10 == 0 then Shrink(m / 10, k - 1)
    else NonInteger
  }

  /** `m * 10^e`, an integer exactly when the fraction it would have is zero. */
  function Scaled(m: nat, e: int): (r: NumRead)
    ensures r != NotANumber
  {
    if e >= 0 then Integer(m * Pow10(e)) else Shrink(m, -e)
  }

  /** StrUnsignedDecimalLiteral: `Infinity`, or a mantissa with an optional exponent. */
  function UnsignedDecimal(u: string): NumRead {
    if u == "Infinity" then NonInteger else Decimal(u)
  }

  /** A mantissa, then optionally `e` or `E` and a signed exponent. */
  function Decimal(u: string): NumRead {
    match FirstOf(u, {'e', 'E'})
    case None => ScaledMantissa(ReadMantissa(u), Some(0))
    case Some(i) => ScaledMantissa(ReadMantissa(u[..i]), ReadExponent(u[i + 1..]))
  }

  function ScaledMantissa(mantissa: Option<Mantissa>, exponent: Option<int>): NumRead {
    if mantissa.Some? && exponent.Some? then
      Scaled(mantissa.value.digits, exponent.value - mantissa.value.places)
    else NotANumber
  }

  function Negate(r: NumRead): NumRead {
    match r
    case Integer(n) => Integer(-n)
    case _ => r
  }

  /** NonDecimalIntegerLiteral: `0x`, `0o` or `0b` (either case) and at least one digit of that radix, no sign. */
  function NonDecimal(s: string): Option<nat> {
    if |s| >= 3 && s[0] == '0' then
      var radix := if s[1] in "xX" then 16 else if s[1] in "oO" then 8 else if s[1] in "bB" then 2 else 0;
      if radix != 0 && AllRadix(s[2..], radix) then Some(RadixValue(s[2..], radix)) else None
    else None
  }

  /** StrNumericLiteral on a trimmed, non-empty string. */
  function StrNumeric(s: string): NumRead {
    match NonDecimal(s)
    case Some(n) => Integer(n)
    case None =>
      if |s| >= 1 && s[0] == '+' then UnsignedDecimal(s[1..])
      else if |s| >= 1 && s[0] == '-' then Negate(UnsignedDecimal(s[1..]))
      else UnsignedDecimal(s)
  }

  /**
   * `+s`: white space around the literal is ignored, and a string of
   * white space only (the empty string included) is 0.
   */
  function ToNumber(s: string): NumRead {
    var t := Trim(s);
    if t == [] then Integer(0) else StrNumeric(t)
  }

  // ---------------------------------------------------------------------
  // Properties

  lemma {:induction false} TrimStartPadded(w: string, s: string)
    requires AllWhiteSpace(w)
    ensures TrimStart(w + s) == TrimStart(s)
    decreases |w|
  {
    if w != [] {
      assert (w + s)[0] == w[0] && (w + s)[1..] == w[1..] + s;
      TrimStartPadded(w[1..], s);
    } else {
      assert w + s == s;
    }
  }

  lemma {:induction false} TrimEndPadded(s: string, w: string)
    requires AllWhiteSpace(w)
    ensures TrimEnd(s + w) == TrimEnd(s)
    decreases |w|
  {
    if w != [] {
      var sw := s + w;
      assert sw[|sw| - 1] == w[|w| - 1] && sw[..|sw| - 1] == s + w[..|w| - 1];
      TrimEndPadded(s, w[..|w| - 1]);
    } else {
      assert s + w == s;
    }
  }

  /** White space around a literal does not change what it reads as. */
  lemma PaddingIgnored(w1: string, s: string, w2: string)
    requires AllWhiteSpace(w1) && AllWhiteSpace(w2)
    requires s == [] || (!IsStrWhiteSpace(s[0]) && !IsStrWhiteSpace(s[|s| - 1]))
    ensures ToNumber(w1 + s + w2) == ToNumber(s)
  {
    assert w1 + s + w2 == w1 + (s + w2);
    TrimStartPadded(w1, s + w2);
    TrimEndPadded(s, w2);
    if s == [] {
      assert s + w2 == w2;
      TrimStartShape(w2);
    } else {
      assert (s + w2)[0] == s[0];
    }
  }

  /** A string of white space only, the empty string included, reads as 0. */
  lemma BlankReadsZero(s: string)
    requires AllWhiteSpace(s)
    ensures ToNumber(s) == Integer(0)
  {
    TrimStartShape(s);
  }

  lemma FirstOfNone(s: string, marks: set<char>)
    requires forall j :: 0 <= j < |s| ==> s[j] !in marks
    ensures FirstOf(s, marks).None?
  {
  }

  lemma FirstOfIs(s: string, marks: set<char>, i: nat)
    requires i < |s| && s[i] in marks
    requires forall j :: 0 <= j < i ==> s[j] !in marks
    ensures FirstOf(s, marks) == Some(i)
  {
  }

  /** Strings with the same trimmed text read alike. */
  lemma SameTrim(a: string, b: string)
    requires Trim(a) == Trim(b)
    ensures ToNumber(a) == ToNumber(b)
  {
  }

  /** A digit string holds no mark that is not a digit. */
  lemma DigitsHaveNo(s: string, marks: set<char>)
    requires AllDigits(s)
    requires forall c :: c in marks ==> !IsDigit(c)
    ensures FirstOf(s, marks).None?
  {
    FirstOfNone(s, marks);
  }

  /** A literal that starts with a digit is not `Infinity`. */
  lemma NotInfinity(u: string)
    requires u != [] && IsDigit(u[0])
    ensures UnsignedDecimal(u) == Decimal(u)
  {
    assert "Infinity"[0] == 'I';
  }

  /** Without a digit or a point to start it, there is no mantissa. */
  lemma NoMantissa(u: string)
    requires u == [] || (!IsDigit(u[0]) && u[0] != '.')
    ensures ReadMantissa(u).None?
  {
    if u != [] && FirstOf(u, {'.'}).Some? {
      var i := FirstOf(u, {'.'}).value;
      assert i > 0 && u[..i][0] == u[0];
    }
  }

  /** A literal that does not start with a digit or a point is not a number, unless it is `Infinity`. */
  lemma NoDecimal(u: string)
    requires u != [] && !IsDigit(u[0]) && u[0] != '.' && u != "Infinity"
    ensures UnsignedDecimal(u) == NotANumber
  {
    NoMantissa(u);
    match FirstOf(u, {'e', 'E'})
    case None =>
    case Some(i) =>
      assert i == 0 || u[..i][0] == u[0];
      NoMantissa(u[..i]);
  }

  lemma MantissaOfDigits(s: string)
    requires |s| >= 1 && AllDigits(s)
    ensures ReadMantissa(s) == Some(Mantissa(DigitsValue(s), 0))
  {
    DigitsHaveNo(s, {'.'});
  }

  /** Only a string starting with `0` and a radix letter is a NonDecimalIntegerLiteral. */
  lemma NotNonDecimal(s: string)
    requires |s| < 3 || s[0] != '0' || s[1] !in "xXoObB"
    ensures NonDecimal(s).None?
  {
  }

  /** A digit string is not one of the other literals: it reads as its value. */
  lemma UnsignedDigits(s: string)
    requires |s| >= 1 && AllDigits(s)
    ensures UnsignedDecimal(s) == Integer(DigitsValue(s))
    ensures NonDecimal(s).None?
  {
    DigitsHaveNo(s, {'e', 'E'});
    MantissaOfDigits(s);
    assert IsDigit(s[0]);
    NoExponent(s);
    if |s| >= 3 {
      assert IsDigit(s[1]);
    }
    NotNonDecimal(s);
  }

  /** A literal with no white space at either end is read as it stands. */
  lemma ReadAsItStands(s: string)
    requires s != [] && !IsStrWhiteSpace(s[0]) && !IsStrWhiteSpace(s[|s| - 1])
    ensures ToNumber(s) == StrNumeric(s)
  {
    assert TrimStart(s) == s;
  }

  /** A run of decimal digits reads as its value. */
  lemma DigitsRead(s: string)
    requires |s| >= 1 && AllDigits(s)
    ensures ToNumber(s) == Integer(DigitsValue(s))
  {
    assert IsDigit(s[0]) && IsDigit(s[|s| - 1]);
    ReadAsItStands(s);
    UnsignedDigits(s);
  }

  /** A sign in front of an unsigned literal: `+` keeps its value and `-` negates it. */
  lemma SignRead(sign: char, u: string)
    requires sign == '+' || sign == '-'
    ensures StrNumeric([sign] + u) == if sign == '+' then UnsignedDecimal(u) else Negate(UnsignedDecimal(u))
  {
    var t := [sign] + u;
    assert t[0] == sign && t[1..] == u;
    NotNonDecimal(t);
  }

  lemma SignedDigits(sign: char, s: string)
    requires sign == '+' || sign == '-'
    requires |s| >= 1 && AllDigits(s)
    ensures StrNumeric([sign] + s) == Integer(if sign == '-' then -(DigitsValue(s) as int) else DigitsValue(s))
  {
    UnsignedDigits(s);
    if sign == '+' {
      SignRead('+', s);
    } else {
      SignRead('-', s);
    }
  }

  /** A sign in front of digits: `+` keeps the value and `-` negates it. */
  lemma SignedDigitsRead(sign: char, s: string)
    requires sign == '+' || sign == '-'
    requires |s| >= 1 && AllDigits(s)
    ensures ToNumber([sign] + s) == Integer(if sign == '-' then -(DigitsValue(s) as int) else DigitsValue(s))
  {
    var t := [sign] + s;
    assert IsDigit(s[|s| - 1]) && t[|t| - 1] == s[|s| - 1];
    ReadAsItStands(t);
    SignedDigits(sign, s);
  }

  /**
   * A name: a string that starts with none of the characters a numeric
   * literal can start with, and is not `Infinity`, is not a number.
   */
  lemma NameRead(s: string)
    requires s != [] && !IsStrWhiteSpace(s[0]) && !IsStrWhiteSpace(s[|s| - 1])
    requires !IsDigit(s[0]) && s[0] !in "+-." && s != "Infinity"
    ensures ToNumber(s) == NotANumber
  {
    ReadAsItStands(s);
    NotNonDecimal(s);
    assert StrNumeric(s) == UnsignedDecimal(s);
    NoDecimal(s);
  }

  /** `String(i)` reads back as `i`: the round trip `+String(i)` is exact on integers. */
  lemma IntToStringReads(i: int)
    ensures ToNumber(IntToString(i)) == Integer(i)
  {
    if i >= 0 {
      NatToStringRoundTrip(i);
      DigitsRead(NatToString(i));
    } else {
      assert IntToString(i) == ['-'] + NatToString(-i);
      NatToStringRoundTrip(-i);
      NegatedReads(NatToString(-i), -i);
    }
  }


  lemma NegatedReads(s: string, n: nat)
    requires |s| >= 1 && AllDigits(s) && DigitsValue(s) == n
    ensures ToNumber(['-'] + s) == Integer(-(n as int))
  {
    SignedDigitsRead('-', s);
  }

  /** A literal that starts with a digit, and is no other radix, is an unsigned decimal. */
  lemma UnsignedRead(t: string)
    requires t != [] && IsDigit(t[0]) && !IsStrWhiteSpace(t[|t| - 1])
    requires |t| < 3 || t[0] != '0' || t[1] !in "xXoObB"
    ensures ToNumber(t) == UnsignedDecimal(t)
  {
    ReadAsItStands(t);
    NotNonDecimal(t);
    assert StrNumeric(t) == UnsignedDecimal(t);
  }

  lemma ExponentUnsigned(m: string, e: string)
    requires |m| >= 1 && AllDigits(m) && |e| >= 1 && AllDigits(e)
    ensures UnsignedDecimal(m + ['e'] + e) == Integer(DigitsValue(m) * Pow10(DigitsValue(e)))
  {
    var t := m + ['e'] + e;
    assert t[..|m|] == m && t[|m| + 1..] == e;
    assert forall j :: 0 <= j < |m| ==> t[j] == m[j] && IsDigit(m[j]);
    FirstOfIs(t, {'e', 'E'}, |m|);
    MantissaOfDigits(m);
    assert IsDigit(t[0]) && t[0] == m[0];
    NotInfinity(t);
  }

  /** Digits, `e` and digits: an integer mantissa scaled up by a power of ten. */
  lemma ExponentRead(m: string, e: string)
    requires |m| >= 1 && AllDigits(m) && |e| >= 1 && AllDigits(e)
    ensures ToNumber(m + ['e'] + e) == Integer(DigitsValue(m) * Pow10(DigitsValue(e)))
  {
    var t := m + ['e'] + e;
    assert IsDigit(t[0]) && t[0] == m[0];
    assert t[|t| - 1] == e[|e| - 1] && IsDigit(e[|e| - 1]);
    assert |m| >= 2 ==> IsDigit(t[1]);
    UnsignedRead(t);
    ExponentUnsigned(m, e);
  }

  lemma HexLiteral(h: string)
    requires |h| >= 1 && AllRadix(h, 16)
    ensures NonDecimal("0x" + h) == Some(RadixValue(h, 16))
  {
    var t := "0x" + h;
    assert t[0] == '0' && t[1] == 'x' && t[2..] == h;
  }

  /** A literal in another radix is read as its value. */
  lemma NonDecimalRead(t: string)
    requires NonDecimal(t).Some? && !IsStrWhiteSpace(t[|t| - 1])
    ensures ToNumber(t) == Integer(NonDecimal(t).value)
  {
    ReadAsItStands(t);
  }

  /** `0x` and hexadecimal digits read as their value in radix 16. */
  lemma HexRead(h: string)
    requires |h| >= 1 && AllRadix(h, 16)
    ensures ToNumber("0x" + h) == Integer(RadixValue(h, 16))
  {
    var t := "0x" + h;
    assert t[|t| - 1] == h[|h| - 1] && RadixDigit(h[|h| - 1]).Some?;
    HexLiteral(h);
    NonDecimalRead(t);
  }

  lemma {:induction false} ZerosValue(z: string)
    requires forall j :: 0 <= j < |z| ==> z[j] == '0'
    ensures AllDigits(z) && DigitsValue(z) == 0
  {
    if z != [] {
      ZerosValue(z[..|z| - 1]);
    }
  }

  lemma {:induction false} ShrinkBack(a: nat, k: nat)
    ensures Shrink(a * Pow10(k), k) == Integer(a)
  {
    if k > 0 {
      var b := a * Pow10(k - 1);
      assert a * Pow10(k) == b * 10;
      ShrinkBack(a, k - 1);
    }
  }

  /** Whole digits, a point and fraction digits: the point splits the mantissa. */
  lemma PointedMantissa(m: string, f: string)
    requires AllDigits(m)
    ensures ReadMantissa(m + ['.'] + f) == PointMantissa(m, f)
  {
    var t := m + ['.'] + f;
    assert t[..|m|] == m && t[|m| + 1..] == f;
    assert forall j :: 0 <= j < |m| ==> t[j] == m[j] && IsDigit(m[j]);
    FirstOfIs(t, {'.'}, |m|);
  }

  /** A literal with no exponent mark is its mantissa alone. */
  lemma NoExponent(t: string)
    requires t != [] && IsDigit(t[0]) && FirstOf(t, {'e', 'E'}).None?
    ensures UnsignedDecimal(t) == ScaledMantissa(ReadMantissa(t), Some(0))
  {
    NotInfinity(t);
  }

  /** Zeros after the point leave an integer. */
  lemma ZeroFraction(m: string, z: string)
    requires AllDigits(m) && |m| >= 1
    requires forall j :: 0 <= j < |z| ==> z[j] == '0'
    ensures ScaledMantissa(PointMantissa(m, z), Some(0)) == Integer(DigitsValue(m))
  {
    ZerosValue(z);
    ShrinkBack(DigitsValue(m), |z|);
  }

  lemma ZeroFractionUnsigned(m: string, z: string)
    requires |m| >= 1 && AllDigits(m)
    requires |z| >= 1 && forall j :: 0 <= j < |z| ==> z[j] == '0'
    ensures UnsignedDecimal(m + ['.'] + z) == Integer(DigitsValue(m))
  {
    var t := m + ['.'] + z;
    FirstOfNone(t, {'e', 'E'}) by {
      assert forall j :: 0 <= j < |t| ==> t[j] == '.' || IsDigit(t[j]) by {
        assert forall j :: 0 <= j < |m| ==> t[j] == m[j];
        assert forall j :: |m| < j < |t| ==> t[j] == z[j - |m| - 1];
      }
    }
    assert IsDigit(t[0]) && t[0] == m[0];
    NoExponent(t);
    PointedMantissa(m, z);
    ZeroFraction(m, z);
  }

  lemma Regroup(a: nat, p: nat, b: nat, d: nat)
    ensures a * (10 * p) + (b * 10 + d) == (a * p + b) * 10 + d
  {
  }

  /** A number whose last digit is not zero is not a whole multiple of ten. */
  lemma LastDigitLeft(x: nat, d: nat, k: nat)
    requires 1 <= d <= 9 && k >= 1
    ensures Shrink(x * 10 + d, k) == NonInteger
  {
    assert (x * 10 + d) % 10 == d;
  }

  /** A last fraction digit other than zero leaves a fraction. */
  lemma NonZeroFraction(m: string, f: string)
    requires AllDigits(m) && AllDigits(f) && |f| >= 1 && f[|f| - 1] != '0'
    ensures ScaledMantissa(PointMantissa(m, f), Some(0)) == NonInteger
  {
    var d := DigitValue(f[|f| - 1]);
    var a, p, b := DigitsValue(m), Pow10(|f| - 1), DigitsValue(f[..|f| - 1]);
    assert Pow10(|f|) == 10 * p;
    assert DigitsValue(f) == b * 10 + d;
    Regroup(a, p, b, d);
    LastDigitLeft(a * p + b, d, |f|);
  }

  /** Digits, a point and digits that do not end in zero: not an integer. */
  lemma FractionRead(m: string, f: string)
    requires |m| >= 1 && AllDigits(m) && |f| >= 1 && AllDigits(f) && f[|f| - 1] != '0'
    ensures ToNumber(m + ['.'] + f) == NonInteger
  {
    var t := m + ['.'] + f;
    FirstOfNone(t, {'e', 'E'}) by {
      assert forall j :: 0 <= j < |t| ==> t[j] == '.' || IsDigit(t[j]) by {
        assert forall j :: 0 <= j < |m| ==> t[j] == m[j];
        assert forall j :: |m| < j < |t| ==> t[j] == f[j - |m| - 1];
      }
    }
    assert IsDigit(t[0]) && t[0] == m[0];
    assert t[|t| - 1] == f[|f| - 1] && IsDigit(f[|f| - 1]);
    assert IsDigit(t[1]) || t[1] == '.';
    NoExponent(t);
    PointedMantissa(m, f);
    NonZeroFraction(m, f);
    UnsignedRead(t);
  }

  /** Digits, a point and zeros only: the fraction is zero and the number is an integer. */
  lemma ZeroFractionRead(m: string, z: string)
    requires |m| >= 1 && AllDigits(m)
    requires |z| >= 1 && forall j :: 0 <= j < |z| ==> z[j] == '0'
    ensures ToNumber(m + ['.'] + z) == Integer(DigitsValue(m))
  {
    PointedShape(m, z);
    UnsignedRead(m + ['.'] + z);
    ZeroFractionUnsigned(m, z);
  }

  /** Digits, a point and a digit-ended tail: a literal that starts with a digit and is no other radix. */
  lemma PointedShape(m: string, f: string)
    requires |m| >= 1 && AllDigits(m) && |f| >= 1 && IsDigit(f[|f| - 1])
    ensures var t := m + ['.'] + f;
      t != [] && IsDigit(t[0]) && !IsStrWhiteSpace(t[|t| - 1]) && (|t| < 3 || t[0] != '0' || t[1] !in "xXoObB")
  {
    var t := m + ['.'] + f;
    assert t[0] == m[0] && t[|t| - 1] == f[|f| - 1];
    assert IsDigit(t[1]) || t[1] == '.';
  }

  // ---------------------------------------------------------------------
  // Forms a path string part can take

  lemma ExponentForm()
    ensures ToNumber("1e3") == Integer(1000)
  {
    assert "1" + ['e'] + "3" == "1e3";
    assert DigitsValue("1") == 1 && DigitsValue("3") == 3;
    assert Pow10(3) == 1000;
    ExponentRead("1", "3");
  }

  lemma PlusForm()
    ensures ToNumber("+5") == Integer(5)
  {
    assert ['+'] + "5" == "+5";
    assert DigitsValue("5") == 5;
    SignedDigitsRead('+', "5");
  }

  lemma PaddedForm()
    ensures ToNumber(" 7") == Integer(7)
  {
    assert " 7" == [' '] + "7";
    TrimStartPadded([' '], "7");
    SameTrim(" 7", "7");
    assert DigitsValue("7") == 7;
    DigitsRead("7");
  }

  lemma HexForm()
    ensures ToNumber("0x10") == Integer(16)
  {
    assert "0x" + "10" == "0x10";
    assert RadixValue("10", 16) == 16 by {
      assert "10"[..1] == "1" && "1"[..0] == [];
    }
    HexRead("10");
  }

  lemma ZeroFractionForm()
    ensures ToNumber("7.0") == Integer(7)
  {
    assert "7" + ['.'] + "0" == "7.0";
    assert DigitsValue("7") == 7;
    ZeroFractionRead("7", "0");
  }

  lemma FractionForm()
    ensures ToNumber("1.5") == NonInteger
  {
    assert "1" + ['.'] + "5" == "1.5";
    FractionRead("1", "5");
  }

  lemma NameForm()
    ensures ToNumber("name") == NotANumber
  {
    assert |"name"| == 4 && "name"[0] == 'n' && "name"[3] == 'e';
    NameRead("name");
  }

  /**
   * `+` reads as integers strings that `String` never writes for one: an
   * exponent, a plus sign, white space, another radix, a zero fraction and
   * the empty string; a true fraction is a number but no integer, and a
   * name is not a number.
   */
  lemma Forms()
    ensures ToNumber("1e3") == Integer(1000)
    ensures ToNumber("+5") == Integer(5)
    ensures ToNumber(" 7") == Integer(7)
    ensures ToNumber("0x10") == Integer(16)
    ensures ToNumber("7.0") == Integer(7)
    ensures ToNumber("") == Integer(0)
    ensures ToNumber("1.5") == NonInteger
    ensures ToNumber("name") == NotANumber
  {
    ExponentForm();
    PlusForm();
    PaddedForm();
    HexForm();
    ZeroFractionForm();
    FractionForm();
    NameForm();
  }
}
