/** The JavaScript string built-ins the handlers and the loader rely on:
    `String.prototype.trim`, `split` on one character, `parseInt`, the
    `isNaN`/`Number` test on a route parameter, number-to-string rendering in a
    URL, and the case-insensitive literal match a `$regex` with option "i"
    performs when its pattern holds no metacharacter. */
module JsText {
  import opened Wrappers

  // ---------------------------------------------------------------- whitespace

  /** ECMAScript WhiteSpace and LineTerminator code points: what `trim` removes
      and what `parseInt` skips before the number. */
  predicate IsWhitespace(c: char) {
    || c == '\t' || c == '\n' || c == '\U{000B}' || c == '\U{000C}' || c == '\r'
    || c == ' ' || c == '\U{00A0}' || c == '\U{1680}'
    || ('\U{2000}' <= c <= '\U{200A}')
    || c == '\U{2028}' || c == '\U{2029}' || c == '\U{202F}' || c == '\U{205F}'
    || c == '\U{3000}' || c == '\U{FEFF}'
  }

  predicate AllWhitespace(s: string) {
    forall i :: 0 <= i < |s| ==> IsWhitespace(s[i])
  }

  /** How many whitespace characters open `s`. */
  function LeadingSpace(s: string): (n: nat)
    ensures n <= |s|
    ensures forall k :: 0 <= k < n ==> IsWhitespace(s[k])
    ensures n == |s| || !IsWhitespace(s[n])
  {
    if |s| > 0 && IsWhitespace(s[0]) then
      var n := LeadingSpace(s[1..]);
      assert forall k :: 1 <= k < n + 1 ==> s[k] == s[1..][k - 1];
      n + 1
    else
      0
  }

  /** How many whitespace characters close `s`. */
  function TrailingSpace(s: string): (n: nat)
    ensures n <= |s|
    ensures forall k :: |s| - n <= k < |s| ==> IsWhitespace(s[k])
    ensures n == |s| || !IsWhitespace(s[|s| - n - 1])
  {
    if |s| > 0 && IsWhitespace(s[|s| - 1]) then
      var n := TrailingSpace(s[..|s| - 1]);
      assert forall k :: |s| - 1 - n <= k < |s| - 1 ==> s[k] == s[..|s| - 1][k];
      n + 1
    else
      0
  }

  /** `s.trimStart()`: what follows the leading whitespace. */
  function TrimStart(s: string): (r: string)
    ensures r == [] || !IsWhitespace(r[0])
  {
    s[LeadingSpace(s)..]
  }

  /** `s.trimEnd()`: what precedes the trailing whitespace. */
  function TrimEnd(s: string): (r: string)
    ensures r == [] || !IsWhitespace(r[|r| - 1])
  {
    s[..|s| - TrailingSpace(s)]
  }

  /** `s.trim()`: both the leading and the trailing whitespace removed. */
  function Trim(s: string): (r: string)
    ensures r == [] || (!IsWhitespace(r[0]) && !IsWhitespace(r[|r| - 1]))
  {
    var t := TrimStart(s);
    var r := TrimEnd(t);
    assert r != [] ==> r[0] == t[0];
    r
  }

  /** What `trim` keeps is the middle of `s`, after the leading whitespace. */
  lemma TrimIsMiddle(s: string)
    ensures LeadingSpace(s) + |Trim(s)| <= |s|
    ensures Trim(s) == s[LeadingSpace(s)..LeadingSpace(s) + |Trim(s)|]
  {
    var t := TrimStart(s);
    assert t == s[LeadingSpace(s)..];
  }

  /** What `trim` cuts off on either side is whitespace. */
  lemma TrimCutsWhitespace(s: string)
    ensures forall k :: 0 <= k < |s| && !(LeadingSpace(s) <= k < LeadingSpace(s) + |Trim(s)|) ==>
                          IsWhitespace(s[k])
  {
    var i := LeadingSpace(s);
    var t := TrimStart(s);
    var r := Trim(s);
    assert |r| == |t| - TrailingSpace(t);
    assert forall k :: i + |r| <= k < |s| ==> s[k] == t[k - i];
  }

  /** Trimming leaves a string with whitespace on neither end unchanged. */
  lemma TrimOfTrimmed(s: string)
    requires s == [] || (!IsWhitespace(s[0]) && !IsWhitespace(s[|s| - 1]))
    ensures Trim(s) == s
  {
  }

  // ---------------------------------------------------------------- split and join

  /** How often `c` occurs in `s`. */
  function Count(s: string, c: char): nat {
    if |s| == 0 then 0 else (if s[0] == c then 1 else 0) + Count(s[1..], c)
  }

  /** `s.split(sep)` for a one-character separator: the pieces between the
      separators, empty ones included; the empty string gives `[""]`. */
  function Split(s: string, sep: char): (parts: seq<string>)
    ensures |parts| == Count(s, sep) + 1
    ensures forall i :: 0 <= i < |parts| ==> sep !in parts[i]
  {
    if |s| == 0 then [""]
    else
      var rest := Split(s[1..], sep);
      if s[0] == sep then [""] + rest else [[s[0]] + rest[0]] + rest[1..]
  }

  /** `parts.join(sep)`. */
  function Join(parts: seq<string>, sep: string): string {
    if |parts| == 0 then ""
    else if |parts| == 1 then parts[0]
    else parts[0] + sep + Join(parts[1..], sep)
  }

  /** Joining the pieces of a split with the separator gives back the string. */
  lemma {:induction false} JoinSplit(s: string, sep: char)
    ensures Join(Split(s, sep), [sep]) == s
  {
    if |s| > 0 {
      var rest := Split(s[1..], sep);
      JoinSplit(s[1..], sep);
      if s[0] == sep {
        assert ([""] + rest)[1..] == rest;
      } else if |rest| > 1 {
        var parts := [[s[0]] + rest[0]] + rest[1..];
        assert parts[1..] == rest[1..];
        assert Join(rest, [sep]) == rest[0] + [sep] + Join(rest[1..], [sep]);
        assert s == [s[0]] + s[1..];
      } else {
        assert s == [s[0]] + s[1..];
      }
    }
  }

  lemma {:induction false} SplitWithoutSeparator(a: string, sep: char)
    requires sep !in a
    ensures Split(a, sep) == [a]
  {
    if |a| > 0 {
      SplitWithoutSeparator(a[1..], sep);
      assert [a[0]] + a[1..] == a;
    }
  }

  lemma {:induction false} SplitAtSeparator(a: string, b: string, sep: char)
    requires sep !in a
    ensures Split(a + [sep] + b, sep) == [a] + Split(b, sep)
  {
    var s := a + [sep] + b;
    if |a| == 0 {
      assert s[1..] == b;
    } else {
      assert s[1..] == a[1..] + [sep] + b;
      SplitAtSeparator(a[1..], b, sep);
      assert [a[0]] + a[1..] == a;
    }
  }

  /** Splitting a join of separator-free pieces gives back the pieces. */
  lemma {:induction false} SplitJoin(parts: seq<string>, sep: char)
    requires |parts| >= 1
    requires forall i :: 0 <= i < |parts| ==> sep !in parts[i]
    ensures Split(Join(parts, [sep]), sep) == parts
  {
    if |parts| == 1 {
      SplitWithoutSeparator(parts[0], sep);
    } else {
      SplitAtSeparator(parts[0], Join(parts[1..], [sep]), sep);
      SplitJoin(parts[1..], sep);
      assert [parts[0]] + parts[1..] == parts;
    }
  }

  // ---------------------------------------------------------------- case-insensitive match

  /** Case folding of ASCII letters. */
  function ToLower(c: char): char {
    if 'A' <= c <= 'Z' then (c as int + 32) as char else c
  }

  function Lowered(s: string): string {
    seq(|s|, i requires 0 <= i < |s| => ToLower(s[i]))
  }

  predicate StartsWith(s: string, prefix: string) {
    |prefix| <= |s| && s[..|prefix|] == prefix
  }

  /** Whether `needle` occurs in `hay`, scanning start positions left to right. */
  predicate Contains(hay: string, needle: string) {
    StartsWith(hay, needle) || (|hay| > 0 && Contains(hay[1..], needle))
  }

  /** `needle` is the slice of `hay` that starts at `i`. */
  predicate OccursAt(hay: string, needle: string, i: int) {
    0 <= i <= |hay| - |needle| && hay[i..i + |needle|] == needle
  }

  /** The scan finds `needle` exactly when some slice of `hay` equals it. */
  lemma {:induction false} ContainsIffOccurs(hay: string, needle: string)
    ensures Contains(hay, needle) <==> exists i :: OccursAt(hay, needle, i)
  {
    if StartsWith(hay, needle) {
      assert OccursAt(hay, needle, 0);
    }
    if |hay| > 0 {
      ContainsIffOccurs(hay[1..], needle);
      if Contains(hay[1..], needle) {
        var i :| OccursAt(hay[1..], needle, i);
        assert OccursAt(hay, needle, i + 1);
      }
      if exists i :: OccursAt(hay, needle, i) {
        var i :| OccursAt(hay, needle, i);
        if i > 0 {
          assert OccursAt(hay[1..], needle, i - 1);
        }
      }
    } else if exists i :: OccursAt(hay, needle, i) {
      var i :| OccursAt(hay, needle, i);
      assert i == 0 && |needle| == 0;
    }
  }

  /** A case-insensitive literal pattern match (`$regex` / `new RegExp(p, "i")`
      on a pattern without metacharacters). */
  predicate ContainsIgnoreCase(hay: string, needle: string) {
    Contains(Lowered(hay), Lowered(needle))
  }

  /** Ignoring case only widens the match: an exact occurrence always matches. */
  lemma ExactOccurrenceMatches(hay: string, needle: string)
    requires Contains(hay, needle)
    ensures ContainsIgnoreCase(hay, needle)
  {
    ContainsIffOccurs(hay, needle);
    var i :| OccursAt(hay, needle, i);
    assert Lowered(hay)[i..i + |needle|] == Lowered(needle);
    assert OccursAt(Lowered(hay), Lowered(needle), i);
    ContainsIffOccurs(Lowered(hay), Lowered(needle));
  }

  // ---------------------------------------------------------------- truthiness

  /** A string that `||` and `if` treat as true: present and not empty. */
  predicate Truthy(v: Option<string>) {
    v.Some? && v.value != ""
  }

  /** `v || fallback` for a string. */
  function OrString(v: Option<string>, fallback: string): string {
    if Truthy(v) then v.value else fallback
  }

  /** `n || fallback` for an integer: missing (`NaN`) and 0 are falsy. */
  function OrInt(n: Option<int>, fallback: int): int {
    if n.Some? && n.value != 0 then n.value else fallback
  }

  // ---------------------------------------------------------------- numbers

  /** A number as `parseFloat` yields it: `NaN` or a finite value. */
  datatype Num = NaN | Finite(value: real)

  /** `n || fallback` for a parsed number: `NaN` and 0 are falsy. */
  function OrNum(n: Num, fallback: real): real {
    if n.Finite? && n.value != 0.0 then n.value else fallback
  }

  /** A digit in radix 10, or in radix 16 when `hex` is set. */
  predicate IsDigit(c: char, hex: bool) {
    ('0' <= c <= '9') || (hex && (('a' <= c <= 'f') || ('A' <= c <= 'F')))
  }

  lemma DigitIsNotWhitespace(c: char)
    requires IsDigit(c, true)
    ensures !IsWhitespace(c)
  {
  }

  function DigitValue(c: char): (v: nat)
    requires IsDigit(c, true)
    ensures v < 16 && (IsDigit(c, false) ==> v < 10)
  {
    if '0' <= c <= '9' then c as int - '0' as int
    else if 'a' <= c <= 'f' then c as int - 'a' as int + 10
    else c as int - 'A' as int + 10
  }

  /** A digit of the given radix (2 to 16). */
  predicate DigitIn(c: char, radix: nat) {
    IsDigit(c, true) && DigitValue(c) < radix
  }

  function Radix(hex: bool): nat {
    if hex then 16 else 10
  }

  /** The longest prefix of `s` made of digits. */
  function LeadingDigits(s: string, hex: bool): (d: string)
    ensures |d| <= |s| && d == s[..|d|]
    ensures forall i :: 0 <= i < |d| ==> IsDigit(d[i], hex)
    ensures |d| == |s| || !IsDigit(s[|d|], hex)
  {
    if |s| > 0 && IsDigit(s[0], hex) then [s[0]] + LeadingDigits(s[1..], hex) else []
  }

  /** The value of a digit string in `radix`, most significant digit first. */
  function DigitsValue(d: string, radix: nat): nat
    requires forall i :: 0 <= i < |d| ==> DigitIn(d[i], radix)
  {
    if |d| == 0 then 0
    else
      var init := d[..|d| - 1];
      assert forall i :: 0 <= i < |init| ==> init[i] == d[i];
      var high: nat := DigitsValue(init, radix);
      var low := d[|d| - 1];
      assert DigitIn(low, radix);
      ProductOfNaturals(high, radix);
      high * radix + DigitValue(low)
  }

  lemma ProductOfNaturals(a: nat, b: nat)
    ensures a * b >= 0
  {
  }

  /** The unsigned part of `parseInt`: a `0x`/`0X` prefix selects radix 16
      when no radix was given, then the longest run of digits is read; `None`
      (`NaN`) when that run is empty. */
  function ParseMagnitude(u: string, autoRadix: bool): Option<nat> {
    var hex := autoRadix && |u| >= 2 && u[0] == '0' && (u[1] == 'x' || u[1] == 'X');
    var body := if hex then u[2..] else u;
    var digits := LeadingDigits(body, hex);
    if |digits| == 0 then None else Some(DigitsValue(digits, Radix(hex)))
  }

  /** `parseInt(s)` (when `autoRadix`) or `parseInt(s, 10)`: skip leading
      whitespace, take one sign, then read the magnitude; `None` is `NaN`. */
  function ParseInt(s: string, autoRadix: bool): (n: Option<int>)
    ensures TrimStart(s) == [] ==> n.None?
    ensures n.Some? ==> TrimStart(s) != [] && (n.value < 0 ==> TrimStart(s)[0] == '-')
    ensures var t := TrimStart(s);
            var u := if |t| > 0 && (t[0] == '-' || t[0] == '+') then t[1..] else t;
            var hex := autoRadix && |u| >= 2 && u[0] == '0' && (u[1] == 'x' || u[1] == 'X');
            var body := if hex then u[2..] else u;
            n.None? <==> body == [] || !IsDigit(body[0], hex)
  {
    var t := TrimStart(s);
    var negative := |t| > 0 && t[0] == '-';
    var u := if |t| > 0 && (t[0] == '-' || t[0] == '+') then t[1..] else t;
    match ParseMagnitude(u, autoRadix)
    case None => None
    case Some(m) => Some(if negative then -(m as int) else m)
  }

  function DigitChar(d: nat): (c: char)
    requires d < 10
    ensures IsDigit(c, false) && DigitValue(c) == d
  {
    ('0' as int + d) as char
  }

  /** The decimal digits of `n`, as `String(n)` writes them. */
  function DecimalDigits(n: nat): (s: string)
    ensures |s| >= 1
    ensures forall i :: 0 <= i < |s| ==> IsDigit(s[i], false)
    ensures forall i :: 0 <= i < |s| ==> DigitIn(s[i], 10)
    ensures DigitsValue(s, 10) == n
  {
    if n < 10 then [DigitChar(n)]
    else
      var s := DecimalDigits(n / 10) + [DigitChar(n % 10)];
      assert s[..|s| - 1] == DecimalDigits(n / 10);
      s
  }

  /** `String(n)` for an integer `n`. */
  function Decimal(n: int): string {
    if n < 0 then "-" + DecimalDigits(-n) else DecimalDigits(n)
  }

  lemma {:induction false} LeadingDigitsOfDigits(s: string, hex: bool)
    requires forall i :: 0 <= i < |s| ==> IsDigit(s[i], hex)
    ensures LeadingDigits(s, hex) == s
  {
    if |s| > 0 {
      LeadingDigitsOfDigits(s[1..], hex);
    }
  }

  lemma ParseMagnitudeDigits(n: nat, autoRadix: bool)
    ensures ParseMagnitude(DecimalDigits(n), autoRadix) == Some(n)
  {
    var ds := DecimalDigits(n);
    assert |ds| >= 2 ==> IsDigit(ds[1], false);
    LeadingDigitsOfDigits(ds, false);
  }

  /** Text that starts with a digit is read by `parseInt` as its magnitude. */
  lemma ParseIntUnsigned(s: string, autoRadix: bool)
    requires s != [] && IsDigit(s[0], false)
    ensures ParseInt(s, autoRadix) == ParseMagnitude(s, autoRadix)
  {
    assert !IsWhitespace(s[0]);
    assert TrimStart(s) == s;
  }

  /** Text that starts with a minus sign is read by `parseInt` as the
      negated magnitude of the rest. */
  lemma ParseIntMinus(s: string, autoRadix: bool, m: nat)
    requires s != [] && s[0] == '-'
    requires ParseMagnitude(s[1..], autoRadix) == Some(m)
    ensures ParseInt(s, autoRadix) == Some(-(m as int))
  {
    assert !IsWhitespace(s[0]);
    assert LeadingSpace(s) == 0;
    var t := TrimStart(s);
    assert t == s;
    assert |t| > 0 && t[0] == '-';
    assert t[1..] == s[1..];
    assert ParseMagnitude(t[1..], autoRadix) == Some(m);
  }

  /** `parseInt` reads back what `String` writes, with or without a radix. */
  lemma ParseIntDecimal(n: int, autoRadix: bool)
    ensures ParseInt(Decimal(n), autoRadix) == Some(n)
  {
    var m: nat := if n < 0 then -n else n;
    var ds := DecimalDigits(m);
    ParseMagnitudeDigits(m, autoRadix);
    if n < 0 {
      var s := "-" + ds;
      assert s[1..] == ds;
      ParseIntMinus(s, autoRadix, m);
    } else {
      ParseIntUnsigned(ds, autoRadix);
    }
  }

  // ---------------------------------------------------------------- `Number(s)`

  /** A number as `Number(s)` yields it, with its exact (unrounded) value. */
  datatype Number = NotANumber | Infinity(negative: bool) | Value(value: real)

  /** `x` times ten to the power `e`, one factor of ten at a time. */
  function Scale(x: real, e: int): real
    decreases if e >= 0 then e else -e
  {
    if e == 0 then x
    else if e > 0 then Scale(x * 10.0, e - 1)
    else Scale(x / 10.0, e + 1)
  }

  predicate AllDigits(s: string, hex: bool) {
    forall i :: 0 <= i < |s| ==> IsDigit(s[i], hex)
  }

  /** An optional `ExponentPart` (`e`/`E`, an optional sign, decimal digits);
      `None` when the text is neither empty nor an exponent. */
  function Exponent(r: string): Option<int> {
    if r == [] then Some(0)
    else if r[0] != 'e' && r[0] != 'E' then None
    else
      var t := r[1..];
      var negative := |t| > 0 && t[0] == '-';
      var ds := if |t| > 0 && (t[0] == '-' || t[0] == '+') then t[1..] else t;
      if |ds| == 0 || !AllDigits(ds, false) then None
      else
        var e: int := DigitsValue(ds, 10);
        Some(if negative then -e else e)
  }

  /** A `StrUnsignedDecimalLiteral` other than `Infinity`: digits with an
      optional fraction (at least one digit in all), then an optional exponent. */
  function UnsignedDecimal(u: string): Option<real> {
    var whole := LeadingDigits(u, false);
    var r1 := u[|whole|..];
    var hasDot := |r1| > 0 && r1[0] == '.';
    var frac := if hasDot then LeadingDigits(r1[1..], false) else [];
    var r2 := if hasDot then r1[1 + |frac|..] else r1;
    if |whole| + |frac| == 0 then None
    else
      var ds := whole + frac;
      assert AllDigits(ds, false);
      match Exponent(r2)
      case None => None
      case Some(e) => Some(Scale(DigitsValue(ds, 10) as real, e - |frac|))
  }

  /** `0x`, `0o`, `0b` (either case): the radix the prefix selects, or 0. */
  function PrefixRadix(t: string): nat {
    if |t| < 2 || t[0] != '0' then 0
    else if t[1] == 'x' || t[1] == 'X' then 16
    else if t[1] == 'o' || t[1] == 'O' then 8
    else if t[1] == 'b' || t[1] == 'B' then 2
    else 0
  }

  /** A prefixed literal: only digits of its radix, at least one, no sign. */
  function NonDecimal(ds: string, radix: nat): Number {
    if |ds| > 0 && forall i :: 0 <= i < |ds| ==> DigitIn(ds[i], radix)
    then Value(DigitsValue(ds, radix) as real)
    else NotANumber
  }

  /** A `StrDecimalLiteral`: an optional sign, then `Infinity` or an unsigned
      decimal literal. */
  function SignedDecimal(t: string): Number
    requires t != []
  {
    var negative := t[0] == '-';
    var u := if t[0] == '-' || t[0] == '+' then t[1..] else t;
    if u == "Infinity" then Infinity(negative)
    else match UnsignedDecimal(u)
      case None => NotANumber
      case Some(v) => Value(if negative then -v else v)
  }

  /** A character that can begin a `StrNumericLiteral`: a digit, a sign, a
      decimal point or the `I` of `Infinity`. */
  predicate StartsNumber(c: char) {
    IsDigit(c, false) || c == '+' || c == '-' || c == '.' || c == 'I'
  }

  /** A character of a decimal literal other than `Infinity`. */
  predicate DecimalChar(c: char) {
    IsDigit(c, false) || c == '+' || c == '-' || c == '.' || c == 'e' || c == 'E'
  }

  /** `Number(s)` on a string (the StringToNumber grammar of ECMAScript):
      surrounding whitespace is ignored, an empty string is 0, a prefixed
      literal takes only digits of its radix and no sign, a decimal literal
      may be signed, and anything else is `NaN`. */
  function ToNumber(s: string): (x: Number)
    ensures Trim(s) == [] ==> x == Value(0.0)
    ensures Trim(s) != [] && !StartsNumber(Trim(s)[0]) ==> x == NotANumber
  {
    var t := Trim(s);
    if t == [] then Value(0.0)
    else if PrefixRadix(t) != 0 then NonDecimal(t[2..], PrefixRadix(t))
    else SignedDecimal(t)
  }

  /** `isNaN(s)` on a string. */
  predicate IsNaN(s: string)
    ensures Trim(s) == [] ==> !IsNaN(s)
    ensures Trim(s) != [] && !StartsNumber(Trim(s)[0]) ==> IsNaN(s)
  {
    ToNumber(s).NotANumber?
  }

  predicate AllDecimal(s: string) {
    forall i :: 0 <= i < |s| ==> DecimalChar(s[i])
  }

  lemma AllDecimalConcat(a: string, b: string)
    requires AllDecimal(a) && AllDecimal(b)
    ensures AllDecimal(a + b)
  {
    forall i | 0 <= i < |a + b|
      ensures DecimalChar((a + b)[i])
    {
      if i >= |a| {
        assert (a + b)[i] == b[i - |a|];
      }
    }
  }

  lemma DigitsAreDecimal(d: string)
    requires AllDigits(d, false)
    ensures AllDecimal(d)
  {
  }

  /** An exponent part holds only exponent marks, a sign and digits. */
  lemma ExponentAlphabet(r: string)
    requires Exponent(r).Some?
    ensures AllDecimal(r)
  {
    if r != [] {
      var t := r[1..];
      assert r == [r[0]] + t;
      var ds := if |t| > 0 && (t[0] == '-' || t[0] == '+') then t[1..] else t;
      DigitsAreDecimal(ds);
      if |t| > 0 && (t[0] == '-' || t[0] == '+') {
        assert t == [t[0]] + ds;
        AllDecimalConcat([t[0]], ds);
      }
      AllDecimalConcat([r[0]], t);
    }
  }

  /** The text after the integer digits and the optional fraction of `u`. */
  function AfterMantissa(u: string): string {
    var whole := LeadingDigits(u, false);
    var r1 := u[|whole|..];
    if |r1| > 0 && r1[0] == '.' then r1[1 + |LeadingDigits(r1[1..], false)|..] else r1
  }

  /** Digits, an optional point with digits, then an exponent part: only
      decimal characters. */
  lemma MantissaAlphabet(u: string)
    requires Exponent(AfterMantissa(u)).Some?
    ensures AllDecimal(u)
  {
    var whole := LeadingDigits(u, false);
    var r1 := u[|whole|..];
    assert u == whole + r1;
    DigitsAreDecimal(whole);
    ExponentAlphabet(AfterMantissa(u));
    if |r1| > 0 && r1[0] == '.' {
      var rest := r1[1..];
      var frac := LeadingDigits(rest, false);
      var r2 := rest[|frac|..];
      assert r2 == AfterMantissa(u);
      assert rest == frac + r2;
      DigitsAreDecimal(frac);
      AllDecimalConcat(frac, r2);
      assert r1 == [r1[0]] + rest;
      AllDecimalConcat([r1[0]], rest);
    }
    AllDecimalConcat(whole, r1);
  }

  /** An unsigned decimal literal holds only digits, a point and an exponent part. */
  lemma UnsignedDecimalAlphabet(u: string)
    requires UnsignedDecimal(u).Some?
    ensures AllDecimal(u)
  {
    assert Exponent(AfterMantissa(u)).Some?;
    MantissaAlphabet(u);
  }

  /** A finite decimal `Number()` value comes from text made only of digits,
      signs, a point and exponent marks: any other character gives `NaN`
      (or the text is `Infinity`, or a prefixed literal). */
  lemma ToNumberAlphabet(s: string)
    requires ToNumber(s).Value? && Trim(s) != [] && PrefixRadix(Trim(s)) == 0
    ensures AllDecimal(Trim(s))
  {
    assert ToNumber(s) == SignedDecimal(Trim(s));
    SignedDecimalAlphabet(Trim(s));
  }

  lemma SignedDecimalAlphabet(t: string)
    requires t != [] && SignedDecimal(t).Value?
    ensures AllDecimal(t)
  {
    if t[0] == '-' || t[0] == '+' {
      assert UnsignedDecimal(t[1..]).Some?;
      UnsignedDecimalAlphabet(t[1..]);
      assert t == [t[0]] + t[1..];
      AllDecimalConcat([t[0]], t[1..]);
    } else {
      assert UnsignedDecimal(t).Some?;
      UnsignedDecimalAlphabet(t);
    }
  }

  /** Text with no whitespace at either end is its own trim. */
  lemma NoSurroundingSpace(t: string)
    requires t != [] && !IsWhitespace(t[0]) && !IsWhitespace(t[|t| - 1])
    ensures TrimStart(t) == t && Trim(t) == t
  {
    assert LeadingSpace(t) == 0;
    assert TrailingSpace(t) == 0;
  }

  /** `abc` is `NaN` both for `parseInt` and for `Number()`. */
  lemma NotANumberText()
    ensures ParseInt("abc", true).None?
    ensures IsNaN("abc")
  {
    NoSurroundingSpace("abc");
  }

  /** `12abc`: `parseInt` reads the leading digits and stops, while
      `Number()` needs the whole text to be a literal. */
  lemma NumberThenLetters()
    ensures ParseInt("12abc", true) == Some(12)
    ensures IsNaN("12abc")
  {
    NoSurroundingSpace("12abc");
    LeadingDigitsThenLetters();
    ParseIntUnsigned("12abc", true);
    assert UnsignedDecimal("12abc").None?;
  }

  lemma LeadingDigitsThenLetters()
    ensures LeadingDigits("12abc", false) == "12"
    ensures DigitsValue("12", 10) == 12
  {
    var b := "12abc";
    assert b[2..] == "abc";
    assert LeadingDigits(b[2..], false) == [];
  }

  lemma UnsignedDecimalDigits(m: nat)
    ensures UnsignedDecimal(DecimalDigits(m)) == Some(m as real)
  {
    var ds := DecimalDigits(m);
    LeadingDigitsOfDigits(ds, false);
    assert ds[|ds|..] == [];
    assert ds + [] == ds;
  }

  lemma DigitsHaveNoPrefix(t: string)
    requires |t| >= 2 ==> IsDigit(t[1], false)
    ensures PrefixRadix(t) == 0
  {
  }

  lemma ToNumberOfTrimmed(t: string)
    requires t != [] && Trim(t) == t && PrefixRadix(t) == 0
    ensures ToNumber(t) == SignedDecimal(t)
  {
  }

  lemma SignedDecimalUnsigned(u: string, v: real)
    requires u != [] && IsDigit(u[0], false) && UnsignedDecimal(u) == Some(v)
    ensures SignedDecimal(u) == Value(v)
  {
    assert u != "Infinity" by {
      assert IsDigit(u[0], false);
    }
  }

  lemma SignedDecimalMinus(s: string, v: real)
    requires |s| >= 2 && s[0] == '-' && IsDigit(s[1], false)
    requires UnsignedDecimal(s[1..]) == Some(v)
    ensures SignedDecimal(s) == Value(-v)
  {
    assert s[1..] != "Infinity" by {
      assert IsDigit(s[1..][0], false);
    }
  }

  /** Unsigned decimal text with no prefix and no surrounding whitespace is
      read by `Number` as its decimal value. */
  lemma ToNumberUnsigned(u: string, v: real)
    requires u != [] && IsDigit(u[0], false) && IsDigit(u[|u| - 1], false)
    requires |u| >= 2 ==> IsDigit(u[1], false)
    requires UnsignedDecimal(u) == Some(v)
    ensures ToNumber(u) == Value(v)
  {
    DigitIsNotWhitespace(u[0]);
    DigitIsNotWhitespace(u[|u| - 1]);
    TrimOfTrimmed(u);
    DigitsHaveNoPrefix(u);
    ToNumberOfTrimmed(u);
    SignedDecimalUnsigned(u, v);
  }

  /** A minus sign before such text negates the value `Number` reads. */
  lemma ToNumberMinus(s: string, v: real)
    requires |s| >= 2 && s[0] == '-' && IsDigit(s[1], false) && IsDigit(s[|s| - 1], false)
    requires UnsignedDecimal(s[1..]) == Some(v)
    ensures ToNumber(s) == Value(-v)
  {
    DigitIsNotWhitespace(s[|s| - 1]);
    TrimOfTrimmed(s);
    ToNumberOfTrimmed(s);
    SignedDecimalMinus(s, v);
  }

  /** What `String` writes for an integer reads back as that integer. */
  lemma ToNumberDecimal(n: int)
    ensures ToNumber(Decimal(n)) == Value(n as real)
  {
    var m: nat := if n < 0 then -n else n;
    var ds := DecimalDigits(m);
    UnsignedDecimalDigits(m);
    assert IsDigit(ds[0], false) && IsDigit(ds[|ds| - 1], false);
    assert |ds| >= 2 ==> IsDigit(ds[1], false);
    if n < 0 {
      var s := "-" + ds;
      assert s[1..] == ds;
      ToNumberMinus(s, m as real);
      assert -(m as real) == n as real;
      assert Decimal(n) == s;
    } else {
      ToNumberUnsigned(ds, m as real);
      assert Decimal(n) == ds;
    }
  }
}
