/** Normalisation of the `range` query parameter of the long-term history
    endpoint: `undefined` or `isNaN(range)` gives 24 hours, anything else
    gives `Math.round(parseInt(range))`.

    `isNaN` on a string is ECMAScript's ToNumber (the StringNumericLiteral
    grammar) followed by a NaN test; `parseInt` without a radix scans the
    longest integer prefix after optional white space, a sign and a `0x`
    prefix. The two disagree on some inputs, which the lemmas below pin down.
    JavaScript numbers are modelled as unbounded integers; NaN is its own
    constructor of `Hours`. */
module RangeParam {
  import opened Wrappers

  /** What Express hands the handler as `req.query.range`. */
  datatype Query = Absent | Text(s: string)

  /** The normalised hours: an integer, or NaN. */
  datatype Hours = Whole(n: int) | NotANumber

  const DefaultHours: int := 24

  // ---------------------------------------------------------------------
  // White space (ECMAScript WhiteSpace and LineTerminator code points)
  // ---------------------------------------------------------------------

  predicate IsJsSpace(c: char)
  {
    || c == '\t' || c == '\U{B}' || c == '\U{C}' || c == ' ' || c == '\U{A0}' || c == '\U{FEFF}'
    || c == '\n' || c == '\r' || c == '\U{2028}' || c == '\U{2029}'
    || c == '\U{1680}' || ('\U{2000}' <= c <= '\U{200A}') || c == '\U{202F}' || c == '\U{205F}' || c == '\U{3000}'
  }

  /** Length of the run of white space that starts `s`. */
  function LeadingSpace(s: string): (k: nat)
    ensures k <= |s|
    ensures forall i :: 0 <= i < k ==> IsJsSpace(s[i])
    ensures k == |s| || !IsJsSpace(s[k])
    decreases |s|
  {
    if |s| > 0 && IsJsSpace(s[0]) then 1 + LeadingSpace(s[1..]) else 0
  }

  /** Length of the run of white space that ends `s`. */
  function TrailingSpace(s: string): (k: nat)
    ensures k <= |s|
    ensures forall i :: |s| - k <= i < |s| ==> IsJsSpace(s[i])
    ensures k == |s| || !IsJsSpace(s[|s| - k - 1])
    decreases |s|
  {
    if |s| > 0 && IsJsSpace(s[|s| - 1]) then 1 + TrailingSpace(s[..|s| - 1]) else 0
  }

  function TrimStart(s: string): string
  {
    s[LeadingSpace(s)..]
  }

  function TrimEnd(t: string): string
  {
    t[..|t| - TrailingSpace(t)]
  }

  function Trim(s: string): string
  {
    TrimEnd(TrimStart(s))
  }

  // ---------------------------------------------------------------------
  // Digits
  // ---------------------------------------------------------------------

  /** The value of `c` as a digit in base `radix` (2 to 36), or -1. */
  function DigitValue(c: char, radix: nat): (d: int)
    ensures -1 <= d < radix
  {
    var v :=
      if '0' <= c <= '9' then c as int - '0' as int
      else if 'a' <= c <= 'z' then c as int - 'a' as int + 10
      else if 'A' <= c <= 'Z' then c as int - 'A' as int + 10
      else -1;
    if 0 <= v < radix then v else -1
  }

  predicate IsDigit(c: char, radix: nat)
  {
    DigitValue(c, radix) >= 0
  }

  /** Length of the run of base-`radix` digits that starts `s`. */
  function DigitRun(s: string, radix: nat): (k: nat)
    ensures k <= |s|
    ensures forall i :: 0 <= i < k ==> IsDigit(s[i], radix)
    ensures k == |s| || !IsDigit(s[k], radix)
    decreases |s|
  {
    if |s| > 0 && IsDigit(s[0], radix) then 1 + DigitRun(s[1..], radix) else 0
  }

  /** A non-empty string of base-`radix` digits. */
  predicate IsDigits(s: string, radix: nat)
  {
    |s| > 0 && DigitRun(s, radix) == |s|
  }

  /** The number a string of digits denotes, most significant digit first. */
  function ValueOf(digits: string, radix: nat): nat
    requires forall i :: 0 <= i < |digits| ==> IsDigit(digits[i], radix)
    decreases |digits|
  {
    if |digits| == 0 then 0
    else
      var init := digits[..|digits| - 1];
      assert forall i :: 0 <= i < |init| ==> init[i] == digits[i];
      var last := DigitValue(digits[|digits| - 1], radix);
      assert last >= 0 by {
        assert IsDigit(digits[|digits| - 1], radix);
      }
      var high: nat := ValueOf(init, radix);
      NonNegativeProduct(high, radix);
      high * radix + last
  }

  lemma NonNegativeProduct(a: nat, b: nat)
    ensures a * b >= 0
  {
  }

  // ---------------------------------------------------------------------
  // isNaN(s): the StringNumericLiteral grammar
  // ---------------------------------------------------------------------

  predicate IsSign(c: char)
  {
    c == '+' || c == '-'
  }

  /** `s` with one leading sign character removed, if it has one. */
  function Unsigned(s: string): (u: string)
    ensures |u| <= |s|
  {
    if |s| > 0 && IsSign(s[0]) then s[1..] else s
  }

  predicate IsExponentOrEmpty(s: string)
  {
    |s| == 0 || ((s[0] == 'e' || s[0] == 'E') && IsDigits(Unsigned(s[1..]), 10))
  }

  /** StrUnsignedDecimalLiteral: `Infinity`, `d.`, `d.d`, `.d` or `d`, each
      but the first with an optional exponent. */
  predicate IsUnsignedDecimal(s: string)
  {
    if s == "Infinity" then true
    else
      var a := DigitRun(s, 10);
      if a < |s| && s[a] == '.' then
        var fraction := s[a + 1..];
        var b := DigitRun(fraction, 10);
        (a > 0 || b > 0) && IsExponentOrEmpty(fraction[b..])
      else
        a > 0 && IsExponentOrEmpty(s[a..])
  }

  /** NonDecimalIntegerLiteral: `0x`, `0o` or `0b` and digits, no sign. */
  predicate IsNonDecimalLiteral(s: string)
  {
    && |s| >= 2 && s[0] == '0'
    && (|| ((s[1] == 'x' || s[1] == 'X') && IsDigits(s[2..], 16))
        || ((s[1] == 'o' || s[1] == 'O') && IsDigits(s[2..], 8))
        || ((s[1] == 'b' || s[1] == 'B') && IsDigits(s[2..], 2)))
  }

  /** `isNaN(s)` for a string: ToNumber(s) is NaN exactly when the text
      without surrounding white space is neither empty nor a numeric
      literal. */
  predicate IsNaNText(s: string)
    ensures (forall i :: 0 <= i < |s| ==> IsJsSpace(s[i])) ==> !IsNaNText(s)
  {
    var t := Trim(s);
    !(|t| == 0 || IsUnsignedDecimal(Unsigned(t)) || IsNonDecimalLiteral(t))
  }

  // ---------------------------------------------------------------------
  // parseInt(s)
  // ---------------------------------------------------------------------

  /** The digits `parseInt` scans once white space and sign are gone: a
      `0x` or `0X` prefix selects base 16, anything else base 10, and the
      longest run of digits of that base is read. `None` when the run is
      empty. */
  function ParseDigits(u: string): (r: Option<nat>)
    ensures r.Some? ==> |u| > 0 && IsDigit(u[0], 10)
  {
    var hex := |u| >= 2 && u[0] == '0' && (u[1] == 'x' || u[1] == 'X');
    var radix := if hex then 16 else 10;
    var body := if hex then u[2..] else u;
    var k := DigitRun(body, radix);
    if k == 0 then None else Some(ValueOf(body[..k], radix))
  }

  /** `parseInt(s)` with no radix argument: `None` stands for NaN. Negative
      zero is not distinguished from zero. */
  function ParseInt(s: string): (r: Option<int>)
    ensures r.Some? ==> exists i :: 0 <= i < |s| && IsDigit(s[i], 10)
  {
    var t := TrimStart(s);
    var u := Unsigned(t);
    var m := ParseDigits(u);
    assert m.Some? ==> IsDigit(s[|s| - |u|], 10) by {
      assert u == s[|s| - |u|..];
    }
    if |t| > 0 && t[0] == '-' then Negated(m) else Promote(m)
  }

  /** A scanned magnitude as a JavaScript number. */
  function Promote(m: Option<nat>): Option<int>
  {
    match m
    case None => None
    case Some(v) => Some(v)
  }

  /** A scanned magnitude with the sign flipped; NaN stays NaN. */
  function Negated(m: Option<nat>): Option<int>
  {
    match m
    case None => None
    case Some(v) => var n: int := v; Some(-n)
  }

  // ---------------------------------------------------------------------
  // The handler's normalisation, as written and as intended
  // ---------------------------------------------------------------------

  /** The `range` value after app.js:109-114, as written: `Math.round` is the
      identity on integers and keeps NaN. */
  function NormaliseRange(q: Query): (h: Hours)
    ensures h == NotANumber ==> q.Text? && !IsNaNText(q.s)
  {
    match q
    case Absent => Whole(DefaultHours)
    case Text(s) =>
      if IsNaNText(s) then Whole(DefaultHours)
      else
        match ParseInt(s)
        case Some(n) => Whole(n)
        case None => NotANumber
  }

  /** The hours the history query is run with: the handler's normalisation
      with the default applied also when `parseInt` finds no integer, so
      the result is always a whole number of hours. */
  function RangeHours(q: Query): (n: int)
    ensures NormaliseRange(q).Whole? ==> n == NormaliseRange(q).n
    ensures NormaliseRange(q) == NotANumber ==> n == DefaultHours
    ensures q.Text? && ParseInt(q.s).None? ==> n == DefaultHours
  {
    if q.Text? && !IsNaNText(q.s) && ParseInt(q.s).Some? then ParseInt(q.s).value
    else DefaultHours
  }

  // ---------------------------------------------------------------------
  // Decimal text of an integer, the partner of ParseInt
  // ---------------------------------------------------------------------

  function DigitChar(d: nat): (c: char)
    requires d < 10
    ensures IsDigit(c, 10) && DigitValue(c, 10) == d
  {
    ('0' as int + d) as char
  }

  /** Decimal digits of `m`, most significant first, no leading zeros. */
  function NatText(m: nat): (s: string)
    ensures |s| > 0
    ensures forall i :: 0 <= i < |s| ==> IsDigit(s[i], 10)
    decreases m
  {
    if m < 10 then [DigitChar(m)] else NatText(m / 10) + [DigitChar(m % 10)]
  }

  /** How JavaScript prints an integer: an optional minus sign and digits. */
  function DecimalText(n: int): string
  {
    if n < 0 then "-" + NatText(-n) else NatText(n)
  }

  // ---------------------------------------------------------------------
  // Lemmas
  // ---------------------------------------------------------------------

  lemma {:induction false} ValueOfNatText(m: nat)
    ensures ValueOf(NatText(m), 10) == m
    decreases m
  {
    if m >= 10 {
      var s := NatText(m);
      assert s[..|s| - 1] == NatText(m / 10);
      ValueOfNatText(m / 10);
    }
  }

  /** A run of digits followed by a non-digit is scanned exactly. */
  lemma {:induction false} DigitRunPrefix(a: string, b: string, radix: nat)
    requires forall i :: 0 <= i < |a| ==> IsDigit(a[i], radix)
    requires |b| == 0 || !IsDigit(b[0], radix)
    ensures DigitRun(a + b, radix) == |a|
    decreases |a|
  {
    if |a| == 0 {
      assert a + b == b;
    } else {
      assert (a + b)[1..] == a[1..] + b;
      DigitRunPrefix(a[1..], b, radix);
    }
  }

  /** A string that does not start with white space is its own TrimStart. */
  lemma NoLeadingSpace(s: string)
    requires |s| > 0 && !IsJsSpace(s[0])
    ensures TrimStart(s) == s
  {
  }

  /** A decimal digit is not white space. */
  lemma DigitIsNotSpace(c: char)
    requires IsDigit(c, 10)
    ensures !IsJsSpace(c) && !IsSign(c) && c != 'I' && c != '.'
  {
  }

  function Magnitude(n: int): nat
  {
    if n < 0 then -n else n
  }

  /** The decimal text of `n` followed by `rest` starts with no white
      space, starts with a minus exactly for negative `n`, and without its
      sign is the digits of `n` followed by `rest`. */
  lemma DecimalTextShape(n: int, rest: string)
    ensures var s := DecimalText(n) + rest;
      && |s| > 0 && !IsJsSpace(s[0])
      && (s[0] == '-' <==> n < 0)
      && Unsigned(s) == NatText(Magnitude(n)) + rest
  {
    var digits := NatText(Magnitude(n));
    DigitIsNotSpace(digits[0]);
    if n < 0 {
      assert DecimalText(n) + rest == "-" + (digits + rest);
    } else {
      assert (DecimalText(n) + rest)[0] == digits[0];
    }
  }

  /** The first digit of a number of two or more digits is not zero. */
  lemma {:induction false} LeadingDigitNonZero(m: nat)
    requires m >= 10
    ensures NatText(m)[0] != '0'
    decreases m
  {
    if m / 10 >= 10 {
      LeadingDigitNonZero(m / 10);
    }
  }

  /** Digits followed by something other than `x` or `X` carry no hex
      prefix, unless the number itself is zero. */
  lemma NoHexPrefix(n: int, rest: string)
    requires n != 0 || |rest| == 0 || (rest[0] != 'x' && rest[0] != 'X')
    ensures var u := NatText(Magnitude(n)) + rest;
      !(|u| >= 2 && u[0] == '0' && (u[1] == 'x' || u[1] == 'X'))
  {
    var m := Magnitude(n);
    var digits := NatText(m);
    var u := digits + rest;
    if |u| >= 2 && u[0] == '0' {
      if m >= 10 {
        LeadingDigitNonZero(m);
      } else {
        assert |digits| == 1 && u[1] == rest[0];
      }
    }
  }

  /** The decimal text of an integer followed by anything that does not
      continue the integer is read back by `parseInt` as that integer. */
  lemma ParseIntOfDecimalText(n: int, rest: string)
    requires |rest| == 0 || !IsDigit(rest[0], 10)
    requires n != 0 || |rest| == 0 || (rest[0] != 'x' && rest[0] != 'X')
    ensures ParseInt(DecimalText(n) + rest) == Some(n)
  {
    MagnitudeDigits(n, rest);
    if n < 0 {
      ParseNegativeText(n, rest);
    } else {
      ParseNonNegativeText(n, rest);
    }
  }

  /** A minus sign and the digits of `-n`: `parseInt` negates what the
      digits scan to. */
  lemma ParseNegativeText(n: int, rest: string)
    requires n < 0
    ensures ParseInt(DecimalText(n) + rest) == Negated(ParseDigits(NatText(Magnitude(n)) + rest))
  {
    var u := NatText(Magnitude(n)) + rest;
    assert DecimalText(n) + rest == ['-'] + u;
    ParseIntSigned('-', u);
  }

  lemma ParseNonNegativeText(n: int, rest: string)
    requires n >= 0
    ensures ParseInt(DecimalText(n) + rest) == Promote(ParseDigits(NatText(Magnitude(n)) + rest))
  {
    assert DecimalText(n) == NatText(Magnitude(n));
    UnsignedDigits(n, rest);
  }

  /** Digits followed by anything start with neither white space nor a
      sign, so `parseInt` reads them unsigned. */
  lemma UnsignedDigits(m: nat, rest: string)
    ensures var u := NatText(m) + rest;
      ParseInt(u) == Promote(ParseDigits(u))
  {
    var digits := NatText(m);
    var u := digits + rest;
    DigitIsNotSpace(digits[0]);
    assert u[0] == digits[0];
    ParseIntUnsigned(u);
  }

  /** The digits of `n`, followed by anything that does not continue them,
      scan as the magnitude of `n`. */
  lemma MagnitudeDigits(n: int, rest: string)
    requires |rest| == 0 || !IsDigit(rest[0], 10)
    requires n != 0 || |rest| == 0 || (rest[0] != 'x' && rest[0] != 'X')
    ensures ParseDigits(NatText(Magnitude(n)) + rest) == Some(Magnitude(n))
  {
    var m := Magnitude(n);
    var digits := NatText(m);
    NoHexPrefix(n, rest);
    DigitRunPrefix(digits, rest, 10);
    assert (digits + rest)[..|digits|] == digits;
    ValueOfNatText(m);
  }

  /** A non-empty run of decimal digits is a StrUnsignedDecimalLiteral. */
  lemma DigitsAreUnsignedDecimal(d: string)
    requires IsDigits(d, 10)
    ensures IsUnsignedDecimal(d)
  {
    DigitIsNotSpace(d[0]);
    assert d != "Infinity";
    assert d[|d|..] == [];
  }

  /** The decimal text of any integer is a number to `isNaN`. */
  lemma DecimalTextIsNumber(n: int)
    ensures !IsNaNText(DecimalText(n))
  {
    var digits := NatText(Magnitude(n));
    var s := DecimalText(n);
    DecimalTextShape(n, []);
    assert DecimalText(n) + [] == s;
    NoLeadingSpace(s);
    assert s[|s| - 1] == digits[|digits| - 1];
    DigitIsNotSpace(s[|s| - 1]);
    assert TrailingSpace(s) == 0;
    assert Trim(s) == s;
    DigitRunPrefix(digits, [], 10);
    assert digits + [] == digits;
    DigitsAreUnsignedDecimal(digits);
  }

  /** Round trip: the decimal text of any integer, negative ones included,
      normalises to that integer; there is no clamp to positive hours. */
  lemma DecimalRoundTrip(n: int)
    ensures NormaliseRange(Text(DecimalText(n))) == Whole(n)
    ensures RangeHours(Text(DecimalText(n))) == n
  {
    DecimalTextIsNumber(n);
    ParseIntOfDecimalText(n, []);
    assert DecimalText(n) + [] == DecimalText(n);
  }

  /** A numeric text with a fraction or exponent after the integer part
      normalises to the integer part: `parseInt` stops at the first
      non-digit before `Math.round` sees the value, so "1.7" gives 1,
      "-1.7" gives -1 and "1e3" gives 1. */
  lemma IntegerPartOnly(n: int, rest: string)
    requires !IsNaNText(DecimalText(n) + rest)
    requires |rest| == 0 || !IsDigit(rest[0], 10)
    requires n != 0 || |rest| == 0 || (rest[0] != 'x' && rest[0] != 'X')
    ensures NormaliseRange(Text(DecimalText(n) + rest)) == Whole(n)
  {
    ParseIntOfDecimalText(n, rest);
  }

  /** Text whose first non-blank character cannot begin a numeric literal
      normalises to the default. */
  lemma NonNumericIsDefault(s: string)
    requires |TrimStart(s)| > 0
    requires var c := TrimStart(s)[0]; !(IsSign(c) || c == '.' || c == 'I' || IsDigit(c, 10))
    ensures NormaliseRange(Text(s)) == Whole(DefaultHours)
    ensures RangeHours(Text(s)) == DefaultHours
  {
    var t := TrimStart(s);
    var c := t[0];
    assert !IsJsSpace(c);
    assert TrailingSpace(t) < |t|;
    var w := Trim(s);
    assert w[0] == c;
    assert Unsigned(w) == w;
    assert DigitRun(w, 10) == 0;
    assert w != "Infinity";
    assert !IsUnsignedDecimal(w);
    assert IsNaNText(s);
  }

  /** The inputs that pass the `isNaN` guard yet have no integer prefix:
      for these the handler's range is NaN. The empty text is one (ToNumber
      gives 0, `parseInt` finds no digit). */
  lemma EmptyRangeIsNaN()
    ensures NormaliseRange(Text("")) == NotANumber
  {
    var s: string := [];
    assert TrimStart(s) == s;
    assert Trim(s) == s;
    assert DigitRun(s, 10) == 0;
  }

  /** `Infinity` is a number to `isNaN` but not to `parseInt`. */
  lemma InfinityRangeIsNaN()
    ensures NormaliseRange(Text("Infinity")) == NotANumber
  {
    var s := "Infinity";
    NoLeadingSpace(s);
    assert !IsJsSpace(s[|s| - 1]);
    assert TrailingSpace(s) == 0;
    assert Trim(s) == s;
    assert Unsigned(s) == s;
    assert !IsDigit(s[0], 10);
    assert DigitRun(s, 10) == 0;
  }

  /** A fraction without an integer part is a number to `isNaN` but not to
      `parseInt`. */
  lemma FractionRangeIsNaN()
    ensures NormaliseRange(Text(".5")) == NotANumber
  {
    var s := ".5";
    NoLeadingSpace(s);
    assert !IsJsSpace(s[1]);
    assert TrailingSpace(s) == 0;
    assert Trim(s) == s;
    assert Unsigned(s) == s;
    assert !IsDigit(s[0], 10);
    assert DigitRun(s, 10) == 0;
    assert s[1..] == "5";
    assert IsDigit('5', 10);
    assert DigitRun("5", 10) == 1;
    assert "5"[1..] == "";
    assert IsUnsignedDecimal(s);
  }

  /** Text that neither starts nor ends with white space is its own Trim. */
  lemma Unpadded(s: string)
    requires |s| > 0 && !IsJsSpace(s[0]) && !IsJsSpace(s[|s| - 1])
    ensures Trim(s) == s
  {
    NoLeadingSpace(s);
    assert TrailingSpace(s) == 0;
  }

  /** Digits, a point and digits (possibly none) form a
      StrUnsignedDecimalLiteral. */
  lemma PointFractionIsUnsignedDecimal(d: string, f: string)
    requires IsDigits(d, 10)
    requires forall i :: 0 <= i < |f| ==> IsDigit(f[i], 10)
    ensures IsUnsignedDecimal(d + ("." + f))
  {
    var u := d + ("." + f);
    DigitIsNotSpace(d[0]);
    assert u[0] == d[0];
    assert u != "Infinity";
    DigitRunPrefix(d, "." + f, 10);
    assert u[|d| + 1..] == f;
    DigitRunPrefix(f, [], 10);
    assert f + [] == f;
    assert f[|f|..] == [];
  }

  /** The decimal text of an integer, a point and decimal digits (possibly
      none) is a number to `isNaN`. */
  lemma DecimalFractionIsNumber(n: int, f: string)
    requires forall i :: 0 <= i < |f| ==> IsDigit(f[i], 10)
    ensures !IsNaNText(DecimalText(n) + ("." + f))
  {
    var digits := NatText(Magnitude(n));
    var tail := "." + f;
    var s := DecimalText(n) + tail;
    DecimalTextShape(n, tail);
    if |f| > 0 {
      assert s[|s| - 1] == f[|f| - 1];
      DigitIsNotSpace(s[|s| - 1]);
    } else {
      assert s[|s| - 1] == '.';
    }
    Unpadded(s);
    DigitRunPrefix(digits, [], 10);
    assert digits + [] == digits;
    PointFractionIsUnsignedDecimal(digits, f);
  }

  /** Any integer followed by a decimal fraction normalises to its integer
      part, truncated toward zero: "1.7" gives 1 and "-1.7" gives -1, where
      rounding the number would have given 2 and -2. */
  lemma FractionTruncates(n: int, f: string)
    requires forall i :: 0 <= i < |f| ==> IsDigit(f[i], 10)
    ensures NormaliseRange(Text(DecimalText(n) + ("." + f))) == Whole(n)
    ensures RangeHours(Text(DecimalText(n) + ("." + f))) == n
  {
    DecimalFractionIsNumber(n, f);
    IntegerPartOnly(n, "." + f);
  }

  /** `"1.7"` normalises to 1. */
  lemma FractionExample()
    ensures NormaliseRange(Text("1.7")) == Whole(1)
  {
    assert DecimalText(1) == "1";
    assert DecimalText(1) + ("." + "7") == "1.7";
    FractionTruncates(1, "7");
  }

  // ---------------------------------------------------------------------
  // Where ToNumber and parseInt part ways
  // ---------------------------------------------------------------------

  /** Leading white space changes neither `isNaN` nor `parseInt`. */
  lemma {:induction false} LeadingSpaceIgnored(w: string, s: string)
    requires forall i :: 0 <= i < |w| ==> IsJsSpace(w[i])
    ensures TrimStart(w + s) == TrimStart(s)
    ensures IsNaNText(w + s) == IsNaNText(s)
    ensures ParseInt(w + s) == ParseInt(s)
    decreases |w|
  {
    if |w| == 0 {
      assert w + s == s;
    } else {
      var x := w + s;
      assert x[1..] == w[1..] + s;
      assert LeadingSpace(x) == 1 + LeadingSpace(x[1..]);
      assert TrimStart(x) == TrimStart(x[1..]);
      LeadingSpaceIgnored(w[1..], s);
    }
  }

  /** One sign before text that starts with neither white space nor a
      sign: `parseInt` ignores `+` and negates on `-`. */
  lemma ParseIntSign(u: string)
    requires |u| == 0 || (!IsJsSpace(u[0]) && !IsSign(u[0]))
    ensures ParseInt("+" + u) == ParseInt(u)
    ensures ParseInt("-" + u) == Negated(ParseDigits(u))
    ensures ParseInt(u) == Promote(ParseDigits(u))
  {
    ParseIntUnsigned(u);
    ParseIntSigned('+', u);
    ParseIntSigned('-', u);
  }

  lemma ParseIntUnsigned(u: string)
    requires |u| == 0 || (!IsJsSpace(u[0]) && !IsSign(u[0]))
    ensures ParseInt(u) == Promote(ParseDigits(u))
  {
    assert LeadingSpace(u) == 0;
    assert TrimStart(u) == u;
    assert Unsigned(u) == u;
  }

  lemma ParseIntSigned(c: char, u: string)
    requires IsSign(c)
    ensures ParseInt([c] + u) == if c == '-' then Negated(ParseDigits(u)) else Promote(ParseDigits(u))
  {
    SignedText(c, u);
  }

  /** A sign followed by `u` is left alone by TrimStart, and Unsigned
      gives back `u`. */
  lemma SignedText(c: char, u: string)
    requires IsSign(c)
    ensures TrimStart([c] + u) == [c] + u
    ensures Unsigned([c] + u) == u
  {
    var p := [c] + u;
    assert p[0] == c && p[1..] == u;
    assert LeadingSpace(p) == 0;
  }

  /** Text of white space only is the number 0 to `isNaN`, but `parseInt`
      finds no digit in it, so the handler's range is NaN. */
  lemma BlankRangeIsNaN(w: string)
    requires forall i :: 0 <= i < |w| ==> IsJsSpace(w[i])
    ensures NormaliseRange(Text(w)) == NotANumber
  {
    LeadingSpaceIgnored(w, []);
    assert w + [] == w;
    EmptyRangeIsNaN();
  }

  /** A hexadecimal literal: "0x1A" is 26 to `parseInt`. */
  lemma HexLiteral()
    ensures ParseInt("0x1A") == Some(26)
  {
    ParseIntUnsigned("0x1A");
    HexTwentySix();
  }

  lemma HexTwentySix()
    ensures ParseDigits("0x1A") == Some(26)
  {
    var u := "0x1A";
    assert u[2..] == "1A";
    assert DigitRun("1A", 16) == 2;
    assert "1A"[..2] == "1A" && "1A"[..1] == "1" && "1"[..0] == "";
    assert ValueOf("1", 16) == 1;
  }

  /** ToNumber accepts a `0x` literal only without a sign, while `parseInt`
      reads a sign before `0x`: "-0x10" fails the `isNaN` guard although
      `parseInt` reads -16, so the range is the default. */
  lemma SignedHexIsDefault()
    ensures IsNaNText("-0x10") && ParseInt("-0x10") == Some(-16)
    ensures NormaliseRange(Text("-0x10")) == Whole(DefaultHours)
  {
    SignedHexParses();
    SignedHexIsNaN();
  }

  lemma SignedHexParses()
    ensures ParseInt("-0x10") == Some(-16)
  {
    var u := "0x10";
    assert "-0x10" == ['-'] + u;
    ParseIntSigned('-', u);
    HexTen();
  }

  lemma HexTen()
    ensures ParseDigits("0x10") == Some(16)
  {
    var u := "0x10";
    assert u[2..] == "10";
    assert DigitRun("10", 16) == 2;
    assert "10"[..2] == "10" && "10"[..1] == "1" && "1"[..0] == "";
    assert ValueOf("1", 16) == 1;
  }

  lemma SignedHexIsNaN()
    ensures IsNaNText("-0x10")
  {
    var u := "0x10";
    var s := "-0x10";
    Unpadded(s);
    assert Unsigned(s) == u;
    assert DigitRun(u, 10) == 1 by {
      assert u[1..] == "x10";
    }
    assert !IsUnsignedDecimal(u);
  }

  /** ToNumber knows the `0b` prefix and `parseInt` does not: "0b11" passes
      the `isNaN` guard, and `parseInt` reads only its leading zero. */
  lemma BinaryLiteralIsZero()
    ensures !IsNaNText("0b11") && NormaliseRange(Text("0b11")) == Whole(0)
  {
    BinaryIsNumber();
    ParseIntUnsigned("0b11");
    BinaryDigitsZero();
  }

  lemma BinaryIsNumber()
    ensures !IsNaNText("0b11")
  {
    var s := "0b11";
    Unpadded(s);
    assert s[2..] == "11";
    assert DigitRun("11", 2) == 2;
    assert IsNonDecimalLiteral(s);
  }

  lemma BinaryDigitsZero()
    ensures ParseDigits("0b11") == Some(0)
  {
    var s := "0b11";
    assert s[1..] == "b11";
    assert DigitRun(s, 10) == 1;
    assert s[..1] == "0" && "0"[..0] == "";
  }
}
