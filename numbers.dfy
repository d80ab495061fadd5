/**
 * Numbers as the decoder produces them, and `robust_float`: Python's `float()`
 * on a text, with NaN in place of the exception it raises on bad input.
 */
module Numbers {
  import opened Wrappers
  import opened Text

  /** A double as the decoder uses it: a finite value, an infinity, or NaN. */
  datatype Num = NaN | Val(r: real) | Inf(negative: bool)

  /** IEEE subtraction `a - b`, without rounding. */
  function Sub(a: Num, b: Num): (r: Num)
    ensures r.NaN? <==> a.NaN? || b.NaN? || (a.Inf? && b.Inf? && a.negative == b.negative)
    ensures a.Val? && b.Val? ==> r == Val(a.r - b.r)
  {
    match (a, b)
    case (NaN, _) => NaN
    case (_, NaN) => NaN
    case (Val(x), Val(y)) => Val(x - y)
    case (Inf(n), Val(_)) => Inf(n)
    case (Val(_), Inf(n)) => Inf(!n)
    case (Inf(n), Inf(m)) => if n == m then NaN else Inf(n)
  }

  // ---------------------------------------------------------------------
  // The literal grammar accepted by `float()`:
  //   [sign] (digits ["." [digits]] | "." digits) [("e"|"E") [sign] digits]
  //   [sign] ("inf" | "infinity" | "nan"), case-insensitively,
  // with surrounding whitespace stripped.
  // ---------------------------------------------------------------------

  datatype Sign = NoSign | Plus | Minus

  datatype Exponent = Exponent(marker: char, sign: Sign, digits: string)

  datatype Literal =
    | Decimal(sign: Sign, whole: string, dot: bool, frac: string, exponent: Option<Exponent>)
    | Infinity(sign: Sign, word: string)
    | NotANumber(sign: Sign, word: string)

  predicate IsDigit(ch: char) {
    '0' <= ch <= '9'
  }

  predicate AllDigits(s: string) {
    forall i :: 0 <= i < |s| ==> IsDigit(s[i])
  }

  predicate WellFormed(l: Literal) {
    match l
    case Decimal(_, whole, dot, frac, exponent) =>
      AllDigits(whole) && AllDigits(frac)
      && (if dot then whole != "" || frac != "" else whole != "" && frac == "")
      && (exponent.Some? ==>
            (exponent.value.marker == 'e' || exponent.value.marker == 'E')
            && exponent.value.digits != "" && AllDigits(exponent.value.digits))
    case Infinity(_, word) => Lower(word) == "inf" || Lower(word) == "infinity"
    case NotANumber(_, word) => Lower(word) == "nan"
  }

  function SignText(s: Sign): string {
    match s
    case NoSign => ""
    case Plus => "+"
    case Minus => "-"
  }

  function ExponentText(e: Option<Exponent>): string {
    match e
    case None => ""
    case Some(Exponent(marker, sign, digits)) => [marker] + SignText(sign) + digits
  }

  /** The text of a literal. */
  function Render(l: Literal): string {
    match l
    case Decimal(sign, whole, dot, frac, exponent) =>
      SignText(sign) + whole + DotText(dot) + frac + ExponentText(exponent)
    case Infinity(sign, word) => SignText(sign) + word
    case NotANumber(sign, word) => SignText(sign) + word
  }

  /** The value of a string of decimal digits. */
  function DigitsValue(s: string): nat
    requires AllDigits(s)
    decreases |s|
  {
    if |s| == 0 then 0 else 10 * DigitsValue(s[..|s| - 1]) + (s[|s| - 1] as nat - '0' as nat)
  }

  function Pow10(k: nat): (r: nat)
    ensures r >= 1
  {
    if k == 0 then 1 else 10 * Pow10(k - 1)
  }

  function Scale(e: Option<Exponent>): real
    requires e.Some? ==> AllDigits(e.value.digits)
  {
    match e
    case None => 1.0
    case Some(Exponent(_, sign, digits)) =>
      if sign == Minus then 1.0 / Pow10(DigitsValue(digits)) as real
      else Pow10(DigitsValue(digits)) as real
  }

  /** The number a literal denotes (exactly; the rounding to a double is not modelled). */
  function Value(l: Literal): Num
    requires WellFormed(l)
  {
    match l
    case Decimal(sign, whole, _, frac, exponent) =>
      var mag := (DigitsValue(whole) as real + DigitsValue(frac) as real / Pow10(|frac|) as real) * Scale(exponent);
      Val(if sign == Minus then -mag else mag)
    case Infinity(sign, _) => Inf(sign == Minus)
    case NotANumber(_, _) => NaN
  }

  // ---------------------------------------------------------------------
  // The parser
  // ---------------------------------------------------------------------

  /** Splits off an optional leading sign. */
  function SplitSign(t: string): (r: (Sign, string))
    ensures t == SignText(r.0) + r.1
    ensures r.0 == NoSign ==> |t| == 0 || (t[0] != '+' && t[0] != '-')
  {
    if |t| > 0 && t[0] == '+' then (Plus, t[1..])
    else if |t| > 0 && t[0] == '-' then (Minus, t[1..])
    else (NoSign, t)
  }

  /** The length of the longest prefix of `s` made of digits. */
  function DigitRun(s: string): (n: nat)
    ensures n <= |s| && AllDigits(s[..n])
    ensures n < |s| ==> !IsDigit(s[n])
    decreases |s|
  {
    if |s| > 0 && IsDigit(s[0]) then 1 + DigitRun(s[1..]) else 0
  }

  function DotText(dot: bool): string {
    if dot then "." else ""
  }

  /**
   * Splits the text after the sign into the digits before the dot, the dot,
   * the digits after it, and what follows.
   */
  function SplitMantissa(s: string): (string, bool, string, string) {
    var n1 := DigitRun(s);
    var r1 := s[n1..];
    if |r1| > 0 && r1[0] == '.' then
      var r2 := r1[1..];
      var n2 := DigitRun(r2);
      (s[..n1], true, r2[..n2], r2[n2..])
    else (s[..n1], false, "", r1)
  }

  /** The four parts put back together give the text; the digit runs are maximal. */
  lemma SplitMantissaSound(s: string)
    ensures var r := SplitMantissa(s);
      s == r.0 + DotText(r.1) + r.2 + r.3
      && AllDigits(r.0) && AllDigits(r.2) && (!r.1 ==> r.2 == "")
      && (r.3 != "" ==> !IsDigit(r.3[0]) && (r.1 || r.3[0] != '.'))
  {
    var n1 := DigitRun(s);
    var whole, r1 := s[..n1], s[n1..];
    assert s == whole + r1;
    if |r1| > 0 && r1[0] == '.' {
      DottedRest(whole, r1);
    } else {
      assert whole + "" + "" + r1 == whole + r1;
    }
  }

  lemma DottedRest(whole: string, r1: string)
    requires |r1| > 0 && r1[0] == '.'
    ensures var r2 := r1[1..]; var n2 := DigitRun(r2);
      whole + r1 == whole + "." + r2[..n2] + r2[n2..]
  {
    var r2 := r1[1..];
    var n2 := DigitRun(r2);
    assert r1 == "." + r2;
    assert r2 == r2[..n2] + r2[n2..];
    Regroup(whole, ".", r2[..n2], r2[n2..]);
  }

  lemma Regroup(a: string, b: string, c: string, d: string)
    ensures a + (b + (c + d)) == a + b + c + d
  {
  }

  /** Parses what follows the mantissa: nothing, or a well-formed exponent. */
  function ParseExponent(r: string): Option<Option<Exponent>> {
    if r == "" then Some(None)
    else if r[0] == 'e' || r[0] == 'E' then
      var (esign, edigits) := SplitSign(r[1..]);
      if edigits != "" && AllDigits(edigits) then Some(Some(Exponent(r[0], esign, edigits)))
      else None
    else None
  }

  /** An exponent the parser reads is well-formed and renders back to the text it was read from. */
  lemma ParseExponentSound(r: string)
    ensures var e := ParseExponent(r);
      e.Some? ==> (ExponentText(e.value) == r
        && (e.value.Some? ==>
          var x := e.value.value;
          (x.marker == 'e' || x.marker == 'E') && x.digits != "" && AllDigits(x.digits)))
  {
    if r != "" && (r[0] == 'e' || r[0] == 'E') {
      var (esign, edigits) := SplitSign(r[1..]);
      ExponentTextOf(r[0], esign, edigits, r[1..]);
      assert r == [r[0]] + r[1..];
    }
  }

  lemma ExponentTextOf(marker: char, sign: Sign, digits: string, t: string)
    requires t == SignText(sign) + digits
    ensures ExponentText(Some(Exponent(marker, sign, digits))) == [marker] + t
  {
  }

  /** Parses a decimal literal after its sign. */
  function ParseDecimal(sign: Sign, s: string): Option<Literal> {
    var (whole, dot, frac, rest) := SplitMantissa(s);
    if whole == "" && frac == "" then None
    else match ParseExponent(rest)
      case None => None
      case Some(e) => Some(Decimal(sign, whole, dot, frac, e))
  }

  /** Every decimal literal the parser reads is well-formed and renders back to its text. */
  lemma ParseDecimalSound(sign: Sign, s: string)
    ensures var r := ParseDecimal(sign, s);
      r.Some? ==> r.value.Decimal? && r.value.sign == sign && WellFormed(r.value) && Render(r.value) == SignText(sign) + s
  {
    var (whole, dot, frac, rest) := SplitMantissa(s);
    SplitMantissaSound(s);
    ParseExponentSound(rest);
    if !(whole == "" && frac == "") && ParseExponent(rest).Some? {
      DecimalShape(sign, s, whole, dot, frac, rest, ParseExponent(rest).value);
    }
  }

  lemma DecimalShape(sign: Sign, s: string, whole: string, dot: bool, frac: string, rest: string, e: Option<Exponent>)
    requires s == whole + DotText(dot) + frac + rest && ExponentText(e) == rest
    requires AllDigits(whole) && AllDigits(frac) && (!dot ==> frac == "") && (whole != "" || frac != "")
    requires e.Some? ==> (e.value.marker == 'e' || e.value.marker == 'E') && e.value.digits != "" && AllDigits(e.value.digits)
    ensures WellFormed(Decimal(sign, whole, dot, frac, e))
    ensures Render(Decimal(sign, whole, dot, frac, e)) == SignText(sign) + s
  {
    assert SignText(sign) + whole + DotText(dot) + frac + rest == SignText(sign) + (whole + DotText(dot) + frac + rest);
  }

  /**
   * Python's `float(t)` on an already stripped text: the literal it reads, or
   * None where `float` raises ValueError.
   */
  function ParseLiteral(t: string): Option<Literal> {
    var (sign, rest) := SplitSign(t);
    if Lower(rest) == "nan" then Some(NotANumber(sign, rest))
    else if Lower(rest) == "inf" || Lower(rest) == "infinity" then Some(Infinity(sign, rest))
    else ParseDecimal(sign, rest)
  }

  /** Every literal the parser reads is well-formed and renders back to exactly its text. */
  lemma ParseLiteralSound(t: string)
    ensures var r := ParseLiteral(t); r.Some? ==> WellFormed(r.value) && Render(r.value) == t
  {
    var (sign, rest) := SplitSign(t);
    ParseDecimalSound(sign, rest);
  }

  /** Python's `float(s)`: None where it raises ValueError. */
  function ParseFloat(s: string): Option<Num> {
    match ParseLiteral(Strip(s))
    case Some(l) =>
      ParseLiteralSound(Strip(s));
      Some(Value(l))
    case None => None
  }

  /** `robust_float(s)`: `float(s)`, or NaN where `float` raises. */
  function RobustFloat(s: string): Num {
    ParseFloat(s).GetOr(NaN)
  }

  // ---------------------------------------------------------------------
  // Properties
  // ---------------------------------------------------------------------

  /** A run of digits followed by something else is read as exactly that run. */
  lemma {:induction false} DigitRunOf(d: string, x: string)
    requires AllDigits(d) && (x == "" || !IsDigit(x[0]))
    ensures DigitRun(d + x) == |d|
    decreases |d|
  {
    if |d| > 0 {
      assert (d + x)[1..] == d[1..] + x;
      DigitRunOf(d[1..], x);
    } else {
      assert d + x == x;
    }
  }

  /** The parser reads every well-formed literal back from its text. */
  lemma ParseRender(l: Literal)
    requires WellFormed(l)
    ensures ParseLiteral(Render(l)) == Some(l)
  {
    match l
    case NotANumber(sign, word) => WordRoundTrip(l);
    case Infinity(sign, word) => WordRoundTrip(l);
    case Decimal(sign, whole, dot, frac, exponent) => DecimalLiteralRoundTrip(l);
  }

  /** The sign comes off again when the rest does not itself start with one. */
  lemma SplitSignOf(sign: Sign, rest: string)
    requires rest == "" || (rest[0] != '+' && rest[0] != '-')
    ensures SplitSign(SignText(sign) + rest) == (sign, rest)
  {
    assert (SignText(sign) + rest)[|SignText(sign)|..] == rest;
  }

  lemma WordRoundTrip(l: Literal)
    requires WellFormed(l) && !l.Decimal?
    ensures ParseLiteral(Render(l)) == Some(l)
  {
    assert Lower(l.word)[0] == LowerChar(l.word[0]);
    SplitSignOf(l.sign, l.word);
  }

  lemma DecimalLiteralRoundTrip(l: Literal)
    requires WellFormed(l) && l.Decimal?
    ensures ParseLiteral(Render(l)) == Some(l)
  {
    var m := l.whole + DotText(l.dot) + l.frac;
    var body := m + ExponentText(l.exponent);
    assert Render(l) == SignText(l.sign) + body;
    BodyEnds(l.whole, l.dot, l.frac);
    FirstOf(m, ExponentText(l.exponent));
    SplitSignOf(l.sign, body);
    NotAWord(body);
    DecimalRoundTrip(l.sign, l.whole, l.dot, l.frac, l.exponent);
    ParseLiteralOfDecimal(Render(l), l.sign, body);
  }

  /** A signed text whose body is no word is read as a decimal. */
  lemma ParseLiteralOfDecimal(t: string, sign: Sign, body: string)
    requires SplitSign(t) == (sign, body)
    requires Lower(body) != "nan" && Lower(body) != "inf" && Lower(body) != "infinity"
    ensures ParseLiteral(t) == ParseDecimal(sign, body)
  {
  }

  /** A text that starts with a digit or a dot is none of the words `nan`, `inf`, `infinity`. */
  lemma NotAWord(body: string)
    requires body != [] && (IsDigit(body[0]) || body[0] == '.')
    ensures Lower(body) != "nan" && Lower(body) != "inf" && Lower(body) != "infinity"
  {
    assert Lower(body)[0] == body[0];
  }

  lemma DecimalRoundTrip(sign: Sign, whole: string, dot: bool, frac: string, exponent: Option<Exponent>)
    requires WellFormed(Decimal(sign, whole, dot, frac, exponent))
    ensures ParseDecimal(sign, whole + DotText(dot) + frac + ExponentText(exponent))
      == Some(Decimal(sign, whole, dot, frac, exponent))
  {
    var et := ExponentText(exponent);
    var s := whole + DotText(dot) + frac + et;
    assert AllDigits(whole) && AllDigits(frac) && (!dot ==> frac == "") && (whole != "" || frac != "");
    ExponentRoundTrip(exponent);
    MantissaRoundTrip(whole, dot, frac, et);
  }

  lemma ExponentRoundTrip(e: Option<Exponent>)
    requires e.Some? ==> (e.value.marker == 'e' || e.value.marker == 'E') && e.value.digits != "" && AllDigits(e.value.digits)
    ensures var et := ExponentText(e); ParseExponent(et) == Some(e) && (et == "" || et[0] == 'e' || et[0] == 'E')
  {
    if e.Some? {
      var et := ExponentText(e);
      var x := e.value;
      assert et[1..] == SignText(x.sign) + x.digits;
      assert SplitSign(et[1..]) == (x.sign, x.digits);
    }
  }

  lemma MantissaRoundTrip(whole: string, dot: bool, frac: string, rest: string)
    requires AllDigits(whole) && AllDigits(frac) && (!dot ==> frac == "")
    requires rest == "" || rest[0] == 'e' || rest[0] == 'E'
    ensures SplitMantissa(whole + DotText(dot) + frac + rest) == (whole, dot, frac, rest)
  {
    if dot {
      DottedRoundTrip(whole, frac, rest);
    } else {
      assert whole + DotText(dot) + frac + rest == whole + rest;
      UndottedRoundTrip(whole, rest);
    }
  }

  lemma UndottedRoundTrip(whole: string, rest: string)
    requires AllDigits(whole)
    requires rest == "" || rest[0] == 'e' || rest[0] == 'E'
    ensures SplitMantissa(whole + rest) == (whole, false, "", rest)
  {
    var s := whole + rest;
    DigitRunOf(whole, rest);
    assert s[..|whole|] == whole && s[|whole|..] == rest;
  }

  lemma DottedRoundTrip(whole: string, frac: string, rest: string)
    requires AllDigits(whole) && AllDigits(frac)
    requires rest == "" || rest[0] == 'e' || rest[0] == 'E'
    ensures SplitMantissa(whole + "." + frac + rest) == (whole, true, frac, rest)
  {
    var tail := frac + rest;
    var s := whole + "." + frac + rest;
    assert s == whole + ("." + tail);
    DigitRunOf(whole, "." + tail);
    assert s[..|whole|] == whole && s[|whole|..] == "." + tail;
    assert s[|whole|..][1..] == tail;
    DigitRunOf(frac, rest);
    assert tail[..|frac|] == frac && tail[|frac|..] == rest;
  }

  /** `robust_float` of a literal, padded with whitespace, is the literal's value. */
  lemma RobustFloatOfLiteral(pre: string, l: Literal, post: string)
    requires WellFormed(l) && AllSpace(pre) && AllSpace(post)
    ensures RobustFloat(pre + Render(l) + post) == Value(l)
  {
    var t := Render(l);
    assert |t| > 0 && !IsSpace(t[0]) && !IsSpace(t[|t| - 1]) by {
      LiteralEnds(l);
    }
    StripPadded(pre, t, post);
    ParseRender(l);
    RobustFloatOfParsed(pre + t + post, l);
  }

  /** `robust_float` of a text whose stripped form is read as a literal is that literal's value. */
  lemma RobustFloatOfParsed(s: string, l: Literal)
    requires ParseLiteral(Strip(s)) == Some(l)
    ensures WellFormed(l) && RobustFloat(s) == Value(l)
  {
    ParseLiteralSound(Strip(s));
  }

  /** A literal's text neither starts nor ends with whitespace. */
  lemma LiteralEnds(l: Literal)
    requires WellFormed(l)
    ensures var t := Render(l); |t| > 0 && !IsSpace(t[0]) && !IsSpace(t[|t| - 1])
  {
    if l.Decimal? {
      DecimalEnds(l);
    } else {
      WordEnds(l);
    }
  }

  lemma DecimalEnds(l: Literal)
    requires WellFormed(l) && l.Decimal?
    ensures var t := Render(l); |t| > 0 && !IsSpace(t[0]) && !IsSpace(t[|t| - 1])
  {
    var front := SignText(l.sign) + l.whole + DotText(l.dot) + l.frac;
    var et := ExponentText(l.exponent);
    assert Render(l) == front + et;
    MantissaEnds(l.sign, l.whole, l.dot, l.frac);
    FirstOf(front, et);
    if et != "" {
      LastOf(front, et);
      ExponentLast(l.exponent.value);
    } else {
      assert front + et == front;
    }
  }

  lemma FirstOf(a: string, b: string)
    requires a != []
    ensures (a + b)[0] == a[0]
  {
  }

  lemma LastOf(a: string, b: string)
    requires b != []
    ensures (a + b)[|a + b| - 1] == b[|b| - 1]
  {
  }

  /** The sign and mantissa of a decimal literal begin with no whitespace and end with a digit or a dot. */
  lemma MantissaEnds(sign: Sign, whole: string, dot: bool, frac: string)
    requires AllDigits(whole) && AllDigits(frac)
    requires if dot then whole != "" || frac != "" else whole != "" && frac == ""
    ensures var f := SignText(sign) + whole + DotText(dot) + frac;
      f != [] && !IsSpace(f[0]) && (IsDigit(f[|f| - 1]) || f[|f| - 1] == '.')
  {
    var m := whole + DotText(dot) + frac;
    assert SignText(sign) + whole + DotText(dot) + frac == SignText(sign) + m;
    BodyEnds(whole, dot, frac);
    LastOf(SignText(sign), m);
    if sign != NoSign {
      FirstOf(SignText(sign), m);
    } else {
      assert SignText(sign) + m == m;
    }
  }

  lemma BodyEnds(whole: string, dot: bool, frac: string)
    requires AllDigits(whole) && AllDigits(frac)
    requires if dot then whole != "" || frac != "" else whole != "" && frac == ""
    ensures var m := whole + DotText(dot) + frac;
      m != [] && (IsDigit(m[0]) || m[0] == '.') && (IsDigit(m[|m| - 1]) || m[|m| - 1] == '.')
  {
    var d := DotText(dot);
    if frac != "" {
      LastOf(whole + d, frac);
    } else {
      assert whole + d + frac == whole + d;
      if dot {
        LastOf(whole, d);
      } else {
        assert whole + d == whole;
      }
    }
    if whole != "" {
      assert whole + d + frac == whole + (d + frac);
      FirstOf(whole, d + frac);
    } else {
      assert whole + d + frac == d + frac;
      FirstOf(d, frac);
    }
  }

  lemma ExponentLast(e: Exponent)
    requires e.digits != "" && AllDigits(e.digits)
    ensures var et := ExponentText(Some(e)); et != [] && IsDigit(et[|et| - 1])
  {
    LastOf([e.marker] + SignText(e.sign), e.digits);
  }

  lemma WordEnds(l: Literal)
    requires WellFormed(l) && !l.Decimal?
    ensures var t := Render(l); |t| > 0 && !IsSpace(t[0]) && !IsSpace(t[|t| - 1])
  {
    var t := Render(l);
    var w := l.word;
    assert t == SignText(l.sign) + w;
    assert Lower(w)[0] == LowerChar(w[0]);
    assert Lower(w)[|w| - 1] == LowerChar(w[|w| - 1]);
    assert t[|t| - 1] == w[|w| - 1];
  }

  /** Text that is no literal once stripped becomes NaN: `robust_float` never raises. */
  lemma RobustFloatRejects(s: string)
    requires forall l :: WellFormed(l) ==> Render(l) != Strip(s)
    ensures RobustFloat(s) == NaN
  {
    ParseLiteralSound(Strip(s));
  }

  /** A number other than NaN comes only from a literal that spells it. */
  lemma RobustFloatSound(s: string)
    ensures RobustFloat(s).NaN? || exists l :: WellFormed(l) && Render(l) == Strip(s) && Value(l) == RobustFloat(s)
  {
    var p := ParseLiteral(Strip(s));
    ParseLiteralSound(Strip(s));
    if p.Some? {
      assert WellFormed(p.value) && Render(p.value) == Strip(s);
    }
  }

  // ---------------------------------------------------------------------
  // Integer fields (record number, raw transducer readings, button)
  // ---------------------------------------------------------------------

  function DigitChar(d: nat): char
    requires d < 10
  {
    "0123456789"[d]
  }

  /** Python's `str(n)` for a natural number. */
  function NatText(n: nat): (r: string)
    ensures r != [] && AllDigits(r)
    decreases n
  {
    if n < 10 then [DigitChar(n)] else NatText(n / 10) + [DigitChar(n % 10)]
  }

  /** Python's `str(n)` for an integer. */
  function IntText(n: int): string {
    if n < 0 then "-" + NatText(-n) else NatText(n)
  }

  lemma DigitCharValue(d: nat)
    requires d < 10
    ensures DigitChar(d) as nat - '0' as nat == d
  {
    var digits := "0123456789";
    assert digits[d] as nat == '0' as nat + d;
  }

  lemma {:induction false} NatTextValue(n: nat)
    ensures DigitsValue(NatText(n)) == n
    decreases n
  {
    var t := NatText(n);
    if n < 10 {
      DigitCharValue(n);
      assert t[..0] == [];
    } else {
      NatTextValue(n / 10);
      DigitCharValue(n % 10);
      assert t[..|t| - 1] == NatText(n / 10);
    }
  }

  /** The literal `str(n)` spells. */
  function IntLiteral(n: int): Literal {
    Decimal(if n < 0 then Minus else NoSign, NatText(if n < 0 then -n else n), false, "", None)
  }

  lemma IntLiteralValue(n: int)
    ensures WellFormed(IntLiteral(n)) && Value(IntLiteral(n)) == Val(n as real)
  {
    var mag: nat := if n < 0 then -n else n;
    NatTextValue(mag);
    WholeValue(IntLiteral(n).sign, NatText(mag));
  }

  /** A literal of digits alone denotes the value of its digits. */
  lemma WholeValue(sign: Sign, whole: string)
    requires whole != "" && AllDigits(whole)
    ensures var l := Decimal(sign, whole, false, "", None);
      WellFormed(l) && Value(l) == Val(if sign == Minus then -(DigitsValue(whole) as real) else DigitsValue(whole) as real)
  {
    var m := DigitsValue(whole) as real;
    assert Pow10(0) == 1 && DigitsValue("") == 0 && Scale(None) == 1.0;
    assert (m + 0 as real / 1 as real) * 1.0 == m;
  }

  /** An integer written out in decimal converts back to itself. */
  lemma RobustFloatOfInt(n: int)
    ensures RobustFloat(IntText(n)) == Val(n as real)
  {
    var l := IntLiteral(n);
    IntLiteralValue(n);
    assert Render(l) == IntText(n);
    RobustFloatOfLiteral("", l, "");
    assert "" + Render(l) + "" == IntText(n);
  }

  /** The text "nan" converts to NaN. */
  lemma NanTextIsNaN()
    ensures RobustFloat("nan") == NaN
  {
    assert Lower("nan") == "nan" by {
      assert forall i :: 0 <= i < 3 ==> Lower("nan")[i] == LowerChar("nan"[i]) == "nan"[i];
    }
    assert Strip("nan") == "nan" by {
      StripPadded("", "nan", "");
      assert "" + "nan" + "" == "nan";
    }
    assert SplitSign("nan") == (NoSign, "nan");
    assert ParseLiteral("nan") == Some(NotANumber(NoSign, "nan"));
  }
}
