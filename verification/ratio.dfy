/** `parse_ratio`: turning a ratio token such as `16:9` or `1.5` into a number. */
module RatioParser {
  import opened Wrappers
  import opened Text

  /** Why a token was refused. `InvalidFormat` is the `ValueError` the source reports before
      exiting; `DivisionByZero` is the `ZeroDivisionError` it does not catch. */
  datatype RatioError = InvalidFormat(token: string) | DivisionByZero(token: string)

  /** True iff s consists of whitespace only. */
  ghost predicate AllSpace(s: string) {
    forall k :: 0 <= k < |s| ==> IsSpace(s[k])
  }

  /** `s.rstrip()`. */
  function TrimEnd(s: string): (t: string)
    ensures |t| <= |s| && t == s[..|t|] && AllSpace(s[|t|..])
    ensures |t| == 0 || !IsSpace(t[|t| - 1])
  {
    if |s| > 0 && IsSpace(s[|s| - 1]) then
      var t := TrimEnd(s[..|s| - 1]);
      assert s[|t|..] == s[..|s| - 1][|t|..] + [s[|s| - 1]];
      t
    else s
  }

  /** `s.strip()`: s without its leading and trailing whitespace. */
  function Strip(s: string): (t: string)
    ensures exists pre, post :: AllSpace(pre) && AllSpace(post) && s == pre + t + post
    ensures |t| == 0 || (!IsSpace(t[0]) && !IsSpace(t[|t| - 1]))
  {
    var k := SpacesEnd(s, 0);
    var t := TrimEnd(s[k..]);
    assert s == s[..k] + t + s[k..][|t|..];
    assert AllSpace(s[..k]);
    assert |t| > 0 ==> t[0] == s[k];
    t
  }

  /** The numeric value of the mantissa `<int digits>.<fraction digits>`. */
  function MantissaValue(intDigits: string, fracDigits: string): real
    requires forall k :: 0 <= k < |intDigits| ==> IsDigit(intDigits[k])
    requires forall k :: 0 <= k < |fracDigits| ==> IsDigit(fracDigits[k])
  {
    DigitsValue(intDigits) as real + DigitsValue(fracDigits) as real / Pow10(|fracDigits|) as real
  }

  /** m times ten to the power e. */
  function Scale(m: real, e: int): real {
    if e >= 0 then m * Pow10(e) as real else m / Pow10(-e) as real
  }

  /** The exponent after `e`: an optional sign, then one or more digits up to the end. */
  function ParseExponent(x: string): Option<int> {
    var negative := |x| > 0 && x[0] == '-';
    var start := if |x| > 0 && (x[0] == '+' || x[0] == '-') then 1 else 0;
    var end := DigitsEnd(x, start);
    if end == start || end < |x| then None
    else
      var n: int := GroupDigits(x, start, end);
      Some(if negative then -n else n)
  }

  /** `int()` of the digit run x[from..to]. */
  function GroupDigits(x: string, from: nat, to: nat): nat
    requires from <= to <= |x|
    requires forall k :: from <= k < to ==> IsDigit(x[k])
  {
    assert forall k :: 0 <= k < to - from ==> x[from..to][k] == x[from + k];
    DigitsValue(x[from..to])
  }

  /** An unsigned decimal literal: digits, an optional `.` with more digits, at least one
      digit in all, and an optional exponent. */
  function ParseUnsigned(u: string): Option<real> {
    var a := DigitsEnd(u, 0);
    var hasPoint := a < |u| && u[a] == '.';
    var fracStart := if hasPoint then a + 1 else a;
    var fracEnd := DigitsEnd(u, fracStart);
    if a == 0 && fracEnd == fracStart then None
    else
      var m := GroupDigits(u, 0, a) as real
               + GroupDigits(u, fracStart, fracEnd) as real / Pow10(fracEnd - fracStart) as real;
      if fracEnd == |u| then Some(m)
      else if u[fracEnd] == 'e' || u[fracEnd] == 'E' then
        match ParseExponent(u[fracEnd + 1..])
        case Some(e) => Some(Scale(m, e))
        case None => None
      else None
  }

  /** A decimal literal with an optional sign. */
  function ParseSigned(t: string): Option<real> {
    if |t| > 0 && (t[0] == '+' || t[0] == '-') then
      match ParseUnsigned(t[1..])
      case Some(v) => Some(if t[0] == '-' then -v else v)
      case None => None
    else ParseUnsigned(t)
  }

  /** Python's `float(s)` on finite decimal literals, read as exact reals. */
  function ParseFloat(s: string): Option<real> {
    ParseSigned(Strip(s))
  }

  /** The characters a finite decimal literal is written with. */
  predicate IsNumeralChar(c: char) {
    IsDigit(c) || IsSpace(c) || c == '+' || c == '-' || c == '.' || c == 'e' || c == 'E'
  }

  ghost predicate AllNumeral(s: string) {
    forall k :: 0 <= k < |s| ==> IsNumeralChar(s[k])
  }

  lemma ExponentAlphabet(x: string)
    requires ParseExponent(x).Some?
    ensures AllNumeral(x)
  {
  }

  lemma UnsignedAlphabet(u: string)
    requires ParseUnsigned(u).Some?
    ensures AllNumeral(u)
  {
    var a := DigitsEnd(u, 0);
    var hasPoint := a < |u| && u[a] == '.';
    var fracStart := if hasPoint then a + 1 else a;
    var fracEnd := DigitsEnd(u, fracStart);
    if fracEnd < |u| {
      var x := u[fracEnd + 1..];
      ExponentAlphabet(x);
      assert forall k :: fracEnd + 1 <= k < |u| ==> u[k] == x[k - fracEnd - 1];
    }
  }

  lemma SignedAlphabet(t: string)
    requires ParseSigned(t).Some?
    ensures AllNumeral(t)
  {
    if |t| > 0 && (t[0] == '+' || t[0] == '-') {
      UnsignedAlphabet(t[1..]);
      assert forall k :: 1 <= k < |t| ==> t[k] == t[1..][k - 1];
    } else {
      UnsignedAlphabet(t);
    }
  }

  lemma SurroundedAlphabet(pre: string, t: string, post: string)
    requires AllSpace(pre) && AllSpace(post) && AllNumeral(t)
    ensures AllNumeral(pre + t + post)
  {
    var s := pre + t + post;
    forall k | 0 <= k < |s|
      ensures IsNumeralChar(s[k])
    {
      if k < |pre| {
        assert s[k] == pre[k];
      } else if k < |pre| + |t| {
        assert s[k] == t[k - |pre|];
      } else {
        assert s[k] == post[k - |pre| - |t|];
      }
    }
  }

  /** Only digits, whitespace, signs, the point and the exponent letter can make up a
      number: any other character makes `float()` fail. */
  lemma ParseFloatAlphabet(s: string)
    requires ParseFloat(s).Some?
    ensures AllNumeral(s)
  {
    var t := Strip(s);
    var pre, post :| AllSpace(pre) && AllSpace(post) && s == pre + t + post;
    SignedAlphabet(t);
    SurroundedAlphabet(pre, t, post);
  }

  /** A literal that starts and ends with a non-space character is not changed by strip. */
  lemma StripKeeps(t: string)
    requires |t| > 0 && !IsSpace(t[0]) && !IsSpace(t[|t| - 1])
    ensures Strip(t) == t
  {
    SpacesEndIs(t, 0, 0);
  }

  /** The unsigned reading of `<i>.<f>`, either side possibly empty but not both. */
  lemma UnsignedDecimal(i: string, f: string)
    requires forall k :: 0 <= k < |i| ==> IsDigit(i[k])
    requires forall k :: 0 <= k < |f| ==> IsDigit(f[k])
    requires |i| + |f| > 0
    ensures ParseUnsigned(i + "." + f) == Some(MantissaValue(i, f))
  {
    var u := i + "." + f;
    assert forall k :: 0 <= k < |i| ==> u[k] == i[k];
    assert u[|i|] == '.';
    assert forall k :: |i| + 1 <= k < |u| ==> u[k] == f[k - |i| - 1];
    DigitsEndIs(u, 0, |i|);
    DigitsEndIs(u, |i| + 1, |u|);
    assert u[0..|i|] == i;
    assert u[|i| + 1..|u|] == f;
  }

  /** The unsigned reading of a run of digits. */
  lemma UnsignedInteger(i: string)
    requires forall k :: 0 <= k < |i| ==> IsDigit(i[k])
    requires |i| > 0
    ensures ParseUnsigned(i) == Some(DigitsValue(i) as real)
  {
    DigitsEndIs(i, 0, |i|);
    assert i[0..|i|] == i;
  }

  /** `float(str(n))` is n. */
  lemma ParseFloatNat(n: nat)
    ensures ParseFloat(NatToDigits(n)) == Some(n as real)
  {
    var d := NatToDigits(n);
    StripKeeps(d);
    UnsignedInteger(d);
    assert ParseSigned(d) == Some(n as real);
  }

  /** `float("<i>.<f>")` is i + f / 10^|f|. */
  lemma ParseFloatDecimal(i: string, f: string)
    requires forall k :: 0 <= k < |i| ==> IsDigit(i[k])
    requires forall k :: 0 <= k < |f| ==> IsDigit(f[k])
    requires |i| + |f| > 0
    ensures ParseFloat(i + "." + f) == Some(MantissaValue(i, f))
  {
    var u := i + "." + f;
    assert !IsSpace(u[|u| - 1]) by {
      if |f| > 0 {
        assert u[|u| - 1] == f[|f| - 1];
      }
    }
    assert u[0] != '+' && u[0] != '-' && !IsSpace(u[0]) by {
      if |i| > 0 {
        assert u[0] == i[0];
      }
    }
    UnsignedDecimal(i, f);
    UnsignedLiteral(u, MantissaValue(i, f));
  }

  /** A literal with no surrounding whitespace and no sign is read as its unsigned value. */
  lemma UnsignedLiteral(u: string, v: real)
    requires |u| > 0 && !IsSpace(u[0]) && !IsSpace(u[|u| - 1]) && u[0] != '+' && u[0] != '-'
    requires ParseUnsigned(u) == Some(v)
    ensures ParseFloat(u) == Some(v)
  {
    StripKeeps(u);
  }

  /** `parse_ratio(token)`: with a colon, exactly two numeric parts, the first divided by
      the second; without, the token read as one number. */
  function ParseRatio(token: string): (r: Result<real, RatioError>)
    ensures r.Failure? ==> r.error.token == token
  {
    if ':' in token then
      var parts := Split(token, ':');
      if |parts| != 2 then Failure(InvalidFormat(token))
      else
        match (ParseFloat(parts[0]), ParseFloat(parts[1]))
        case (Some(w), Some(h)) =>
          if h == 0.0 then Failure(DivisionByZero(token)) else Success(w / h)
        case _ => Failure(InvalidFormat(token))
    else
      match ParseFloat(token)
      case Some(v) => Success(v)
      case None => Failure(InvalidFormat(token))
  }

  /** A token without a colon is read as a single number. */
  lemma ParseRatioPlain(token: string)
    requires ':' !in token
    ensures ParseRatio(token).Success? <==> ParseFloat(token).Some?
    ensures ParseRatio(token).Success? ==> ParseRatio(token).value == ParseFloat(token).value
    ensures ParseRatio(token).Failure? ==> ParseRatio(token) == Failure(InvalidFormat(token))
  {
  }

  /** More than one colon is a format error, whatever the parts are. */
  lemma ParseRatioPartCount(token: string)
    requires multiset(token)[':'] > 1
    ensures ParseRatio(token) == Failure(InvalidFormat(token))
  {
    SplitLength(token, ':');
  }

  /** `W:H` with colon-free parts splits into exactly those parts. */
  lemma SplitPair(w: string, h: string)
    requires ':' !in w && ':' !in h
    ensures Split(w + ":" + h, ':') == [w, h]
  {
    assert JoinWith([w, h], ':') == w + ":" + h;
    SplitUnique(w + ":" + h, ':', [w, h]);
  }

  /** `W:H` with two numbers and a non-zero H is W divided by H. */
  lemma ParseRatioQuotient(w: string, h: string, a: real, b: real)
    requires ':' !in w && ':' !in h
    requires ParseFloat(w) == Some(a) && ParseFloat(h) == Some(b) && b != 0.0
    ensures ParseRatio(w + ":" + h) == Success(a / b)
  {
    SplitPair(w, h);
  }

  /** `W:H` with two numbers and a zero H is the division error the source leaves uncaught. */
  lemma ParseRatioDivisionByZero(w: string, h: string)
    requires ':' !in w && ':' !in h
    requires ParseFloat(w).Some? && ParseFloat(h) == Some(0.0)
    ensures ParseRatio(w + ":" + h) == Failure(DivisionByZero(w + ":" + h))
  {
    SplitPair(w, h);
  }

  /** `W:H` where either part is not a number is a format error. */
  lemma ParseRatioBadPart(w: string, h: string)
    requires ':' !in w && ':' !in h
    requires ParseFloat(w).None? || ParseFloat(h).None?
    ensures ParseRatio(w + ":" + h) == Failure(InvalidFormat(w + ":" + h))
  {
    SplitPair(w, h);
  }

  /** The alphabet rule as an implication that holds of every string. */
  lemma NumbersUseNumerals(s: string)
    ensures ParseFloat(s).Some? ==> AllNumeral(s)
  {
    if ParseFloat(s).Some? {
      ParseFloatAlphabet(s);
    }
  }

  /** A token holding a character that belongs to no number (other than the separating
      colon) is a format error. */
  lemma ParseRatioRejectsNonNumeral(token: string, k: nat)
    requires k < |token| && !IsNumeralChar(token[k]) && token[k] != ':'
    ensures ParseRatio(token) == Failure(InvalidFormat(token))
  {
    if ':' !in token {
      NumbersUseNumerals(token);
      ParseRatioPlain(token);
    } else {
      var parts := Split(token, ':');
      if |parts| == 2 {
        var w, h := parts[0], parts[1];
        assert token == w + ":" + h;
        if k < |w| {
          assert w[k] == token[k];
          NumbersUseNumerals(w);
        } else {
          assert k > |w| by {
            assert token[|w|] == ':';
          }
          assert h[k - |w| - 1] == token[k];
          NumbersUseNumerals(h);
        }
        ParseRatioBadPart(w, h);
      }
    }
  }

  /** Printing two whole numbers as `W:H` and parsing the token gives back W / H, or the
      division error when H is zero. */
  lemma ParseRatioOfNats(w: nat, h: nat)
    ensures var token := NatToDigits(w) + ":" + NatToDigits(h);
      ParseRatio(token) == if h == 0 then Failure(DivisionByZero(token)) else Success(w as real / h as real)
  {
    var dw, dh := NatToDigits(w), NatToDigits(h);
    assert ':' !in dw by {
      assert forall k :: 0 <= k < |dw| ==> IsDigit(dw[k]);
    }
    assert ':' !in dh by {
      assert forall k :: 0 <= k < |dh| ==> IsDigit(dh[k]);
    }
    ParseFloatNat(w);
    ParseFloatNat(h);
    if h == 0 {
      ParseRatioDivisionByZero(dw, dh);
    } else {
      ParseRatioQuotient(dw, dh, w as real, h as real);
    }
  }

  /** A zero divisor is the division error, not a format error. */
  lemma ParseRatioZeroDivisor()
    ensures ParseRatio("1:0") == Failure(DivisionByZero("1:0"))
  {
    assert NatToDigits(1) + ":" + NatToDigits(0) == "1:0";
    ParseRatioOfNats(1, 0);
  }

  /** Letters are a format error. */
  lemma ParseRatioLetters()
    ensures ParseRatio("a:b") == Failure(InvalidFormat("a:b"))
  {
    ParseRatioRejectsNonNumeral("a:b", 0);
  }
}
