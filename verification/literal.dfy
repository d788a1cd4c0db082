/** The grammar of the numbers `float()` reads in a ratio token, as a reference for
    RatioParser.ParseFloat: `[sign] digits [. digits] [(e|E) [sign] digits]`, with at
    least one mantissa digit, around optional whitespace. */
module FloatLiteral {
  import opened Wrappers
  import opened Text
  import opened RatioParser

  /** An exponent part: the letter, an optional sign and its digits. */
  datatype Exponent = Exponent(marker: char, sign: string, digits: string)

  /** The parts of a decimal literal, in the order they are written. */
  datatype Literal = Literal(sign: string, intDigits: string, point: bool, fracDigits: string,
                             exponent: Option<Exponent>)

  predicate AllDigits(s: string) {
    forall k :: 0 <= k < |s| ==> IsDigit(s[k])
  }

  /** No sign, `+` or `-`. */
  predicate IsSign(s: string) {
    s == "" || s == "+" || s == "-"
  }

  predicate ExponentWellFormed(e: Exponent) {
    (e.marker == 'e' || e.marker == 'E') && IsSign(e.sign) && |e.digits| > 0 && AllDigits(e.digits)
  }

  /** The parts make a literal: digits where digits belong, at least one mantissa digit,
      and fraction digits only after a point. */
  predicate WellFormed(l: Literal) {
    && IsSign(l.sign)
    && AllDigits(l.intDigits) && AllDigits(l.fracDigits)
    && |l.intDigits| + |l.fracDigits| > 0
    && (l.point || |l.fracDigits| == 0)
    && (l.exponent.Some? ==> ExponentWellFormed(l.exponent.value))
  }

  function ExponentSpelling(e: Option<Exponent>): string {
    match e
    case None => ""
    case Some(x) => [x.marker] + x.sign + x.digits
  }

  /** The literal written out without its sign. */
  function UnsignedSpelling(l: Literal): string {
    l.intDigits + (if l.point then "." else "") + l.fracDigits + ExponentSpelling(l.exponent)
  }

  /** The literal written out. */
  function Spelling(l: Literal): string {
    l.sign + UnsignedSpelling(l)
  }

  /** The power of ten the exponent part denotes; zero when there is none. */
  function ExponentValue(e: Option<Exponent>): int
    requires e.Some? ==> AllDigits(e.value.digits)
  {
    match e
    case None => 0
    case Some(x) => if x.sign == "-" then -(DigitsValue(x.digits) as int) else DigitsValue(x.digits)
  }

  /** The exact number the literal denotes. */
  function Value(l: Literal): real
    requires WellFormed(l)
  {
    var m := Scale(MantissaValue(l.intDigits, l.fracDigits), ExponentValue(l.exponent));
    if l.sign == "-" then -m else m
  }

  /** An exponent part reads as its signed digits. */
  lemma ExponentRead(e: Exponent, x: string)
    requires ExponentWellFormed(e) && x == e.sign + e.digits
    ensures ParseExponent(x) == Some(ExponentValue(Some(e)))
  {
    var start := |e.sign|;
    assert forall k :: start <= k < |x| ==> x[k] == e.digits[k - start];
    DigitsEndIs(x, start, |x|);
    assert x[start..|x|] == e.digits;
  }

  /** A run of digits between p and a text that does not start with a digit is read as
      exactly that run. */
  lemma DigitRun(p: string, d: string, r: string)
    requires AllDigits(d) && (|r| == 0 || !IsDigit(r[0]))
    ensures DigitsEnd(p + d + r, |p|) == |p| + |d|
    ensures (p + d + r)[|p|..|p| + |d|] == d
    ensures (p + d + r)[|p| + |d|..] == r
  {
    var s := p + d + r;
    assert forall k :: |p| <= k < |p| + |d| ==> s[k] == d[k - |p|];
    if |r| > 0 {
      assert s[|p| + |d|] == r[0];
    }
    DigitsEndIs(s, |p|, |p| + |d|);
  }

  /** The integer digits, then a text that does not start with a digit. */
  lemma IntegerRun(i: string, r: string)
    requires AllDigits(i) && (|r| == 0 || !IsDigit(r[0]))
    ensures DigitsEnd(i + r, 0) == |i| && (i + r)[0..|i|] == i && (i + r)[|i|..] == r
    ensures |r| > 0 ==> (i + r)[|i|] == r[0]
  {
    assert i + r == [] + i + r;
    DigitRun([], i, r);
  }

  /** What follows the integer digits starts with the point, or is the exponent part when
      there is no point. */
  lemma AfterInteger(pt: string, f: string, x: string)
    requires (pt == "" || pt == ".") && (pt == "" ==> |f| == 0) && (|x| == 0 || !IsDigit(x[0]))
    ensures var r := pt + f + x;
      && (|r| == 0 || !IsDigit(r[0]))
      && (pt == "." ==> |r| > 0 && r[0] == '.')
      && (pt == "" ==> r == x)
  {
    if pt == "." {
      assert (pt + f + x)[0] == pt[0];
    } else {
      assert pt + f == [];
    }
  }

  lemma Regroup4(i: string, pt: string, f: string, x: string)
    ensures i + pt + f + x == i + (pt + f + x)
  {
  }

  /** The exponent part, after the mantissa p: its marker, then its sign and digits. */
  lemma ExponentTail(p: string, marker: char, rest: string)
    ensures |p| < |p + ([marker] + rest)|
    ensures (p + ([marker] + rest))[|p|] == marker && (p + ([marker] + rest))[|p| + 1..] == rest
  {
    var u := p + ([marker] + rest);
    assert forall k :: 0 <= k < |rest| ==> u[|p| + 1..][k] == rest[k];
  }

  /** Where integer digits i, a point or nothing pt, fraction digits f and a text x that
      does not start with a digit sit in their concatenation. */
  lemma MantissaLayout(i: string, pt: string, f: string, x: string)
    requires AllDigits(i) && AllDigits(f) && (pt == "" || pt == ".") && (pt == "" ==> |f| == 0)
    requires |x| == 0 || !IsDigit(x[0])
    ensures var u := i + pt + f + x;
      var a := |i|;
      var fs := a + |pt|;
      var fe := fs + |f|;
      && fe <= |u|
      && DigitsEnd(u, 0) == a
      && (pt == "." ==> u[a] == '.')
      && (pt == "" ==> a == |u| || u[a] == x[0])
      && DigitsEnd(u, fs) == fe
      && u[0..a] == i
      && u[fs..fe] == f
      && u[fe..] == x
  {
    AfterInteger(pt, f, x);
    IntegerRun(i, pt + f + x);
    Regroup4(i, pt, f, x);
    DigitRun(i + pt, f, x);
  }

  /** The parts of literal l sit in text u as they do in its unsigned spelling. */
  predicate LaidOut(u: string, l: Literal) {
    var a := |l.intDigits|;
    var fs := if l.point then a + 1 else a;
    var fe := fs + |l.fracDigits|;
    && fe <= |u|
    && DigitsEnd(u, 0) == a
    && (l.point <==> a < |u| && u[a] == '.')
    && DigitsEnd(u, fs) == fe
    && u[0..a] == l.intDigits
    && u[fs..fe] == l.fracDigits
    && (fe == |u| <==> l.exponent.None?)
    && (l.exponent.Some? ==> fe < |u| && u[fe] == l.exponent.value.marker &&
                             u[fe + 1..] == l.exponent.value.sign + l.exponent.value.digits)
  }

  /** Where the parts of a literal sit in its unsigned spelling. */
  lemma UnsignedLayout(l: Literal)
    requires WellFormed(l)
    ensures LaidOut(UnsignedSpelling(l), l)
  {
    var i, f := l.intDigits, l.fracDigits;
    var pt: string := if l.point then "." else "";
    var x := ExponentSpelling(l.exponent);
    var u := i + pt + f + x;
    assert UnsignedSpelling(l) == u;
    MantissaLayout(i, pt, f, x);
    if l.exponent.Some? {
      var e := l.exponent.value;
      Regroup([e.marker], e.sign, e.digits);
      ExponentTail(i + pt + f, e.marker, e.sign + e.digits);
    }
  }

  /** The unsigned reading of a text, given where its digit runs end. */
  lemma ParseUnsignedCuts(u: string, a: nat, fs: nat, fe: nat, m: real)
    requires a <= fs <= fe <= |u|
    requires DigitsEnd(u, 0) == a && DigitsEnd(u, fs) == fe
    requires fs == if a < |u| && u[a] == '.' then a + 1 else a
    requires a > 0 || fe > fs
    requires m == GroupDigits(u, 0, a) as real + GroupDigits(u, fs, fe) as real / Pow10(fe - fs) as real
    ensures fe == |u| ==> ParseUnsigned(u) == Some(m)
    ensures fe < |u| && (u[fe] == 'e' || u[fe] == 'E') && ParseExponent(u[fe + 1..]).Some? ==>
      ParseUnsigned(u) == Some(Scale(m, ParseExponent(u[fe + 1..]).value))
  {
  }

  /** No exponent leaves the mantissa as it is. */
  lemma ScaleByOne(m: real)
    ensures Scale(m, 0) == m
  {
    assert Pow10(0) == 1;
  }

  /** The digit runs of a text laid out as the parts of a literal read as its mantissa. */
  lemma MantissaRead(u: string, l: Literal, a: nat, fs: nat, fe: nat)
    requires WellFormed(l)
    requires a == |l.intDigits| && fs == (if l.point then a + 1 else a) && fe == fs + |l.fracDigits|
    requires fe <= |u| && u[0..a] == l.intDigits && u[fs..fe] == l.fracDigits
    requires forall k :: 0 <= k < a ==> IsDigit(u[k])
    requires forall k :: fs <= k < fe ==> IsDigit(u[k])
    ensures MantissaValue(l.intDigits, l.fracDigits)
      == GroupDigits(u, 0, a) as real + GroupDigits(u, fs, fe) as real / Pow10(fe - fs) as real
  {
    assert GroupDigits(u, 0, a) == DigitsValue(l.intDigits);
    assert GroupDigits(u, fs, fe) == DigitsValue(l.fracDigits);
  }

  /** A text laid out as the parts of a literal reads as the literal's unsigned value. */
  lemma LaidOutRead(u: string, l: Literal)
    requires WellFormed(l) && LaidOut(u, l)
    ensures ParseUnsigned(u)
      == Some(Scale(MantissaValue(l.intDigits, l.fracDigits), ExponentValue(l.exponent)))
  {
    var a := |l.intDigits|;
    var fs := if l.point then a + 1 else a;
    var fe := fs + |l.fracDigits|;
    var m := MantissaValue(l.intDigits, l.fracDigits);
    MantissaRead(u, l, a, fs, fe);
    ParseUnsignedCuts(u, a, fs, fe, m);
    if l.exponent.Some? {
      ExponentRead(l.exponent.value, u[fe + 1..]);
    } else {
      ScaleByOne(m);
    }
  }

  /** The unsigned spelling of a literal reads as its unsigned value. */
  lemma UnsignedRead(l: Literal)
    requires WellFormed(l)
    ensures ParseUnsigned(UnsignedSpelling(l))
      == Some(Scale(MantissaValue(l.intDigits, l.fracDigits), ExponentValue(l.exponent)))
  {
    UnsignedLayout(l);
    LaidOutRead(UnsignedSpelling(l), l);
  }

  /** What the unsigned reading accepts starts with a digit or a point. */
  lemma UnsignedStart(u: string)
    requires ParseUnsigned(u).Some?
    ensures |u| > 0 && (IsDigit(u[0]) || u[0] == '.')
  {
  }

  /** Without a sign, the signed reading is the unsigned one. */
  lemma UnsignedIsSigned(u: string, v: real)
    requires ParseUnsigned(u) == Some(v)
    ensures ParseSigned(u) == Some(v)
  {
    UnsignedStart(u);
  }

  /** A `+` in front keeps the value; a `-` negates it. */
  lemma SignCharRead(c: char, u: string, v: real)
    requires (c == '+' || c == '-') && ParseUnsigned(u) == Some(v)
    ensures ParseSigned([c] + u) == Some(if c == '-' then -v else v)
  {
    var t := [c] + u;
    assert t[0] == c;
    assert t[1..] == u;
  }

  /** A sign in front of an accepted unsigned text negates or keeps its value. */
  lemma SignedRead(sign: string, u: string, v: real)
    requires IsSign(sign) && ParseUnsigned(u) == Some(v)
    ensures ParseSigned(sign + u) == Some(if sign == "-" then -v else v)
  {
    if sign == "" {
      assert sign + u == u;
      UnsignedIsSigned(u, v);
    } else {
      assert sign == [sign[0]];
      SignCharRead(sign[0], u, v);
    }
  }

  /** Writing a literal out and reading it back with `float` gives its value. */
  lemma LiteralRead(l: Literal)
    requires WellFormed(l)
    ensures ParseSigned(Spelling(l)) == Some(Value(l))
  {
    UnsignedRead(l);
    SignedRead(l.sign, UnsignedSpelling(l),
               Scale(MantissaValue(l.intDigits, l.fracDigits), ExponentValue(l.exponent)));
  }

  /** The sign part of a text: its first character when that is `+` or `-`. */
  function SignOf(t: string): (s: string)
    ensures IsSign(s) && |s| <= |t| && t[..|s|] == s
    ensures |s| == 0 ==> |t| == 0 || (t[0] != '+' && t[0] != '-')
  {
    if |t| > 0 && (t[0] == '+' || t[0] == '-') then t[..1] else ""
  }

  /** The exponent part cut from u at position fe, when anything follows the mantissa. */
  function ExponentAt(u: string, fe: nat): Option<Exponent> {
    if fe < |u| then
      var x := u[fe + 1..];
      var es := SignOf(x);
      Some(Exponent(u[fe], es, x[|es|..]))
    else None
  }

  /** The parts of an unsigned text, cut where the reading of `float` cuts it. */
  function CutUnsigned(u: string): Literal {
    var a := DigitsEnd(u, 0);
    var hasPoint := a < |u| && u[a] == '.';
    var fs := if hasPoint then a + 1 else a;
    var fe := DigitsEnd(u, fs);
    Literal("", u[0..a], hasPoint, u[fs..fe], ExponentAt(u, fe))
  }

  /** The parts of a text cut where the reading of `float` cuts it. */
  function Decompose(t: string): (l: Literal)
    ensures IsSign(l.sign)
  {
    var sign := SignOf(t);
    CutUnsigned(t[|sign|..]).(sign := sign)
  }

  /** The cuts the unsigned reading makes in u leave at least one mantissa digit and, when
      anything follows the mantissa, an exponent it accepts. */
  predicate WellCut(u: string) {
    var a := DigitsEnd(u, 0);
    var fs := if a < |u| && u[a] == '.' then a + 1 else a;
    var fe := DigitsEnd(u, fs);
    && (a > 0 || fe > fs)
    && (fe < |u| ==> (u[fe] == 'e' || u[fe] == 'E') && ParseExponent(u[fe + 1..]).Some?)
  }

  lemma UnsignedAccepted(u: string)
    requires ParseUnsigned(u).Some?
    ensures WellCut(u)
  {
  }

  /** An exponent `float` accepts is an optional sign and one or more digits. */
  lemma ExponentParts(marker: char, x: string)
    requires marker == 'e' || marker == 'E'
    requires ParseExponent(x).Some?
    ensures var es := SignOf(x);
      ExponentWellFormed(Exponent(marker, es, x[|es|..]))
  {
    var es := SignOf(x);
    var start := |es|;
    var end := DigitsEnd(x, start);
    assert end == |x|;
    assert forall k :: 0 <= k < |x| - start ==> x[start..][k] == x[start + k];
  }

  /** A stretch of digits, cut out, is all digits. */
  lemma DigitSlice(u: string, from: nat, to: nat)
    requires from <= to <= |u|
    requires forall k :: from <= k < to ==> IsDigit(u[k])
    ensures AllDigits(u[from..to])
  {
    assert forall k :: 0 <= k < to - from ==> u[from..to][k] == u[from + k];
  }

  lemma ExponentAtWellFormed(u: string, fe: nat)
    requires fe < |u| && (u[fe] == 'e' || u[fe] == 'E') && ParseExponent(u[fe + 1..]).Some?
    ensures ExponentAt(u, fe).Some? && ExponentWellFormed(ExponentAt(u, fe).value)
  {
    ExponentParts(u[fe], u[fe + 1..]);
  }

  /** The parts cut from a well-cut text make a literal. */
  lemma CutWellFormed(u: string)
    requires WellCut(u)
    ensures WellFormed(CutUnsigned(u))
  {
    var a := DigitsEnd(u, 0);
    var fs := if a < |u| && u[a] == '.' then a + 1 else a;
    var fe := DigitsEnd(u, fs);
    DigitSlice(u, 0, a);
    DigitSlice(u, fs, fe);
    if fs == a {
      assert fe == a;
    }
    if fe < |u| {
      ExponentAtWellFormed(u, fe);
    }
  }

  /** A text is the concatenation of its pieces between cuts. */
  lemma Reassemble(u: string, a: nat, fs: nat, fe: nat)
    requires a <= fs <= fe <= |u|
    ensures u == u[0..a] + u[a..fs] + u[fs..fe] + u[fe..]
  {
  }

  /** A text is its sign part followed by the rest. */
  lemma SignSplit(x: string)
    ensures SignOf(x) + x[|SignOf(x)|..] == x
  {
    var es := SignOf(x);
    assert x == x[..|es|] + x[|es|..];
  }

  /** From position i on, a text is its character at i followed by the rest. */
  lemma HeadSplit(u: string, i: nat)
    requires i < |u|
    ensures u[i..] == [u[i]] + u[i + 1..]
  {
  }

  /** The exponent part cut at position fe spells out the rest of the text from there. */
  lemma ExponentCut(u: string, fe: nat)
    requires fe <= |u|
    ensures ExponentSpelling(ExponentAt(u, fe)) == u[fe..]
  {
    if fe < |u| {
      var x := u[fe + 1..];
      var es := SignOf(x);
      SignSplit(x);
      Regroup([u[fe]], es, x[|es|..]);
      HeadSplit(u, fe);
    }
  }

  /** The pieces between cuts a, fs and fe, with the point between a and fs written out,
      spell out the text. */
  lemma PiecesSpelling(u: string, a: nat, fs: nat, fe: nat, hasPoint: bool)
    requires a <= fs <= fe <= |u| && fs == (if hasPoint then a + 1 else a)
    requires hasPoint ==> u[a] == '.'
    ensures u[0..a] + (if hasPoint then "." else "") + u[fs..fe] + ExponentSpelling(ExponentAt(u, fe)) == u
  {
    ExponentCut(u, fe);
    assert u[a..fs] == if hasPoint then "." else "";
    Reassemble(u, a, fs, fe);
  }

  /** Spelling out the parts cut from any text gives the text back. */
  lemma CutSpelling(u: string)
    ensures UnsignedSpelling(CutUnsigned(u)) == u
  {
    var a := DigitsEnd(u, 0);
    var hasPoint := a < |u| && u[a] == '.';
    var fs := if hasPoint then a + 1 else a;
    var fe := DigitsEnd(u, fs);
    PiecesSpelling(u, a, fs, fe, hasPoint);
  }

  /** Whatever the signed reading accepts is the spelling of a literal. */
  lemma LiteralParts(t: string)
    requires ParseSigned(t).Some?
    ensures WellFormed(Decompose(t)) && Spelling(Decompose(t)) == t
  {
    var sign := SignOf(t);
    var u := t[|sign|..];
    assert t == sign + u;
    assert ParseUnsigned(u).Some? by {
      if |sign| == 0 {
        assert u == t;
      }
    }
    UnsignedAccepted(u);
    CutWellFormed(u);
    CutSpelling(u);
    var l := CutUnsigned(u);
    assert Decompose(t) == l.(sign := sign);
    assert UnsignedSpelling(l.(sign := sign)) == UnsignedSpelling(l);
  }

  /** `float(s)` succeeds with v exactly when s, stripped of surrounding whitespace, is the
      spelling of a literal whose value is v. */
  lemma ParseFloatCharacterised(s: string, v: real)
    ensures ParseFloat(s) == Some(v) <==>
      exists l :: WellFormed(l) && Spelling(l) == Strip(s) && Value(l) == v
  {
    var t := Strip(s);
    if ParseFloat(s) == Some(v) {
      var l := Decompose(t);
      LiteralParts(t);
      LiteralRead(l);
    }
    if exists l :: WellFormed(l) && Spelling(l) == t && Value(l) == v {
      var l :| WellFormed(l) && Spelling(l) == t && Value(l) == v;
      LiteralRead(l);
    }
  }

  /** Without surrounding whitespace or a sign, `float` reads a text as the unsigned
      reading does. */
  lemma SignlessFloat(u: string)
    requires |u| > 0 && !IsSpace(u[0]) && !IsSpace(u[|u| - 1]) && u[0] != '+' && u[0] != '-'
    ensures ParseFloat(u) == ParseUnsigned(u)
  {
    StripKeeps(u);
  }

  /** Texts `float` rejects: a point without digits, a second point, an exponent without
      digits, two signs and whitespace inside the number. */
  lemma UnsignedRejectsLonePoint()
    ensures ParseUnsigned(".") == None
  {
    DigitsEndIs(".", 0, 0);
    DigitsEndIs(".", 1, 1);
  }

  lemma RejectsLonePoint()
    ensures ParseFloat(".") == None
  {
    SignlessFloat(".");
    UnsignedRejectsLonePoint();
  }

  lemma UnsignedRejectsTwoPoints()
    ensures ParseUnsigned("1.2.3") == None
  {
    DigitsEndIs("1.2.3", 0, 1);
    DigitsEndIs("1.2.3", 2, 3);
  }

  lemma RejectsTwoPoints()
    ensures ParseFloat("1.2.3") == None
  {
    SignlessFloat("1.2.3");
    UnsignedRejectsTwoPoints();
  }

  lemma UnsignedRejectsBareExponent()
    ensures ParseUnsigned("1e") == None
  {
    DigitsEndIs("1e", 0, 1);
    DigitsEndIs("1e", 1, 1);
    assert "1e"[2..] == [];
  }

  lemma RejectsBareExponent()
    ensures ParseFloat("1e") == None
  {
    SignlessFloat("1e");
    UnsignedRejectsBareExponent();
  }

  lemma UnsignedRejectsSign()
    ensures ParseUnsigned("-1") == None
  {
    DigitsEndIs("-1", 0, 0);
  }

  lemma RejectsTwoSigns()
    ensures ParseFloat("+-1") == None
  {
    var t := "+-1";
    StripKeeps(t);
    assert t[1..] == "-1";
    UnsignedRejectsSign();
  }

  lemma UnsignedRejectsInnerSpace()
    ensures ParseUnsigned("1 5") == None
  {
    DigitsEndIs("1 5", 0, 1);
    DigitsEndIs("1 5", 1, 1);
  }

  lemma RejectsInnerSpace()
    ensures ParseFloat("1 5") == None
  {
    SignlessFloat("1 5");
    UnsignedRejectsInnerSpace();
  }
}
