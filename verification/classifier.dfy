/** The per-image decision: is the image large enough, does its aspect ratio match one of
    the targets, and under which label and tier is it filed. */
module Classifier {
  import opened Wrappers
  import opened Text
  import opened RatioParser
  import opened ResolutionScanner
  import opened Tiering

  /** The absolute tolerance of the aspect-ratio comparison. */
  const RatioTolerance: real := 0.1

  /** The command-line defaults. */
  const DefaultMinWidth: int := 2560
  const DefaultMinHeight: int := 1440
  /** `["16:9"]`, written as sixteen and nine in digits around a colon (see
      DefaultRatiosSpelling). */
  const DefaultRatios: seq<string> := [NatToDigits(16) + ":" + NatToDigits(9)]

  /** A target ratio: the token as the user wrote it and the number it parsed to. */
  datatype Target = Target(token: string, value: real)

  /** The sorting criteria after the command line has been read. */
  datatype Criteria = Criteria(minWidth: int, minHeight: int, targets: seq<Target>)

  /** What happens to an image whose resolution is known. */
  datatype Classification = Sorted(ratioLabel: string, tier: Tier) | Rejected

  function Abs(x: real): (r: real)
    ensures r >= 0.0 && (r == x || r == -x)
  {
    if x < 0.0 then -x else x
  }

  /** The image ratio is within tolerance of the target value. */
  function Within(ratio: real, target: real): (r: bool)
    ensures r <==> target - RatioTolerance < ratio < target + RatioTolerance
  {
    Abs(ratio - target) < RatioTolerance
  }

  /** Width over height, exactly. */
  function AspectRatio(res: Resolution): real
    requires res.width > 0 && res.height > 0
  {
    res.width as real / res.height as real
  }

  /** The position of the first token the parser rejects, if any. */
  function FirstRejected(parse: string -> Result<real, RatioError>, tokens: seq<string>): (r: Option<nat>)
    ensures r.Some? ==> r.value < |tokens| && parse(tokens[r.value]).Failure?
    ensures r.Some? ==> forall j :: 0 <= j < r.value ==> parse(tokens[j]).Success?
    ensures r.None? <==> forall j :: 0 <= j < |tokens| ==> parse(tokens[j]).Success?
  {
    if |tokens| == 0 then None
    else if parse(tokens[0]).Failure? then Some(0)
    else
      match FirstRejected(parse, tokens[1..])
      case None => None
      case Some(i) => Some(i + 1)
  }

  /** Every token parsed in order; the first one the parser rejects ends the run with its
      error. */
  function ParseAll(parse: string -> Result<real, RatioError>, tokens: seq<string>): (r: Result<seq<Target>, RatioError>)
    ensures r.Success? <==> FirstRejected(parse, tokens).None?
    ensures r.Success? ==> |r.value| == |tokens|
    ensures r.Success? ==> forall i :: 0 <= i < |tokens| ==>
      r.value[i].token == tokens[i] && parse(tokens[i]) == Success(r.value[i].value)
    ensures r.Failure? ==> parse(tokens[FirstRejected(parse, tokens).value]) == Failure(r.error)
  {
    if |tokens| == 0 then Success([])
    else
      match parse(tokens[0])
      case Failure(e) => Failure(e)
      case Success(v) =>
        match ParseAll(parse, tokens[1..])
        case Failure(e) => Failure(e)
        case Success(rest) => Success([Target(tokens[0], v)] + rest)
  }

  /** The position of the first token that does not parse as a ratio, if any. */
  function FirstBadToken(tokens: seq<string>): (r: Option<nat>)
    ensures r.Some? ==> r.value < |tokens| && ParseRatio(tokens[r.value]).Failure?
    ensures r.Some? ==> forall j :: 0 <= j < r.value ==> ParseRatio(tokens[j]).Success?
    ensures r.None? <==> forall j :: 0 <= j < |tokens| ==> ParseRatio(tokens[j]).Success?
  {
    FirstRejected(ParseRatio, tokens)
  }

  /** `[parse_ratio(r) for r in ratios]`: every token parsed in order; the first token that
      fails ends the run with its error. */
  function ParseTargets(tokens: seq<string>): (r: Result<seq<Target>, RatioError>)
    ensures r.Success? <==> FirstBadToken(tokens).None?
    ensures r.Success? ==> |r.value| == |tokens|
    ensures r.Success? ==> forall i :: 0 <= i < |tokens| ==>
      r.value[i].token == tokens[i] && ParseRatio(tokens[i]) == Success(r.value[i].value)
    ensures r.Failure? ==> ParseRatio(tokens[FirstBadToken(tokens).value]) == Failure(r.error)
  {
    ParseAll(ParseRatio, tokens)
  }

  /** The criteria from the minimum width, minimum height and ratio tokens. */
  function BuildCriteria(minWidth: int, minHeight: int, tokens: seq<string>): (r: Result<Criteria, RatioError>)
    ensures r.Success? <==> forall j :: 0 <= j < |tokens| ==> ParseRatio(tokens[j]).Success?
    ensures r.Success? ==> r.value.minWidth == minWidth && r.value.minHeight == minHeight
    ensures r.Success? ==> |r.value.targets| == |tokens| && forall i :: 0 <= i < |tokens| ==>
      r.value.targets[i].token == tokens[i] && ParseRatio(tokens[i]) == Success(r.value.targets[i].value)
    ensures r.Failure? ==> exists i :: (0 <= i < |tokens| && ParseRatio(tokens[i]) == Failure(r.error) &&
                                         forall j :: 0 <= j < i ==> ParseRatio(tokens[j]).Success?)
  {
    match ParseTargets(tokens)
    case Success(ts) => Success(Criteria(minWidth, minHeight, ts))
    case Failure(e) => Failure(e)
  }

  /** Tokens written as whole numbers `W:H` become the targets W / H, labels kept. */
  lemma {:induction false} ParseTargetsOfNats(ws: seq<nat>, hs: seq<nat>)
    requires |ws| == |hs|
    requires forall i :: 0 <= i < |hs| ==> hs[i] > 0
    ensures var tokens := seq(|ws|, i requires 0 <= i < |ws| => NatToDigits(ws[i]) + ":" + NatToDigits(hs[i]));
      ParseTargets(tokens) == Success(seq(|ws|, i requires 0 <= i < |ws| => Target(tokens[i], ws[i] as real / hs[i] as real)))
  {
    var tokens := seq(|ws|, i requires 0 <= i < |ws| => NatToDigits(ws[i]) + ":" + NatToDigits(hs[i]));
    forall i | 0 <= i < |ws|
      ensures ParseRatio(tokens[i]) == Success(ws[i] as real / hs[i] as real)
    {
      ParseRatioOfNats(ws[i], hs[i]);
    }
    var r := ParseTargets(tokens);
    assert r.Success?;
    assert r.value == seq(|ws|, i requires 0 <= i < |ws| => Target(tokens[i], ws[i] as real / hs[i] as real));
  }

  /** A command line whose ratios are all whole numbers `W:H` with H positive always builds
      its criteria: one target W / H per token, in the order given. */
  lemma BuildCriteriaOfNats(minWidth: int, minHeight: int, ws: seq<nat>, hs: seq<nat>)
    requires |ws| == |hs|
    requires forall i :: 0 <= i < |hs| ==> hs[i] > 0
    ensures var tokens := seq(|ws|, i requires 0 <= i < |ws| => NatToDigits(ws[i]) + ":" + NatToDigits(hs[i]));
      BuildCriteria(minWidth, minHeight, tokens) ==
        Success(Criteria(minWidth, minHeight, seq(|ws|, i requires 0 <= i < |ws| => Target(tokens[i], ws[i] as real / hs[i] as real))))
  {
    ParseTargetsOfNats(ws, hs);
  }

  /** A single token that parses becomes a single target. */
  lemma ParseTargetsSingle(t: string, v: real)
    requires ParseRatio(t) == Success(v)
    ensures ParseTargets([t]) == Success([Target(t, v)])
  {
    var ts := [t];
    assert ts[1..] == [];
    assert ParseTargets([]) == Success([]);
    var r := [Target(t, v)] + [];
    assert r == [Target(t, v)];
    assert ParseTargets(ts) == Success(r);
  }

  /** Criteria built from a single token that parses hold that token's target alone. */
  lemma BuildCriteriaSingle(minWidth: int, minHeight: int, tokens: seq<string>, t: string, v: real)
    requires tokens == [t] && ParseRatio(t) == Success(v)
    ensures BuildCriteria(minWidth, minHeight, tokens) == Success(Criteria(minWidth, minHeight, [Target(t, v)]))
  {
    ParseTargetsSingle(t, v);
  }

  /** The default ratio list is the one token `16:9`. */
  lemma DefaultRatiosSpelling()
    ensures DefaultRatios == ["16:9"]
  {
    SpelledToken(16, 9, "16:9");
  }

  /** A two-digit number is spelled as its tens digit and its units digit. */
  lemma TwoDigits(n: nat)
    requires 10 <= n < 100
    ensures NatToDigits(n) == [DigitChar(n / 10), DigitChar(n % 10)]
  {
  }

  /** The digits of two numbers below a hundred, the first of two digits. */
  function TwoDigitSpelling(w: nat, h: nat, sep: char): string
    requires 10 <= w < 100 && 0 < h < 100
  {
    [DigitChar(w / 10), DigitChar(w % 10), sep] +
    (if h < 10 then [DigitChar(h)] else [DigitChar(h / 10), DigitChar(h % 10)])
  }

  /** A token spelled from two such numbers. */
  lemma SpelledToken(w: nat, h: nat, token: string)
    requires 10 <= w < 100 && 0 < h < 100
    requires token == TwoDigitSpelling(w, h, ':')
    ensures NatToDigits(w) + ":" + NatToDigits(h) == token
  {
    TwoDigits(w);
    if h >= 10 {
      TwoDigits(h);
    }
  }

  /** The folder name of a token spelled from two such numbers. */
  lemma SpelledLabel(w: nat, h: nat, name: string)
    requires 10 <= w < 100 && 0 < h < 100
    requires name == TwoDigitSpelling(w, h, 'x')
    ensures Label(NatToDigits(w) + ":" + NatToDigits(h)) == name
  {
    TwoDigits(w);
    if h >= 10 {
      TwoDigits(h);
    }
    var dw, dh := NatToDigits(w), NatToDigits(h);
    assert ':' !in dw by {
      assert forall k :: 0 <= k < |dw| ==> IsDigit(dw[k]);
    }
    assert ':' !in dh by {
      assert forall k :: 0 <= k < |dh| ==> IsDigit(dh[k]);
    }
    LabelOfPair(dw, dh);
  }

  /** A token spelled `W:H` with H positive parses to W / H. */
  lemma SpelledRatio(token: string, w: nat, h: nat)
    requires token == NatToDigits(w) + ":" + NatToDigits(h) && h > 0
    ensures ParseRatio(token) == Success(w as real / h as real)
  {
    ParseRatioOfNats(w, h);
  }

  /** Two tokens that parse become two targets, in the order given. */
  lemma BuildCriteriaPair(minWidth: int, minHeight: int, t0: string, v0: real, t1: string, v1: real)
    requires ParseRatio(t0) == Success(v0) && ParseRatio(t1) == Success(v1)
    ensures BuildCriteria(minWidth, minHeight, [t0, t1])
      == Success(Criteria(minWidth, minHeight, [Target(t0, v0), Target(t1, v1)]))
  {
    var ts := [t0, t1];
    assert ts[1..] == [t1];
    ParseTargetsSingle(t1, v1);
    assert [Target(t0, v0)] + [Target(t1, v1)] == [Target(t0, v0), Target(t1, v1)];
    assert ParseTargets(ts) == Success([Target(t0, v0), Target(t1, v1)]);
  }

  /** The default token is filed under `16x9`. */
  lemma DefaultLabel()
    ensures Label(DefaultRatios[0]) == "16x9"
  {
    SpelledLabel(16, 9, "16x9");
  }

  /** `w >= target_w and h >= target_h`: each side against its own minimum, with no turning
      of portrait images. */
  predicate IsHighRes(res: Resolution, c: Criteria) {
    res.width >= c.minWidth && res.height >= c.minHeight
  }

  /** Meeting the minimum is kept by any image at least as wide and at least as high. */
  lemma HighResMonotone(res: Resolution, bigger: Resolution, c: Criteria)
    requires IsHighRes(res, c)
    requires bigger.width >= res.width && bigger.height >= res.height
    ensures IsHighRes(bigger, c)
  {
  }

  /** Orientation matters: a portrait image the size of the landscape minimum is too small. */
  lemma HighResIgnoresOrientation()
    ensures IsHighRes(Resolution(2560, 1440), Criteria(DefaultMinWidth, DefaultMinHeight, []))
    ensures !IsHighRes(Resolution(1440, 2560), Criteria(DefaultMinWidth, DefaultMinHeight, []))
  {
  }

  /** The first target within tolerance of the ratio, searched in the order given. */
  function FirstWithin(ratio: real, targets: seq<Target>): (r: Option<nat>)
    ensures r.Some? ==> r.value < |targets| && Within(ratio, targets[r.value].value)
    ensures r.Some? ==> forall j :: 0 <= j < r.value ==> !Within(ratio, targets[j].value)
    ensures r.None? <==> forall j :: 0 <= j < |targets| ==> !Within(ratio, targets[j].value)
  {
    if |targets| == 0 then None
    else if Within(ratio, targets[0].value) then Some(0)
    else
      match FirstWithin(ratio, targets[1..])
      case None => None
      case Some(i) => Some(i + 1)
  }

  /** The matched index is the one target within tolerance with none before it. */
  lemma FirstWithinIs(ratio: real, targets: seq<Target>, i: nat)
    requires i < |targets| && Within(ratio, targets[i].value)
    requires forall j :: 0 <= j < i ==> !Within(ratio, targets[j].value)
    ensures FirstWithin(ratio, targets) == Some(i)
  {
  }

  /** A later target that is closer to the ratio does not displace an earlier match. */
  lemma FirstMatchBeatsCloser(ratio: real, targets: seq<Target>, i: nat, k: nat)
    requires i < k < |targets|
    requires Within(ratio, targets[i].value)
    requires forall j :: 0 <= j < i ==> !Within(ratio, targets[j].value)
    requires Abs(ratio - targets[k].value) < Abs(ratio - targets[i].value)
    ensures FirstWithin(ratio, targets) == Some(i)
  {
    FirstWithinIs(ratio, targets, i);
  }

  /** The folder label of a ratio token: every `:` replaced by `x`. */
  function Label(token: string): (l: string)
    ensures ':' !in l
  {
    ReplaceChar(token, ':', 'x')
  }

  /** `W:H` is labelled `WxH`. */
  lemma LabelOfPair(w: string, h: string)
    requires ':' !in w && ':' !in h
    ensures Label(w + ":" + h) == w + "x" + h
  {
    var t := w + ":" + h;
    assert forall k :: 0 <= k < |w| ==> t[k] == w[k];
    assert forall k :: |w| < k < |t| ==> t[k] == h[k - |w| - 1];
  }

  /** A token without a colon is its own label. */
  lemma LabelPlain(token: string)
    requires ':' !in token
    ensures Label(token) == token
  {
  }

  /** Labelling keeps every other character and so loses only where the colons were. */
  lemma LabelKeepsOthers(token: string, k: nat)
    requires k < |token| && token[k] != ':'
    ensures Label(token)[k] == token[k]
  {
  }

  /** The loop of the source: walk the targets in order, stop at the first one within
      tolerance and take its label; `Unknown` when none is. */
  method MatchRatio(ratio: real, targets: seq<Target>) returns (valid: bool, ratioLabel: string)
    ensures valid <==> FirstWithin(ratio, targets).Some?
    ensures valid ==> ratioLabel == Label(targets[FirstWithin(ratio, targets).value].token)
    ensures !valid ==> ratioLabel == "Unknown"
  {
    valid, ratioLabel := false, "Unknown";
    var i := 0;
    while i < |targets|
      invariant 0 <= i <= |targets|
      invariant forall j :: 0 <= j < i ==> !Within(ratio, targets[j].value)
      invariant !valid && ratioLabel == "Unknown"
    {
      if Within(ratio, targets[i].value) {
        valid, ratioLabel := true, Label(targets[i].token);
        FirstWithinIs(ratio, targets, i);
        return;
      }
      i := i + 1;
    }
  }

  /** The verdict for an image: sorted under the label of the first matching target and
      the tier of its short side when it is high enough in resolution and matches a target;
      skipped otherwise. */
  function Classify(res: Resolution, c: Criteria): (r: Classification)
    requires res.width > 0 && res.height > 0
    ensures r.Sorted? <==> IsHighRes(res, c) && exists i :: 0 <= i < |c.targets| && Within(AspectRatio(res), c.targets[i].value)
    ensures r.Sorted? ==> r.tier == Category(res.width, res.height)
    ensures r.Sorted? ==> exists i :: 0 <= i < |c.targets| && r.ratioLabel == Label(c.targets[i].token) &&
                                      Within(AspectRatio(res), c.targets[i].value) &&
                                      forall j :: 0 <= j < i ==> !Within(AspectRatio(res), c.targets[j].value)
  {
    var m := FirstWithin(AspectRatio(res), c.targets);
    if IsHighRes(res, c) && m.Some? then Sorted(Label(c.targets[m.value].token), Category(res.width, res.height))
    else Rejected
  }

  /** Two tokens `W:H` spelled from whole numbers with H positive become two targets. */
  lemma BuildCriteriaOfTwoNats(minWidth: int, minHeight: int, w0: nat, h0: nat, w1: nat, h1: nat)
    requires h0 > 0 && h1 > 0
    ensures var t0, t1 := NatToDigits(w0) + ":" + NatToDigits(h0), NatToDigits(w1) + ":" + NatToDigits(h1);
      BuildCriteria(minWidth, minHeight, [t0, t1]) == Success(Criteria(minWidth, minHeight,
        [Target(t0, w0 as real / h0 as real), Target(t1, w1 as real / h1 as real)]))
  {
    var t0, t1 := NatToDigits(w0) + ":" + NatToDigits(h0), NatToDigits(w1) + ":" + NatToDigits(h1);
    SpelledRatio(t0, w0, h0);
    SpelledRatio(t1, w1, h1);
    BuildCriteriaPair(minWidth, minHeight, t0, w0 as real / h0 as real, t1, w1 as real / h1 as real);
  }

  /** With 16:9 before 32:9 at the default minimum size, 5120 by 1440 matches the second. */
  lemma SuperWideOf(t0: string, t1: string)
    ensures Classify(Resolution(5120, 1440), Criteria(DefaultMinWidth, DefaultMinHeight,
              [Target(t0, 16 as real / 9 as real), Target(t1, 32 as real / 9 as real)]))
      == Sorted(Label(t1), QHD2K)
  {
    var res := Resolution(5120, 1440);
    var ts := [Target(t0, 16 as real / 9 as real), Target(t1, 32 as real / 9 as real)];
    assert !Within(AspectRatio(res), ts[0].value);
    assert Within(AspectRatio(res), ts[1].value);
    FirstWithinIs(AspectRatio(res), ts, 1);
  }

  /** With 17:10 before 16:9 at the default minimum size, 3840 by 2160 matches the first. */
  lemma EarlierTargetOf(t0: string, t1: string)
    ensures Classify(Resolution(3840, 2160), Criteria(DefaultMinWidth, DefaultMinHeight,
              [Target(t0, 17 as real / 10 as real), Target(t1, 16 as real / 9 as real)]))
      == Sorted(Label(t0), UHD4K)
  {
    var res := Resolution(3840, 2160);
    var ts := [Target(t0, 17 as real / 10 as real), Target(t1, 16 as real / 9 as real)];
    assert Within(AspectRatio(res), ts[0].value);
    FirstMatchBeatsCloser(AspectRatio(res), ts, 0, 1);
  }

  /** `["16:9", "32:9"]`, spelled in digits (see SuperWideRatiosSpelling). */
  const SuperWideRatios: seq<string> := [NatToDigits(16) + ":" + NatToDigits(9), NatToDigits(32) + ":" + NatToDigits(9)]

  /** `["17:10", "16:9"]`, spelled in digits (see EarlierFirstRatiosSpelling). */
  const EarlierFirstRatios: seq<string> := [NatToDigits(17) + ":" + NatToDigits(10), NatToDigits(16) + ":" + NatToDigits(9)]

  lemma SuperWideRatiosSpelling()
    ensures SuperWideRatios == ["16:9", "32:9"]
  {
    SpelledToken(16, 9, "16:9");
    SpelledToken(32, 9, "32:9");
  }

  lemma EarlierFirstRatiosSpelling()
    ensures EarlierFirstRatios == ["17:10", "16:9"]
  {
    SpelledToken(17, 10, "17:10");
    SpelledToken(16, 9, "16:9");
  }

  /** The command line `--ratios 16:9 32:9` at the default minimum size: a 5120 by 1440
      image is too wide for 16:9 and within tolerance of 32:9, and its short side makes it
      QHD. */
  lemma ClassifySuperWide()
    ensures var c := BuildCriteria(DefaultMinWidth, DefaultMinHeight, SuperWideRatios);
      c.Success? && Classify(Resolution(5120, 1440), c.value) == Sorted("32x9", QHD2K)
  {
    SuperWideBuilt();
    SuperWideLabel();
  }

  lemma SuperWideLabel()
    ensures Label(SuperWideRatios[1]) == "32x9"
  {
    SpelledLabel(32, 9, "32x9");
  }

  lemma SuperWideBuilt()
    ensures var c := BuildCriteria(DefaultMinWidth, DefaultMinHeight, SuperWideRatios);
      c.Success? && Classify(Resolution(5120, 1440), c.value) == Sorted(Label(SuperWideRatios[1]), QHD2K)
  {
    BuildCriteriaOfTwoNats(DefaultMinWidth, DefaultMinHeight, 16, 9, 32, 9);
    SuperWideOf(SuperWideRatios[0], SuperWideRatios[1]);
  }

  /** The command line `--ratios 17:10 16:9` at the default minimum size: a 3840 by 2160
      image is exactly 16:9, yet it is filed under 17:10, the first target within
      tolerance. */
  lemma ClassifyPrefersEarlierTarget()
    ensures var c := BuildCriteria(DefaultMinWidth, DefaultMinHeight, EarlierFirstRatios);
      c.Success? && Classify(Resolution(3840, 2160), c.value) == Sorted("17x10", UHD4K)
  {
    EarlierFirstBuilt();
    EarlierFirstLabel();
  }

  lemma EarlierFirstLabel()
    ensures Label(EarlierFirstRatios[0]) == "17x10"
  {
    SpelledLabel(17, 10, "17x10");
  }

  lemma EarlierFirstBuilt()
    ensures var c := BuildCriteria(DefaultMinWidth, DefaultMinHeight, EarlierFirstRatios);
      c.Success? && Classify(Resolution(3840, 2160), c.value) == Sorted(Label(EarlierFirstRatios[0]), UHD4K)
  {
    BuildCriteriaOfTwoNats(DefaultMinWidth, DefaultMinHeight, 17, 10, 16, 9);
    EarlierTargetOf(EarlierFirstRatios[0], EarlierFirstRatios[1]);
  }

  /** The default command line, `--width 2560 --height 1440 --ratios 16:9`, builds
      the criteria 2560 by 1440 with the single target sixteen ninths. */
  lemma DefaultCriteriaBuilt()
    ensures BuildCriteria(DefaultMinWidth, DefaultMinHeight, DefaultRatios)
      == Success(Criteria(DefaultMinWidth, DefaultMinHeight, [Target(DefaultRatios[0], 16.0 / 9.0)]))
  {
    var t := NatToDigits(16) + ":" + NatToDigits(9);
    ParseRatioOfNats(16, 9);
    BuildCriteriaSingle(DefaultMinWidth, DefaultMinHeight, DefaultRatios, t, 16 as real / 9 as real);
  }

  /** A 3840 by 2160 image against a single sixteen-ninths target at the default minimum
      size is filed under that target's label as a 4K image. */
  lemma ClassifyUhdSixteenNinths(token: string)
    ensures Classify(Resolution(3840, 2160), Criteria(DefaultMinWidth, DefaultMinHeight,
                       [Target(token, 16.0 / 9.0)]))
      == Sorted(Label(token), UHD4K)
  {
    var res := Resolution(3840, 2160);
    var ts := [Target(token, 16.0 / 9.0)];
    assert Within(AspectRatio(res), ts[0].value);
    FirstWithinIs(AspectRatio(res), ts, 0);
  }

  /** A 3840 by 2160 image meets the criteria the default command line builds and is filed
      as a 16x9 4K image. */
  lemma ClassifyUhdDefault()
    ensures var c := BuildCriteria(DefaultMinWidth, DefaultMinHeight, DefaultRatios);
      c.Success? && Classify(Resolution(3840, 2160), c.value) == Sorted("16x9", UHD4K)
  {
    DefaultCriteriaBuilt();
    DefaultLabel();
    ClassifyUhdSixteenNinths(DefaultRatios[0]);
  }
}
