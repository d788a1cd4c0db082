/** The text-scanning half of `get_resolution`: reading a width and a height out of
    the one-line description printed by the `file` utility. */
module ResolutionScanner {
  import opened Wrappers
  import opened Text

  /** An image size in pixels. */
  datatype Resolution = Resolution(width: nat, height: nat)

  /** One match of the pattern `(\d+)\s*x\s*(\d+)`: it spans text[start..end], and
      width and height are the integers its two groups denote. */
  datatype Occurrence = Occurrence(start: nat, end: nat, width: nat, height: nat)

  /** The literal `x` of the pattern under `re.IGNORECASE`. */
  predicate IsX(c: char) {
    c == 'x' || c == 'X'
  }

  /** Reference reading of the pattern: it matches s[p..e] with the first group s[p..a],
      the `x` at b and the second group s[c..e]. */
  ghost predicate PatternAt(s: string, p: int, a: int, b: int, c: int, e: int) {
    && 0 <= p < a <= b < c <= |s| && c < e <= |s|
    && (forall k :: p <= k < a ==> IsDigit(s[k]))
    && (forall k :: a <= k < b ==> IsSpace(s[k]))
    && IsX(s[b])
    && (forall k :: b + 1 <= k < c ==> IsSpace(s[k]))
    && (forall k :: c <= k < e ==> IsDigit(s[k]))
  }

  /** `int()` of the digit group s[from..to]. */
  function GroupValue(s: string, from: nat, to: nat): nat
    requires from <= to <= |s|
    requires forall k :: from <= k < to ==> IsDigit(s[k])
  {
    assert forall k :: 0 <= k < to - from ==> s[from..to][k] == s[from + k];
    DigitsValue(s[from..to])
  }

  /** The match `re` finds when it tries the pattern at position p. Greedy `\d+` and
      `\s*` never need to give characters back here (a digit is neither a space nor
      an `x`), so the first attempt of the backtracking matcher is its answer. */
  function MatchAt(s: string, p: nat): (r: Option<Occurrence>)
    ensures r.Some? ==> r.value.start == p && p < r.value.end <= |s|
  {
    if p < |s| && IsDigit(s[p]) then
      var a := DigitsEnd(s, p);
      var b := SpacesEnd(s, a);
      if b < |s| && IsX(s[b]) then
        var c := SpacesEnd(s, b + 1);
        if c < |s| && IsDigit(s[c]) then
          var e := DigitsEnd(s, c);
          Some(Occurrence(p, e, GroupValue(s, p, a), GroupValue(s, c, e)))
        else None
      else None
    else None
  }

  /** Every match MatchAt reports is an occurrence of the pattern whose second group
      cannot be extended. */
  lemma MatchAtSound(s: string, p: nat)
    requires MatchAt(s, p).Some?
    ensures var o := MatchAt(s, p).value;
      && (o.end == |s| || !IsDigit(s[o.end]))
      && exists a, b, c :: PatternAt(s, p, a, b, c, o.end)
                           && o.width == GroupValue(s, p, a) && o.height == GroupValue(s, c, o.end)
  {
    var a := DigitsEnd(s, p);
    var b := SpacesEnd(s, a);
    var c := SpacesEnd(s, b + 1);
    var e := DigitsEnd(s, c);
    assert PatternAt(s, p, a, b, c, e);
  }

  /** Whenever the pattern occurs at p, MatchAt finds a match there, with the same
      groups and the longest second group. */
  lemma MatchAtComplete(s: string, p: nat, a: nat, b: nat, c: nat, e: nat)
    requires PatternAt(s, p, a, b, c, e)
    ensures var end := DigitsEnd(s, c);
      && e <= end
      && MatchAt(s, p) == Some(Occurrence(p, end, GroupValue(s, p, a), GroupValue(s, c, end)))
  {
    assert !IsDigit(s[a]) by {
      if a < b {
        assert IsSpace(s[a]);
      }
    }
    DigitsEndIs(s, p, a);
    SpacesEndIs(s, a, b);
    assert !IsSpace(s[c]) by {
      assert IsDigit(s[c]);
    }
    SpacesEndIs(s, b + 1, c);
  }

  /** What `re.findall` needs of a pattern: tried at position p of text t, it either fails
      or matches a non-empty piece of text starting at p. */
  ghost predicate IsMatcher(m: (string, nat) -> Option<Occurrence>) {
    forall t: string, p: nat :: m(t, p).Some? ==> m(t, p).value.start == p && p < m(t, p).value.end <= |t|
  }

  lemma MatchAtIsMatcher()
    ensures IsMatcher(MatchAt)
  {
    forall t: string, p: nat | MatchAt(t, p).Some?
      ensures MatchAt(t, p).value.start == p && p < MatchAt(t, p).value.end <= |t|
    {
    }
  }

  /** The scan loop of `re.findall`, started at pos: try the pattern at the current
      position; after a match continue at its end, otherwise one character further. */
  function FindAllWith(m: (string, nat) -> Option<Occurrence>, s: string, pos: nat): seq<Occurrence>
    requires IsMatcher(m)
    requires pos <= |s|
    decreases |s| - pos
  {
    if pos == |s| then []
    else
      match m(s, pos)
      case Some(o) => [o] + FindAllWith(m, s, o.end)
      case None => FindAllWith(m, s, pos + 1)
  }

  /** The scan of `re.findall` with the resolution pattern, started at pos. */
  function FindAllFrom(s: string, pos: nat): seq<Occurrence>
    requires pos <= |s|
  {
    MatchAtIsMatcher();
    FindAllWith(MatchAt, s, pos)
  }

  /** `re.findall` of the resolution pattern over s, case-insensitively. */
  function FindAll(s: string): seq<Occurrence> {
    FindAllFrom(s, 0)
  }

  /** No match starts in s[from..to]. */
  ghost predicate NoMatchIn(m: (string, nat) -> Option<Occurrence>, s: string, from: int, to: int) {
    forall q: nat :: from <= q < to ==> m(s, q).None?
  }

  /** Every reported match lies in s[pos..], and they come left to right without overlapping. */
  ghost predicate Ordered(s: string, pos: nat, ms: seq<Occurrence>) {
    && (forall i :: 0 <= i < |ms| ==> pos <= ms[i].start < ms[i].end <= |s|)
    && (forall i, j :: 0 <= i < j < |ms| ==> ms[i].end <= ms[j].start)
  }

  /** Every reported match is what the pattern matches at its start. */
  ghost predicate AllMatches(m: (string, nat) -> Option<Occurrence>, s: string, ms: seq<Occurrence>) {
    forall i :: 0 <= i < |ms| ==> m(s, ms[i].start) == Some(ms[i])
  }

  /** Where the first reported match starts, or the end of the text when there is none. */
  function FirstStart(s: string, ms: seq<Occurrence>): nat {
    if |ms| == 0 then |s| else ms[0].start
  }

  /** No match starts between the i-th reported match and the next one. */
  ghost predicate GapFree(m: (string, nat) -> Option<Occurrence>, s: string, ms: seq<Occurrence>, i: int)
    requires 0 <= i < |ms| - 1
  {
    NoMatchIn(m, s, ms[i].end, ms[i + 1].start)
  }

  /** No match starts between two reported ones, before the first one or after the last one. */
  ghost predicate Leftmost(m: (string, nat) -> Option<Occurrence>, s: string, pos: nat, ms: seq<Occurrence>) {
    && (forall i :: 0 <= i < |ms| - 1 ==> GapFree(m, s, ms, i))
    && NoMatchIn(m, s, pos, FirstStart(s, ms))
    && (|ms| > 0 ==> NoMatchIn(m, s, ms[|ms| - 1].end, |s|))
  }

  lemma {:induction false} FindAllOrdered(m: (string, nat) -> Option<Occurrence>, s: string, pos: nat)
    requires IsMatcher(m)
    requires pos <= |s|
    ensures Ordered(s, pos, FindAllWith(m, s, pos))
    decreases |s| - pos
  {
    if pos < |s| {
      match m(s, pos)
      case Some(o) =>
        var rest := FindAllWith(m, s, o.end);
        FindAllOrdered(m, s, o.end);
        var ms := [o] + rest;
        assert FindAllWith(m, s, pos) == ms;
        assert forall i :: 0 < i < |ms| ==> ms[i] == rest[i - 1];
      case None =>
        FindAllOrdered(m, s, pos + 1);
    }
  }

  lemma {:induction false} FindAllMatches(m: (string, nat) -> Option<Occurrence>, s: string, pos: nat)
    requires IsMatcher(m)
    requires pos <= |s|
    ensures AllMatches(m, s, FindAllWith(m, s, pos))
    decreases |s| - pos
  {
    if pos < |s| {
      var ms := FindAllWith(m, s, pos);
      match m(s, pos)
      case Some(o) =>
        var rest := FindAllWith(m, s, o.end);
        FindAllMatches(m, s, o.end);
        assert ms == [o] + rest;
        assert forall i :: 0 < i < |ms| ==> ms[i] == rest[i - 1];
      case None =>
        FindAllMatches(m, s, pos + 1);
    }
  }

  /** No match starts before the first reported one (anywhere, when none is reported). */
  lemma {:induction false} FindAllNoneBefore(m: (string, nat) -> Option<Occurrence>, s: string, pos: nat)
    requires IsMatcher(m)
    requires pos <= |s|
    ensures NoMatchIn(m, s, pos, FirstStart(s, FindAllWith(m, s, pos)))
    decreases |s| - pos
  {
    if pos < |s| && m(s, pos).None? {
      FindAllNoneBefore(m, s, pos + 1);
      assert FindAllWith(m, s, pos) == FindAllWith(m, s, pos + 1);
    }
  }

  /** No match starts after the last reported one. */
  lemma {:induction false} FindAllNoneAfter(m: (string, nat) -> Option<Occurrence>, s: string, pos: nat)
    requires IsMatcher(m)
    requires pos <= |s|
    ensures |FindAllWith(m, s, pos)| > 0 ==>
              NoMatchIn(m, s, FindAllWith(m, s, pos)[|FindAllWith(m, s, pos)| - 1].end, |s|)
    decreases |s| - pos
  {
    if pos < |s| {
      match m(s, pos)
      case Some(o) =>
        var rest := FindAllWith(m, s, o.end);
        var ms := [o] + rest;
        assert FindAllWith(m, s, pos) == ms;
        if |rest| == 0 {
          FindAllNoneBefore(m, s, o.end);
          assert ms[|ms| - 1] == o;
        } else {
          FindAllNoneAfter(m, s, o.end);
          assert ms[|ms| - 1] == rest[|rest| - 1];
        }
      case None =>
        FindAllNoneAfter(m, s, pos + 1);
        assert FindAllWith(m, s, pos) == FindAllWith(m, s, pos + 1);
    }
  }

  /** No match starts between two consecutive reported ones. */
  lemma {:induction false} FindAllGaps(m: (string, nat) -> Option<Occurrence>, s: string, pos: nat)
    requires IsMatcher(m)
    requires pos <= |s|
    ensures forall i :: 0 <= i < |FindAllWith(m, s, pos)| - 1 ==> GapFree(m, s, FindAllWith(m, s, pos), i)
    decreases |s| - pos
  {
    if pos < |s| {
      var ms := FindAllWith(m, s, pos);
      match m(s, pos)
      case Some(o) =>
        var rest := FindAllWith(m, s, o.end);
        FindAllGaps(m, s, o.end);
        FindAllNoneBefore(m, s, o.end);
        assert ms == [o] + rest;
        forall i | 0 <= i < |ms| - 1
          ensures GapFree(m, s, ms, i)
        {
          if i > 0 {
            assert GapFree(m, s, rest, i - 1);
            assert ms[i] == rest[i - 1] && ms[i + 1] == rest[i];
          } else {
            assert ms[0] == o && ms[1] == rest[0];
          }
        }
      case None =>
        FindAllGaps(m, s, pos + 1);
        assert ms == FindAllWith(m, s, pos + 1);
    }
  }

  /** `re.findall` reports exactly the leftmost non-overlapping matches of the pattern,
      in textual order. */
  lemma FindAllSpec(s: string)
    ensures Ordered(s, 0, FindAll(s))
    ensures AllMatches(MatchAt, s, FindAll(s))
    ensures Leftmost(MatchAt, s, 0, FindAll(s))
  {
    MatchAtIsMatcher();
    FindAllOrdered(MatchAt, s, 0);
    FindAllMatches(MatchAt, s, 0);
    FindAllNoneBefore(MatchAt, s, 0);
    FindAllNoneAfter(MatchAt, s, 0);
    FindAllGaps(MatchAt, s, 0);
  }

  /** Both numbers of the match are positive, the condition `get_resolution` applies. */
  predicate Positive(o: Occurrence) {
    o.width > 0 && o.height > 0
  }

  /** The size a match reads. */
  function ResolutionOf(o: Occurrence): Resolution {
    Resolution(o.width, o.height)
  }

  /** ms[i] is positive and no earlier match is. */
  ghost predicate IsFirstPositive(ms: seq<Occurrence>, i: int) {
    0 <= i < |ms| && Positive(ms[i]) && forall j :: 0 <= j < i ==> !Positive(ms[j])
  }

  /** The index of the first positive match, if any. */
  function FirstPositive(ms: seq<Occurrence>): (r: Option<nat>)
    ensures r.Some? ==> r.value < |ms| && Positive(ms[r.value])
    ensures r.Some? ==> forall j :: 0 <= j < r.value ==> !Positive(ms[j])
    ensures r.None? ==> forall j :: 0 <= j < |ms| ==> !Positive(ms[j])
  {
    if |ms| == 0 then None
    else if Positive(ms[0]) then Some(0)
    else
      match FirstPositive(ms[1..])
      case Some(k) => Some(k + 1)
      case None => None
  }

  /** The scan of the text after the echoed path: the first match, in textual order,
      whose two numbers are both positive. */
  function ScanContent(content: string): (r: Option<Resolution>)
    ensures r.Some? ==> r.value.width > 0 && r.value.height > 0
    ensures r.None? <==> forall i :: 0 <= i < |FindAll(content)| ==> !Positive(FindAll(content)[i])
    ensures r.Some? ==> exists i :: IsFirstPositive(FindAll(content), i) && r.value == ResolutionOf(FindAll(content)[i])
  {
    var ms := FindAll(content);
    match FirstPositive(ms)
    case Some(i) => assert IsFirstPositive(ms, i); Some(ResolutionOf(ms[i]))
    case None => None
  }

  /** `output.split(':', 1)`, keeping the second part when there is one and the whole
      output otherwise: the output is some colon-free text, a colon, and the result. */
  function ContentAfterColon(output: string): (r: string)
    ensures ':' !in output ==> r == output
    ensures ':' in output ==> exists p :: ':' !in p && output == p + ":" + r
  {
    if ':' in output then
      var k := IndexOf(output, ':');
      assert output == output[..k] + ":" + output[k + 1..];
      output[k + 1..]
    else output
  }

  /** The whole of `get_resolution` after the `file` process has printed output. */
  function ScanResolution(output: string): (r: Option<Resolution>)
    ensures r.Some? ==> r.value.width > 0 && r.value.height > 0
  {
    ScanContent(ContentAfterColon(output))
  }

  /** Text up to and including the first colon never influences the result. */
  lemma ScanIgnoresPrefix(prefix: string, rest: string)
    requires ':' !in prefix
    ensures ScanResolution(prefix + ":" + rest) == ScanContent(rest)
  {
    var s := prefix + ":" + rest;
    assert s[..|prefix|] == prefix;
    IndexOfIs(s, ':', |prefix|);
    assert s[|prefix| + 1..] == rest;
  }

  /** Without a colon the whole output is scanned. */
  lemma ScanWithoutColon(output: string)
    requires ':' !in output
    ensures ScanResolution(output) == ScanContent(output)
  {
  }

  /** Positions holding no digit are skipped one by one. */
  lemma {:induction false} FindAllSkipsNonDigits(s: string, q: nat, p: nat)
    requires q <= p <= |s|
    requires forall k :: q <= k < p ==> !IsDigit(s[k])
    ensures FindAllFrom(s, q) == FindAllFrom(s, p)
    decreases p - q
  {
    if q < p {
      assert MatchAt(s, q).None?;
      FindAllSkipsNonDigits(s, q + 1, p);
    }
  }

  /** The pieces of a printed size sit at the expected positions of the whole text. */
  lemma PrintedSizeShape(pre: string, dw: string, sp1: string, x: char, sp2: string, dh: string, post: string)
    requires forall k :: 0 <= k < |dw| ==> IsDigit(dw[k])
    requires forall k :: 0 <= k < |dh| ==> IsDigit(dh[k])
    requires forall k :: 0 <= k < |sp1| ==> IsSpace(sp1[k])
    requires forall k :: 0 <= k < |sp2| ==> IsSpace(sp2[k])
    requires IsX(x) && |dw| > 0 && |dh| > 0
    ensures var s := pre + dw + sp1 + [x] + sp2 + dh + post;
      var p := |pre|; var a := p + |dw|; var b := a + |sp1|; var c := b + 1 + |sp2|; var e := c + |dh|;
      && PatternAt(s, p, a, b, c, e)
      && s[..p] == pre && s[p..a] == dw && s[c..e] == dh && s[e..] == post
  {
    var s := pre + dw + sp1 + [x] + sp2 + dh + post;
    var p := |pre|;
    var a := p + |dw|;
    var b := a + |sp1|;
    var c := b + 1 + |sp2|;
    var e := c + |dh|;
    assert forall k :: p <= k < a ==> s[k] == dw[k - p];
    assert forall k :: a <= k < b ==> s[k] == sp1[k - a];
    assert s[b] == x;
    assert forall k :: b + 1 <= k < c ==> s[k] == sp2[k - b - 1];
    assert forall k :: c <= k < e ==> s[k] == dh[k - c];
    assert s[..p] == pre;
    assert s[p..a] == dw;
    assert s[c..e] == dh;
    assert s[e..] == post;
  }

  /** A description that spells the size as `<w> x <h>` after text without digits is read
      back as exactly that size. */
  lemma ScanFindsPrintedSize(pre: string, w: nat, sp1: string, x: char, sp2: string, h: nat, post: string)
    requires forall k :: 0 <= k < |pre| ==> !IsDigit(pre[k])
    requires forall k :: 0 <= k < |sp1| ==> IsSpace(sp1[k])
    requires forall k :: 0 <= k < |sp2| ==> IsSpace(sp2[k])
    requires IsX(x)
    requires |post| == 0 || !IsDigit(post[0])
    requires w > 0 && h > 0
    ensures ScanContent(pre + NatToDigits(w) + sp1 + [x] + sp2 + NatToDigits(h) + post) == Some(Resolution(w, h))
  {
    var dw, dh := NatToDigits(w), NatToDigits(h);
    var s := pre + dw + sp1 + [x] + sp2 + dh + post;
    var p := |pre|;
    var a := p + |dw|;
    var b := a + |sp1|;
    var c := b + 1 + |sp2|;
    var e := c + |dh|;
    PrintedSizeShape(pre, dw, sp1, x, sp2, dh, post);
    NoDigitAtEdges(s, p, e, pre, post);
    PatternReadAt(s, p, a, b, c, e, w, h);
  }

  /** Text s whose first p characters are pre and whose rest from e on is post has no digit
      before p and none at e, when pre has none and post does not start with one. */
  lemma NoDigitAtEdges(s: string, p: nat, e: nat, pre: string, post: string)
    requires p <= e <= |s| && s[..p] == pre && s[e..] == post
    requires forall k :: 0 <= k < |pre| ==> !IsDigit(pre[k])
    requires |post| == 0 || !IsDigit(post[0])
    ensures forall k :: 0 <= k < p ==> !IsDigit(s[k])
    ensures e == |s| || !IsDigit(s[e])
  {
    assert forall k :: 0 <= k < p ==> s[k] == pre[k];
    if e < |s| {
      assert s[e] == post[0];
    }
  }

  /** An occurrence of the pattern with no digit before it and none right after it, whose
      groups spell w and h, is the size the scan returns. */
  lemma PatternReadAt(s: string, p: nat, a: nat, b: nat, c: nat, e: nat, w: nat, h: nat)
    requires PatternAt(s, p, a, b, c, e)
    requires e == |s| || !IsDigit(s[e])
    requires forall k :: 0 <= k < p ==> !IsDigit(s[k])
    requires s[p..a] == NatToDigits(w) && s[c..e] == NatToDigits(h) && w > 0 && h > 0
    ensures ScanContent(s) == Some(Resolution(w, h))
  {
    MatchAtComplete(s, p, a, b, c, e);
    DigitsEndIs(s, c, e);
    ScanFindsFirstMatch(s, p, Occurrence(p, e, w, h));
  }

  /** When no digit precedes a positive match, the scan returns that match's size. */
  lemma ScanFindsFirstMatch(s: string, p: nat, o: Occurrence)
    requires p <= |s|
    requires forall k :: 0 <= k < p ==> !IsDigit(s[k])
    requires MatchAt(s, p) == Some(o) && Positive(o)
    ensures ScanContent(s) == Some(ResolutionOf(o))
  {
    FindAllSkipsNonDigits(s, 0, p);
    assert FindAllFrom(s, p)[0] == o;
  }

  /** A path with a colon is cut at its own colon: for `photos/wall:3840x2160.png`, `file`
      prints `photos/wall:3840x2160.png: PNG image data, 800 x 600, ...`, and the size is
      read from the file name, whatever the description after it says. Here dir is
      `photos/wall` and post is the rest, from `.png: PNG image data` on. */
  lemma ColonPathMisread(dir: string, w: nat, h: nat, post: string)
    requires ':' !in dir
    requires w > 0 && h > 0
    requires |post| > 0 && !IsDigit(post[0])
    ensures ScanResolution(dir + ":" + NatToDigits(w) + "x" + NatToDigits(h) + post) == Some(Resolution(w, h))
  {
    var rest := NatToDigits(w) + "x" + NatToDigits(h) + post;
    PrefixThen(dir + ":", NatToDigits(w), "x", NatToDigits(h), post);
    ScanIgnoresPrefix(dir, rest);
    NameSizeRead(w, h, post);
  }

  lemma PrefixThen(p: string, a: string, b: string, c: string, d: string)
    ensures p + a + b + c + d == p + (a + b + c + d)
  {
  }

  /** A text that starts with `<w>x<h>` and a non-digit is read as w by h. */
  lemma NameSizeRead(w: nat, h: nat, post: string)
    requires w > 0 && h > 0
    requires |post| > 0 && !IsDigit(post[0])
    ensures ScanContent(NatToDigits(w) + "x" + NatToDigits(h) + post) == Some(Resolution(w, h))
  {
    EmptyPieces(NatToDigits(w), 'x', NatToDigits(h), post);
    ScanFindsPrintedSize([], w, [], 'x', [], h, post);
  }

  lemma EmptyPieces(a: string, x: char, b: string, post: string)
    ensures [] + a + [] + [x] + [] + b + post == a + [x] + b + post
  {
  }

  /** What `file` printed about path, without the echoed path and its colon; output that
      does not start with them is cut at its first colon as before. */
  function DescriptionOf(path: string, output: string): (r: string)
    ensures StartsWith(output, path + ":") ==> output == path + ":" + r
    ensures !StartsWith(output, path + ":") ==> r == ContentAfterColon(output)
  {
    if StartsWith(output, path + ":") then
      assert output == output[..|path| + 1] + output[|path| + 1..];
      output[|path| + 1..]
    else ContentAfterColon(output)
  }

  /** `get_resolution` with the echoed path removed by its length rather than at the
      first colon. */
  function ScanResolutionOfFile(path: string, output: string): (r: Option<Resolution>)
    ensures r.Some? ==> r.value.width > 0 && r.value.height > 0
  {
    ScanContent(DescriptionOf(path, output))
  }

  /** With the correction, the path never influences the size, colon or not. */
  lemma ScanResolutionOfFileIgnoresPath(path: string, rest: string)
    ensures ScanResolutionOfFile(path, path + ":" + rest) == ScanContent(rest)
  {
    var s := path + ":" + rest;
    assert s[..|path + ":"|] == path + ":";
    assert s == (path + ":") + rest;
  }

  /** For a path without a colon the correction reads the same size as the source. */
  lemma ScanResolutionOfFileAgrees(path: string, output: string)
    requires ':' !in path
    ensures ScanResolutionOfFile(path, output) == ScanResolution(output)
  {
    if StartsWith(output, path + ":") {
      var rest := DescriptionOf(path, output);
      ScanIgnoresPrefix(path, rest);
    }
  }

  /** `file` output of the usual shape, `<path>: <words> <w> x <h><more>`, is read as the
      size w by h. */
  lemma DescribedSize(path: string, words: string, w: nat, h: nat, more: string)
    requires ':' !in path
    requires forall k :: 0 <= k < |words| ==> !IsDigit(words[k])
    requires |more| == 0 || !IsDigit(more[0])
    requires w > 0 && h > 0
    ensures ScanResolution(path + ":" + words + NatToDigits(w) + " x " + NatToDigits(h) + more)
      == Some(Resolution(w, h))
  {
    var a := words + NatToDigits(w);
    var b := a + " x ";
    assert b == a + " " + ['x'] + " ";
    var rest := b + NatToDigits(h) + more;
    assert path + ":" + words + NatToDigits(w) + " x " + NatToDigits(h) + more == path + ":" + rest;
    ScanIgnoresPrefix(path, rest);
    ScanFindsPrintedSize(words, w, " ", 'x', " ", h, more);
  }
}
