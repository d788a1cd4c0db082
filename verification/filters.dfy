/** Which directories are walked and which files in them are looked at. */
module Filters {
  import opened Text
  import opened Paths

  /** The image extensions, lower case, with their dot. */
  const ImageExtensions: set<string> := {".jpg", ".jpeg", ".png", ".webp", ".bmp", ".gif", ".tiff"}

  /** The lower-cased extension of the name is one of the image extensions. */
  predicate HasImageExtension(name: string) {
    Lower(SplitExt(name).1) in ImageExtensions
  }

  /** The lower-cased name mentions `thumbnail`. */
  predicate IsThumbnail(name: string) {
    Contains(Lower(name), "thumbnail")
  }

  /** A file is looked at when it has an image extension and is not a thumbnail. */
  predicate IsCandidate(name: string) {
    HasImageExtension(name) && !IsThumbnail(name)
  }

  /** A dot followed by one or more lower-case letters. */
  predicate IsLowerExtension(e: string) {
    |e| >= 2 && e[0] == '.' && forall k :: 1 <= k < |e| ==> 'a' <= e[k] <= 'z'
  }

  lemma ImageExtensionsAreLower(e: string)
    requires e in ImageExtensions
    ensures IsLowerExtension(e)
  {
  }

  /** Such an extension is one extension for splitting and is its own lower case. */
  lemma LowerExtensionShape(e: string)
    requires IsLowerExtension(e)
    ensures '.' !in e[1..] && '/' !in e && Lower(e) == e
  {
    assert forall k :: 0 <= k < |e[1..]| ==> e[1..][k] == e[k + 1];
  }

  /** A name spelled `<stem><ext>`, whose stem is not all dots after its last slash and
      whose extension is an image extension in any mix of case, has an image extension. */
  lemma ImageByExtension(stem: string, ext: string)
    requires Lower(ext) in ImageExtensions
    requires HasNonDot(stem, LastIndexOf(stem, '/') + 1, |stem|)
    ensures HasImageExtension(stem + ext)
  {
    ImageExtensionsAreLower(Lower(ext));
    LowerExtensionShape(Lower(ext));
    LowerKeepsSeparators(ext);
    SplitExtOf(stem, ext);
  }

  /** A name without any dot has no extension and so is never a candidate. */
  lemma NoDotNoCandidate(name: string)
    requires '.' !in name
    ensures !IsCandidate(name)
  {
    SplitExtNoDot(name);
    assert Lower([]) == [];
  }

  /** The word `thumbnail`, in any case, anywhere in the name excludes it. */
  lemma ThumbnailExcluded(a: string, t: string, b: string)
    requires Lower(t) == "thumbnail"
    ensures !IsCandidate(a + t + b)
  {
    LowerAppend(a + t, b);
    LowerAppend(a, t);
    ContainsInfix(Lower(a), "thumbnail", Lower(b));
  }

  /** Both tests look at the lower-cased name only, so case never matters. */
  lemma CandidateIgnoresCase(name: string)
    ensures IsCandidate(Lower(name)) == IsCandidate(name)
  {
    LowerIdempotent(name);
    SplitExtLower(name);
    LowerIdempotent(SplitExt(name).1);
  }

  /** Lower-casing maps `/` and `.` to themselves and nothing else to them. */
  lemma LowerKeepsSeparators(s: string)
    ensures forall k :: 0 <= k < |s| ==> (Lower(s)[k] == '/' <==> s[k] == '/')
    ensures forall k :: 0 <= k < |s| ==> (Lower(s)[k] == '.' <==> s[k] == '.')
  {
  }

  /** Splitting off the extension commutes with lower-casing. */
  lemma SplitExtLower(p: string)
    ensures SplitExt(Lower(p)) == (Lower(SplitExt(p).0), Lower(SplitExt(p).1))
  {
    LastIndexOfLower(p, '/');
    LastIndexOfLower(p, '.');
    var sep, dot := LastIndexOf(p, '/'), LastIndexOf(p, '.');
    if dot > sep {
      HasNonDotLower(p, sep + 1, dot);
      LowerSlices(p, dot);
    }
  }

  /** Lower-casing neither creates nor removes a non-dot character. */
  lemma HasNonDotLower(p: string, from: int, to: int)
    requires 0 <= from && to <= |p|
    ensures HasNonDot(Lower(p), from, to) == HasNonDot(p, from, to)
  {
    LowerKeepsSeparators(p);
    var q := Lower(p);
    if HasNonDot(p, from, to) {
      var k :| from <= k < to && p[k] != '.';
      assert q[k] != '.';
    }
    if HasNonDot(q, from, to) {
      var k :| from <= k < to && q[k] != '.';
      assert p[k] != '.';
    }
  }

  /** The last `/` or `.` of the lower-cased text is where it was. */
  lemma LastIndexOfLower(p: string, c: char)
    requires c == '/' || c == '.'
    ensures LastIndexOf(Lower(p), c) == LastIndexOf(p, c)
  {
    LowerKeepsSeparators(p);
    var k := LastIndexOf(p, c);
    LastIndexOfIs(Lower(p), c, k);
  }

  /** Lower-casing a text lower-cases both sides of any cut. */
  lemma LowerSlices(p: string, k: nat)
    requires k <= |p|
    ensures Lower(p)[..k] == Lower(p[..k]) && Lower(p)[k..] == Lower(p[k..])
  {
  }

  /** `'/.' in dirpath`: some component of the walked path starts with a dot. */
  predicate IsHiddenPath(dirPath: string) {
    Contains(dirPath, "/.")
  }

  /** The directory skip as the source writes it: the absolute directory starts with the
      absolute destination as a plain string, or the walked path is hidden. */
  predicate SkipDirectoryAsWritten(dirPath: string, absDir: string, absDest: string) {
    StartsWith(absDir, absDest) || IsHiddenPath(dirPath)
  }

  /** The destination with exactly one `/` at its end. */
  function WithSlash(d: string): (r: string)
    ensures |r| > 0 && r[|r| - 1] == '/' && StartsWith(r, d)
  {
    if |d| > 0 && d[|d| - 1] == '/' then d else d + "/"
  }

  /** The absolute directory is the destination itself or lies below it. */
  predicate IsInside(absDir: string, absDest: string) {
    absDir == absDest || StartsWith(absDir, WithSlash(absDest))
  }

  /** The directory skip the comment of the source asks for: the destination and the
      directories below it, and hidden paths. */
  predicate SkipDirectory(dirPath: string, absDir: string, absDest: string) {
    IsInside(absDir, absDest) || IsHiddenPath(dirPath)
  }

  /** A sibling whose name extends the destination's name is skipped by the source's test
      but is not inside the destination. */
  lemma SkipDirectoryAsWrittenOvermatches(parent: string, destName: string, extra: string)
    requires |parent| > 0 && parent[0] == '/' && !IsHiddenPath(parent + "/" + destName + extra)
    requires |destName| > 0 && '/' !in destName && |extra| > 0 && '/' !in extra
    ensures var dir, dest := parent + "/" + destName + extra, parent + "/" + destName;
      SkipDirectoryAsWritten(dir, dir, dest) && !SkipDirectory(dir, dir, dest)
  {
    var dir, dest := parent + "/" + destName + extra, parent + "/" + destName;
    assert dir[..|dest|] == dest;
    assert dest[|dest| - 1] == destName[|destName| - 1];
    assert dir[|dest|] == extra[0];
  }

  /** The corrected skip never drops more than the source's: everything it skips the
      source skips too. */
  lemma SkipDirectoryNarrower(dirPath: string, absDir: string, absDest: string)
    ensures SkipDirectory(dirPath, absDir, absDest) ==> SkipDirectoryAsWritten(dirPath, absDir, absDest)
  {
  }

  /** The two skips differ exactly on directories whose path extends the destination's
      path in the middle of a component. */
  lemma SkipDirectoryDifference(dirPath: string, absDir: string, absDest: string)
    requires !IsHiddenPath(dirPath) && |absDest| > 0
    ensures SkipDirectoryAsWritten(dirPath, absDir, absDest) && !SkipDirectory(dirPath, absDir, absDest) <==>
      StartsWith(absDir, absDest) && |absDir| > |absDest| &&
      absDest[|absDest| - 1] != '/' && absDir[|absDest|] != '/'
  {
    if StartsWith(absDir, absDest) && |absDir| > |absDest| && absDest[|absDest| - 1] != '/' {
      assert absDir[..|absDest| + 1] == absDest + [absDir[|absDest|]];
    }
  }

  /** The destination and every directory below it are skipped. */
  lemma SkipDirectoryBelow(dirPath: string, absDest: string, rest: string)
    requires |absDest| > 0
    requires |rest| == 0 || rest[0] != '/'
    ensures SkipDirectory(dirPath, Join(absDest, rest), absDest)
  {
    var r := Join(absDest, rest);
    if absDest[|absDest| - 1] != '/' {
      JoinRelative(absDest, rest);
      assert r[..|absDest| + 1] == absDest + "/";
    }
  }

  /** A directory whose path ends in a name other than the destination's, under the same
      parent, is not skipped for being the destination. */
  lemma SiblingNotInside(parent: string, a: string, b: string, rest: string)
    requires |a| > 0 && |b| > 0 && '/' !in a && '/' !in b && a != b
    requires |rest| == 0 || rest[0] == '/'
    ensures !IsInside(parent + "/" + a + rest, parent + "/" + b)
  {
    var dir, dest := parent + "/" + a + rest, parent + "/" + b;
    var n := |parent| + 1;
    assert dest[|dest| - 1] == b[|b| - 1];
    assert forall k :: n <= k < n + |a| ==> dir[k] == a[k - n];
    assert forall k :: n <= k < n + |b| ==> dest[k] == b[k - n];
    if |a| < |b| {
      assert b[|a|] != '/';
      if |rest| > 0 {
        assert dir[n + |a|] == '/';
      }
    } else if |a| > |b| {
      assert a[|b|] != '/';
    } else {
      var k :| 0 <= k < |a| && a[k] != b[k];
      assert dir[n + k] != dest[n + k];
    }
  }

  /** A path with a component that starts with a dot is skipped, whatever the destination. */
  lemma HiddenSkipped(a: string, b: string, absDir: string, absDest: string)
    ensures SkipDirectory(a + "/." + b, absDir, absDest)
    ensures SkipDirectoryAsWritten(a + "/." + b, absDir, absDest)
  {
    ContainsInfix(a, "/.", b);
  }

  /** The files of one walked directory that are looked at, in walk order (see
      CandidatesAppend). */
  function Candidates(names: seq<string>): (r: seq<string>)
    ensures |r| <= |names|
    ensures forall n :: n in r <==> n in names && IsCandidate(n)
  {
    if |names| == 0 then []
    else if IsCandidate(names[0]) then [names[0]] + Candidates(names[1..])
    else Candidates(names[1..])
  }

  /** Filtering a walk in two pieces and putting the pieces together gives the filtered
      walk: the candidates keep the order in which the walk lists them. */
  lemma {:induction false} CandidatesAppend(a: seq<string>, b: seq<string>)
    ensures Candidates(a + b) == Candidates(a) + Candidates(b)
    decreases |a|
  {
    if |a| == 0 {
      assert a + b == b;
    } else {
      assert (a + b)[0] == a[0];
      assert (a + b)[1..] == a[1..] + b;
      CandidatesAppend(a[1..], b);
    }
  }

  /** The names looked at in one step of the walk, with the directory skip as the source
      writes it: none in a skipped directory, the candidates otherwise. */
  function FilesToExamine(dirPath: string, absDir: string, absDest: string, names: seq<string>): (r: seq<string>)
    ensures SkipDirectoryAsWritten(dirPath, absDir, absDest) ==> r == []
    ensures !SkipDirectoryAsWritten(dirPath, absDir, absDest) ==>
      forall n :: n in r <==> n in names && IsCandidate(n)
  {
    if SkipDirectoryAsWritten(dirPath, absDir, absDest) then [] else Candidates(names)
  }

  /** The names looked at with the corrected directory skip. */
  function FilesToExamineCorrected(dirPath: string, absDir: string, absDest: string, names: seq<string>): (r: seq<string>)
    ensures SkipDirectory(dirPath, absDir, absDest) ==> r == []
    ensures !SkipDirectory(dirPath, absDir, absDest) ==>
      forall n :: n in r <==> n in names && IsCandidate(n)
  {
    if SkipDirectory(dirPath, absDir, absDest) then [] else Candidates(names)
  }

  /** The corrected walk looks at every file the source looks at, and at more only in a
      directory the source's test skips wrongly: a sibling whose name extends the
      destination's. */
  lemma FilesToExamineCorrectedKeeps(dirPath: string, absDir: string, absDest: string, names: seq<string>)
    requires !IsHiddenPath(dirPath) && |absDest| > 0
    ensures FilesToExamine(dirPath, absDir, absDest, names) != FilesToExamineCorrected(dirPath, absDir, absDest, names) ==>
      FilesToExamine(dirPath, absDir, absDest, names) == [] &&
      StartsWith(absDir, absDest) && |absDir| > |absDest| &&
      absDest[|absDest| - 1] != '/' && absDir[|absDest|] != '/'
    ensures !SkipDirectoryAsWritten(dirPath, absDir, absDest) ==>
      FilesToExamine(dirPath, absDir, absDest, names) == FilesToExamineCorrected(dirPath, absDir, absDest, names)
  {
    SkipDirectoryNarrower(dirPath, absDir, absDest);
    SkipDirectoryDifference(dirPath, absDir, absDest);
  }
}
