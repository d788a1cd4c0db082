/** POSIX path strings: `os.path.join`, `os.path.splitext`, and the destination layout
    `<dest>/Ratio_<label>/<tier>/<name>` with its single `_1` rename. */
module Paths {
  import opened Text
  import opened Tiering

  /** A directory as it stands before a relative name is appended to it: unchanged when
      it is empty or already ends in `/`, otherwise followed by one `/`. */
  function DirPrefix(a: string): (r: string)
    ensures StartsWith(r, a) && |r| <= |a| + 1
    ensures |r| > 0 ==> r[|r| - 1] == '/'
  {
    if |a| == 0 || a[|a| - 1] == '/' then a else a + "/"
  }

  /** `os.path.join(a, b)` on POSIX: an absolute b replaces a; otherwise b is appended,
      with a `/` in between unless a is empty or already ends with one. */
  function Join(a: string, b: string): (r: string)
    ensures |b| > 0 && b[0] == '/' ==> r == b
    ensures (|b| == 0 || b[0] != '/') ==> r == DirPrefix(a) + b
    ensures |r| >= |b| && r[|r| - |b|..] == b
    ensures (|b| == 0 || b[0] != '/') ==> StartsWith(r, a)
  {
    if |b| > 0 && b[0] == '/' then b
    else if |a| == 0 || a[|a| - 1] == '/' then a + b
    else a + "/" + b
  }

  /** Joining a relative name onto a directory that does not end in `/` puts exactly one
      `/` between them. */
  lemma JoinRelative(a: string, b: string)
    requires |a| > 0 && a[|a| - 1] != '/'
    requires |b| == 0 || b[0] != '/'
    ensures Join(a, b) == a + "/" + b
  {
  }

  /** Some character of p[from..to] is not a dot. */
  predicate HasNonDot(p: string, from: int, to: int)
    requires 0 <= from && to <= |p|
  {
    exists k :: from <= k < to && p[k] != '.'
  }

  /** `os.path.splitext(p)` on POSIX: the extension starts at the last dot after the last
      slash, provided the base name has something other than dots before it; otherwise
      there is no extension. */
  function SplitExt(p: string): (r: (string, string))
    ensures r.0 + r.1 == p
    ensures |r.1| == 0 || (r.1[0] == '.' && '.' !in r.1[1..] && '/' !in r.1)
  {
    var sep := LastIndexOf(p, '/');
    var dot := LastIndexOf(p, '.');
    if dot > sep && HasNonDot(p, sep + 1, dot) then
      assert p[dot..][1..] == p[dot + 1..];
      (p[..dot], p[dot..])
    else (p, [])
  }

  /** A stem whose base name is not all dots followed by one extension splits into exactly
      that stem and extension. */
  lemma SplitExtOf(stem: string, ext: string)
    requires |ext| > 0 && ext[0] == '.' && '.' !in ext[1..] && '/' !in ext
    requires HasNonDot(stem, LastIndexOf(stem, '/') + 1, |stem|)
    ensures SplitExt(stem + ext) == (stem, ext)
  {
    var p := stem + ext;
    LastIndexOfAppend(stem, ext, '/');
    assert forall j :: |stem| < j < |p| ==> p[j] != '.' by {
      forall j | |stem| < j < |p|
        ensures p[j] != '.'
      {
        assert p[j] == ext[1..][j - |stem| - 1];
      }
    }
    LastIndexOfIs(p, '.', |stem|);
    var sep := LastIndexOf(stem, '/');
    var k :| sep + 1 <= k < |stem| && stem[k] != '.';
    assert p[k] == stem[k];
    assert p[..|stem|] == stem;
  }

  /** A name with no dot after its last slash has no extension. */
  lemma SplitExtNoDot(p: string)
    requires forall j :: LastIndexOf(p, '/') < j < |p| ==> p[j] != '.'
    ensures SplitExt(p) == (p, [])
  {
  }

  /** The name used when the first choice is taken: `base + "_1" + ext`. The rename keeps
      the extension, ends the root with `_1`, and is two characters longer. */
  function Renamed(name: string): (r: string)
    ensures SplitExt(r) == (SplitExt(name).0 + "_1", SplitExt(name).1)
    ensures |r| == |name| + 2
    ensures '/' !in name ==> '/' !in r
  {
    var root, ext := SplitExt(name).0, SplitExt(name).1;
    assert forall k :: 0 <= k < |root| ==> root[k] == name[k];
    var stem := root + "_1";
    LastIndexOfAppend(root, "_1", '/');
    if |ext| > 0 then
      assert stem[|root|] != '.';
      SplitExtOf(stem, ext);
      stem + ext
    else
      assert name == root;
      LastIndexOfAppend(name, "_1", '.');
      HasNonDotExtended(name, "_1", LastIndexOf(name, '/') + 1, LastIndexOf(name, '.'));
      assert stem + ext == stem;
      stem + ext
  }

  /** Text appended after `to` does not change whether p[from..to] has a non-dot. */
  lemma HasNonDotExtended(p: string, q: string, from: int, to: int)
    requires 0 <= from && to <= |p|
    ensures HasNonDot(p + q, from, to) == HasNonDot(p, from, to)
  {
    var s := p + q;
    if HasNonDot(s, from, to) {
      var k :| from <= k < to && s[k] != '.';
      assert p[k] == s[k];
    }
    if HasNonDot(p, from, to) {
      var k :| from <= k < to && p[k] != '.';
      assert s[k] == p[k];
    }
  }

  /** The last path component. */
  function BaseName(p: string): (r: string)
    ensures '/' !in r
  {
    var k := LastIndexOf(p, '/');
    p[k + 1..]
  }

  /** Joining a name without slashes makes it the last component. */
  lemma BaseNameJoin(dir: string, name: string)
    requires |name| > 0 && '/' !in name
    ensures BaseName(Join(dir, name)) == name
  {
    var r := Join(dir, name);
    var k := |r| - |name| - 1;
    assert r[k + 1..] == name;
    assert k >= 0 ==> r[k] == '/';
    assert forall j :: k < j < |r| ==> r[j] != '/' by {
      forall j | k < j < |r|
        ensures r[j] != '/'
      {
        assert r[j] == name[j - k - 1];
      }
    }
    LastIndexOfIs(r, '/', k);
  }

  /** `os.path.join(dest_root, f"Ratio_{label}", cat)`: a directory below the destination
      whose last component is the tier name. */
  function Subfolder(dest: string, ratioLabel: string, tier: Tier): (r: string)
    ensures StartsWith(r, DirPrefix(dest) + ("Ratio_" + ratioLabel))
    ensures EndsInComponent(r, tier.Name())
  {
    TierNameIsComponent(tier);
    JoinTwice(dest, "Ratio_" + ratioLabel, tier.Name());
    Join(Join(dest, "Ratio_" + ratioLabel), tier.Name())
  }

  /** Two relative joins start with the first directory and the first name, and end with
      a `/` and the second name. */
  lemma JoinTwice(a: string, b: string, c: string)
    requires |b| > 0 && b[0] != '/' && |c| > 0 && c[0] != '/'
    ensures StartsWith(Join(Join(a, b), c), DirPrefix(a) + b)
    ensures EndsInComponent(Join(Join(a, b), c), c)
  {
    SubfolderTail(Join(a, b), c);
  }

  /** p ends in `/` followed by the component c. */
  predicate EndsInComponent(p: string, c: string) {
    |p| > |c| && p[|p| - |c| - 1..] == "/" + c
  }

  /** Joining a relative name onto a non-empty directory leaves a `/` just before it. */
  lemma SubfolderTail(d: string, name: string)
    requires |d| > 0 && |name| > 0 && name[0] != '/'
    ensures EndsInComponent(Join(d, name), name)
  {
    var p := DirPrefix(d);
    assert Join(d, name) == p + name;
    assert (p + name)[|p| - 1..] == [p[|p| - 1]] + name;
  }

  /** When the first name `b1 + b2` does not end in `/`, two relative joins are the
      directory, the first name, a `/` and the second name. */
  lemma JoinTwiceLayout(a: string, b1: string, b2: string, c: string)
    requires |b1 + b2| > 0 && (b1 + b2)[0] != '/' && (b1 + b2)[|b1 + b2| - 1] != '/'
    requires |c| == 0 || c[0] != '/'
    ensures Join(Join(a, b1 + b2), c) == DirPrefix(a) + b1 + b2 + "/" + c
  {
    LastOfAppend(DirPrefix(a), b1 + b2);
    JoinRelative(DirPrefix(a) + (b1 + b2), c);
    Regroup(DirPrefix(a), b1, b2);
  }

  /** `Ratio_<label>` is a relative name that does not end in `/` when the label has no
      slash. */
  lemma RatioComponent(ratioLabel: string)
    requires '/' !in ratioLabel
    ensures |"Ratio_" + ratioLabel| > 0 && ("Ratio_" + ratioLabel)[0] != '/'
    ensures ("Ratio_" + ratioLabel)[|"Ratio_" + ratioLabel| - 1] != '/'
  {
    var n := "Ratio_" + ratioLabel;
    if |ratioLabel| > 0 {
      assert n[|n| - 1] == ratioLabel[|ratioLabel| - 1];
    }
  }

  /** Tier names are single path components. */
  lemma TierNameIsComponent(t: Tier)
    ensures |t.Name()| > 0 && '/' !in t.Name() && t.Name()[0] != '/'
  {
  }

  /** Under a destination that does not end in `/`, the subfolder is
      `<dest>/Ratio_<label>/<tier name>`. */
  lemma SubfolderLayout(dest: string, ratioLabel: string, tier: Tier)
    requires |dest| > 0 && dest[|dest| - 1] != '/'
    requires '/' !in ratioLabel
    ensures Subfolder(dest, ratioLabel, tier) == dest + "/" + "Ratio_" + ratioLabel + "/" + tier.Name()
  {
    SubfolderLayoutAny(dest, ratioLabel, tier);
  }

  /** Under any destination, the subfolder is the destination as a directory, then
      `Ratio_<label>/<tier name>`: `out` and `out/` both give `out/Ratio_<label>/<tier>`,
      and an empty destination gives the relative `Ratio_<label>/<tier>`. */
  lemma SubfolderLayoutAny(dest: string, ratioLabel: string, tier: Tier)
    requires '/' !in ratioLabel
    ensures Subfolder(dest, ratioLabel, tier) == DirPrefix(dest) + "Ratio_" + ratioLabel + "/" + tier.Name()
  {
    RatioComponent(ratioLabel);
    TierNameIsComponent(tier);
    JoinTwiceLayout(dest, "Ratio_", ratioLabel, tier.Name());
  }

  /** A trailing `/` on the destination does not change where images go. */
  lemma SubfolderTrailingSlash(dest: string, ratioLabel: string, tier: Tier)
    requires |dest| > 0 && dest[|dest| - 1] != '/'
    requires '/' !in ratioLabel
    ensures Subfolder(dest + "/", ratioLabel, tier) == Subfolder(dest, ratioLabel, tier)
  {
    SubfolderLayoutAny(dest, ratioLabel, tier);
    SubfolderLayoutAny(dest + "/", ratioLabel, tier);
    assert (dest + "/")[|dest + "/"| - 1] == '/';
  }

  /** Different labels or tiers never share a subfolder, so each (label, tier) pair has
      its own directory, under any destination. */
  lemma SubfolderInjective(dest: string, l1: string, t1: Tier, l2: string, t2: Tier)
    requires '/' !in l1 && '/' !in l2
    ensures Subfolder(dest, l1, t1) == Subfolder(dest, l2, t2) <==> l1 == l2 && t1 == t2
  {
    SubfolderLayoutAny(dest, l1, t1);
    SubfolderLayoutAny(dest, l2, t2);
    TierNameIsComponent(t1);
    TierNameIsComponent(t2);
    ComponentsInjective(DirPrefix(dest) + "Ratio_", l1, t1.Name(), l2, t2.Name());
    NamesDistinct(t1, t2);
  }

  /** After a common prefix, `<l>/<n>` with a slash-free n determines l and n. */
  lemma ComponentsInjective(p: string, l1: string, n1: string, l2: string, n2: string)
    requires '/' !in n1 && '/' !in n2
    ensures p + l1 + "/" + n1 == p + l2 + "/" + n2 ==> l1 == l2 && n1 == n2
  {
    if p + l1 + "/" + n1 == p + l2 + "/" + n2 {
      SeparatorUnique(p + l1, n1, p + l2, n2, '/');
      assert l1 == (p + l1)[|p|..] && l2 == (p + l2)[|p|..];
    }
  }

  /** A name without slashes keeps that property through the rename. */
  lemma RenamedIsComponent(name: string)
    requires |name| > 0 && '/' !in name
    ensures |Renamed(name)| > 0 && '/' !in Renamed(name)
  {
    var root, ext := SplitExt(name).0, SplitExt(name).1;
    assert forall k :: 0 <= k < |root| ==> root[k] == name[k];
  }

  /** `dest_path` of the source: the image keeps its name inside the subfolder unless a
      file of that name is already there, in which case it gets the `_1` name. Only the
      first choice is looked up. */
  function PlanTarget(subfolder: string, name: string, present: string -> bool): (r: string)
    requires |name| > 0 && '/' !in name
    ensures r == Join(subfolder, BaseName(r))
    ensures BaseName(r) == name || BaseName(r) == Renamed(name)
    ensures BaseName(r) == Renamed(name) <==> present(Join(subfolder, name))
    ensures SplitExt(BaseName(r)).1 == SplitExt(name).1
  {
    RenamedIsComponent(name);
    BaseNameJoin(subfolder, name);
    BaseNameJoin(subfolder, Renamed(name));
    if present(Join(subfolder, name)) then Join(subfolder, Renamed(name)) else Join(subfolder, name)
  }

  /** Only the path under the image's own name is looked up: two views of the file system
      that agree there plan the same target. */
  lemma PlanTargetLooksOnce(subfolder: string, name: string, e1: string -> bool, e2: string -> bool)
    requires |name| > 0 && '/' !in name
    requires e1(Join(subfolder, name)) == e2(Join(subfolder, name))
    ensures PlanTarget(subfolder, name, e1) == PlanTarget(subfolder, name, e2)
  {
  }

  /** There is no second rename: when both the name and its `_1` form are taken, the target
      is a path that already exists. */
  lemma PlanTargetMayOverwrite(subfolder: string, name: string, present: string -> bool)
    requires |name| > 0 && '/' !in name
    requires present(Join(subfolder, name)) && present(Join(subfolder, Renamed(name)))
    ensures present(PlanTarget(subfolder, name, present))
  {
  }
}
