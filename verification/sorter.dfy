/** The fate of one file of the walk: from its name and the description `file` printed
    for it to the folder and path it is copied or moved to. */
module Sorter {
  import opened Wrappers
  import opened Text
  import opened ResolutionScanner
  import opened RatioParser
  import opened Tiering
  import opened Classifier
  import opened Paths
  import opened Filters

  /** The settings of one run: destination root, criteria and whether nothing is written. */
  datatype Run = Run(dest: string, criteria: Criteria, dryRun: bool)

  /** What becomes of a file. `DryRunPlaced` is the `[Dry-Run]` report; `Placed` carries the
      subfolder and the path the file is copied or moved to. */
  datatype Outcome =
    | NotCandidate
    | NoResolution
    | Skipped(res: Resolution)
    | DryRunPlaced(res: Resolution, subfolder: string)
    | Placed(res: Resolution, subfolder: string, target: string)

  /** The body of the inner loop of `main` for one file. `description` is what `file`
      printed for it; `present` tells which paths already exist. */
  function ProcessFile(run: Run, name: string, description: string, present: string -> bool): (r: Outcome)
    requires |name| > 0 && '/' !in name
    ensures r.NotCandidate? <==> !IsCandidate(name)
    ensures r.NoResolution? <==> IsCandidate(name) && ScanResolution(description).None?
    ensures !r.NotCandidate? && !r.NoResolution? ==> ScanResolution(description) == Some(r.res)
    ensures r.Skipped? <==> IsCandidate(name) && ScanResolution(description).Some? &&
                            Classify(ScanResolution(description).value, run.criteria).Rejected?
    ensures r.DryRunPlaced? ==> run.dryRun
    ensures r.Placed? ==> !run.dryRun
    ensures r.DryRunPlaced? || r.Placed? ==>
      var c := Classify(r.res, run.criteria);
      c.Sorted? && r.subfolder == Subfolder(run.dest, c.ratioLabel, c.tier)
    ensures r.Placed? ==> r.target == PlanTarget(r.subfolder, name, present)
  {
    if !IsCandidate(name) then NotCandidate
    else
      match ScanResolution(description)
      case None => NoResolution
      case Some(res) =>
        match Classify(res, run.criteria)
        case Rejected => Skipped(res)
        case Sorted(l, t) =>
          var sub := Subfolder(run.dest, l, t);
          if run.dryRun then DryRunPlaced(res, sub) else Placed(res, sub, PlanTarget(sub, name, present))
  }

  /** A file is given a place only when it is large enough and its ratio is within
      tolerance of some target. */
  lemma PlacedOnlyWhenAccepted(run: Run, name: string, description: string, present: string -> bool)
    requires |name| > 0 && '/' !in name
    ensures var r := ProcessFile(run, name, description, present);
      r.DryRunPlaced? || r.Placed? <==>
        IsCandidate(name) && ScanResolution(description).Some? &&
        IsHighRes(ScanResolution(description).value, run.criteria) &&
        exists i :: 0 <= i < |run.criteria.targets| &&
          Within(AspectRatio(ScanResolution(description).value), run.criteria.targets[i].value)
  {
  }

  /** A dry run and a real run agree on everything but the writing. */
  lemma DryRunAgrees(run: Run, name: string, description: string, present: string -> bool)
    requires |name| > 0 && '/' !in name
    ensures var dry := ProcessFile(run.(dryRun := true), name, description, present);
      var wet := ProcessFile(run.(dryRun := false), name, description, present);
      (dry.DryRunPlaced? <==> wet.Placed?) &&
      (dry.DryRunPlaced? ==> dry.res == wet.res && dry.subfolder == wet.subfolder) &&
      (!dry.DryRunPlaced? ==> dry == wet)
  {
  }

  /** An outcome that adds one to `count_moved`: a file copied or moved, or a dry-run
      report. */
  predicate CountsAsMoved(o: Outcome) {
    o.Placed? || o.DryRunPlaced?
  }

  /** What one outcome adds to `count_moved` and to `count_skipped`. */
  function MovedCount(o: Outcome): nat {
    if CountsAsMoved(o) then 1 else 0
  }

  function SkippedCount(o: Outcome): nat {
    if o.Skipped? then 1 else 0
  }

  /** `count_moved` and `count_skipped` after the given outcomes. A file that is not looked
      at or has no size adds to neither; a placed file counts as moved, on the assumption
      that its copy or move succeeds. */
  function Tally(outcomes: seq<Outcome>): (r: (nat, nat))
    ensures r.0 + r.1 <= |outcomes|
  {
    if |outcomes| == 0 then (0, 0)
    else
      var rest := Tally(outcomes[1..]);
      (MovedCount(outcomes[0]) + rest.0, SkippedCount(outcomes[0]) + rest.1)
  }

  /** Nothing is counted as moved exactly when no outcome is a placement or a dry-run
      report, and nothing as skipped exactly when no outcome is a skip. */
  lemma {:induction false} TallyZero(outcomes: seq<Outcome>)
    ensures Tally(outcomes).0 == 0 <==> forall i :: 0 <= i < |outcomes| ==> !CountsAsMoved(outcomes[i])
    ensures Tally(outcomes).1 == 0 <==> forall i :: 0 <= i < |outcomes| ==> !outcomes[i].Skipped?
    decreases |outcomes|
  {
    if |outcomes| > 0 {
      TallyZero(outcomes[1..]);
      TallyUnfold(outcomes);
      assert forall i :: 1 <= i < |outcomes| ==> outcomes[i] == outcomes[1..][i - 1];
    }
  }

  lemma TallyUnfold(s: seq<Outcome>)
    requires |s| > 0
    ensures Tally(s).0 == MovedCount(s[0]) + Tally(s[1..]).0
    ensures Tally(s).1 == SkippedCount(s[0]) + Tally(s[1..]).1
  {
  }

  /** The counters of a walk are the sums of the counters of its pieces. */
  lemma {:induction false} TallyAppend(a: seq<Outcome>, b: seq<Outcome>)
    ensures Tally(a + b).0 == Tally(a).0 + Tally(b).0
    ensures Tally(a + b).1 == Tally(a).1 + Tally(b).1
    decreases |a|
  {
    if |a| == 0 {
      assert a + b == b;
    } else {
      assert (a + b)[0] == a[0];
      assert (a + b)[1..] == a[1..] + b;
      TallyAppend(a[1..], b);
      TallyUnfold(a + b);
      TallyUnfold(a);
    }
  }

  /** The paths written by the given outcomes: the target of every placed file. */
  function Placements(outcomes: seq<Outcome>): set<string> {
    set i | 0 <= i < |outcomes| && outcomes[i].Placed? :: outcomes[i].target
  }

  /** The file system as `os.path.exists` sees it after the given paths were written. */
  function Seen(present: string -> bool, written: set<string>): string -> bool {
    p => present(p) || p in written
  }

  /** The outcomes of `names`, walked after the outcomes `done`: each copy or move creates
      its target before the next file looks for its own. */
  function OutcomesAfter(run: Run, names: seq<string>, descriptions: seq<string>,
                         present: string -> bool, done: seq<Outcome>): (r: seq<Outcome>)
    requires |names| == |descriptions|
    requires forall i :: 0 <= i < |names| ==> |names[i]| > 0 && '/' !in names[i]
    ensures |r| == |names|
    decreases |names|
  {
    if |names| == 0 then []
    else
      var o := ProcessFile(run, names[0], descriptions[0], Seen(present, Placements(done)));
      [o] + OutcomesAfter(run, names[1..], descriptions[1..], present, done + [o])
  }

  /** Each outcome of OutcomesAfter is that of its file against the file system with every
      earlier target written. */
  lemma {:induction false} OutcomesAfterEach(run: Run, names: seq<string>, descriptions: seq<string>,
                                             present: string -> bool, done: seq<Outcome>, i: nat)
    requires |names| == |descriptions|
    requires forall i :: 0 <= i < |names| ==> |names[i]| > 0 && '/' !in names[i]
    requires i < |names|
    ensures var r := OutcomesAfter(run, names, descriptions, present, done);
      r[i] == ProcessFile(run, names[i], descriptions[i], Seen(present, Placements(done + r[..i])))
    decreases i
  {
    var o := ProcessFile(run, names[0], descriptions[0], Seen(present, Placements(done)));
    var rest := OutcomesAfter(run, names[1..], descriptions[1..], present, done + [o]);
    if i == 0 {
      ConsPrefix(done, o, rest, 0);
    } else {
      OutcomesAfterEach(run, names[1..], descriptions[1..], present, done + [o], i - 1);
      ConsPrefix(done, o, rest, i);
    }
  }

  lemma ConsPrefix(done: seq<Outcome>, o: Outcome, rest: seq<Outcome>, i: nat)
    requires i <= |rest|
    ensures i == 0 ==> ([o] + rest)[i] == o && done + ([o] + rest)[..i] == done
    ensures i > 0 ==> ([o] + rest)[i] == rest[i - 1] && done + ([o] + rest)[..i] == (done + [o]) + rest[..i - 1]
  {
    if i > 0 {
      assert ([o] + rest)[..i] == [o] + rest[..i - 1];
    }
  }

  /** The outcomes of the files of the walk, directory after directory in walk order;
      `descriptions[i]` is what `file` printed for `names[i]` and `present` is the file
      system before the walk. A real run writes each placed file's target before the next
      file is planned, so two files of one name in different directories get the name and
      its `_1` form. */
  function Outcomes(run: Run, names: seq<string>, descriptions: seq<string>, present: string -> bool): (r: seq<Outcome>)
    requires |names| == |descriptions|
    requires forall i :: 0 <= i < |names| ==> |names[i]| > 0 && '/' !in names[i]
    ensures |r| == |names|
    ensures forall i :: 0 <= i < |names| ==>
      r[i] == ProcessFile(run, names[i], descriptions[i], Seen(present, Placements(r[..i])))
  {
    var r := OutcomesAfter(run, names, descriptions, present, []);
    forall i | 0 <= i < |names|
      ensures r[i] == ProcessFile(run, names[i], descriptions[i], Seen(present, Placements(r[..i])))
    {
      OutcomesAfterEach(run, names, descriptions, present, [], i);
      assert [] + r[..i] == r[..i];
    }
    r
  }

  /** A dry run writes nothing, so every file of it sees the file system as it was. */
  lemma DryRunWritesNothing(run: Run, names: seq<string>, descriptions: seq<string>, present: string -> bool)
    requires run.dryRun
    requires |names| == |descriptions|
    requires forall i :: 0 <= i < |names| ==> |names[i]| > 0 && '/' !in names[i]
    ensures Placements(Outcomes(run, names, descriptions, present)) == {}
  {
  }

  /** A name followed by its `_1` rename, both single path components. */
  function AndRenamed(name: string): (r: seq<string>)
    requires |name| > 0 && '/' !in name
    ensures r == [name, Renamed(name)]
    ensures forall i :: 0 <= i < |r| ==> |r[i]| > 0 && '/' !in r[i]
  {
    [name, Renamed(name)]
  }

  /** A file named like an earlier file's `_1` target finds that target written. When `a`
      is taken in its subfolder, a real run sends `a` to `a_1` and a following `a_1` of the
      same kind to `a_1_1`. */
  lemma LaterFileSeesEarlierCopy(run: Run, name: string, description: string, present: string -> bool)
    requires |name| > 0 && '/' !in name
    requires !run.dryRun
    requires IsCandidate(name) && IsCandidate(Renamed(name))
    requires ScanResolution(description).Some?
    requires Classify(ScanResolution(description).value, run.criteria).Sorted?
    requires var c := Classify(ScanResolution(description).value, run.criteria);
      present(Join(Subfolder(run.dest, c.ratioLabel, c.tier), name))
    ensures var res := ScanResolution(description).value;
      var c := Classify(res, run.criteria);
      var sub := Subfolder(run.dest, c.ratioLabel, c.tier);
      Outcomes(run, AndRenamed(name), [description, description], present)
        == [Placed(res, sub, Join(sub, Renamed(name))), Placed(res, sub, Join(sub, Renamed(Renamed(name))))]
  {
    var res := ScanResolution(description).value;
    var c := Classify(res, run.criteria);
    var sub := Subfolder(run.dest, c.ratioLabel, c.tier);
    var r := Outcomes(run, AndRenamed(name), [description, description], present);
    var first := Join(sub, Renamed(name));
    OutcomesOfTwo(run, AndRenamed(name), [description, description], present);
    PlacedAt(run, name, description, Seen(present, {}));
    SeenHas(present, {}, Join(sub, name));
    PlacementsOfOne([r[0]], r[0]);
    PlacedAt(run, Renamed(name), description, Seen(present, {first}));
    SeenHas(present, {first}, first);
    PairOf(r, Placed(res, sub, first), Placed(res, sub, Join(sub, Renamed(Renamed(name)))));
  }

  /** The first of two files sees the file system as it was; the second sees it with what
      the first one wrote. */
  lemma OutcomesOfTwo(run: Run, names: seq<string>, descriptions: seq<string>, present: string -> bool)
    requires |names| == |descriptions| == 2
    requires forall i :: 0 <= i < |names| ==> |names[i]| > 0 && '/' !in names[i]
    ensures var r := Outcomes(run, names, descriptions, present);
      r[0] == ProcessFile(run, names[0], descriptions[0], Seen(present, {})) &&
      r[1] == ProcessFile(run, names[1], descriptions[1], Seen(present, Placements([r[0]])))
  {
    var r := Outcomes(run, names, descriptions, present);
    PrefixesOfTwo(r);
    PlacementsOfNone();
  }

  lemma PrefixesOfTwo(r: seq<Outcome>)
    requires |r| == 2
    ensures r[..0] == [] && r[..1] == [r[0]]
  {
  }

  lemma PlacementsOfNone()
    ensures Placements([]) == {}
  {
  }

  /** A placed file of a real run goes to its planned target in its subfolder. */
  lemma PlacedAt(run: Run, name: string, description: string, view: string -> bool)
    requires |name| > 0 && '/' !in name
    requires !run.dryRun && IsCandidate(name) && ScanResolution(description).Some?
    requires Classify(ScanResolution(description).value, run.criteria).Sorted?
    ensures var res := ScanResolution(description).value;
      var c := Classify(res, run.criteria);
      var sub := Subfolder(run.dest, c.ratioLabel, c.tier);
      ProcessFile(run, name, description, view) == Placed(res, sub, PlanTarget(sub, name, view))
  {
  }

  lemma SeenHas(present: string -> bool, written: set<string>, p: string)
    ensures Seen(present, written)(p) <==> present(p) || p in written
  {
  }

  lemma PlacementsOfOne(r: seq<Outcome>, o: Outcome)
    requires r == [o] && o.Placed?
    ensures Placements(r) == {o.target}
  {
    assert r[0] == o;
  }

  lemma PairOf(r: seq<Outcome>, x: Outcome, y: Outcome)
    requires |r| == 2 && r[0] == x && r[1] == y
    ensures r == [x, y]
  {
  }

  /** Outcomes that count alike one by one give the same totals. */
  lemma {:induction false} TallyPointwise(d: seq<Outcome>, w: seq<Outcome>)
    requires |d| == |w|
    requires forall i :: 0 <= i < |d| ==> MovedCount(d[i]) == MovedCount(w[i]) && SkippedCount(d[i]) == SkippedCount(w[i])
    ensures Tally(d) == Tally(w)
    decreases |d|
  {
    if |d| > 0 {
      assert forall i :: 0 <= i < |d| - 1 ==> d[1..][i] == d[i + 1] && w[1..][i] == w[i + 1];
      TallyPointwise(d[1..], w[1..]);
      TallyUnfold(d);
      TallyUnfold(w);
    }
  }

  /** One file adds the same to both counters in a dry run as in a real run, whatever
      either of them sees of the file system. */
  lemma DryRunCountsAgree(run: Run, name: string, description: string, dryView: string -> bool,
                          wetView: string -> bool)
    requires |name| > 0 && '/' !in name
    ensures var dry := ProcessFile(run.(dryRun := true), name, description, dryView);
      var wet := ProcessFile(run.(dryRun := false), name, description, wetView);
      MovedCount(dry) == MovedCount(wet) && SkippedCount(dry) == SkippedCount(wet)
  {
    DryRunAgrees(run, name, description, dryView);
  }

  /** A dry run reports the same totals as a real run in which every copy succeeds. */
  lemma DryRunTallyAgrees(run: Run, names: seq<string>, descriptions: seq<string>, present: string -> bool)
    requires |names| == |descriptions|
    requires forall i :: 0 <= i < |names| ==> |names[i]| > 0 && '/' !in names[i]
    ensures Tally(Outcomes(run.(dryRun := true), names, descriptions, present))
         == Tally(Outcomes(run.(dryRun := false), names, descriptions, present))
  {
    var dry := Outcomes(run.(dryRun := true), names, descriptions, present);
    var wet := Outcomes(run.(dryRun := false), names, descriptions, present);
    forall i | 0 <= i < |names|
      ensures MovedCount(dry[i]) == MovedCount(wet[i]) && SkippedCount(dry[i]) == SkippedCount(wet[i])
    {
      DryRunCountsAgree(run, names[i], descriptions[i], Seen(present, Placements(dry[..i])),
                        Seen(present, Placements(wet[..i])));
    }
    TallyPointwise(dry, wet);
  }

  /** A token that parses has no slash, and neither has its label, so labels are single
      path components. */
  lemma ParsedLabelIsComponent(token: string)
    ensures ParseRatio(token).Success? ==> '/' !in token && '/' !in Label(token)
  {
    if '/' in token {
      ParseRatioRejectsNonNumeral(token, IndexOf(token, '/'));
    }
    assert forall k :: 0 <= k < |token| ==> Label(token)[k] == 'x' || Label(token)[k] == token[k];
  }

  /** Criteria read from the command line only have labels that are path components. */
  lemma BuiltLabelsAreComponents(minWidth: int, minHeight: int, tokens: seq<string>, i: nat)
    requires BuildCriteria(minWidth, minHeight, tokens).Success?
    requires i < |BuildCriteria(minWidth, minHeight, tokens).value.targets|
    ensures '/' !in Label(BuildCriteria(minWidth, minHeight, tokens).value.targets[i].token)
  {
    ParsedLabelIsComponent(tokens[i]);
  }

  /** The label of a placed file is a path component whenever the criteria came from
      the command line. */
  lemma PlacedLabelIsComponent(c: Criteria, res: Resolution, minWidth: int, minHeight: int, tokens: seq<string>)
    requires BuildCriteria(minWidth, minHeight, tokens) == Success(c)
    requires res.width > 0 && res.height > 0
    requires Classify(res, c).Sorted?
    ensures '/' !in Classify(res, c).ratioLabel
  {
    var i :| 0 <= i < |c.targets| && Classify(res, c).ratioLabel == Label(c.targets[i].token) &&
             Within(AspectRatio(res), c.targets[i].value) &&
             forall j :: 0 <= j < i ==> !Within(AspectRatio(res), c.targets[j].value);
    BuiltLabelsAreComponents(minWidth, minHeight, tokens, i);
  }

  /** With a destination root that does not end in `/` and command-line criteria, a
      placed file lands at `<dest>/Ratio_<label>/<tier>/<name>`, or at the `_1` name when
      that path is taken. */
  lemma PlacedLayout(run: Run, name: string, description: string, present: string -> bool,
                     minWidth: int, minHeight: int, tokens: seq<string>)
    requires |name| > 0 && '/' !in name
    requires |run.dest| > 0 && run.dest[|run.dest| - 1] != '/'
    requires BuildCriteria(minWidth, minHeight, tokens) == Success(run.criteria)
    requires ProcessFile(run, name, description, present).Placed?
    ensures var r := ProcessFile(run, name, description, present);
      var c := Classify(r.res, run.criteria);
      var sub := run.dest + "/" + "Ratio_" + c.ratioLabel + "/" + c.tier.Name();
      r.target == sub + "/" + name || r.target == sub + "/" + Renamed(name)
  {
    var r := ProcessFile(run, name, description, present);
    var c := Classify(r.res, run.criteria);
    PlacedLabelIsComponent(run.criteria, r.res, minWidth, minHeight, tokens);
    SubfolderLayout(run.dest, c.ratioLabel, c.tier);
    var sub := run.dest + "/" + "Ratio_" + c.ratioLabel + "/" + c.tier.Name();
    TierNameIsComponent(c.tier);
    assert sub[|sub| - 1] == c.tier.Name()[|c.tier.Name()| - 1];
    RenamedIsComponent(name);
    JoinRelative(sub, name);
    JoinRelative(sub, Renamed(name));
  }

  /** A run with the criteria the default command line builds. */
  function DefaultRun(dest: string, dryRun: bool): (r: Run)
    ensures r.dest == dest && r.dryRun == dryRun
    ensures BuildCriteria(DefaultMinWidth, DefaultMinHeight, DefaultRatios) == Success(r.criteria)
  {
    DefaultCriteriaBuilt();
    Run(dest, Criteria(DefaultMinWidth, DefaultMinHeight, [Target(DefaultRatios[0], 16.0 / 9.0)]), dryRun)
  }

  /** A 3840 by 2160 image goes to `Ratio_16x9/4K_UHD` under the defaults. */
  lemma UhdImageIsPlaced(dest: string, name: string, description: string, present: string -> bool)
    requires |name| > 0 && '/' !in name
    ensures IsCandidate(name) && ScanResolution(description) == Some(Resolution(3840, 2160)) ==>
      var sub := Subfolder(dest, "16x9", UHD4K);
      ProcessFile(DefaultRun(dest, false), name, description, present)
        == Placed(Resolution(3840, 2160), sub, PlanTarget(sub, name, present))
  {
    ClassifyUhdDefault();
  }

  /** A full-HD image is too small for the defaults and is counted as skipped. */
  lemma FullHdImageIsSkipped(dest: string, name: string, description: string, present: string -> bool,
                             dryRun: bool)
    requires |name| > 0 && '/' !in name
    ensures IsCandidate(name) && ScanResolution(description) == Some(Resolution(1920, 1080)) ==>
      ProcessFile(DefaultRun(dest, dryRun), name, description, present)
      == Skipped(Resolution(1920, 1080))
  {
  }

  /** A portrait 2160 by 3840 image is skipped under the defaults: the width is checked
      against the minimum width whatever the orientation. */
  lemma PortraitImageIsSkipped(dest: string, name: string, description: string, present: string -> bool,
                             dryRun: bool)
    requires |name| > 0 && '/' !in name
    ensures IsCandidate(name) && ScanResolution(description) == Some(Resolution(2160, 3840)) ==>
      ProcessFile(DefaultRun(dest, dryRun), name, description, present)
      == Skipped(Resolution(2160, 3840))
  {
  }

  /** With `--ratios 16:9 32:9`, a 5120 by 1440 image skips the first target and goes to
      `Ratio_32x9/QHD_2K`. */
  lemma SuperWideImageIsPlaced(dest: string, name: string, description: string, present: string -> bool)
    requires |name| > 0 && '/' !in name
    ensures var c := BuildCriteria(DefaultMinWidth, DefaultMinHeight, SuperWideRatios);
      c.Success? &&
      (IsCandidate(name) && ScanResolution(description) == Some(Resolution(5120, 1440)) ==>
        var sub := Subfolder(dest, "32x9", QHD2K);
        ProcessFile(Run(dest, c.value, false), name, description, present)
          == Placed(Resolution(5120, 1440), sub, PlanTarget(sub, name, present)))
  {
    ClassifySuperWide();
  }

  /** The first target within tolerance wins even when a later one is exact: with
      `--ratios 17:10 16:9`, a dry run reports a 3840 by 2160 image under `Ratio_17x10`. */
  lemma EarlierTargetWins(dest: string, name: string, description: string, present: string -> bool)
    requires |name| > 0 && '/' !in name
    ensures var c := BuildCriteria(DefaultMinWidth, DefaultMinHeight, EarlierFirstRatios);
      c.Success? &&
      (IsCandidate(name) && ScanResolution(description) == Some(Resolution(3840, 2160)) ==>
        ProcessFile(Run(dest, c.value, true), name, description, present)
          == DryRunPlaced(Resolution(3840, 2160), Subfolder(dest, "17x10", UHD4K)))
  {
    ClassifyPrefersEarlierTarget();
  }
}
