/**
 * The decisions `kodu clean` makes around the cleaner: which project files are
 * cleaning targets, the spinner text, and which reports a dry run lists.
 */
module CleanCommand {
  import opened Wrappers
  import opened Strings
  import opened Cleaner

  // ---------------------------------------------------------------------------
  // Target selection.
  // ---------------------------------------------------------------------------

  /** The extensions `/\.(ts|tsx|js|jsx|html)$/i` accepts, in lower case. */
  const CleanExtensions: seq<string> := [".ts", ".tsx", ".js", ".jsx", ".html"]

  /** The path ends, ignoring ASCII case, in one of the accepted extensions. */
  predicate IsCleanTarget(path: string): (target: bool)
    ensures target ==> |path| >= 3 && ToLower(path)[|path| - 1] in "sxl"
  {
    TargetEnding(path);
    exists ext :: ext in CleanExtensions && EndsWith(ToLower(path), ext)
  }

  /** Every accepted extension is at least three characters and ends in `s`, `x` or `l`. */
  lemma TargetEnding(path: string)
    ensures (exists ext :: ext in CleanExtensions && EndsWith(ToLower(path), ext)) ==>
      |path| >= 3 && ToLower(path)[|path| - 1] in "sxl"
  {
    if exists ext :: ext in CleanExtensions && EndsWith(ToLower(path), ext) {
      var ext :| ext in CleanExtensions && EndsWith(ToLower(path), ext);
      var lowered := ToLower(path);
      assert |ext| >= 3 && ext[|ext| - 1] in "sxl";
      assert lowered[|lowered| - |ext|..][|ext| - 1] == lowered[|lowered| - 1];
    }
  }

  /** The changed-files test `changedSet.has(file)`. */
  function InChanged(changedSet: set<string>): string -> bool {
    f => f in changedSet
  }

  /**
   * `collectTargets`: the project files with an accepted extension and, when only
   * changed files are asked for, only those git reports as changed. `changed` is
   * `None` without the `--changed` option.
   */
  function CollectTargets(files: seq<string>, changed: Option<set<string>>): (targets: seq<string>)
    ensures forall f :: f in targets <==> f in files && IsCleanTarget(f) && (changed.Some? ==> f in changed.value)
  {
    var filtered := Filter(files, IsCleanTarget);
    match changed
    case None => filtered
    case Some(changedSet) => Filter(filtered, InChanged(changedSet))
  }

  lemma ToLowerTwice(s: string)
    ensures ToLower(ToLower(s)) == ToLower(s)
  {
    forall i | 0 <= i < |s|
      ensures ToLower(ToLower(s))[i] == ToLower(s)[i]
    {
      assert ToLowerChar(ToLowerChar(s[i])) == ToLowerChar(s[i]);
    }
  }

  /** The extension test ignores case. */
  lemma CleanTargetIgnoresCase(path: string)
    ensures IsCleanTarget(ToLower(path)) <==> IsCleanTarget(path)
  {
    ToLowerTwice(path);
  }

  /** A path ending in an accepted extension, spelled in lower case, is a target. */
  lemma ExtensionIsTarget(stem: string, ext: string)
    requires ext in CleanExtensions
    ensures IsCleanTarget(stem + ext)
  {
    var lowered := ToLower(stem + ext);
    assert ToLower(ext) == ext;
    assert lowered[|stem|..] == ToLower(ext);
  }

  /**
   * `.htm` files are never cleaned by the command, although the cleaner would scan
   * them for HTML comments.
   */
  lemma HtmIsNotTarget(stem: string)
    requires stem != [] && stem[|stem| - 1] != '/'
    ensures !IsCleanTarget(stem + ".htm")
    ensures ShouldCollectHtmlComments(stem + ".htm")
  {
    assert ToLower(".htm") == ".htm";
    HtmlExtensionScanned(stem, ".htm");
    LastLetterM(stem + ".htm");
  }

  /** No accepted extension ends in `m`. */
  lemma LastLetterM(path: string)
    requires path != [] && path[|path| - 1] == 'm'
    ensures !IsCleanTarget(path)
  {
    assert ToLower(path)[|path| - 1] == 'm';
    assert 'm' !in "sxl";
  }

  function Both<T>(p: T -> bool, q: T -> bool): T -> bool {
    x => p(x) && q(x)
  }

  lemma {:induction false} FilterTwice<T(!new)>(xs: seq<T>, p: T -> bool, q: T -> bool)
    ensures Filter(Filter(xs, p), q) == Filter(xs, Both(p, q))
  {
    if xs != [] {
      FilterTwice(xs[1..], p, q);
      FilterConcat(if p(xs[0]) then [xs[0]] else [], Filter(xs[1..], p), q);
    }
  }

  /** The targets keep the order of the project files: a subsequence of them. */
  lemma TargetsAreSubsequence(files: seq<string>, changed: Option<set<string>>)
    ensures IsSubsequence(CollectTargets(files, changed), files)
  {
    match changed
    case None =>
      FilterIsSubsequence(files, IsCleanTarget);
    case Some(changedSet) =>
      FilterTwice(files, IsCleanTarget, InChanged(changedSet));
      FilterIsSubsequence(files, Both(IsCleanTarget, InChanged(changedSet)));
  }

  /** With `--changed`, the targets are the unrestricted targets with the unchanged files left out. */
  lemma ChangedNarrowsTargets(files: seq<string>, changedSet: set<string>)
    ensures IsSubsequence(CollectTargets(files, Some(changedSet)), CollectTargets(files, None))
  {
    FilterIsSubsequence(Filter(files, IsCleanTarget), InChanged(changedSet));
  }

  /** When every project file counts as changed, `--changed` selects exactly the unrestricted targets. */
  lemma AllChangedIsNoRestriction(files: seq<string>, changedSet: set<string>)
    requires forall f :: f in files ==> f in changedSet
    ensures CollectTargets(files, Some(changedSet)) == CollectTargets(files, None)
  {
    FilterAll(Filter(files, IsCleanTarget), InChanged(changedSet));
  }

  // ---------------------------------------------------------------------------
  // Spinner text.
  // ---------------------------------------------------------------------------

  /** `buildSpinnerText`: what is being done, to what, and an ellipsis. */
  function SpinnerText(dryRun: bool, changed: bool): (text: string)
    ensures StartsWith(text, "Analysis") <==> dryRun
    ensures EndsWith(text, "...")
  {
    var text := (if dryRun then "Analysis" else "Cleaning") + (if changed then " changed files" else " comments") + "...";
    assert text[0] == if dryRun then 'A' else 'C';
    text
  }

  /** The four option combinations give four different texts. */
  lemma SpinnerTextDistinct(dryRun: bool, changed: bool, dryRun': bool, changed': bool)
    requires SpinnerText(dryRun, changed) == SpinnerText(dryRun', changed')
    ensures dryRun == dryRun' && changed == changed'
  {
    var text := SpinnerText(dryRun, changed);
    assert |text| == if changed then 25 else 20;
    assert |SpinnerText(dryRun', changed')| == if changed' then 25 else 20;
    assert text[0] == if dryRun then 'A' else 'C';
    assert SpinnerText(dryRun', changed')[0] == if dryRun' then 'A' else 'C';
  }

  // ---------------------------------------------------------------------------
  // The dry-run listing.
  // ---------------------------------------------------------------------------

  predicate HasRemovals(report: FileCleanReport) { report.removed > 0 }

  /** The reports a dry run lists, one line each: those of files with comments to remove. */
  function ListedReports(reports: seq<FileCleanReport>): (listed: seq<FileCleanReport>)
    ensures forall r :: r in listed <==> r in reports && r.removed > 0
  {
    Filter(reports, HasRemovals)
  }

  /** A dry run lists exactly as many files as its summary says will be affected. */
  lemma {:induction false} ListedReportsCount(files: seq<SourceInput>, results: seq<CleanResult>, dryRun: bool)
    requires |files| == |results|
    ensures var summary := Tally(files, results, dryRun).0;
      |ListedReports(summary.reports)| == summary.filesChanged
  {
    if files != [] {
      var n := |files| - 1;
      ListedReportsCount(files[..n], results[..n], dryRun);
      var before := Tally(files[..n], results[..n], dryRun).0;
      FilterConcat(before.reports, [FileCleanReport(files[n].file, results[n].removed, results[n].previews)], HasRemovals);
    }
  }
}
