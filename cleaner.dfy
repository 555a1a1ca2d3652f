/**
 * The comment-removal pipeline behind `kodu clean` (`CleanerService`).
 *
 * The TypeScript compiler and ts-morph find the comments and the JSX expression
 * containers of a file; here their findings are inputs. From there on the pipeline
 * is modelled step by step: ranges are collected in a Map keyed by start and end
 * (the first range seen for a key wins), HTML files are scanned for `<!-- ... -->`,
 * the retention policy picks the removal candidates, the edits are applied from
 * right to left, and previews and per-batch counts are reported.
 */
module Cleaner {
  import opened Wrappers
  import opened Strings

  datatype Kind = Comment | Jsx

  /** A span of the file text proposed for removal; `text` is the file text it covers. */
  datatype RemovalRange = RemovalRange(start: nat, end: nat, text: string, kind: Kind)

  /** A comment range as the TypeScript scanner reports it (leading or trailing trivia of a node). */
  datatype CommentSpan = CommentSpan(pos: nat, end: nat)

  /** A `JsxExpression` node: its full span, whether it holds an expression, and its own text. */
  datatype JsxNode = JsxNode(pos: nat, end: nat, hasExpression: bool, nodeText: string)

  /**
   * One file as the pipeline receives it: its path, its text, the comment ranges the
   * TypeScript AST walk reported (in visit order) and its `JsxExpression` nodes.
   */
  datatype SourceInput = SourceInput(file: string, content: string, comments: seq<CommentSpan>, jsxNodes: seq<JsxNode>)

  datatype CleanResult = CleanResult(nextContent: string, removed: nat, previews: seq<string>)

  datatype FileCleanReport = FileCleanReport(file: string, removed: nat, previews: seq<string>)

  datatype CleanSummary = CleanSummary(filesProcessed: nat, filesChanged: nat, commentsRemoved: nat, reports: seq<FileCleanReport>)

  /** A file write the batch performs: the path and the new text. */
  datatype FileWrite = FileWrite(file: string, content: string)

  /** Markers that keep a comment whatever the configuration says. */
  const SystemWhitelist: seq<string> :=
    ["@ts-ignore", "@ts-expect-error", "eslint-disable", "prettier-ignore", "biome-ignore", "todo", "fixme"]

  function Min(a: nat, b: nat): nat { if a <= b then a else b }

  /** `s.slice(from, to)` for non-negative bounds: both are clamped to the length. */
  function JsSlice(s: string, from: nat, to: nat): string {
    if Min(from, |s|) < Min(to, |s|) then s[Min(from, |s|)..Min(to, |s|)] else ""
  }

  /** `s.slice(from)` for a non-negative bound. */
  function JsSliceFrom(s: string, from: nat): string {
    s[Min(from, |s|)..]
  }

  // ---------------------------------------------------------------------------
  // Collecting ranges: a Map keyed by `${start}:${end}`, first range seen wins.
  // ---------------------------------------------------------------------------

  function KeyOf(r: RemovalRange): (nat, nat) { (r.start, r.end) }

  predicate HasKey(rs: seq<RemovalRange>, key: (nat, nat)) {
    exists i :: 0 <= i < |rs| && KeyOf(rs[i]) == key
  }

  predicate DistinctKeys(rs: seq<RemovalRange>) {
    forall i, j :: 0 <= i < j < |rs| ==> KeyOf(rs[i]) != KeyOf(rs[j])
  }

  /** The Map's values after `addRange(r)`: a range whose key is already present is ignored. */
  function WithRange(rs: seq<RemovalRange>, r: RemovalRange): seq<RemovalRange> {
    if HasKey(rs, KeyOf(r)) then rs else rs + [r]
  }

  /** The Map's values after adding `news` one after the other. */
  function WithRanges(rs: seq<RemovalRange>, news: seq<RemovalRange>): seq<RemovalRange>
    decreases |news|
  {
    if news == [] then rs else WithRange(WithRanges(rs, news[..|news| - 1]), news[|news| - 1])
  }

  lemma {:induction false} WithRangesConcat(rs: seq<RemovalRange>, a: seq<RemovalRange>, b: seq<RemovalRange>)
    ensures WithRanges(rs, a + b) == WithRanges(WithRanges(rs, a), b)
    decreases |b|
  {
    if b == [] {
      assert a + b == a;
    } else {
      assert (a + b)[..|a + b| - 1] == a + b[..|b| - 1];
      WithRangesConcat(rs, a, b[..|b| - 1]);
    }
  }

  /**
   * Adding ranges never replaces an entry: the old values stay a prefix, no key appears
   * twice, and the keys are exactly the old keys and the added ones.
   */
  lemma {:induction false} WithRangesKeepsFirst(rs: seq<RemovalRange>, news: seq<RemovalRange>)
    requires DistinctKeys(rs)
    ensures var out := WithRanges(rs, news);
      && DistinctKeys(out)
      && |rs| <= |out| && out[..|rs|] == rs
      && (forall key :: HasKey(out, key) <==> HasKey(rs, key) || HasKey(news, key))
      && (forall i :: 0 <= i < |out| ==> out[i] in rs || out[i] in news)
    decreases |news|
  {
    if news != [] {
      var init := news[..|news| - 1];
      var r := news[|news| - 1];
      WithRangesKeepsFirst(rs, init);
      var prev := WithRanges(rs, init);
      assert news == init + [r];
      WithRangeStep(prev, r);
      HasKeySnoc(init, r);
      var out := WithRange(prev, r);
      assert out[..|rs|] == rs by {
        assert out[..|rs|] == out[..|prev|][..|rs|];
      }
      forall i | 0 <= i < |out|
        ensures out[i] in rs || out[i] in news
      {
        if out[i] in prev {
          var k :| 0 <= k < |prev| && prev[k] == out[i];
          assert out[i] in rs || out[i] in init;
        }
      }
    }
  }

  /** One `addRange`: the Map keeps its entries and gains the key of `r` at most once. */
  lemma WithRangeStep(prev: seq<RemovalRange>, r: RemovalRange)
    requires DistinctKeys(prev)
    ensures var out := WithRange(prev, r);
      && DistinctKeys(out)
      && |prev| <= |out| && out[..|prev|] == prev
      && (forall key :: HasKey(out, key) <==> HasKey(prev, key) || KeyOf(r) == key)
      && (forall i :: 0 <= i < |out| ==> out[i] in prev || out[i] == r)
  {
    if !HasKey(prev, KeyOf(r)) {
      var out := prev + [r];
      forall key
        ensures HasKey(out, key) <==> HasKey(prev, key) || KeyOf(r) == key
      {
        if HasKey(out, key) {
          var i :| 0 <= i < |out| && KeyOf(out[i]) == key;
          if i < |prev| {
            assert KeyOf(prev[i]) == key;
          }
        }
        if HasKey(prev, key) {
          var i :| 0 <= i < |prev| && KeyOf(prev[i]) == key;
          assert KeyOf(out[i]) == key;
        }
        if KeyOf(r) == key {
          assert KeyOf(out[|prev|]) == key;
        }
      }
    }
  }

  lemma HasKeySnoc(init: seq<RemovalRange>, r: RemovalRange)
    ensures forall key :: HasKey(init + [r], key) <==> HasKey(init, key) || KeyOf(r) == key
  {
    var news := init + [r];
    forall key
      ensures HasKey(news, key) <==> HasKey(init, key) || KeyOf(r) == key
    {
      if HasKey(news, key) {
        var i :| 0 <= i < |news| && KeyOf(news[i]) == key;
        if i < |init| {
          assert KeyOf(init[i]) == key;
        }
      }
      if HasKey(init, key) {
        var i :| 0 <= i < |init| && KeyOf(init[i]) == key;
        assert KeyOf(news[i]) == key;
      }
      if KeyOf(r) == key {
        assert KeyOf(news[|init|]) == key;
      }
    }
  }

  /** The collecting Map of `collectCommentRanges`, with its values in insertion order. */
  class RangeMap {
    var order: seq<(nat, nat)>
    var entries: map<(nat, nat), RemovalRange>
    /** The values in insertion order, as `[...ranges.values()]` lists them. */
    ghost var Contents: seq<RemovalRange>

    ghost predicate Valid()
      reads this
    {
      && |Contents| == |order|
      && (forall i :: 0 <= i < |order| ==> order[i] in entries && Contents[i] == entries[order[i]])
      && (forall i, j :: 0 <= i < j < |order| ==> order[i] != order[j])
      && (forall key :: key in entries ==> key in order)
      && (forall key :: key in entries ==> KeyOf(entries[key]) == key)
    }

    constructor ()
      ensures Valid() && Contents == []
    {
      order, entries, Contents := [], map[], [];
    }

    /** `addRange`: store the range under its key unless the key is taken. */
    method AddRange(start: nat, end: nat, text: string, kind: Kind)
      requires Valid()
      modifies this
      ensures Valid()
      ensures Contents == WithRange(old(Contents), RemovalRange(start, end, text, kind))
    {
      var key := (start, end);
      var r := RemovalRange(start, end, text, kind);
      if key in entries {
        var i :| 0 <= i < |order| && order[i] == key;
        assert KeyOf(Contents[i]) == key;
        return;
      }
      assert !HasKey(Contents, key) by {
        forall i | 0 <= i < |Contents|
          ensures KeyOf(Contents[i]) != key
        {
          assert KeyOf(entries[order[i]]) == order[i];
        }
      }
      entries := entries[key := r];
      order := order + [key];
      Contents := Contents + [r];
    }

    /** `addRanges` over the comments the AST walk reports, in order. */
    method AddCommentRanges(text: string, comments: seq<CommentSpan>)
      requires Valid()
      modifies this
      ensures Valid()
      ensures Contents == WithRanges(old(Contents), CommentRangesOf(text, comments))
    {
      for i := 0 to |comments|
        invariant Valid()
        invariant Contents == WithRanges(old(Contents), CommentRangesOf(text, comments[..i]))
      {
        var c := comments[i];
        assert comments[..i + 1][..i] == comments[..i];
        AddRange(c.pos, c.end, JsSlice(text, c.pos, c.end), Comment);
      }
      assert comments[..|comments|] == comments;
    }

    /** The `JsxExpression` loop: expression-free containers whose text opens a block comment. */
    method AddJsxRanges(text: string, nodes: seq<JsxNode>)
      requires Valid()
      modifies this
      ensures Valid()
      ensures Contents == WithRanges(old(Contents), JsxRangesOf(text, nodes))
    {
      for i := 0 to |nodes|
        invariant Valid()
        invariant Contents == WithRanges(old(Contents), JsxRangesOf(text, nodes[..i]))
      {
        var node := nodes[i];
        assert nodes[..i + 1][..i] == nodes[..i];
        ghost var before := JsxRangesOf(text, nodes[..i]);
        if node.hasExpression || !Contains(node.nodeText, "/*") {
          assert JsxRangesOf(text, nodes[..i + 1]) == before + [];
          assert before + [] == before;
          continue;
        }
        assert JsxRangesOf(text, nodes[..i + 1]) == before + [RemovalRange(node.pos, node.end, JsSlice(text, node.pos, node.end), Jsx)];
        AddRange(node.pos, node.end, JsSlice(text, node.pos, node.end), Jsx);
      }
      assert nodes[..|nodes|] == nodes;
    }

    /** `[...ranges.values()]`. */
    method ValuesList() returns (vs: seq<RemovalRange>)
      requires Valid()
      ensures vs == Contents
    {
      vs := [];
      for i := 0 to |order|
        invariant vs == Contents[..i]
      {
        vs := vs + [entries[order[i]]];
      }
    }

    /**
     * `collectHtmlCommentRanges`: run the global HTML comment pattern over the text
     * and add every match, in order.
     */
    method CollectHtmlCommentRanges(fullText: string)
      requires Valid()
      modifies this
      ensures Valid()
      ensures Contents == WithRanges(old(Contents), HtmlRangesOf(fullText, HtmlCommentSpans(fullText, 0)))
    {
      var lastIndex: nat := 0;
      while true
        invariant Valid()
        invariant lastIndex <= |fullText|
        invariant WithRanges(Contents, HtmlRangesOf(fullText, HtmlCommentSpans(fullText, lastIndex)))
               == WithRanges(old(Contents), HtmlRangesOf(fullText, HtmlCommentSpans(fullText, 0)))
        decreases |fullText| - lastIndex
      {
        var m := NextHtmlComment(fullText, lastIndex);
        if m.None? {
          break;
        }
        var s, e := m.value.0, m.value.1;
        var r := RemovalRange(s, e, JsSlice(fullText, s, e), Comment);
        ghost var rest := HtmlRangesOf(fullText, HtmlCommentSpans(fullText, e));
        assert HtmlRangesOf(fullText, HtmlCommentSpans(fullText, lastIndex)) == [r] + rest;
        WithRangesConcat(Contents, [r], rest);
        assert WithRanges(Contents, [r]) == WithRange(Contents, r) by {
          assert [r][..0] == [];
        }
        AddRange(s, e, JsSlice(fullText, s, e), Comment);
        lastIndex := e;
      }
    }
  }

  // ---------------------------------------------------------------------------
  // HTML comments: `/<!--[\s\S]*?-->/g`, leftmost and non-greedy.
  // ---------------------------------------------------------------------------

  /** `<!--` at `s`, the first `-->` after it ends at `e`. */
  predicate IsHtmlComment(text: string, s: nat, e: nat) {
    && s + 7 <= e <= |text|
    && OccursAt(text, "<!--", s)
    && OccursAt(text, "-->", e - 3)
    && forall k :: s + 4 <= k < e - 3 ==> !OccursAt(text, "-->", k)
  }

  /**
   * One `exec` of the HTML comment pattern from `lastIndex = from`: the match starts at
   * the first `<!--` and ends with the first `-->` after it; when that `<!--` has no
   * `-->` after it, no later one has either, and there is no match.
   */
  function NextHtmlComment(text: string, from: nat): (m: Option<(nat, nat)>)
    ensures m.Some? ==> from <= m.value.0 && IsHtmlComment(text, m.value.0, m.value.1)
    ensures m.Some? ==> forall k :: from <= k < m.value.0 ==> !OccursAt(text, "<!--", k)
    ensures m.None? ==> forall k: nat, j: nat :: from <= k && k + 4 <= j ==> !(OccursAt(text, "<!--", k) && OccursAt(text, "-->", j))
  {
    match IndexOf(text, "<!--", from)
    case None => None
    case Some(s) =>
      match IndexOf(text, "-->", s + 4)
      case None => None
      case Some(c) => Some((s, c + 3))
  }

  /**
   * The successive matches of the HTML comment pattern from `from` on: each an HTML
   * comment, each after the previous one without overlapping it.
   */
  function HtmlCommentSpans(text: string, from: nat): (spans: seq<(nat, nat)>)
    ensures forall i :: 0 <= i < |spans| ==> from <= spans[i].0 && IsHtmlComment(text, spans[i].0, spans[i].1)
    ensures forall i :: 0 <= i < |spans| - 1 ==> spans[i].1 <= spans[i + 1].0
    ensures spans == [] <==> NextHtmlComment(text, from).None?
    decreases |text| - from
  {
    match NextHtmlComment(text, from)
    case None => []
    case Some(m) =>
      var rest := HtmlCommentSpans(text, m.1);
      assert forall i :: 0 < i < |[m] + rest| ==> ([m] + rest)[i] == rest[i - 1];
      [m] + rest
  }

  /**
   * Nothing is missed: every `<!--` from `from` on that has a `-->` after it lies
   * inside one of the spans (its own, or the comment it is part of).
   */
  lemma {:induction false} HtmlCommentCovered(text: string, from: nat, k: nat, j: nat)
    requires from <= k && k + 4 <= j
    requires OccursAt(text, "<!--", k) && OccursAt(text, "-->", j)
    ensures InsideSpan(HtmlCommentSpans(text, from), k)
    decreases |text| - from
  {
    var spans := HtmlCommentSpans(text, from);
    var m := NextHtmlComment(text, from);
    assert m.Some?;
    assert spans[0] == m.value;
    if k < m.value.1 {
      assert m.value.0 <= k;
      assert spans[0].0 <= k < spans[0].1;
    } else {
      var rest := HtmlCommentSpans(text, m.value.1);
      HtmlCommentCovered(text, m.value.1, k, j);
      var i :| 0 <= i < |rest| && rest[i].0 <= k < rest[i].1;
      assert spans[i + 1] == rest[i];
    }
  }

  /** Position `k` lies inside one of the spans. */
  predicate InsideSpan(spans: seq<(nat, nat)>, k: nat) {
    exists i :: 0 <= i < |spans| && spans[i].0 <= k < spans[i].1
  }

  /** An `<!--` never followed by `-->` starts no span. */
  lemma UnterminatedHtmlComment(text: string, from: nat, k: nat)
    requires forall j: nat :: k + 4 <= j ==> !OccursAt(text, "-->", j)
    ensures forall i :: 0 <= i < |HtmlCommentSpans(text, from)| ==> HtmlCommentSpans(text, from)[i].0 != k
  {
  }

  function HtmlRangesOf(text: string, spans: seq<(nat, nat)>): seq<RemovalRange>
  {
    if spans == [] then []
    else [RemovalRange(spans[0].0, spans[0].1, JsSlice(text, spans[0].0, spans[0].1), Comment)] + HtmlRangesOf(text, spans[1..])
  }

  /** The text after the last `/` of a path. */
  function BaseName(path: string): (b: string)
    ensures |b| <= |path| && b == path[|path| - |b|..] && '/' !in b
    ensures |b| < |path| ==> path[|path| - |b| - 1] == '/'
  {
    if path == [] || path[|path| - 1] == '/' then []
    else BaseName(path[..|path| - 1]) + [path[|path| - 1]]
  }

  /** The index of the last `c` in `s`. */
  function LastIndexOf(s: string, c: char): (r: Option<nat>)
    ensures r.Some? ==> r.value < |s| && s[r.value] == c && forall j :: r.value < j < |s| ==> s[j] != c
    ensures r.None? ==> c !in s
  {
    if s == [] then None
    else if s[|s| - 1] == c then Some(|s| - 1)
    else LastIndexOf(s[..|s| - 1], c)
  }

  /** The path without the `/` characters that end it. */
  function DropTrailingSlashes(path: string): (p: string)
    ensures |p| <= |path| && p == path[..|p|]
    ensures p == [] || p[|p| - 1] != '/'
    ensures forall j :: |p| <= j < |path| ==> path[j] == '/'
  {
    if path != [] && path[|path| - 1] == '/' then DropTrailingSlashes(path[..|path| - 1]) else path
  }

  /** The component `path.extname` looks at: the base name once trailing slashes are dropped. */
  function LastComponent(path: string): string {
    BaseName(DropTrailingSlashes(path))
  }

  /**
   * `path.extname`: the last component from its last `.`, unless that `.` begins the
   * component or the component is `..`.
   */
  function Extname(path: string): (ext: string)
    ensures EndsWith(LastComponent(path), ext)
    ensures ext != [] ==> ext[0] == '.' && '.' !in ext[1..] && |ext| < |LastComponent(path)| && LastComponent(path) != ".."
    ensures ext == [] ==> LastComponent(path) == ".." || forall j :: 0 < j < |LastComponent(path)| ==> LastComponent(path)[j] != '.'
  {
    ComponentExtension(LastComponent(path))
  }

  /** The extension of one path component, as `Extname` takes it. */
  function ComponentExtension(base: string): (ext: string)
    ensures EndsWith(base, ext)
    ensures ext != [] ==> ext[0] == '.' && '.' !in ext[1..] && |ext| < |base| && base != ".."
    ensures ext == [] ==> base == ".." || forall j :: 0 < j < |base| ==> base[j] != '.'
  {
    if base == ".." then
      assert EndsWith(base, "");
      ""
    else
    match LastIndexOf(base, '.')
    case Some(i) =>
      if i > 0 then
        LastDotSuffix(base, i);
        base[i..]
      else
        assert EndsWith(base, "");
        ""
    case None =>
      assert EndsWith(base, "");
      ""
  }

  /** Slashes at the end of a path do not change its extension. */
  lemma ExtnameIgnoresTrailingSlash(path: string)
    ensures Extname(path + "/") == Extname(path)
  {
    DropSlashAppended(path);
    assert LastComponent(path + "/") == LastComponent(path);
  }

  lemma DropSlashAppended(path: string)
    ensures DropTrailingSlashes(path + "/") == DropTrailingSlashes(path)
  {
    assert (path + "/")[..|path|] == path;
  }

  /** A path whose last component is `..` has no extension. */
  lemma ExtnameOfDotDot(dir: string)
    requires dir == [] || dir[|dir| - 1] == '/'
    ensures Extname(dir + "..") == ""
  {
    var p := dir + "..";
    assert p[..|p| - 1] == dir + ".";
    assert (dir + ".")[..|dir|] == dir;
    assert BaseName(dir + ".") == ".";
    assert LastComponent(p) == "..";
  }

  /** The text from the last `.` on ends the base name, opens with that dot and holds no other. */
  lemma LastDotSuffix(base: string, i: nat)
    requires i < |base| && base[i] == '.' && forall j :: i < j < |base| ==> base[j] != '.'
    ensures EndsWith(base, base[i..]) && base[i..][0] == '.' && '.' !in base[i..][1..]
  {
    assert base[i..][1..] == base[i + 1..];
  }

  /**
   * `shouldCollectHtmlComments`: the lower-cased extension is `.html` or `.htm`; so
   * every path that gets the HTML scan ends that way once lower-cased.
   */
  predicate ShouldCollectHtmlComments(file: string): (collect: bool)
    ensures collect ==> var p := ToLower(DropTrailingSlashes(file)); EndsWith(p, ".html") || EndsWith(p, ".htm")
  {
    ExtnameEndsPath(file);
    LowerSuffix(DropTrailingSlashes(file), Extname(file));
    ToLower(Extname(file)) == ".html" || ToLower(Extname(file)) == ".htm"
  }

  // ---------------------------------------------------------------------------
  // What the AST walk, the JSX lookup and the HTML scan contribute, in that order.
  // ---------------------------------------------------------------------------

  function CommentRangesOf(text: string, spans: seq<CommentSpan>): seq<RemovalRange>
    decreases |spans|
  {
    if spans == [] then []
    else
      var c := spans[|spans| - 1];
      CommentRangesOf(text, spans[..|spans| - 1]) + [RemovalRange(c.pos, c.end, JsSlice(text, c.pos, c.end), Comment)]
  }

  /** A JSX container counts when it holds no expression and its text holds a block-comment opener. */
  predicate IsCommentOnlyJsx(node: JsxNode) {
    !node.hasExpression && Contains(node.nodeText, "/*")
  }

  function JsxRangesOf(text: string, nodes: seq<JsxNode>): seq<RemovalRange>
    decreases |nodes|
  {
    if nodes == [] then []
    else
      var n := nodes[|nodes| - 1];
      JsxRangesOf(text, nodes[..|nodes| - 1])
        + (if IsCommentOnlyJsx(n) then [RemovalRange(n.pos, n.end, JsSlice(text, n.pos, n.end), Jsx)] else [])
  }

  /** Every range proposed for a file, in the order `addRange` sees them. */
  function Discovered(input: SourceInput): seq<RemovalRange> {
    CommentRangesOf(input.content, input.comments)
      + JsxRangesOf(input.content, input.jsxNodes)
      + (if ShouldCollectHtmlComments(input.file)
         then HtmlRangesOf(input.content, HtmlCommentSpans(input.content, 0)) else [])
  }

  /** The values of the collecting Map once everything has been added. */
  function CollectedRanges(input: SourceInput): seq<RemovalRange> {
    WithRanges([], Discovered(input))
  }

  /** `collectCommentRanges`: no two collected ranges share both endpoints. */
  method CollectCommentRanges(input: SourceInput) returns (ranges: seq<RemovalRange>)
    ensures ranges == CollectedRanges(input)
    ensures DistinctKeys(ranges)
  {
    var text := input.content;
    var collected := new RangeMap();
    collected.AddCommentRanges(text, input.comments);
    collected.AddJsxRanges(text, input.jsxNodes);
    WithRangesConcat([], CommentRangesOf(text, input.comments), JsxRangesOf(text, input.jsxNodes));
    ghost var html := if ShouldCollectHtmlComments(input.file) then HtmlRangesOf(text, HtmlCommentSpans(text, 0)) else [];
    if ShouldCollectHtmlComments(input.file) {
      collected.CollectHtmlCommentRanges(text);
    }
    WithRangesConcat([], CommentRangesOf(text, input.comments) + JsxRangesOf(text, input.jsxNodes), html);
    ranges := collected.ValuesList();
    WithRangesKeepsFirst([], Discovered(input));
  }

  // ---------------------------------------------------------------------------
  // Which files get the HTML scan.
  // ---------------------------------------------------------------------------

  lemma {:induction false} BaseNameAppend(stem: string, ext: string)
    requires '/' !in ext
    ensures BaseName(stem + ext) == BaseName(stem) + ext
    decreases |ext|
  {
    if ext != [] {
      var init := ext[..|ext| - 1];
      assert (stem + ext)[..|stem + ext| - 1] == stem + init;
      BaseNameAppend(stem, init);
      assert init + [ext[|ext| - 1]] == ext;
    } else {
      assert stem + ext == stem;
    }
  }

  lemma {:induction false} LastIndexOfAfter(a: string, c: char, b: string)
    requires c !in b
    ensures LastIndexOf(a + [c] + b, c) == Some(|a|)
    decreases |b|
  {
    if b == [] {
      assert a + [c] + b == a + [c];
    } else {
      var init := b[..|b| - 1];
      assert (a + [c] + b)[..|a + [c] + b| - 1] == a + [c] + init;
      LastIndexOfAfter(a, c, init);
    }
  }

  /** An extension spelled `.html` or `.htm` in any letter case: one leading dot, no slash. */
  lemma HtmlExtensionShape(ext: string)
    requires ToLower(ext) == ".html" || ToLower(ext) == ".htm"
    ensures ext != [] && ext[0] == '.' && '/' !in ext && '.' !in ext[1..]
  {
    forall k | 0 <= k < |ext|
      ensures ext[k] != '/' && (k > 0 ==> ext[k] != '.') && (k == 0 ==> ext[k] == '.')
    {
      assert ToLower(ext)[k] == ToLowerChar(ext[k]);
    }
  }

  /** A path ending in a case-insensitive `.html`/`.htm` after a non-empty stem gets the HTML scan. */
  lemma HtmlExtensionScanned(stem: string, ext: string)
    requires ToLower(ext) == ".html" || ToLower(ext) == ".htm"
    requires stem != [] && stem[|stem| - 1] != '/'
    ensures ShouldCollectHtmlComments(stem + ext)
  {
    HtmlExtensionShape(ext);
    assert |ToLower(ext)| >= 4;
    ExtnameOfSuffix(stem, ext);
  }

  /**
   * A dotted suffix without further dots or slashes, after a non-empty stem, is the
   * extension (a lone `.` is left out: after a stem `.` it would make the component `..`).
   */
  lemma ExtnameOfSuffix(stem: string, ext: string)
    requires ext != [] && ext[0] == '.' && '/' !in ext && '.' !in ext[1..]
    requires stem != [] && stem[|stem| - 1] != '/'
    requires |ext| > 1
    ensures Extname(stem + ext) == ext
  {
    assert (stem + ext)[|stem + ext| - 1] == ext[|ext| - 1];
    assert DropTrailingSlashes(stem + ext) == stem + ext;
    BaseNameOfSuffix(stem, ext);
    ExtnameOfBase(stem + ext, BaseName(stem), ext);
  }

  lemma BaseNameOfSuffix(stem: string, ext: string)
    requires '/' !in ext
    requires stem != [] && stem[|stem| - 1] != '/'
    ensures BaseName(stem) != [] && BaseName(stem + ext) == BaseName(stem) + ext
  {
    assert BaseName(stem) == BaseName(stem[..|stem| - 1]) + [stem[|stem| - 1]];
    BaseNameAppend(stem, ext);
  }

  lemma ExtnameOfBase(path: string, b: string, ext: string)
    requires b != [] && LastComponent(path) == b + ext && b + ext != ".."
    requires ext != [] && ext[0] == '.' && '.' !in ext[1..]
    ensures Extname(path) == ext
  {
    ComponentExtensionOf(b, ext);
  }

  lemma ComponentExtensionOf(b: string, ext: string)
    requires b != [] && b + ext != ".."
    requires ext != [] && ext[0] == '.' && '.' !in ext[1..]
    ensures ComponentExtension(b + ext) == ext
  {
    DotSuffix(b, ext);
    LastIndexOfAfter(b, '.', ext[1..]);
  }

  lemma DotSuffix(b: string, ext: string)
    requires ext != [] && ext[0] == '.'
    ensures b + ext == b + ['.'] + ext[1..] && (b + ext)[|b|..] == ext
  {
  }

  /** Lower-casing keeps suffixes: the extension lower-cased ends the lower-cased path. */
  lemma LowerSuffix(file: string, ext: string)
    requires EndsWith(file, ext)
    ensures EndsWith(ToLower(file), ToLower(ext))
  {
    assert ToLower(file)[|file| - |ext|..] == ToLower(ext);
  }

  lemma ExtnameEndsPath(file: string)
    ensures EndsWith(DropTrailingSlashes(file), Extname(file))
  {
    var ext := Extname(file);
    var base := LastComponent(file);
    assert ext == base[|base| - |ext|..];
  }

  // ---------------------------------------------------------------------------
  // The retention policy.
  // ---------------------------------------------------------------------------

  /** `buildWhitelist`: the system markers together with the configured entries, lower-cased. */
  function BuildWhitelist(userWhitelist: seq<string>): (whitelist: set<string>)
    ensures forall t :: t in SystemWhitelist ==> t in whitelist
    ensures forall u :: u in userWhitelist ==> ToLower(u) in whitelist
    ensures forall t :: t in whitelist ==> t in SystemWhitelist || exists u :: u in userWhitelist && t == ToLower(u)
  {
    (set t | t in SystemWhitelist) + (set u | u in userWhitelist :: ToLower(u))
  }

  /** The text, after leading whitespace, opens a JSDoc block. */
  predicate IsDocComment(r: RemovalRange) {
    StartsWith(TrimStart(r.text), "/**")
  }

  /** `shouldRemove`: neither a kept JSDoc block nor a text mentioning a whitelisted token. */
  predicate ShouldRemove(r: RemovalRange, whitelist: set<string>, keepJSDoc: bool): (remove: bool)
    ensures keepJSDoc && IsDocComment(r) ==> !remove
    ensures forall token :: token in whitelist && Contains(ToLower(r.text), token) ==> !remove
    ensures !remove ==> (keepJSDoc && IsDocComment(r)) || exists token :: token in whitelist && Contains(ToLower(r.text), token)
  {
    && !(keepJSDoc && IsDocComment(r))
    && !(exists token :: token in whitelist && Contains(ToLower(r.text), token))
  }

  /**
   * With the whitelist built from the configuration, a range goes exactly when it is
   * not a kept JSDoc block, mentions no system marker, and mentions no configured
   * entry in any letter case.
   */
  lemma RetentionPolicy(r: RemovalRange, userWhitelist: seq<string>, keepJSDoc: bool)
    ensures ShouldRemove(r, BuildWhitelist(userWhitelist), keepJSDoc) <==>
      && !(keepJSDoc && IsDocComment(r))
      && (forall t :: t in SystemWhitelist ==> !Contains(ToLower(r.text), t))
      && (forall u :: u in userWhitelist ==> !Contains(ToLower(r.text), ToLower(u)))
  {
    var wl := BuildWhitelist(userWhitelist);
    if exists token :: token in wl && Contains(ToLower(r.text), token) {
      var token :| token in wl && Contains(ToLower(r.text), token);
      if token !in SystemWhitelist {
        var u :| u in userWhitelist && token == ToLower(u);
      }
    }
  }

  /** A system marker keeps a comment under any configuration. */
  lemma SystemMarkerKeeps(r: RemovalRange, userWhitelist: seq<string>, keepJSDoc: bool, marker: string)
    requires marker in SystemWhitelist && Contains(ToLower(r.text), marker)
    ensures !ShouldRemove(r, BuildWhitelist(userWhitelist), keepJSDoc)
  {
    assert marker in BuildWhitelist(userWhitelist);
  }

  // ---------------------------------------------------------------------------
  // Previews: whitespace runs become one space, trimmed, cut to 50 characters.
  // ---------------------------------------------------------------------------

  /** Every whitespace character is a plain space and no two of them are adjacent. */
  ghost predicate SingleSpaced(s: string) {
    && (forall i :: 0 <= i < |s| && IsWhitespace(s[i]) ==> s[i] == ' ')
    && (forall i, j {:trigger s[i], s[j]} :: 0 <= i < j < |s| && j == i + 1 ==> !(IsWhitespace(s[i]) && IsWhitespace(s[j])))
  }

  /** The characters of `s` that are not whitespace, in order. */
  function Visible(s: string): string {
    if s == [] then [] else (if IsWhitespace(s[0]) then [] else [s[0]]) + Visible(s[1..])
  }

  /** `s.replace(/\s+/g, ' ')`. */
  function CollapseWhitespace(s: string): (r: string)
    ensures SingleSpaced(r)
    ensures r == [] <==> s == []
    ensures r != [] ==> (IsWhitespace(r[0]) <==> IsWhitespace(s[0]))
    decreases |s|
  {
    if s == [] then []
    else if IsWhitespace(s[0]) then
      var rest := CollapseWhitespace(TrimStart(s[1..]));
      SingleSpacedCons(' ', rest);
      [' '] + rest
    else
      var rest := CollapseWhitespace(s[1..]);
      SingleSpacedCons(s[0], rest);
      [s[0]] + rest
  }

  lemma SingleSpacedCons(c: char, rest: string)
    requires SingleSpaced(rest)
    requires IsWhitespace(c) ==> c == ' ' && (rest == [] || !IsWhitespace(rest[0]))
    ensures SingleSpaced([c] + rest)
  {
    var s := [c] + rest;
    forall i | 0 <= i < |s| - 1
      ensures !(IsWhitespace(s[i]) && IsWhitespace(s[i + 1]))
    {
      if i > 0 {
        assert s[i] == rest[i - 1] && s[i + 1] == rest[i];
      }
    }
  }

  /** Text without whitespace is left as it is. */
  lemma {:induction false} CollapseNoWhitespace(s: string)
    requires forall i :: 0 <= i < |s| ==> !IsWhitespace(s[i])
    ensures CollapseWhitespace(s) == s
    decreases |s|
  {
    if s != [] {
      CollapseNoWhitespace(s[1..]);
      assert [s[0]] + s[1..] == s;
    }
  }

  /**
   * A whitespace run between two pieces becomes one space: the pieces are collapsed on
   * their own and joined by a single space.
   */
  lemma {:induction false} CollapseRun(a: string, w: string, b: string)
    requires a == [] || !IsWhitespace(a[|a| - 1])
    requires w != [] && forall i :: 0 <= i < |w| ==> IsWhitespace(w[i])
    requires b == [] || !IsWhitespace(b[0])
    ensures CollapseWhitespace(a + w + b) == CollapseWhitespace(a) + " " + CollapseWhitespace(b)
    decreases |a|, 1
  {
    if a == [] {
      CollapseRunFront(a, w, b);
    } else if IsWhitespace(a[0]) {
      CollapseRunSpaceCase(a, w, b);
    } else {
      CollapseRunVisibleCase(a, w, b);
    }
  }

  lemma {:induction false} CollapseRunSpaceCase(a: string, w: string, b: string)
    requires a != [] && IsWhitespace(a[0]) && !IsWhitespace(a[|a| - 1])
    requires w != [] && forall i :: 0 <= i < |w| ==> IsWhitespace(w[i])
    requires b == [] || !IsWhitespace(b[0])
    ensures CollapseWhitespace(a + w + b) == CollapseWhitespace(a) + " " + CollapseWhitespace(b)
    decreases |a|, 0
  {
    TrimStartShorter(a);
    CollapseRun(TrimStart(a), w, b);
    CollapseRunAfterSpace(a, w, b);
  }

  lemma {:induction false} CollapseRunVisibleCase(a: string, w: string, b: string)
    requires a != [] && !IsWhitespace(a[0]) && !IsWhitespace(a[|a| - 1])
    requires w != [] && forall i :: 0 <= i < |w| ==> IsWhitespace(w[i])
    requires b == [] || !IsWhitespace(b[0])
    ensures CollapseWhitespace(a + w + b) == CollapseWhitespace(a) + " " + CollapseWhitespace(b)
    decreases |a|, 0
  {
    LastOfTail(a);
    CollapseRun(a[1..], w, b);
    CollapseRunAfterVisible(a, w, b);
  }

  lemma LastOfTail(a: string)
    requires a != []
    ensures a[1..] == [] || a[1..][|a[1..]| - 1] == a[|a| - 1]
  {
  }

  lemma CollapseRunFront(a: string, w: string, b: string)
    requires a == []
    requires w != [] && forall i :: 0 <= i < |w| ==> IsWhitespace(w[i])
    requires b == [] || !IsWhitespace(b[0])
    ensures CollapseWhitespace(a + w + b) == CollapseWhitespace(a) + " " + CollapseWhitespace(b)
  {
    EmptyFront(a, w, b);
    TrimStartRun(w, b);
    CollapseSpaceRun(w + b);
    assert CollapseWhitespace(a) == [];
    EmptyFront(CollapseWhitespace(a), " ", CollapseWhitespace(b));
  }

  lemma EmptyFront(e: string, x: string, y: string)
    requires e == []
    ensures e + x + y == x + y
  {
  }

  lemma CollapseRunAfterSpace(a: string, w: string, b: string)
    requires a != [] && IsWhitespace(a[0]) && !IsWhitespace(a[|a| - 1])
    requires CollapseWhitespace(TrimStart(a) + w + b) == CollapseWhitespace(TrimStart(a)) + " " + CollapseWhitespace(b)
    ensures CollapseWhitespace(a + w + b) == CollapseWhitespace(a) + " " + CollapseWhitespace(b)
  {
    TrimStartConcat(a, w + b);
    ConcatAssoc(a, w, b);
    ConcatAssoc(TrimStart(a), w, b);
    CollapseSpaceRun(a + w + b);
    CollapseSpaceRun(a);
    PrefixJoin(" ", CollapseWhitespace(TrimStart(a)), CollapseWhitespace(b));
  }

  lemma CollapseRunAfterVisible(a: string, w: string, b: string)
    requires a != [] && !IsWhitespace(a[0])
    requires CollapseWhitespace(a[1..] + w + b) == CollapseWhitespace(a[1..]) + " " + CollapseWhitespace(b)
    ensures CollapseWhitespace(a + w + b) == CollapseWhitespace(a) + " " + CollapseWhitespace(b)
  {
    DropFirstOfConcat(a, w, b);
    CollapseVisible(a + w + b);
    CollapseVisible(a);
    PrefixJoin([a[0]], CollapseWhitespace(a[1..]), CollapseWhitespace(b));
  }

  /** Text opening with whitespace and ending visibly keeps a shorter tail, ending the same way. */
  lemma TrimStartShorter(a: string)
    requires a != [] && IsWhitespace(a[0]) && !IsWhitespace(a[|a| - 1])
    ensures |TrimStart(a)| < |a| && TrimStart(a) != [] && TrimStart(a)[|TrimStart(a)| - 1] == a[|a| - 1]
  {
  }

  /** One step of the collapse at a visible character. */
  lemma CollapseVisible(s: string)
    requires s != [] && !IsWhitespace(s[0])
    ensures CollapseWhitespace(s) == [s[0]] + CollapseWhitespace(s[1..])
  {
  }

  /** At whitespace the collapse is one space, then the collapse of the text after the run. */
  lemma CollapseSpaceRun(s: string)
    requires s != [] && IsWhitespace(s[0])
    ensures CollapseWhitespace(s) == " " + CollapseWhitespace(TrimStart(s))
  {
  }

  lemma DropFirstOfConcat(a: string, w: string, b: string)
    requires a != []
    ensures (a + w + b)[1..] == a[1..] + w + b
  {
  }

  lemma ConcatAssoc(p: string, q: string, r: string)
    ensures p + (q + r) == p + q + r
  {
  }

  lemma PrefixJoin(c: string, x: string, y: string)
    ensures c + (x + " " + y) == c + x + " " + y
  {
  }

  /** Leading whitespace followed by a visible character or nothing is trimmed away whole. */
  lemma {:induction false} TrimStartRun(w: string, b: string)
    requires forall i :: 0 <= i < |w| ==> IsWhitespace(w[i])
    requires b == [] || !IsWhitespace(b[0])
    ensures TrimStart(w + b) == b
    decreases |w|
  {
    if w == [] {
      assert w + b == b;
    } else {
      assert (w + b)[1..] == w[1..] + b;
      TrimStartRun(w[1..], b);
    }
  }

  /** Trimming the start of a piece that ends in a visible character does not reach past it. */
  lemma {:induction false} TrimStartConcat(x: string, y: string)
    requires x != [] && !IsWhitespace(x[|x| - 1])
    ensures TrimStart(x + y) == TrimStart(x) + y
    decreases |x|
  {
    if IsWhitespace(x[0]) {
      assert (x + y)[1..] == x[1..] + y;
      TrimStartConcat(x[1..], y);
    }
  }

  lemma {:induction false} VisibleConcat(a: string, b: string)
    ensures Visible(a + b) == Visible(a) + Visible(b)
  {
    if a != [] {
      assert (a + b)[1..] == a[1..] + b;
      VisibleConcat(a[1..], b);
    } else {
      assert a + b == b;
    }
  }

  lemma {:induction false} VisibleTrimStart(s: string)
    ensures Visible(TrimStart(s)) == Visible(s)
  {
    if s != [] && IsWhitespace(s[0]) {
      VisibleTrimStart(s[1..]);
    }
  }

  lemma {:induction false} VisibleTrimEnd(s: string)
    ensures Visible(TrimEnd(s)) == Visible(s)
    decreases |s|
  {
    if s != [] && IsWhitespace(s[|s| - 1]) {
      VisibleTrimEnd(s[..|s| - 1]);
      assert s == s[..|s| - 1] + [s[|s| - 1]];
      VisibleConcat(s[..|s| - 1], [s[|s| - 1]]);
    }
  }

  /** Collapsing whitespace keeps every other character, in order. */
  lemma {:induction false} CollapseKeepsVisible(s: string)
    ensures Visible(CollapseWhitespace(s)) == Visible(s)
    decreases |s|
  {
    if s != [] {
      if IsWhitespace(s[0]) {
        CollapseKeepsVisible(TrimStart(s[1..]));
        VisibleTrimStart(s[1..]);
        assert Visible(CollapseWhitespace(s)) == Visible(CollapseWhitespace(TrimStart(s[1..])));
      } else {
        CollapseKeepsVisible(s[1..]);
        assert ([s[0]] + CollapseWhitespace(s[1..]))[1..] == CollapseWhitespace(s[1..]);
      }
    }
  }

  lemma SingleSpacedSlice(s: string, a: nat, b: nat)
    requires SingleSpaced(s) && a <= b <= |s|
    ensures SingleSpaced(s[a..b])
  {
    assert forall i :: 0 <= i < b - a ==> s[a..b][i] == s[a + i];
  }

  lemma SingleSpacedEllipsis(s: string)
    requires SingleSpaced(s)
    ensures SingleSpaced(s + "...")
  {
    var t := s + "...";
    forall i | 0 <= i < |t|
      ensures IsWhitespace(t[i]) ==> t[i] == ' '
      ensures i < |t| - 1 ==> !(IsWhitespace(t[i]) && IsWhitespace(t[i + 1]))
    {
      if i >= |s| {
        assert t[i] == '.';
      }
      if i + 1 >= |s| && i + 1 < |t| {
        assert t[i + 1] == '.';
      }
    }
  }

  /** The one-line form of a comment before it is cut to length. */
  function PreviewLine(text: string): string {
    Trim(CollapseWhitespace(text))
  }

  /** The one-line form is single-spaced, has no blank ends and keeps every visible character. */
  lemma PreviewLineShape(text: string)
    ensures SingleSpaced(PreviewLine(text))
    ensures PreviewLine(text) == [] || (!IsWhitespace(PreviewLine(text)[0]) && !IsWhitespace(PreviewLine(text)[|PreviewLine(text)| - 1]))
    ensures Visible(PreviewLine(text)) == Visible(text)
  {
    PreviewLineSpaced(text);
    PreviewLineVisible(text);
  }

  lemma PreviewLineSpaced(text: string)
    ensures SingleSpaced(PreviewLine(text))
  {
    TrimSingleSpaced(CollapseWhitespace(text));
  }

  lemma TrimSingleSpaced(s: string)
    requires SingleSpaced(s)
    ensures SingleSpaced(Trim(s))
  {
    var a := TrimIsSlice(s);
    SingleSpacedSlice(s, a, a + |Trim(s)|);
  }

  lemma PreviewLineVisible(text: string)
    ensures Visible(PreviewLine(text)) == Visible(text)
  {
    var collapsed := CollapseWhitespace(text);
    CollapseKeepsVisible(text);
    VisibleTrimStart(collapsed);
    VisibleTrimEnd(TrimStart(collapsed));
  }

  /** `normalizePreview`: at most 50 characters, on one line, without surrounding blanks. */
  function NormalizePreview(text: string): (p: string)
    ensures |p| <= 50
    ensures SingleSpaced(p)
    ensures p == [] || (!IsWhitespace(p[0]) && !IsWhitespace(p[|p| - 1]))
  {
    PreviewLineShape(text);
    CutPreview(PreviewLine(text))
  }

  /** The length cut of `normalizePreview`, on a one-line form. */
  function CutPreview(line: string): (p: string)
    requires SingleSpaced(line) && IsTrimmed(line)
    ensures |p| <= 50
    ensures SingleSpaced(p) && IsTrimmed(p)
  {
    if |line| <= 50 then line
    else
      SingleSpacedSlice(line, 0, 47);
      SingleSpacedEllipsis(line[..47]);
      line[..47] + "..."
  }

  /**
   * A one-line form of at most 50 characters is the preview itself, keeping every visible
   * character of the comment; a longer one is cut to its first 47 characters and `...`.
   */
  lemma PreviewContent(text: string)
    ensures |PreviewLine(text)| <= 50 ==>
      NormalizePreview(text) == PreviewLine(text) && Visible(NormalizePreview(text)) == Visible(text)
    ensures |PreviewLine(text)| > 50 ==>
      NormalizePreview(text) == PreviewLine(text)[..47] + "..."
      && StartsWith(Visible(text), Visible(NormalizePreview(text)[..47]))
  {
    PreviewLineShape(text);
    CutPreviewContent(PreviewLine(text));
  }

  lemma CutPreviewContent(line: string)
    requires SingleSpaced(line) && IsTrimmed(line)
    ensures |line| <= 50 ==> CutPreview(line) == line
    ensures |line| > 50 ==>
      CutPreview(line) == line[..47] + "..."
      && StartsWith(Visible(line), Visible(CutPreview(line)[..47]))
  {
    if |line| > 50 {
      var p := CutPreview(line);
      assert p[..47] == line[..47];
      assert line == line[..47] + line[47..];
      VisibleConcat(line[..47], line[47..]);
    }
  }

  // ---------------------------------------------------------------------------
  // Replacements: a space only where removal would fuse two identifiers.
  // ---------------------------------------------------------------------------

  /** `/[A-Za-z0-9_$]/`. */
  predicate IsIdentifierChar(c: char) {
    IsAsciiLetter(c) || IsDigit(c) || c == '_' || c == '$'
  }

  /**
   * `getReplacement`, reading the neighbours in the ORIGINAL text. A start past the
   * end of the text reads `undefined`, whose spelling passes the identifier test.
   */
  function GetReplacement(original: string, r: RemovalRange): (rep: string)
    ensures rep == " " || rep == ""
    ensures rep == " " <==>
      && r.kind == Comment && 0 < r.start && r.end < |original|
      && (r.start > |original| || IsIdentifierChar(original[r.start - 1]))
      && IsIdentifierChar(original[r.end])
  {
    if r.kind == Jsx then ""
    else
      var beforeIsIdentifier := r.start > 0 && (r.start > |original| || IsIdentifierChar(original[r.start - 1]));
      var afterIsIdentifier := r.end < |original| && IsIdentifierChar(original[r.end]);
      if beforeIsIdentifier && afterIsIdentifier then assert r.kind == Comment; " " else assert |""| != |" "|; ""
  }

  /** JSX containers always vanish without trace. */
  lemma JsxLeavesNothing(original: string, r: RemovalRange)
    requires r.kind == Jsx
    ensures GetReplacement(original, r) == ""
  {
  }

  // ---------------------------------------------------------------------------
  // Ordering: a stable sort on `start`, largest first.
  // ---------------------------------------------------------------------------

  predicate SortedDesc(rs: seq<RemovalRange>) {
    forall i, j :: 0 <= i < j < |rs| ==> rs[i].start >= rs[j].start
  }

  /** Insert `r` after every element whose start is at least its own (so ties keep their order). */
  function InsertDesc(r: RemovalRange, sorted: seq<RemovalRange>): (out: seq<RemovalRange>)
    ensures multiset(out) == multiset(sorted) + multiset{r}
    ensures out[0] == r || (sorted != [] && out[0] == sorted[0])
    ensures SortedDesc(sorted) ==> SortedDesc(out)
  {
    if sorted == [] then [r]
    else if sorted[0].start >= r.start then
      var rest := InsertDesc(r, sorted[1..]);
      InsertDescStep(r, sorted, rest);
      [sorted[0]] + rest
    else
      SortedCons(r, sorted);
      [r] + sorted
  }

  /** The recursive step of `InsertDesc`: the head of `sorted` stays in front. */
  lemma InsertDescStep(r: RemovalRange, sorted: seq<RemovalRange>, rest: seq<RemovalRange>)
    requires sorted != [] && sorted[0].start >= r.start && rest != []
    requires multiset(rest) == multiset(sorted[1..]) + multiset{r}
    requires rest[0] == r || (|sorted| > 1 && rest[0] == sorted[1])
    requires SortedDesc(sorted[1..]) ==> SortedDesc(rest)
    ensures multiset([sorted[0]] + rest) == multiset(sorted) + multiset{r}
    ensures SortedDesc(sorted) ==> SortedDesc([sorted[0]] + rest)
  {
    assert sorted == [sorted[0]] + sorted[1..];
    if SortedDesc(sorted) {
      assert SortedDesc(sorted[1..]);
      assert |sorted| > 1 ==> sorted[0].start >= sorted[1].start;
      SortedCons(sorted[0], rest);
    }
  }

  /** A range no later than the head of a sorted list can go in front of it. */
  lemma SortedCons(x: RemovalRange, rest: seq<RemovalRange>)
    ensures SortedDesc(rest) && (rest == [] || x.start >= rest[0].start) ==> SortedDesc([x] + rest)
  {
    if SortedDesc(rest) && (rest == [] || x.start >= rest[0].start) {
      forall i, j | 0 <= i < j < |[x] + rest|
        ensures ([x] + rest)[i].start >= ([x] + rest)[j].start
      {
        if i == 0 {
          assert rest[0].start >= rest[j - 1].start;
        }
      }
    }
  }

  /** `[...candidates].sort((a, b) => b.start - a.start)`, as a stable insertion sort. */
  function SortDesc(rs: seq<RemovalRange>): (out: seq<RemovalRange>)
    ensures multiset(out) == multiset(rs)
    ensures SortedDesc(out)
  {
    if rs == [] then []
    else
      assert rs == rs[..|rs| - 1] + [rs[|rs| - 1]];
      InsertDesc(rs[|rs| - 1], SortDesc(rs[..|rs| - 1]))
  }

  // ---------------------------------------------------------------------------
  // The edit loop and what it computes on well-separated ranges.
  // ---------------------------------------------------------------------------

  /** One iteration of the edit loop: the text before `r.start`, the replacement, the text from `r.end`. */
  function Splice(current: string, r: RemovalRange, replacement: string): string {
    JsSlice(current, 0, r.start) + replacement + JsSliceFrom(current, r.end)
  }

  /** The edit loop run over `sorted`, each replacement chosen from the original text. */
  function ApplyDesc(original: string, current: string, sorted: seq<RemovalRange>): string
    decreases |sorted|
  {
    if sorted == [] then current
    else ApplyDesc(original, Splice(current, sorted[0], GetReplacement(original, sorted[0])), sorted[1..])
  }

  /** Each range lies below the previous range's start (and the first below `upto`). */
  predicate ChainedBelow(desc: seq<RemovalRange>, upto: nat) {
    desc == [] || (desc[0].start <= desc[0].end <= upto && ChainedBelow(desc[1..], desc[0].start))
  }

  /**
   * The reference result: the original text up to `upto` with every range cut out and
   * its replacement put in its place, and everything between the ranges kept as it was.
   */
  function RebuildDesc(original: string, desc: seq<RemovalRange>, upto: nat): string
    requires upto <= |original| && ChainedBelow(desc, upto)
  {
    if desc == [] then original[..upto]
    else RebuildDesc(original, desc[1..], desc[0].start) + GetReplacement(original, desc[0]) + original[desc[0].end..upto]
  }

  /** On chained ranges the edit loop computes the reference result, whatever follows `upto`. */
  lemma {:induction false} ApplyDescRebuild(original: string, desc: seq<RemovalRange>, upto: nat, tail: string)
    requires upto <= |original| && ChainedBelow(desc, upto)
    ensures ApplyDesc(original, original[..upto] + tail, desc) == RebuildDesc(original, desc, upto) + tail
    decreases |desc|
  {
    if desc != [] {
      var r := desc[0];
      var current := original[..upto] + tail;
      var rep := GetReplacement(original, r);
      var rest := rep + original[r.end..upto] + tail;
      assert JsSlice(current, 0, r.start) == original[..r.start];
      assert JsSliceFrom(current, r.end) == original[r.end..upto] + tail;
      assert Splice(current, r, rep) == original[..r.start] + rest;
      ApplyDescRebuild(original, desc[1..], r.start, rest);
    }
  }

  function Span(r: RemovalRange): int { r.end - r.start }

  /** The number of characters the ranges cover. */
  function RemovedLength(rs: seq<RemovalRange>): int {
    if rs == [] then 0 else Span(rs[0]) + RemovedLength(rs[1..])
  }

  /** The number of ranges replaced by a space. */
  function SpaceCount(original: string, rs: seq<RemovalRange>): nat {
    if rs == [] then 0 else (if GetReplacement(original, rs[0]) == " " then 1 else 0) + SpaceCount(original, rs[1..])
  }

  /** The reference result is shorter by the removed characters and longer by the inserted spaces. */
  lemma {:induction false} RebuildLength(original: string, desc: seq<RemovalRange>, upto: nat)
    requires upto <= |original| && ChainedBelow(desc, upto)
    ensures |RebuildDesc(original, desc, upto)| == upto - RemovedLength(desc) + SpaceCount(original, desc)
    decreases |desc|
  {
    if desc != [] {
      RebuildLength(original, desc[1..], desc[0].start);
    }
  }

  lemma {:induction false} SumsAppend(original: string, rs: seq<RemovalRange>, r: RemovalRange)
    ensures RemovedLength(rs + [r]) == RemovedLength(rs) + Span(r)
    ensures SpaceCount(original, rs + [r]) == SpaceCount(original, rs) + (if GetReplacement(original, r) == " " then 1 else 0)
  {
    if rs != [] {
      assert (rs + [r])[1..] == rs[1..] + [r];
      SumsAppend(original, rs[1..], r);
    } else {
      assert [r][1..] == [];
    }
  }

  lemma {:induction false} SumsInsert(original: string, r: RemovalRange, sorted: seq<RemovalRange>)
    ensures RemovedLength(InsertDesc(r, sorted)) == Span(r) + RemovedLength(sorted)
    ensures SpaceCount(original, InsertDesc(r, sorted)) == (if GetReplacement(original, r) == " " then 1 else 0) + SpaceCount(original, sorted)
  {
    if sorted != [] && sorted[0].start >= r.start {
      SumsInsert(original, r, sorted[1..]);
      assert InsertDesc(r, sorted)[1..] == InsertDesc(r, sorted[1..]);
    } else if sorted == [] {
      assert [r][1..] == [];
    } else {
      assert ([r] + sorted)[1..] == sorted;
    }
  }

  /** Sorting places the last range into the sorted rest. */
  lemma SortDescLast(rs: seq<RemovalRange>)
    requires rs != []
    ensures SortDesc(rs) == InsertDesc(rs[|rs| - 1], SortDesc(rs[..|rs| - 1]))
  {
  }

  /** Sorting neither adds nor drops removed characters or spaces. */
  lemma SumsSort(original: string, rs: seq<RemovalRange>)
    ensures RemovedLength(SortDesc(rs)) == RemovedLength(rs)
    ensures SpaceCount(original, SortDesc(rs)) == SpaceCount(original, rs)
  {
    SortKeepsRemovedLength(rs);
    SortKeepsSpaceCount(original, rs);
  }

  lemma {:induction false} SortKeepsRemovedLength(rs: seq<RemovalRange>)
    ensures RemovedLength(SortDesc(rs)) == RemovedLength(rs)
  {
    if rs != [] {
      SortDescLast(rs);
      SortKeepsRemovedLength(rs[..|rs| - 1]);
      InsertKeepsSums([], rs, SortDesc(rs[..|rs| - 1]));
    }
  }

  lemma {:induction false} SortKeepsSpaceCount(original: string, rs: seq<RemovalRange>)
    ensures SpaceCount(original, SortDesc(rs)) == SpaceCount(original, rs)
  {
    if rs != [] {
      SortDescLast(rs);
      SortKeepsSpaceCount(original, rs[..|rs| - 1]);
      InsertKeepsSums(original, rs, SortDesc(rs[..|rs| - 1]));
    }
  }

  /** Inserting the last range into a list with the sums of the others gives the sums of all. */
  lemma InsertKeepsSums(original: string, rs: seq<RemovalRange>, sorted: seq<RemovalRange>)
    requires rs != []
    ensures RemovedLength(sorted) == RemovedLength(rs[..|rs| - 1]) ==>
      RemovedLength(InsertDesc(rs[|rs| - 1], sorted)) == RemovedLength(rs)
    ensures SpaceCount(original, sorted) == SpaceCount(original, rs[..|rs| - 1]) ==>
      SpaceCount(original, InsertDesc(rs[|rs| - 1], sorted)) == SpaceCount(original, rs)
  {
    var init, last := rs[..|rs| - 1], rs[|rs| - 1];
    SumsInsert(original, last, sorted);
    SumsAppend(original, init, last);
    assert init + [last] == rs;
  }

  /** Two ranges that do not overlap. */
  predicate Apart(a: RemovalRange, b: RemovalRange) {
    a.end <= b.start || b.end <= a.start
  }

  /** No two ranges of the sequence overlap. */
  predicate PairwiseApart(rs: seq<RemovalRange>) {
    forall i, j :: 0 <= i < j < |rs| ==> Apart(rs[i], rs[j])
  }

  predicate Disjoint(rs: seq<RemovalRange>) {
    rs == [] || ((forall y :: y in rs[1..] ==> Apart(rs[0], y)) && Disjoint(rs[1..]))
  }

  lemma {:induction false} DisjointInsert(r: RemovalRange, sorted: seq<RemovalRange>)
    requires Disjoint(sorted) && forall y :: y in sorted ==> Apart(r, y)
    ensures Disjoint(InsertDesc(r, sorted))
  {
    if sorted == [] {
      assert [r][1..] == [];
    } else if sorted[0].start >= r.start {
      var head, tail := sorted[0], sorted[1..];
      var inserted := InsertDesc(r, tail);
      DisjointInsert(r, tail);
      assert InsertDesc(r, sorted) == [head] + inserted;
      assert ([head] + inserted)[1..] == inserted;
      assert head in sorted;
      forall y | y in inserted
        ensures Apart(head, y)
      {
        assert y in multiset(inserted);
        if y != r {
          assert y in multiset(tail);
        }
      }
    } else {
      assert ([r] + sorted)[1..] == sorted;
    }
  }

  /** Sorting ranges that do not overlap gives ranges that do not overlap. */
  lemma {:induction false} SortDescDisjoint(rs: seq<RemovalRange>)
    requires PairwiseApart(rs)
    ensures Disjoint(SortDesc(rs))
  {
    if rs != [] {
      var init, last := rs[..|rs| - 1], rs[|rs| - 1];
      SortDescDisjoint(init);
      forall y | y in SortDesc(init)
        ensures Apart(last, y)
      {
        assert y in multiset(init);
        var i :| 0 <= i < |init| && init[i] == y;
        assert Apart(rs[i], rs[|rs| - 1]);
      }
      DisjointInsert(last, SortDesc(init));
    }
  }

  /** Non-empty, non-overlapping ranges inside the text, sorted by start, are chained. */
  lemma {:induction false} DisjointChained(desc: seq<RemovalRange>, upto: nat)
    requires SortedDesc(desc) && Disjoint(desc)
    requires forall r :: r in desc ==> r.start < r.end <= upto
    ensures ChainedBelow(desc, upto)
    decreases |desc|
  {
    if desc != [] {
      forall r | r in desc[1..]
        ensures r.start < r.end <= desc[0].start
      {
        var j :| 0 <= j < |desc[1..]| && desc[1..][j] == r;
        assert desc[j + 1] == r;
      }
      DisjointChained(desc[1..], desc[0].start);
    }
  }

  // ---------------------------------------------------------------------------
  // One file: `cleanSource`.
  // ---------------------------------------------------------------------------

  /** `ranges.filter(range => shouldRemove(range, whitelist, keepJSDoc))`. */
  function RemovalCandidates(ranges: seq<RemovalRange>, whitelist: set<string>, keepJSDoc: bool): (cands: seq<RemovalRange>)
    ensures forall r :: r in cands <==> r in ranges && ShouldRemove(r, whitelist, keepJSDoc)
    ensures IsSubsequence(cands, ranges)
  {
    var keep := r => ShouldRemove(r, whitelist, keepJSDoc);
    FilterIsSubsequence(ranges, keep);
    Filter(ranges, keep)
  }

  /** The ranges of a file that `cleanSource` removes, in collection order. */
  function Candidates(input: SourceInput, whitelist: set<string>, keepJSDoc: bool): seq<RemovalRange> {
    RemovalCandidates(CollectedRanges(input), whitelist, keepJSDoc)
  }

  /** The previews of the first three candidates. */
  function Previews(cands: seq<RemovalRange>): seq<string> {
    seq(Min(3, |cands|), i requires 0 <= i < Min(3, |cands|) => NormalizePreview(cands[i].text))
  }

  /** What `cleanSource` returns for a file. */
  function Cleaned(input: SourceInput, whitelist: set<string>, keepJSDoc: bool): (res: CleanResult)
    ensures var cands := Candidates(input, whitelist, keepJSDoc);
      && res.removed == |cands|
      && (res.removed == 0 ==> res.nextContent == input.content && res.previews == [])
      && |res.previews| == Min(3, res.removed)
      && (forall i :: 0 <= i < |res.previews| ==> |res.previews[i]| <= 50 && res.previews[i] == NormalizePreview(cands[i].text))
      && (forall r :: r in cands <==> r in CollectedRanges(input) && ShouldRemove(r, whitelist, keepJSDoc))
  {
    var cands := Candidates(input, whitelist, keepJSDoc);
    if |cands| == 0 then CleanResult(input.content, 0, [])
    else CleanResult(ApplyDesc(input.content, input.content, SortDesc(cands)), |cands|, Previews(cands))
  }

  /**
   * `cleanSource`: collect, filter, preview, sort, then splice the candidates out from
   * the highest start down, each replacement decided on the original text.
   */
  method CleanSource(input: SourceInput, whitelist: set<string>, keepJSDoc: bool) returns (res: CleanResult)
    ensures res == Cleaned(input, whitelist, keepJSDoc)
  {
    var ranges := CollectCommentRanges(input);
    var candidates := RemovalCandidates(ranges, whitelist, keepJSDoc);
    if |candidates| == 0 {
      return CleanResult(input.content, 0, []);
    }
    var previews := Previews(candidates);
    var sorted := SortDesc(candidates);
    var nextContent := input.content;
    for i := 0 to |sorted|
      invariant ApplyDesc(input.content, nextContent, sorted[i..]) == ApplyDesc(input.content, input.content, sorted)
    {
      var range := sorted[i];
      var replacement := GetReplacement(input.content, range);
      assert sorted[i..][1..] == sorted[i + 1..];
      nextContent := JsSlice(nextContent, 0, range.start) + replacement + JsSliceFrom(nextContent, range.end);
    }
    assert sorted[|sorted|..] == [];
    res := CleanResult(nextContent, |candidates|, previews);
  }

  /**
   * On non-empty ranges inside the text that do not overlap (as the compiler's comment
   * ranges are), the edit loop computes the reference result: every range cut out, a
   * space where two identifiers would otherwise fuse, all text between ranges kept;
   * the length drops by the removed characters and grows by the spaces.
   */
  lemma EditLoopRebuilds(content: string, cands: seq<RemovalRange>)
    requires PairwiseApart(cands)
    requires forall r :: r in cands ==> r.start < r.end <= |content|
    ensures ChainedBelow(SortDesc(cands), |content|)
    ensures ApplyDesc(content, content, SortDesc(cands)) == RebuildDesc(content, SortDesc(cands), |content|)
    ensures |ApplyDesc(content, content, SortDesc(cands))| == |content| - RemovedLength(cands) + SpaceCount(content, cands)
  {
    var sorted := SortDesc(cands);
    SortDescDisjoint(cands);
    forall r | r in sorted
      ensures r.start < r.end <= |content|
    {
      assert r in multiset(cands);
    }
    DisjointChained(sorted, |content|);
    assert content[..|content|] + [] == content;
    ApplyDescRebuild(content, sorted, |content|, []);
    assert RebuildDesc(content, sorted, |content|) + [] == RebuildDesc(content, sorted, |content|);
    RebuildLength(content, sorted, |content|);
    SumsSort(content, cands);
  }

  /** `cleanSource` on a file whose candidates do not overlap yields the reference result. */
  lemma CleanedRebuilds(input: SourceInput, whitelist: set<string>, keepJSDoc: bool)
    requires PairwiseApart(Candidates(input, whitelist, keepJSDoc))
    requires forall r :: r in Candidates(input, whitelist, keepJSDoc) ==> r.start < r.end <= |input.content|
    ensures ChainedBelow(SortDesc(Candidates(input, whitelist, keepJSDoc)), |input.content|)
    ensures Cleaned(input, whitelist, keepJSDoc).nextContent
         == RebuildDesc(input.content, SortDesc(Candidates(input, whitelist, keepJSDoc)), |input.content|)
    ensures |Cleaned(input, whitelist, keepJSDoc).nextContent|
         == |input.content| - RemovedLength(Candidates(input, whitelist, keepJSDoc))
            + SpaceCount(input.content, Candidates(input, whitelist, keepJSDoc))
  {
    var cands := Candidates(input, whitelist, keepJSDoc);
    EditLoopRebuilds(input.content, cands);
    if |cands| == 0 {
      assert input.content[..|input.content|] == input.content;
    }
  }

  /** A plain comment with no marker is removed under the default configuration. */
  lemma ShouldRemoveExample(r: RemovalRange, text: string)
    requires r.text == text && text == "/*c*/"
    ensures ShouldRemove(r, BuildWhitelist([]), true)
  {
    assert TrimStart(text) == text;
    assert text[..3] != "/**" by {
      assert text[..3][2] == 'c';
    }
    assert ToLower(text) == text;
    forall token | token in BuildWhitelist([])
      ensures !Contains(text, token)
    {
      assert token in SystemWhitelist;
      assert token != [] && token[0] != '/' && token[0] != '*' && token[0] != 'c';
      FirstCharAbsent(text, token);
    }
  }

  /** Text in which the first character of `pat` never appears does not contain `pat`. */
  lemma FirstCharAbsent(s: string, pat: string)
    requires pat != [] && pat[0] !in s
    ensures !Contains(s, pat)
  {
    forall i | 0 <= i <= |s|
      ensures !OccursAt(s, pat, i)
    {
      if i + |pat| <= |s| {
        assert s[i..i + |pat|][0] == s[i];
      }
    }
  }

  // ---------------------------------------------------------------------------
  // A batch: `cleanFiles`.
  // ---------------------------------------------------------------------------

  /** The summary and writes after one more file has been cleaned with `result`. */
  function TallyStep(before: (CleanSummary, seq<FileWrite>), file: SourceInput, result: CleanResult, dryRun: bool): (CleanSummary, seq<FileWrite>) {
    var (summary, writes) := before;
    (CleanSummary(summary.filesProcessed + 1,
                  summary.filesChanged + (if result.removed > 0 then 1 else 0),
                  summary.commentsRemoved + result.removed,
                  summary.reports + [FileCleanReport(file.file, result.removed, result.previews)]),
     writes + (if result.removed > 0 && !dryRun then [FileWrite(file.file, result.nextContent)] else []))
  }

  /** The comments removed over all results, added up from the first file. */
  function SumRemoved(results: seq<CleanResult>): nat {
    if results == [] then 0 else results[0].removed + SumRemoved(results[1..])
  }

  /** How many results removed at least one comment, counted from the first file. */
  function CountChanged(results: seq<CleanResult>): nat {
    if results == [] then 0 else (if results[0].removed > 0 then 1 else 0) + CountChanged(results[1..])
  }

  /** Both totals grow by the contribution of a result added at the end. */
  lemma {:induction false} TotalsSnoc(results: seq<CleanResult>, x: CleanResult)
    ensures SumRemoved(results + [x]) == SumRemoved(results) + x.removed
    ensures CountChanged(results + [x]) == CountChanged(results) + (if x.removed > 0 then 1 else 0)
    decreases |results|
  {
    if results != [] {
      assert (results + [x])[1..] == results[1..] + [x];
      TotalsSnoc(results[1..], x);
    }
  }

  /**
   * What a batch reports and writes once every file has its result: counters, one
   * report per file in input order, and the new text of every changed file unless it
   * is a dry run.
   */
  function Tally(files: seq<SourceInput>, results: seq<CleanResult>, dryRun: bool): (r: (CleanSummary, seq<FileWrite>))
    requires |files| == |results|
    ensures r.0.filesProcessed == |files| && |r.0.reports| == |files|
    ensures r.0.commentsRemoved == SumRemoved(results)
    ensures r.0.filesChanged == CountChanged(results)
    ensures |r.1| <= r.0.filesChanged <= |files|
    ensures r.0.filesChanged <= r.0.commentsRemoved
  {
    if files == [] then (CleanSummary(0, 0, 0, []), [])
    else
      var n := |files| - 1;
      assert results[..n] + [results[n]] == results;
      TotalsSnoc(results[..n], results[n]);
      TallyStep(Tally(files[..n], results[..n], dryRun), files[n], results[n], dryRun)
  }

  lemma TallySnoc(files: seq<SourceInput>, i: nat, results: seq<CleanResult>, dryRun: bool, r: CleanResult)
    requires i < |files| && |results| == i
    ensures Tally(files[..i + 1], results + [r], dryRun) == TallyStep(Tally(files[..i], results, dryRun), files[i], r, dryRun)
  {
    assert files[..i + 1][..i] == files[..i];
    assert (results + [r])[..i] == results;
  }

  lemma CleanedSnoc(files: seq<SourceInput>, whitelist: set<string>, keepJSDoc: bool, results: seq<CleanResult>, result: CleanResult)
    requires |results| < |files|
    requires forall k :: 0 <= k < |results| ==> results[k] == Cleaned(files[k], whitelist, keepJSDoc)
    requires result == Cleaned(files[|results|], whitelist, keepJSDoc)
    ensures forall k :: 0 <= k < |results| + 1 ==> (results + [result])[k] == Cleaned(files[k], whitelist, keepJSDoc)
  {
  }

  /** The bookkeeping `cleanFiles` does once a file has been cleaned. */
  method RecordResult(file: SourceInput, result: CleanResult, dryRun: bool, summary: CleanSummary, writes: seq<FileWrite>)
    returns (summary': CleanSummary, writes': seq<FileWrite>)
    ensures (summary', writes') == TallyStep((summary, writes), file, result, dryRun)
  {
    var filesChanged, commentsRemoved := summary.filesChanged, summary.commentsRemoved;
    writes' := writes;
    if result.removed > 0 {
      filesChanged := filesChanged + 1;
      commentsRemoved := commentsRemoved + result.removed;
      if !dryRun {
        writes' := writes' + [FileWrite(file.file, result.nextContent)];
      }
    }
    var reports := summary.reports + [FileCleanReport(file.file, result.removed, result.previews)];
    summary' := CleanSummary(summary.filesProcessed + 1, filesChanged, commentsRemoved, reports);
    assert summary' == TallyStep((summary, writes), file, result, dryRun).0;
    assert writes' == TallyStep((summary, writes), file, result, dryRun).1;
  }

  /** The cleaned result of every file, in input order. */
  function CleanedAll(files: seq<SourceInput>, whitelist: set<string>, keepJSDoc: bool): seq<CleanResult> {
    seq(|files|, i requires 0 <= i < |files| => Cleaned(files[i], whitelist, keepJSDoc))
  }

  /**
   * `cleanFiles`: clean every file in order, count changed files and removals, write
   * the changed files back unless it is a dry run, and report every file in input order.
   */
  method CleanFiles(files: seq<SourceInput>, userWhitelist: seq<string>, keepJSDoc: bool, dryRun: bool)
    returns (summary: CleanSummary, writes: seq<FileWrite>)
    ensures (summary, writes) == Tally(files, CleanedAll(files, BuildWhitelist(userWhitelist), keepJSDoc), dryRun)
  {
    var whitelist := BuildWhitelist(userWhitelist);
    ghost var results := [];
    summary, writes := CleanSummary(0, 0, 0, []), [];
    for i := 0 to |files|
      invariant |results| == i
      invariant forall k {:trigger Cleaned(files[k], whitelist, keepJSDoc)} :: 0 <= k < i ==> results[k] == Cleaned(files[k], whitelist, keepJSDoc)
      invariant (summary, writes) == Tally(files[..i], results, dryRun)
    {
      var result := CleanSource(files[i], whitelist, keepJSDoc);
      TallySnoc(files, i, results, dryRun, result);
      summary, writes := RecordResult(files[i], result, dryRun, summary, writes);
      CleanedSnoc(files, whitelist, keepJSDoc, results, result);
      results := results + [result];
    }
    assert files[..|files|] == files;
    assert results == CleanedAll(files, whitelist, keepJSDoc);
  }

  /**
   * The batch summary agrees with itself: every file processed and reported in input
   * order, no more changed files than files, at least one removal per changed file,
   * no removals exactly when no file changed, and one write per changed file (none in
   * a dry run), each carrying that file's cleaned text.
   */
  lemma {:induction false} TallyFacts(files: seq<SourceInput>, results: seq<CleanResult>, dryRun: bool)
    requires |files| == |results|
    ensures var (summary, writes) := Tally(files, results, dryRun);
      && summary.filesProcessed == |files|
      && |summary.reports| == |files|
      && (forall i :: 0 <= i < |files| ==>
            summary.reports[i] == FileCleanReport(files[i].file, results[i].removed, results[i].previews))
      && summary.filesChanged <= |files|
      && summary.filesChanged <= summary.commentsRemoved
      && (summary.commentsRemoved == 0 <==> summary.filesChanged == 0)
      && |writes| == (if dryRun then 0 else summary.filesChanged)
      && (forall w :: w in writes ==>
            exists i :: 0 <= i < |files| && files[i].file == w.file && results[i].removed > 0 && results[i].nextContent == w.content)
  {
    TallyCounts(files, results, dryRun);
    TallyWrites(files, results, dryRun);
  }

  lemma {:induction false} TallyCounts(files: seq<SourceInput>, results: seq<CleanResult>, dryRun: bool)
    requires |files| == |results|
    ensures var (summary, writes) := Tally(files, results, dryRun);
      && summary.filesProcessed == |files|
      && |summary.reports| == |files|
      && (forall i :: 0 <= i < |files| ==>
            summary.reports[i] == FileCleanReport(files[i].file, results[i].removed, results[i].previews))
      && summary.filesChanged <= |files|
      && summary.filesChanged <= summary.commentsRemoved
      && (summary.commentsRemoved == 0 <==> summary.filesChanged == 0)
      && |writes| == (if dryRun then 0 else summary.filesChanged)
  {
    if files != [] {
      var n := |files| - 1;
      TallyCounts(files[..n], results[..n], dryRun);
    }
  }

  lemma {:induction false} TallyWrites(files: seq<SourceInput>, results: seq<CleanResult>, dryRun: bool)
    requires |files| == |results|
    ensures forall w :: w in Tally(files, results, dryRun).1 ==>
      exists i :: 0 <= i < |files| && files[i].file == w.file && results[i].removed > 0 && results[i].nextContent == w.content
  {
    if files != [] {
      var n := |files| - 1;
      TallyWrites(files[..n], results[..n], dryRun);
      var writes := Tally(files, results, dryRun).1;
      var prevWrites := Tally(files[..n], results[..n], dryRun).1;
      forall w | w in writes
        ensures exists i :: 0 <= i < |files| && files[i].file == w.file && results[i].removed > 0 && results[i].nextContent == w.content
      {
        if w in prevWrites {
          var i :| 0 <= i < n && files[..n][i].file == w.file && results[..n][i].removed > 0 && results[..n][i].nextContent == w.content;
          assert files[i] == files[..n][i] && results[i] == results[..n][i];
        } else {
          assert files[n].file == w.file && results[n].removed > 0 && results[n].nextContent == w.content;
        }
      }
    }
  }
}
