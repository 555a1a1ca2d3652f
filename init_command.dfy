/**
 * The decisions `kodu init` makes while writing a configuration: the defaults it
 * writes, the model choices and the custom-model check, the comma-separated lists it
 * reads, the whitelist merge and the `.gitignore` update.
 */
module InitCommand {
  import opened Wrappers
  import opened Strings
  import opened ConfigSchema

  // ---------------------------------------------------------------------------
  // The configuration `init` writes.
  // ---------------------------------------------------------------------------

  /** `buildDefaultCommandSettings`: 150 tokens for commit messages, 5000 for reviews. */
  function DefaultCommandSettings(): (cs: CommandsSection)
    ensures ValidCommands(cs)
  {
    assert (150.0).Floor == 150 && (5000.0).Floor == 5000;
    CommandsSection(
      Some(CommandSection(Some(map[MaxOutputTokensKey := Number(150.0)]))),
      Some(CommandSection(Some(map[MaxOutputTokensKey := Number(5000.0)]))))
  }

  const InitDefaultModel := "openai/gpt-5-mini"

  /** The `cleaner` and `packer` sections `init` writes (without `ignore` and binary detection). */
  const InitCleanerSection := CleanerSection(Some(["//!"]), Some(true), Some(true), None)
  const InitPackerSection := PackerSection(Some(PackerIgnoreDefault), Some(true), None)

  /** The sections `init` writes read back as the schema's own defaults. */
  lemma InitSectionsAreSchemaDefaults()
    ensures ParseCleaner(Some(InitCleanerSection)) == CleanerSectionDefault
    ensures ParsePacker(Some(InitPackerSection)) == PackerSectionDefault
  {
  }

  /** The models offered by the selection question. */
  const ModelChoices: seq<string> := [
    "openai/gpt-5-mini", "openai/gpt-4o-mini", "openai/gpt-4o",
    "anthropic/claude-3-5-sonnet-20241022", "google/gemini-2.5-flash"]

  /** `validate` of the custom-model input: an error message unless the input has a `/`. */
  function ValidateModelInput(input: string): (r: Option<string>)
    ensures r.None? <==> '/' in input
  {
    if '/' !in input then Some("Model must be in format provider/model-name") else None
  }

  /** Every model id the schema accepts passes the input check. */
  lemma SchemaValidModelPassesInput(input: string)
    requires IsValidModelId(input)
    ensures ValidateModelInput(input).None?
  {
    ValidModelIdSlash(input);
  }

  /** The input check is looser than the schema: a lone `/` passes it but not the schema. */
  lemma InputCheckLooserThanSchema()
    ensures ValidateModelInput("/").None? && !IsValidModelId("/")
  {
    assert "/"[0] == '/';
    assert ProviderLength("/") == 0;
  }

  /** An `llm` section as `init` writes it for a chosen model. */
  function InitLlmSection(model: string): LlmSection {
    LlmSection(Some(model), Some(DefaultApiKeyEnv), Some(DefaultCommandSettings()))
  }

  /** The section written for a model the schema accepts parses back with that model. */
  lemma InitLlmSectionParses(model: string, defaultModelName: string)
    requires IsValidModelId(model)
    ensures ParseLlm(InitLlmSection(model), defaultModelName).Success?
    ensures ParseLlm(InitLlmSection(model), defaultModelName).value.model == model
  {
  }

  // ---------------------------------------------------------------------------
  // Comma-separated lists.
  // ---------------------------------------------------------------------------

  /** `answer.split(',').map(trim).filter(nonEmpty)`, as in `askIgnoreList` and `mergeWhitelist`. */
  function ParseCommaList(answer: string): (items: seq<string>)
    ensures forall x :: x in items ==> NonEmpty(x) && ',' !in x && IsTrimmed(x)
    ensures forall p :: p in items <==> p in TrimEach(Split(answer, ',')) && NonEmpty(p)
    ensures IsSubsequence(items, TrimEach(Split(answer, ',')))
  {
    TrimEachShape(Split(answer, ','), ',');
    TrimNonEmpty(Split(answer, ','))
  }

  /** An item that can sit in a comma-separated list and come back unchanged. */
  predicate IsListItem(x: string) {
    NonEmpty(x) && ',' !in x && IsTrimmed(x)
  }

  /** The first item, then every later one preceded by a space. */
  function SpacedItems(xs: seq<string>): (r: seq<string>)
    requires |xs| >= 1
    ensures |r| == |xs| && r[0] == xs[0]
    ensures forall i :: 1 <= i < |xs| ==> r[i] == " " + xs[i]
  {
    [xs[0]] + seq(|xs| - 1, i requires 0 <= i < |xs| - 1 => " " + xs[i + 1])
  }

  lemma {:induction false} JoinCommaSpace(xs: seq<string>)
    requires |xs| >= 1
    ensures Join(xs, ", ") == Join(SpacedItems(xs), ",")
    decreases |xs|
  {
    if |xs| > 1 {
      JoinCommaSpace(xs[1..]);
      var rest := SpacedItems(xs[1..]);
      var tail := rest[1..];
      assert SpacedItems(xs)[1..] == [" " + xs[1]] + tail;
      JoinFront(" ", xs[1], tail, ",");
      assert [xs[1]] + tail == rest;
    }
  }

  lemma TrimAfterSpace(x: string)
    requires NonEmpty(x) && IsTrimmed(x)
    ensures Trim(" " + x) == x
  {
    assert (" " + x)[1..] == x;
    assert TrimStart(" " + x) == TrimStart(x);
    TrimUnchanged(x);
  }

  /**
   * The prompt's default answer is the list joined with `", "`; accepting it gives
   * back the same list.
   */
  lemma DefaultAnswerRoundTrip(xs: seq<string>)
    requires |xs| >= 1
    requires forall x :: x in xs ==> IsListItem(x)
    ensures ParseCommaList(Join(xs, ", ")) == xs
  {
    var spaced := SpacedItems(xs);
    JoinCommaSpace(xs);
    forall i | 0 <= i < |spaced|
      ensures ',' !in spaced[i]
    {
      SpacedItemNoComma(xs, i);
    }
    SplitJoin(spaced, ',');
    TrimSpacedItems(xs);
    FilterAll(xs, NonEmpty);
  }

  lemma SpacedItemNoComma(xs: seq<string>, i: nat)
    requires 0 <= i < |xs|
    requires forall x :: x in xs ==> IsListItem(x)
    ensures ',' !in SpacedItems(xs)[i]
  {
    assert xs[i] in xs;
    if i > 0 {
      assert SpacedItems(xs)[i] == " " + xs[i];
    }
  }

  lemma TrimSpacedItems(xs: seq<string>)
    requires |xs| >= 1
    requires forall x :: x in xs ==> IsListItem(x)
    ensures TrimEach(SpacedItems(xs)) == xs
  {
    var spaced := SpacedItems(xs);
    forall i | 0 <= i < |xs|
      ensures Trim(spaced[i]) == xs[i]
    {
      TrimSpacedItem(xs, i);
    }
  }

  lemma TrimSpacedItem(xs: seq<string>, i: nat)
    requires 0 <= i < |xs|
    requires forall x :: x in xs ==> IsListItem(x)
    ensures Trim(SpacedItems(xs)[i]) == xs[i]
  {
    assert xs[i] in xs;
    if i == 0 {
      TrimUnchanged(xs[0]);
    } else {
      TrimAfterSpace(xs[i]);
    }
  }

  /**
   * `mergeWhitelist`: the defaults as they are when the extra answer is blank;
   * otherwise the defaults followed by the parsed additions, each value once.
   */
  function MergeWhitelist(defaults: seq<string>, extra: string): (merged: seq<string>)
    ensures Trim(extra) == [] ==> merged == defaults
    ensures forall x :: x in merged <==> x in defaults || (Trim(extra) != [] && x in ParseCommaList(extra))
    ensures Trim(extra) != [] ==> forall i, j :: 0 <= i < j < |merged| ==> merged[i] != merged[j]
  {
    if Trim(extra) == [] then defaults else Dedup(defaults + ParseCommaList(extra))
  }

  /** Defaults without repeats keep their places at the front of the merged list. */
  lemma MergeKeepsDefaultsFirst(defaults: seq<string>, extra: string)
    requires forall i, j :: 0 <= i < j < |defaults| ==> defaults[i] != defaults[j]
    ensures |MergeWhitelist(defaults, extra)| >= |defaults|
    ensures MergeWhitelist(defaults, extra)[..|defaults|] == defaults
  {
    if Trim(extra) != [] {
      DedupKeepsDistinctPrefix(defaults, ParseCommaList(extra));
    }
  }

  // ---------------------------------------------------------------------------
  // `.gitignore`.
  // ---------------------------------------------------------------------------

  /** A piece of `split(/\r?\n/)` before a line break: the `\r` of a CRLF ending belongs to the separator. */
  function DropCr(line: string): string {
    if |line| > 0 && line[|line| - 1] == '\r' then line[..|line| - 1] else line
  }

  /**
   * `content.split(/\r?\n/)`: the pieces between line feeds, each piece before a line
   * feed without the carriage return just before it. The last piece is followed by no
   * line feed, so a carriage return closing it stays.
   */
  function SplitLines(content: string): (lines: seq<string>)
    ensures |lines| == |Split(content, '\n')|
    ensures forall i :: 0 <= i < |lines| ==> '\n' !in lines[i]
    ensures forall i :: 0 <= i < |lines| - 1 ==>
      var piece := Split(content, '\n')[i];
      if EndsWith(piece, "\r") then lines[i] + "\r" == piece else lines[i] == piece
    ensures lines[|lines| - 1] == Split(content, '\n')[|lines| - 1]
  {
    var parts := Split(content, '\n');
    seq(|parts|, i requires 0 <= i < |parts| => if i < |parts| - 1 then DropCr(parts[i]) else parts[i])
  }

  /** The lines joined with `\r\n`, every line but the last closed by a carriage return. */
  function CrClosed(lines: seq<string>): (r: seq<string>)
    ensures |r| == |lines|
  {
    seq(|lines|, i requires 0 <= i < |lines| => if i < |lines| - 1 then lines[i] + "\r" else lines[i])
  }

  lemma {:induction false} JoinCrlf(lines: seq<string>)
    requires |lines| >= 1
    ensures Join(lines, "\r\n") == Join(CrClosed(lines), "\n")
    decreases |lines|
  {
    if |lines| > 1 {
      JoinCrlf(lines[1..]);
      assert CrClosed(lines)[1..] == CrClosed(lines[1..]);
      assert lines[0] + "\r\n" == (lines[0] + "\r") + "\n";
    }
  }

  /** Text written with CRLF line endings splits back into its lines. */
  lemma SplitLinesCrlf(lines: seq<string>)
    requires |lines| >= 1
    requires forall i :: 0 <= i < |lines| ==> '\n' !in lines[i]
    ensures SplitLines(Join(lines, "\r\n")) == lines
  {
    JoinCrlf(lines);
    CrClosedPieces(lines);
    SplitJoin(CrClosed(lines), '\n');
    LinesOfCrClosed(Join(lines, "\r\n"), lines);
  }

  lemma CrClosedPieces(lines: seq<string>)
    requires forall i :: 0 <= i < |lines| ==> '\n' !in lines[i]
    ensures forall i :: 0 <= i < |lines| ==> '\n' !in CrClosed(lines)[i]
  {
    forall i | 0 <= i < |lines|
      ensures '\n' !in CrClosed(lines)[i]
    {
      assert i < |lines| - 1 ==> CrClosed(lines)[i] == lines[i] + "\r";
    }
  }

  lemma LinesOfCrClosed(text: string, lines: seq<string>)
    requires |lines| >= 1 && Split(text, '\n') == CrClosed(lines)
    ensures SplitLines(text) == lines
  {
    var closed := CrClosed(lines);
    forall i | 0 <= i < |lines|
      ensures SplitLines(text)[i] == lines[i]
    {
      if i < |lines| - 1 {
        assert closed[i] == lines[i] + "\r";
        assert DropCr(closed[i]) == lines[i];
      }
    }
  }

  /** Text written with LF line endings splits back into its lines when no line but the last ends in a carriage return. */
  lemma SplitLinesLf(lines: seq<string>)
    requires |lines| >= 1
    requires forall i :: 0 <= i < |lines| ==> '\n' !in lines[i]
    requires forall i :: 0 <= i < |lines| - 1 ==> !EndsWith(lines[i], "\r")
    ensures SplitLines(Join(lines, "\n")) == lines
  {
    SplitJoin(lines, '\n');
  }

  /** Some line of the file trims to `.env`. */
  predicate HasEnvLine(content: string): (found: bool)
    ensures found ==> Contains(content, ".env")
  {
    TrimmedLinesInText(content);
    exists i :: 0 <= i < |SplitLines(content)| && Trim(SplitLines(content)[i]) == ".env"
  }

  /** Every line, trimmed, is a piece of the text it was split from. */
  lemma TrimmedLinesInText(content: string)
    ensures forall i :: 0 <= i < |SplitLines(content)| ==> Contains(content, Trim(SplitLines(content)[i]))
  {
    forall i | 0 <= i < |SplitLines(content)|
      ensures Contains(content, Trim(SplitLines(content)[i]))
    {
      TrimmedLineInText(content, i);
    }
  }

  lemma TrimmedLineInText(content: string, i: nat)
    requires i < |SplitLines(content)|
    ensures Contains(content, Trim(SplitLines(content)[i]))
  {
    var parts := Split(content, '\n');
    var line := SplitLines(content)[i];
    assert parts[i][..|line|] == line;
    PrefixSlice(parts[i], |line|);
    TrimSlice(line);
    SliceOfSlice(Trim(line), line, parts[i]);
    JoinContains(parts, "\n", i);
    JoinSplit(content, '\n');
    SliceIsContained(parts[i], content);
    SliceOfSlice(Trim(line), parts[i], content);
    SliceIsContained(Trim(line), content);
  }

  /**
   * The new `.gitignore` text: the old text without trailing whitespace, a newline
   * unless that is empty, the additions one per line, and a final newline.
   */
  function GitignoreText(content: string, additions: seq<string>): (text: string)
    requires |additions| > 0
    ensures StartsWith(text, TrimEnd(content)) && EndsWith(text, "\n")
    ensures |TrimEnd(content)| > 0 ==> text[|TrimEnd(content)|] == '\n'
    ensures var kept := if |TrimEnd(content)| > 0 then |TrimEnd(content)| + 1 else 0;
      kept <= |text| && text[kept..] == Join(additions, "\n") + "\n"
  {
    var trimmed := TrimEnd(content);
    var next := if |trimmed| > 0 then trimmed + "\n" + Join(additions, "\n") else Join(additions, "\n");
    assert (next + "\n")[..|trimmed|] == trimmed;
    next + "\n"
  }

  /**
   * Read back line by line, the new `.gitignore` holds the old lines (none when the old
   * text was blank), then one line per addition, then the empty piece after the final
   * line break.
   */
  lemma GitignoreLines(content: string, additions: seq<string>)
    requires |additions| > 0 && forall i :: 0 <= i < |additions| ==> '\n' !in additions[i]
    ensures Split(GitignoreText(content, additions), '\n')
      == (if |TrimEnd(content)| > 0 then Split(TrimEnd(content), '\n') else []) + additions + [""]
  {
    var t := TrimEnd(content);
    var tail := Join(additions, "\n") + "\n";
    AdditionLines(additions);
    if |t| > 0 {
      assert GitignoreText(content, additions) == t + ['\n'] + tail;
      SplitConcat(t, tail, '\n');
    } else {
      assert GitignoreText(content, additions) == tail;
    }
  }

  lemma AdditionLines(additions: seq<string>)
    requires |additions| > 0 && forall i :: 0 <= i < |additions| ==> '\n' !in additions[i]
    ensures Split(Join(additions, "\n") + "\n", '\n') == additions + [""]
  {
    var joined := Join(additions, "\n");
    SplitJoin(additions, '\n');
    SplitConcat(joined, [], '\n');
    assert joined + "\n" == joined + ['\n'] + [];
    assert Split([], '\n') == [""];
  }

  /**
   * `ensureGitignore` once the file (or `''`) has been read and the user has answered
   * the `.env` question with `addEnv`: whether the question was asked, and the text
   * written, if any.
   */
  method EnsureGitignore(content: string, addEnv: bool) returns (asked: bool, written: Option<string>)
    ensures asked <==> !HasEnvLine(content)
    ensures written.Some? <==> asked && addEnv
    ensures written.Some? ==> written.value == GitignoreText(content, [".env"])
  {
    var additions: seq<string> := [];
    asked := !HasEnvLine(content);
    if asked && addEnv {
      additions := additions + [".env"];
    }
    if |additions| == 0 {
      return asked, None;
    }
    written := Some(GitignoreText(content, additions));
  }

  /** After `.env` was added, the next run finds it and asks nothing. */
  lemma GitignoreAddsEnvOnce(content: string)
    ensures HasEnvLine(GitignoreText(content, [".env"]))
  {
    var t := TrimEnd(content);
    var text := GitignoreText(content, [".env"]);
    assert Join([".env"], "\n") == ".env";
    assert '\n' !in ".env" by {
      assert forall k :: 0 <= k < 4 ==> ".env"[k] != '\n';
    }
    if |t| > 0 {
      assert text == t + ['\n'] + (".env" + ['\n']);
      LineAfterBreak(t, ".env");
      LineFound(text, |Split(t, '\n')|);
    } else {
      assert text == ".env" + ['\n'] + [];
      SplitWithoutSeparator(".env", '\n');
      SplitConcat(".env", [], '\n');
      LineFound(text, 0);
    }
  }

  /** A line placed after a line break is a piece of the split text. */
  lemma LineAfterBreak(t: string, line: string)
    requires '\n' !in line
    ensures var parts := Split(t + ['\n'] + (line + ['\n']), '\n');
      |Split(t, '\n')| < |parts| && parts[|Split(t, '\n')|] == line
  {
    SplitConcat(t, line + ['\n'], '\n');
    assert line + ['\n'] == line + ['\n'] + [];
    SplitWithoutSeparator(line, '\n');
    SplitConcat(line, [], '\n');
  }

  /** A piece `.env` of the split text is a line that trims to `.env`. */
  lemma LineFound(text: string, k: nat)
    requires k < |Split(text, '\n')| && Split(text, '\n')[k] == ".env"
    ensures HasEnvLine(text)
  {
    assert DropCr(".env") == ".env";
    assert SplitLines(text)[k] == ".env";
    TrimUnchanged(".env");
  }
}
