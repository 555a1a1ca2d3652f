/**
 * The pure decisions of the AI service: cleaning the model's commit-message reply,
 * the model id and per-command settings handed to the agent, the list of review
 * modes and the choice of review prompt.
 */
module AiService {
  import opened Wrappers
  import opened Strings
  import opened DefaultPrompts
  import opened ConfigSchema

  // ---------------------------------------------------------------------------
  // `cleanCommitMessage`.
  // ---------------------------------------------------------------------------

  /** The length of the run of ASCII letters starting at `i`. */
  function LetterRun(s: string, i: nat): (n: nat)
    requires i <= |s|
    ensures i + n <= |s|
    ensures forall k :: i <= k < i + n ==> IsAsciiLetter(s[k])
    ensures i + n < |s| ==> !IsAsciiLetter(s[i + n])
    decreases |s| - i
  {
    if i < |s| && IsAsciiLetter(s[i]) then 1 + LetterRun(s, i + 1) else 0
  }

  /** The length of the run of whitespace starting at `i`. */
  function WhitespaceRun(s: string, i: nat): (n: nat)
    requires i <= |s|
    ensures i + n <= |s|
    ensures forall k :: i <= k < i + n ==> IsWhitespace(s[k])
    ensures i + n < |s| ==> !IsWhitespace(s[i + n])
    decreases |s| - i
  {
    if i < |s| && IsWhitespace(s[i]) then 1 + WhitespaceRun(s, i + 1) else 0
  }

  /**
   * How much `/^```[a-zA-Z]*\s*` removes: nothing unless the text opens with a fence;
   * otherwise the fence, the language letters and the whitespace after them.
   */
  function OpeningFenceLength(s: string): (n: nat)
    ensures n <= |s|
    ensures n == 0 <==> !StartsWith(s, "```")
    ensures n > 0 ==> 3 <= n && forall k :: 3 <= k < n ==> IsAsciiLetter(s[k]) || IsWhitespace(s[k])
    ensures n > 0 ==> forall k, l :: 3 <= k < l < n && IsWhitespace(s[k]) ==> IsWhitespace(s[l])
    ensures 0 < n < |s| ==> !IsWhitespace(s[n]) && (IsAsciiLetter(s[n]) ==> n > 3 && IsWhitespace(s[n - 1]))
  {
    if StartsWith(s, "```") then
      var m := 3 + LetterRun(s, 3);
      m + WhitespaceRun(s, m)
    else 0
  }

  /** `replace(/```$/g, '')`: a closing fence at the very end is dropped. */
  function StripClosingFence(s: string): (r: string)
    ensures EndsWith(s, "```") ==> r + "```" == s
    ensures !EndsWith(s, "```") ==> r == s
  {
    if EndsWith(s, "```") then s[..|s| - 3] else s
  }

  /**
   * `replace(/^q|q$/g, '')`: a `q` at the start and a `q` at the end are both dropped,
   * and a lone `q` is dropped once.
   */
  function StripQuote(s: string, q: char): (r: string)
    ensures |s| >= 2 && s[0] == q && s[|s| - 1] == q ==> r == s[1..|s| - 1]
    ensures s == [q] ==> r == []
    ensures |s| > 0 && s[0] == q && s[|s| - 1] != q ==> r == s[1..]
    ensures |s| > 0 && s[0] != q && s[|s| - 1] == q ==> r == s[..|s| - 1]
    ensures (|s| == 0 || (s[0] != q && s[|s| - 1] != q)) ==> r == s
    ensures forall c :: c in r ==> c in s
  {
    var a := if |s| > 0 && s[0] == q then s[1..] else s;
    if |a| > 0 && a[|a| - 1] == q then a[..|a| - 1] else a
  }

  const CommitMessagePrefix := "commit message"

  /** How much `/^Commit message:?\s*` with the `i` flag removes. */
  function CommitPrefixLength(s: string): (n: nat)
    ensures n <= |s|
    ensures n == 0 <==> !(|s| >= 14 && ToLower(s[..14]) == CommitMessagePrefix)
    ensures n > 0 ==> 14 <= n && forall k :: 14 < k < n ==> IsWhitespace(s[k])
    ensures n > 14 ==> s[14] == ':' || IsWhitespace(s[14])
    ensures 0 < n < |s| ==> !IsWhitespace(s[n])
    ensures n == 14 && 14 < |s| ==> s[14] != ':'
  {
    if |s| >= 14 && ToLower(s[..14]) == CommitMessagePrefix then
      var c := if 14 < |s| && s[14] == ':' then 15 else 14;
      c + WhitespaceRun(s, c)
    else 0
  }

  /** `text.split('\n').map(trim).filter(nonEmpty)`. */
  function NonBlankLines(s: string): (lines: seq<string>)
    ensures forall l :: l in lines ==> NonEmpty(l) && '\n' !in l && l == Trim(l)
    ensures forall p :: p in lines <==> p in TrimEach(Split(s, '\n')) && NonEmpty(p)
    ensures IsSubsequence(lines, TrimEach(Split(s, '\n')))
  {
    TrimEachShape(Split(s, '\n'), '\n');
    TrimNonEmpty(Split(s, '\n'))
  }

  /** The text that `cleanCommitMessage` splits into lines: fences stripped. */
  function Unfenced(text: string): (u: string)
    ensures IsSliceOf(u, text)
    ensures !StartsWith(text, "```") && !EndsWith(text, "```") ==> u == text
    ensures StartsWith(text, "```") ==> |u| <= |text| - 3
  {
    var rest := text[OpeningFenceLength(text)..];
    SuffixSlice(text, OpeningFenceLength(text));
    PrefixSlice(rest, |StripClosingFence(rest)|);
    assert rest[..|StripClosingFence(rest)|] == StripClosingFence(rest);
    SliceOfSlice(StripClosingFence(rest), rest, text);
    StripClosingFence(rest)
  }

  /** What `cleanCommitMessage` does to the first non-blank line: it keeps a trimmed piece of it. */
  function CleanFirstLine(line: string): (r: string)
    ensures IsSliceOf(r, line)
    ensures '\n' !in line ==> '\n' !in r
    ensures IsTrimmed(r)
  {
    var once := StripQuote(line, '"');
    var unquoted := StripQuote(once, '\'');
    var rest := unquoted[CommitPrefixLength(unquoted)..];
    StripQuoteSlice(line, '"');
    StripQuoteSlice(once, '\'');
    SliceOfSlice(unquoted, once, line);
    SuffixSlice(unquoted, CommitPrefixLength(unquoted));
    SliceOfSlice(rest, unquoted, line);
    TrimSlice(rest);
    SliceOfSlice(Trim(rest), rest, line);
    SliceKeepsChars(unquoted, CommitPrefixLength(unquoted));
    TrimKeepsChars(rest);
    Trim(rest)
  }

  lemma StripQuoteSlice(s: string, q: char)
    ensures IsSliceOf(StripQuote(s, q), s)
  {
    var r := StripQuote(s, q);
    if |s| > 0 && s[0] == q {
      assert SliceAt(r, s, 1);
    } else {
      assert SliceAt(r, s, 0);
    }
  }

  lemma SuffixSlice(s: string, i: nat)
    requires i <= |s|
    ensures IsSliceOf(s[i..], s)
  {
    assert SliceAt(s[i..], s, i);
  }

  lemma SliceKeepsChars(s: string, i: nat)
    requires i <= |s|
    ensures forall c :: c in s[i..] ==> c in s
  {
  }

  /**
   * `cleanCommitMessage`: the first non-blank line of the unfenced reply, quotes and a
   * `Commit message:` prefix removed, trimmed; empty when no line is left.
   */
  function CleanCommitMessage(text: string): (r: string)
    ensures '\n' !in r
    ensures IsTrimmed(r)
    ensures NonBlankLines(Unfenced(text)) == [] ==> r == []
    ensures IsSliceOf(r, text)
  {
    var lines := NonBlankLines(Unfenced(text));
    if lines == [] then
      assert SliceAt("", text, 0);
      ""
    else
      assert lines[0] in lines;
      TrimmedPiecesInText(Unfenced(text), '\n');
      SliceOfSlice(lines[0], Unfenced(text), text);
      SliceOfSlice(CleanFirstLine(lines[0]), lines[0], text);
      CleanFirstLine(lines[0])
  }

  /** A one-line message wrapped in double or single quotes comes back without them. */
  lemma QuotedReply(m: string, q: char)
    requires q == '"' || q == '\''
    requires |m| > 0 && '\n' !in m
    requires !IsWhitespace(m[0]) && !IsWhitespace(m[|m| - 1])
    requires m[0] !in "\"'" && m[|m| - 1] !in "\"'"
    requires !(|m| >= 14 && ToLower(m[..14]) == CommitMessagePrefix)
    ensures CleanCommitMessage([q] + m + [q]) == m
  {
    var s := [q] + m + [q];
    assert s[1..|s| - 1] == m;
    assert '\n' !in s;
    OneLineReply(s);
    assert StripQuote(StripQuote(s, '"'), '\'') == m;
    assert m[0..] == m;
    TrimUnchanged(m);
  }

  /** A one-line message without fences, quotes, prefix or surrounding whitespace is kept as it is. */
  lemma CleanMessageKeepsPlainLine(s: string)
    requires |s| > 0 && '\n' !in s
    requires !IsWhitespace(s[0]) && !IsWhitespace(s[|s| - 1])
    requires !StartsWith(s, "```") && !EndsWith(s, "```")
    requires s[0] !in "\"'" && s[|s| - 1] !in "\"'"
    requires !(|s| >= 14 && ToLower(s[..14]) == CommitMessagePrefix)
    ensures CleanCommitMessage(s) == s
  {
    OneLineReply(s);
    assert StripQuote(s, '"') == s;
    assert StripQuote(s, '\'') == s;
    assert s[0..] == s;
    TrimUnchanged(s);
  }

  /** The lines of `l + "\n" + rest`: the trimmed `l` unless it is blank, then those of `rest`. */
  lemma NonBlankLinesCons(l: string, rest: string)
    requires '\n' !in l
    ensures NonBlankLines(l + "\n" + rest) == (if Trim(l) == [] then [] else [Trim(l)]) + NonBlankLines(rest)
  {
    SplitAtSeparator(l, rest, '\n');
    TrimNonEmptyCons(l, Split(rest, '\n'));
  }

  /** A line break at the very end adds no line. */
  lemma NonBlankLinesBreakAtEnd(m: string)
    ensures NonBlankLines(m + "\n") == NonBlankLines(m)
  {
    SplitConcat(m, [], '\n');
    assert m + ['\n'] + [] == m + "\n";
    TrimNonEmptyBlankEnd(Split(m, '\n'));
  }

  /** No closing fence can straddle the last character of `a` unless that character is a backtick. */
  lemma NoFenceAcross(a: string, b: string)
    requires a != [] && a[|a| - 1] != '`' && !EndsWith(b, "```")
    ensures !EndsWith(a + b, "```")
  {
    var s := a + b;
    if |b| >= 3 {
      assert s[|s| - 3..] == b[|b| - 3..];
    } else if |s| >= 3 {
      assert s[|s| - 3..][|a| - 1 - (|s| - 3)] == a[|a| - 1];
    }
  }

  /** A reply that opens with a line carrying no fence keeps that line. */
  lemma UnfencedAfterLine(l: string, rest: string)
    requires '\n' !in l && !StartsWith(l, "```")
    ensures Unfenced(l + "\n" + rest) == l + "\n" + StripClosingFence(rest)
  {
    var text := l + "\n" + rest;
    NoFenceOpening(l, rest);
    assert text[OpeningFenceLength(text)..] == text;
    if EndsWith(rest, "```") {
      assert text[|text| - 3..] == rest[|rest| - 3..];
      assert text[..|text| - 3] == l + "\n" + rest[..|rest| - 3];
    } else {
      NoFenceAcross(l + "\n", rest);
    }
  }

  lemma NoFenceOpening(l: string, rest: string)
    requires '\n' !in l && !StartsWith(l, "```")
    ensures !StartsWith(l + "\n" + rest, "```")
  {
    var text := l + "\n" + rest;
    if |l| >= 3 {
      assert text[..3] == l[..3];
    } else if |text| >= 3 {
      assert text[|l|] == '\n';
    }
  }

  /**
   * Only the first non-blank line counts: a reply that opens with a non-blank line
   * without a fence is cleaned from that line alone, whatever follows it.
   */
  lemma FirstLineDecides(l: string, rest: string)
    requires '\n' !in l && Trim(l) != [] && !StartsWith(l, "```")
    ensures CleanCommitMessage(l + "\n" + rest) == CleanFirstLine(Trim(l))
  {
    UnfencedAfterLine(l, rest);
    NonBlankLinesCons(l, StripClosingFence(rest));
  }

  /** Blank lines in front of the message are skipped. */
  lemma BlankLineSkipped(l: string, rest: string)
    requires '\n' !in l && Trim(l) == [] && !StartsWith(rest, "```")
    ensures CleanCommitMessage(l + "\n" + rest) == CleanCommitMessage(rest)
  {
    assert TrimStart(l) == [];
    assert !StartsWith(l, "```") by {
      if |l| > 0 {
        assert IsWhitespace(l[0]);
      }
    }
    UnfencedAfterLine(l, rest);
    NonBlankLinesCons(l, StripClosingFence(rest));
    assert rest[0..] == rest;
  }

  /**
   * A reply wrapped in a Markdown fence, with or without a language tag, is cleaned
   * like the text inside it.
   */
  lemma FencedReplyCleansLikeBody(lang: string, m: string)
    requires forall k :: 0 <= k < |lang| ==> IsAsciiLetter(lang[k])
    requires m != [] && !IsWhitespace(m[0])
    requires !StartsWith(m, "```") && !EndsWith(m, "```")
    ensures CleanCommitMessage("```" + lang + "\n" + m + "\n```") == CleanCommitMessage(m)
  {
    FencedUnfenced(lang, m);
    assert m[0..] == m;
    NonBlankLinesBreakAtEnd(m);
  }

  /** Both fences go, and the line break before the closing one stays. */
  lemma FencedUnfenced(lang: string, m: string)
    requires forall k :: 0 <= k < |lang| ==> IsAsciiLetter(lang[k])
    requires m != [] && !IsWhitespace(m[0])
    ensures Unfenced("```" + lang + "\n" + m + "\n```") == m + "\n"
  {
    var body := m + "\n```";
    OpeningFenceOf(lang, body);
    assert "```" + lang + "\n" + body == "```" + lang + "\n" + m + "\n```";
    assert body[..|body| - 3] == m + "\n";
  }

  /** The opening fence regex removes the fence, the language letters and the line break after them. */
  lemma OpeningFenceOf(lang: string, body: string)
    requires forall k :: 0 <= k < |lang| ==> IsAsciiLetter(lang[k])
    requires body != [] && !IsWhitespace(body[0])
    ensures var text := "```" + lang + "\n" + body; text[OpeningFenceLength(text)..] == body
  {
    var text := "```" + lang + "\n" + body;
    assert text[..3] == "```";
    assert forall k :: 3 <= k < 3 + |lang| ==> text[k] == lang[k - 3];
    assert text[3 + |lang|] == '\n' && text[4 + |lang|] == body[0];
    assert LetterRun(text, 3) == |lang|;
    assert WhitespaceRun(text, 3 + |lang|) == 1;
    assert text[4 + |lang|..] == body;
  }

  /** A one-line reply without fences is cleaned from its trimmed line. */
  lemma OneLineReply(s: string)
    requires s != [] && '\n' !in s && IsTrimmed(s)
    requires !StartsWith(s, "```") && !EndsWith(s, "```")
    ensures CleanCommitMessage(s) == CleanFirstLine(s)
  {
    assert s[0..] == s;
    assert Unfenced(s) == s;
    SplitWithoutSeparator(s, '\n');
    TrimUnchanged(s);
    TrimNonEmptyCons(s, []);
    assert [s] + [] == [s];
  }

  /**
   * A `Commit message` label in front of a plain one-line reply, in any letter case,
   * with or without a colon and the spaces after it, is removed.
   */
  lemma CommitLabelRemoved(heading: string, sep: string, l: string)
    requires ToLower(heading) == CommitMessagePrefix
    requires forall k :: 0 <= k < |sep| ==> (k == 0 && sep[k] == ':') || (IsWhitespace(sep[k]) && sep[k] != '\n')
    requires l != [] && '\n' !in l && !IsWhitespace(l[0]) && !IsWhitespace(l[|l| - 1])
    requires sep == [] ==> l[0] != ':'
    requires !EndsWith(l, "```") && l[|l| - 1] != '"' && l[|l| - 1] != '\''
    ensures CleanCommitMessage(heading + sep + l) == l
  {
    LabelShape(heading);
    assert forall k :: 0 <= k < |sep| ==> sep[k] != '\n';
    var text := heading + sep + l;
    assert '\n' !in text;
    assert text[0] == heading[0] && text[|text| - 1] == l[|l| - 1];
    NoFenceAcross(heading + sep, l);
    OneLineReply(text);
    LabelledLine(heading, sep, l);
  }

  /** The first-line cleaning removes the label and keeps the rest of the line. */
  lemma LabelledLine(heading: string, sep: string, l: string)
    requires |heading| == 14 && ToLower(heading) == CommitMessagePrefix && heading[0] in "cC"
    requires forall k :: 0 <= k < |sep| ==> (k == 0 && sep[k] == ':') || IsWhitespace(sep[k])
    requires l != [] && !IsWhitespace(l[0]) && !IsWhitespace(l[|l| - 1])
    requires sep == [] ==> l[0] != ':'
    requires l[|l| - 1] != '"' && l[|l| - 1] != '\''
    ensures CleanFirstLine(heading + sep + l) == l
  {
    var text := heading + sep + l;
    assert text[0] == heading[0] && text[|text| - 1] == l[|l| - 1];
    assert StripQuote(text, '"') == text;
    assert StripQuote(text, '\'') == text;
    assert text[..14] == heading;
    assert forall k :: 14 <= k < 14 + |sep| ==> text[k] == sep[k - 14];
    assert text[14 + |sep|] == l[0];
    LabelLength(text, |sep|);
    assert text[14 + |sep|..] == l;
    TrimUnchanged(l);
  }

  /** A string that folds to `commit message` opens with `c` or `C`, holds no line break and ends with `e` or `E`. */
  lemma LabelShape(heading: string)
    requires ToLower(heading) == CommitMessagePrefix
    ensures |heading| == 14 && heading[0] in "cC" && heading[13] in "eE"
    ensures '\n' !in heading
  {
    assert ToLower(heading)[0] == ToLowerChar(heading[0]) == 'c';
    assert ToLower(heading)[13] == ToLowerChar(heading[13]) == 'e';
    forall k | 0 <= k < 14
      ensures heading[k] != '\n'
    {
      assert ToLower(heading)[k] == ToLowerChar(heading[k]) == CommitMessagePrefix[k];
    }
  }

  /** How much the label regex removes from a label followed by `:`, spaces, or both. */
  lemma LabelLength(text: string, n: nat)
    requires |text| > 14 + n && ToLower(text[..14]) == CommitMessagePrefix
    requires forall k :: 14 <= k < 14 + n ==> (k == 14 && text[k] == ':') || IsWhitespace(text[k])
    requires n == 0 ==> text[14] != ':'
    requires !IsWhitespace(text[14 + n])
    ensures CommitPrefixLength(text) == 14 + n
  {
    var c := if text[14] == ':' then 15 else 14;
    assert WhitespaceRun(text, c) == 14 + n - c;
  }

  /**
   * `generateCommitMessage` after the agent replied `raw`: the cleaned reply, or the
   * error the source throws when nothing is left.
   */
  function GenerateCommitMessage(raw: string): (r: Result<string, string>)
    ensures r.Failure? <==> CleanCommitMessage(Trim(raw)) == []
    ensures r.Success? ==> |r.value| > 0 && '\n' !in r.value
    ensures r.Success? ==> IsTrimmed(r.value)
  {
    var cleaned := CleanCommitMessage(Trim(raw));
    if cleaned == [] then Failure("AI did not return a valid commit message.") else Success(cleaned)
  }

  /** A reply with no non-blank line is an error. */
  lemma BlankReplyFails(raw: string)
    requires NonBlankLines(Unfenced(Trim(raw))) == []
    ensures GenerateCommitMessage(raw).Failure?
  {
  }

  // ---------------------------------------------------------------------------
  // Review modes and prompts.
  // ---------------------------------------------------------------------------

  /**
   * `getAvailableReviewModes`: the standard modes, then the keys of the configured
   * review prompts in `Object.keys` order, each mode once.
   */
  function AvailableReviewModes(customModes: seq<string>): (modes: seq<string>)
    ensures forall m :: m in modes <==> m in StandardReviewModes || m in customModes
    ensures forall i, j :: 0 <= i < j < |modes| ==> modes[i] != modes[j]
  {
    Dedup(StandardReviewModes + customModes)
  }

  /** The standard modes always come first, in their own order. */
  lemma StandardModesFirst(customModes: seq<string>)
    ensures |AvailableReviewModes(customModes)| >= |StandardReviewModes|
    ensures AvailableReviewModes(customModes)[..|StandardReviewModes|] == StandardReviewModes
  {
    StandardModesPrompts();
    DedupDistinct(StandardReviewModes);
    DedupPrefix(StandardReviewModes, customModes);
  }

  /** Where the review prompt comes from. */
  datatype ReviewPromptSource =
    | CustomPrompt(source: string)   // loaded by the prompt service, which is not part of this model
    | BuiltInPrompt(text: string)

  /**
   * `buildReviewPrompt`: a configured (non-empty) custom prompt for the mode wins;
   * otherwise the mode's own default when it is a standard mode, else the `bug` default,
   * filled with `diff` and then `mode`.
   */
  function BuildReviewPrompt(diff: string, mode: string, customPrompts: map<string, string>): (r: ReviewPromptSource)
    ensures r.CustomPrompt? <==> mode in customPrompts && customPrompts[mode] != ""
    ensures r.CustomPrompt? ==> r.source == customPrompts[mode]
    ensures r.BuiltInPrompt? ==> r.text == SubstituteAll(ReviewTemplate(mode), [("diff", diff), ("mode", mode)])
  {
    if mode in customPrompts && customPrompts[mode] != "" then CustomPrompt(customPrompts[mode])
    else BuiltInPrompt(SubstituteAll(ReviewTemplate(mode), [("diff", diff), ("mode", mode)]))
  }

  /** The built-in template for a mode: its own default if it has one, else the `bug` one. */
  function ReviewTemplate(mode: string): (t: string)
    ensures mode in StandardReviewModes ==> t == DefaultReviewPrompts[mode]
    ensures mode !in StandardReviewModes ==> t == DefaultReviewPrompts["bug"]
  {
    StandardModesPrompts();
    if mode in StandardReviewModes then DefaultReviewPrompts[mode] else DefaultReviewPrompts["bug"]
  }

  /** Whatever the mode, the built-in template has both placeholders the service fills. */
  lemma ReviewTemplateHasPlaceholders(mode: string)
    ensures Contains(ReviewTemplate(mode), "{diff}") && Contains(ReviewTemplate(mode), "{mode}")
  {
    StandardModesPrompts();
  }

  // ---------------------------------------------------------------------------
  // Model id and per-command settings.
  // ---------------------------------------------------------------------------

  /** `getModelId`: an error without an `llm` section or when the model has no `/`. */
  function GetModelId(llm: Option<LlmConfig>): (r: Result<string, string>)
    ensures r.Success? <==> llm.Some? && '/' in llm.value.model
    ensures r.Success? ==> r.value == llm.value.model
  {
    match llm
    case None => Failure("LLM configuration not found. Add llm section to kodu.json")
    case Some(c) =>
      if '/' !in c.model then Failure("Invalid model format: \"" + c.model + "\". Expected format \"provider/model-name\" (e.g., \"openai/gpt-4o\")")
      else Success(c.model)
  }

  /** A configuration that passed the schema always yields a model id. */
  lemma ParsedModelIdAccepted(section: LlmSection, defaultModelName: string)
    requires ParseLlm(section, defaultModelName).Success?
    ensures GetModelId(Some(ParseLlm(section, defaultModelName).value)) == Success(ParseLlm(section, defaultModelName).value.model)
  {
    ValidModelIdSlash(ParseLlm(section, defaultModelName).value.model);
  }

  datatype Command = Commit | Review

  /** The settings configured for one command, if any. */
  function OverrideOf(commands: Option<CommandsSection>, command: Command): Option<ModelSettings> {
    if commands.None? then None
    else
      var c := if command == Commit then commands.value.commit else commands.value.review;
      if c.Some? then c.value.modelSettings else None
  }

  /**
   * `getModelSettingsForCommand`: the configured settings with `maxOutputTokens`
   * falling back to the command's default when it is missing or `null`; only the
   * default when nothing is configured.
   */
  function ModelSettingsForCommand(commands: Option<CommandsSection>, command: Command, commitTokens: nat, reviewTokens: nat)
    : (r: ModelSettings)
    ensures MaxOutputTokensKey in r
    ensures var o := OverrideOf(commands, command);
      var fallback := Number((if command == Commit then commitTokens else reviewTokens) as real);
      && (o.None? ==> r == map[MaxOutputTokensKey := fallback])
      && (o.Some? ==> forall k :: k != MaxOutputTokensKey ==> (k in r <==> k in o.value) && (k in o.value ==> r[k] == o.value[k]))
      && (o.Some? && MaxOutputTokensKey in o.value && o.value[MaxOutputTokensKey] != Null ==> r[MaxOutputTokensKey] == o.value[MaxOutputTokensKey])
      && (o.Some? && (MaxOutputTokensKey !in o.value || o.value[MaxOutputTokensKey] == Null) ==> r[MaxOutputTokensKey] == fallback)
  {
    var defaultMax := if command == Commit then commitTokens else reviewTokens;
    var base := map[MaxOutputTokensKey := Number(defaultMax as real)];
    if commands.None? then base
    else
      var settings := OverrideOf(commands, command);
      if settings.None? then base
      else
        var s := settings.value;
        var max := if MaxOutputTokensKey in s && s[MaxOutputTokensKey] != Null then s[MaxOutputTokensKey] else Number(defaultMax as real);
        s[MaxOutputTokensKey := max]
  }

  /**
   * With a schema-valid configuration and positive defaults, the agent always gets a
   * positive whole `maxOutputTokens`.
   */
  lemma SettingsTokensPositive(commands: Option<CommandsSection>, command: Command, commitTokens: nat, reviewTokens: nat)
    requires commitTokens > 0 && reviewTokens > 0
    requires commands.Some? ==> ValidCommands(commands.value)
    ensures IsPositiveInt(ModelSettingsForCommand(commands, command, commitTokens, reviewTokens)[MaxOutputTokensKey])
  {
    var d := if command == Commit then commitTokens else reviewTokens;
    assert (d as real).Floor == d;
  }
}
