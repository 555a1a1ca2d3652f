/**
 * The built-in prompt texts and `replacePromptVariables`, which fills `{key}`
 * placeholders one variable after the other.
 */
module DefaultPrompts {
  import opened Strings

  // ---------------------------------------------------------------------------
  // Prompt texts.
  // ---------------------------------------------------------------------------

  const ReviewIntro := "You are a strict code reviewer. Response format: concise markdown with bullet points.\nMode: "
  const ReviewOutro := "\nProvide a concise list of issues and recommendations. If no critical issues found, state that.\n\nDiff:\n"

  /** The shape shared by the three review prompts; only the focus sentence differs. */
  function ReviewPrompt(focus: string): string {
    ReviewIntro + "{mode}" + (". " + focus + ReviewOutro) + "{diff}"
  }

  const BugPrompt := ReviewPrompt("Find potential bugs, logical errors, and regressions.")
  const StylePrompt := ReviewPrompt("Check readability, consistency, formatting, and naming.")
  const SecurityPrompt := ReviewPrompt("Find vulnerabilities, secret leaks, improper permission checks.")

  const DefaultReviewPrompts: map<string, string> :=
    map["bug" := BugPrompt, "style" := StylePrompt, "security" := SecurityPrompt]

  const StandardReviewModes: seq<string> := ["bug", "style", "security"]

  const CommitIntro :=
    "You generate Conventional Commit messages.\nRules:\n- Format: <type>(<optional scope>): <subject>\n"
    + "- Lowercase subject, no trailing period.\n- Keep under 70 characters.\n- Summarize the diff accurately.\n\nDiff:\n"
  const CommitPrompt := CommitIntro + "{diff}"

  /** The placeholders of the `pack` template, filled by `pack`. */
  const TokenCountSlot := "{{tokenCount}}"
  const UsdEstimateSlot := "{{usdEstimate}}"
  const FileListSlot := "{{fileList}}"
  const ContextSlot := "{{context}}"

  const PackIntro := "Project context below. Keep instructions concise.\n\nFiles packed ("
  const PackTokensLabel := " tokens, ~"
  const PackListLabel := "):\n"
  const PackContextLabel := "\n\nContext:\n"
  const PackPrompt :=
    PackIntro + TokenCountSlot + PackTokensLabel + UsdEstimateSlot + PackListLabel + FileListSlot
    + PackContextLabel + ContextSlot

  /** Text built as `a x b y` contains both `x` and `y`. */
  lemma TwoSlots(a: string, x: string, b: string, y: string)
    ensures Contains(a + x + b + y, x) && Contains(a + x + b + y, y)
  {
    ContainsBetween(a, x, b + y);
    assert a + x + b + y == a + x + (b + y);
    ContainsBetween(a + x + b, y, []);
    assert a + x + b + y + [] == a + x + b + y;
  }

  /** Every review prompt mentions the mode and the diff. */
  lemma ReviewPromptPlaceholders(focus: string)
    ensures Contains(ReviewPrompt(focus), "{mode}") && Contains(ReviewPrompt(focus), "{diff}")
  {
    TwoSlots(ReviewIntro, "{mode}", ". " + focus + ReviewOutro, "{diff}");
  }

  /**
   * The default review prompts are exactly the standard modes, listed once each, and
   * each of them has the `{mode}` and `{diff}` placeholders.
   */
  lemma StandardModesPrompts()
    ensures DefaultReviewPrompts.Keys == set m | m in StandardReviewModes
    ensures forall i, j :: 0 <= i < j < |StandardReviewModes| ==> StandardReviewModes[i] != StandardReviewModes[j]
    ensures forall m :: m in DefaultReviewPrompts ==>
      Contains(DefaultReviewPrompts[m], "{mode}") && Contains(DefaultReviewPrompts[m], "{diff}")
  {
    ReviewPromptPlaceholders("Find potential bugs, logical errors, and regressions.");
    ReviewPromptPlaceholders("Check readability, consistency, formatting, and naming.");
    ReviewPromptPlaceholders("Find vulnerabilities, secret leaks, improper permission checks.");
    assert StandardReviewModes[0][0] != StandardReviewModes[1][0];
    assert StandardReviewModes[1][1] != StandardReviewModes[2][1];
    assert |StandardReviewModes[0]| != |StandardReviewModes[2]|;
  }

  /** The commit prompt has the `{diff}` placeholder. */
  lemma CommitPromptPlaceholder()
    ensures Contains(CommitPrompt, "{diff}")
  {
    ContainsSelf("{diff}");
    ContainsConcat(CommitIntro, "{diff}", "{diff}");
  }

  /** The default `pack` prompt has its four double-brace placeholders. */
  lemma PackPromptPlaceholders()
    ensures Contains(PackPrompt, TokenCountSlot) && Contains(PackPrompt, UsdEstimateSlot)
    ensures Contains(PackPrompt, FileListSlot) && Contains(PackPrompt, ContextSlot)
  {
    FourSlots(PackIntro, TokenCountSlot, PackTokensLabel, UsdEstimateSlot,
              PackListLabel, FileListSlot, PackContextLabel, ContextSlot);
  }

  /** Text built as `a w b x c y d z` contains each of `w`, `x`, `y` and `z`. */
  lemma FourSlots(a: string, w: string, b: string, x: string, c: string, y: string, d: string, z: string)
    ensures var s := a + w + b + x + c + y + d + z;
      Contains(s, w) && Contains(s, x) && Contains(s, y) && Contains(s, z)
  {
    var front := a + w + b + x;
    var back := c + y + d + z;
    TwoSlots(a, w, b, x);
    TwoSlots(c, y, d, z);
    ContainsConcat(front, back, w);
    ContainsConcat(front, back, x);
    ContainsConcat(front, back, y);
    ContainsConcat(front, back, z);
    assert a + w + b + x + c + y + d + z == front + back;
  }

  // ---------------------------------------------------------------------------
  // `replacePromptVariables`.
  // ---------------------------------------------------------------------------

  /** The entries of the variables object, in `Object.entries` order. */
  type Variables = seq<(string, string)>

  /** What `new RegExp('\\{' + key + '\\}', 'g')` matches for a plain key. */
  function Placeholder(key: string): (p: string)
    ensures |p| == |key| + 2 && p[0] == '{' && p[|p| - 1] == '}'
  {
    "{" + key + "}"
  }

  /**
   * Every variable in turn replaces all occurrences of its placeholder in the text
   * produced so far, the value inserted as it is. A prompt with none of the
   * placeholders comes back unchanged (no variables included).
   */
  function SubstituteAll(prompt: string, vars: Variables): (r: string)
    ensures (forall e, k: nat :: e in vars ==> !OccursAt(prompt, Placeholder(e.0), k)) ==> r == prompt
    decreases |vars|
  {
    if vars == [] then prompt
    else
      SubstituteStepAbsent(prompt, vars);
      SubstituteAll(ReplaceAll(prompt, Placeholder(vars[0].0), vars[0].1), vars[1..])
  }

  /** When no placeholder occurs, the first replacement changes nothing and none of the rest occurs either. */
  lemma SubstituteStepAbsent(prompt: string, vars: Variables)
    requires vars != []
    ensures (forall e, k: nat :: e in vars ==> !OccursAt(prompt, Placeholder(e.0), k)) ==>
      && ReplaceAll(prompt, Placeholder(vars[0].0), vars[0].1) == prompt
      && (forall e, k: nat :: e in vars[1..] ==> !OccursAt(prompt, Placeholder(e.0), k))
  {
    if forall e, k: nat :: e in vars ==> !OccursAt(prompt, Placeholder(e.0), k) {
      ReplaceAbsent(prompt, Placeholder(vars[0].0), vars[0].1, 0);
      assert forall e :: e in vars[1..] ==> e in vars;
    }
  }

  /** `replacePromptVariables`: one `replace` per entry, reassigning the result. */
  method ReplacePromptVariables(prompt: string, vars: Variables) returns (result: string)
    ensures result == SubstituteAll(prompt, vars)
  {
    result := prompt;
    for i := 0 to |vars|
      invariant SubstituteAll(result, vars[i..]) == SubstituteAll(prompt, vars)
    {
      var (key, value) := vars[i];
      assert vars[i..][1..] == vars[i + 1..];
      result := ReplaceAll(result, Placeholder(key), value);
    }
  }

  /**
   * The substitution is sequential: the last variable is applied to the text the
   * earlier ones produced, values they inserted included.
   */
  lemma {:induction false} SubstituteSnoc(prompt: string, vars: Variables, key: string, value: string)
    ensures SubstituteAll(prompt, vars + [(key, value)])
         == ReplaceAll(SubstituteAll(prompt, vars), Placeholder(key), value)
    decreases |vars|
  {
    if vars == [] {
      assert [] + [(key, value)] == [(key, value)];
    } else {
      assert (vars + [(key, value)])[1..] == vars[1..] + [(key, value)];
      SubstituteSnoc(ReplaceAll(prompt, Placeholder(vars[0].0), vars[0].1), vars[1..], key, value);
    }
  }

  /** Substitution as the source writes it: each value is read as a `replace` pattern. */
  function SubstituteAllAsWritten(prompt: string, vars: Variables): string
    decreases |vars|
  {
    if vars == [] then prompt
    else SubstituteAllAsWritten(ReplaceAllExpanding(prompt, Placeholder(vars[0].0), vars[0].1), vars[1..])
  }

  /** The two readings agree as long as no value holds a `$`. */
  lemma {:induction false} AsWrittenAgrees(prompt: string, vars: Variables)
    requires forall e :: e in vars ==> '$' !in e.1
    ensures SubstituteAllAsWritten(prompt, vars) == SubstituteAll(prompt, vars)
    decreases |vars|
  {
    if vars != [] {
      ReplaceExpandingAgrees(prompt, Placeholder(vars[0].0), vars[0].1, 0);
      assert forall e :: e in vars[1..] ==> e in vars;
      AsWrittenAgrees(ReplaceAll(prompt, Placeholder(vars[0].0), vars[0].1), vars[1..]);
    }
  }

  /** A diff holding `$&` is replaced by the placeholder it was meant to fill. */
  lemma AsWrittenDollarDiff()
    ensures SubstituteAllAsWritten("{diff}", [("diff", "$&")]) == "{diff}"
    ensures SubstituteAll("{diff}", [("diff", "$&")]) == "$&"
  {
    var s, pat := "{diff}", Placeholder("diff");
    assert pat == s;
    assert OccursAt(s, pat, 0);
    assert ExpandReplacement("$&", pat, [], []) == pat by {
      assert ExpandReplacement("$&"[2..], pat, [], []) == [];
    }
    assert ReplaceFromExpanding(s, pat, "$&", |pat|) == [];
    assert ReplaceFrom(s, pat, "$&", |pat|) == [];
  }
}
