/**
 * The configuration schema: the `provider/model-name` pattern for model ids, the
 * positive-integer rule for `maxOutputTokens`, and the defaults that fill the
 * `llm`, `cleaner` and `packer` sections.
 */
module ConfigSchema {
  import opened Wrappers
  import opened Strings

  // ---------------------------------------------------------------------------
  // Model ids: `^[a-zA-Z0-9-_]+\/[a-zA-Z0-9-_.]+$`.
  // ---------------------------------------------------------------------------

  predicate IsProviderChar(c: char) {
    IsAsciiLetter(c) || IsDigit(c) || c == '-' || c == '_'
  }

  predicate IsModelNameChar(c: char) {
    IsProviderChar(c) || c == '.'
  }

  /** The pattern read as a statement: provider characters, one `/`, model-name characters. */
  ghost predicate MatchesModelPattern(s: string) {
    exists i :: 0 < i < |s| - 1 && s[i] == '/'
      && (forall k :: 0 <= k < i ==> IsProviderChar(s[k]))
      && (forall k :: i < k < |s| ==> IsModelNameChar(s[k]))
  }

  /** The length of the longest prefix of provider characters. */
  function ProviderLength(s: string): (n: nat)
    ensures n <= |s|
    ensures forall k :: 0 <= k < n ==> IsProviderChar(s[k])
    ensures n < |s| ==> !IsProviderChar(s[n])
  {
    if s == [] || !IsProviderChar(s[0]) then 0 else 1 + ProviderLength(s[1..])
  }

  predicate AllModelNameChars(s: string) {
    forall k :: 0 <= k < |s| ==> IsModelNameChar(s[k])
  }

  /**
   * The regex test, scanning the provider part and then the rest; it accepts exactly
   * the strings the pattern describes.
   */
  predicate IsValidModelId(s: string): (valid: bool)
    ensures valid <==> MatchesModelPattern(s)
  {
    ScanMatchesPattern(s);
    var n := ProviderLength(s);
    0 < n < |s| - 1 && s[n] == '/' && AllModelNameChars(s[n + 1..])
  }

  lemma ScanMatchesPattern(s: string)
    ensures var n := ProviderLength(s);
      (0 < n < |s| - 1 && s[n] == '/' && AllModelNameChars(s[n + 1..])) <==> MatchesModelPattern(s)
  {
    var n := ProviderLength(s);
    if 0 < n < |s| - 1 && s[n] == '/' && AllModelNameChars(s[n + 1..]) {
      assert forall k :: n < k < |s| ==> IsModelNameChar(s[k]) by {
        forall k | n < k < |s| ensures IsModelNameChar(s[k]) {
          assert s[k] == s[n + 1..][k - n - 1];
        }
      }
    }
    if MatchesModelPattern(s) {
      var i :| 0 < i < |s| - 1 && s[i] == '/'
        && (forall k :: 0 <= k < i ==> IsProviderChar(s[k]))
        && (forall k :: i < k < |s| ==> IsModelNameChar(s[k]));
      assert !IsProviderChar(s[i]);
      assert n == i;
    }
  }

  /** A valid model id has exactly one `/`, with a non-empty provider before it and a non-empty name after. */
  lemma ValidModelIdSlash(s: string)
    requires IsValidModelId(s)
    ensures '/' in s
    ensures forall j, k :: 0 <= j < |s| && 0 <= k < |s| && s[j] == '/' && s[k] == '/' ==> j == k
  {
    var n := ProviderLength(s);
    assert forall k :: n < k < |s| ==> IsModelNameChar(s[k]) by {
      forall k | n < k < |s|
        ensures IsModelNameChar(s[k])
      {
        assert s[k] == s[n + 1..][k - n - 1];
      }
    }
  }

  /** Any non-empty provider and model name of allowed characters form a valid id. */
  lemma ModelIdOfParts(provider: string, name: string)
    requires |provider| > 0 && |name| > 0
    requires forall k :: 0 <= k < |provider| ==> IsProviderChar(provider[k])
    requires AllModelNameChars(name)
    ensures IsValidModelId(provider + "/" + name)
  {
    var s := provider + "/" + name;
    assert MatchesModelPattern(s) by {
      assert s[|provider|] == '/';
      assert forall k :: |provider| < k < |s| ==> s[k] == name[k - |provider| - 1];
    }
  }

  // ---------------------------------------------------------------------------
  // Per-command model settings: `{ maxOutputTokens?: positive int, ...passthrough }`.
  // ---------------------------------------------------------------------------

  /** A JSON value of a model setting: a number, `null`, or anything else (kept as raw text). */
  datatype Setting = Number(value: real) | Null | Other(raw: string)

  /** An object of settings; its keys in any order. */
  type ModelSettings = map<string, Setting>

  const MaxOutputTokensKey := "maxOutputTokens"

  /** Stands for the issue zod reports for a bad `maxOutputTokens`; zod words it itself. */
  const SettingsIssue := "maxOutputTokens"

  /** `z.number().int().positive()`. */
  predicate IsPositiveInt(v: Setting) {
    v.Number? && v.value.Floor as real == v.value && v.value > 0.0
  }

  /**
   * The settings schema: `maxOutputTokens`, when present, must be a positive integer;
   * other keys pass through unchecked.
   */
  function ValidateSettings(settings: ModelSettings): (r: Result<ModelSettings, string>)
    ensures r.Success? <==> (MaxOutputTokensKey in settings ==> IsPositiveInt(settings[MaxOutputTokensKey]))
    ensures r.Success? ==> r.value == settings
    ensures r.Success? && MaxOutputTokensKey in settings ==> settings[MaxOutputTokensKey].value.Floor >= 1
  {
    if MaxOutputTokensKey in settings && !IsPositiveInt(settings[MaxOutputTokensKey])
    then Failure(SettingsIssue)
    else Success(settings)
  }

  datatype CommandSection = CommandSection(modelSettings: Option<ModelSettings>)

  datatype CommandsSection = CommandsSection(commit: Option<CommandSection>, review: Option<CommandSection>)

  /** Every command's settings, where present, satisfy the settings schema. */
  predicate ValidCommand(c: Option<CommandSection>) {
    c.Some? && c.value.modelSettings.Some? ==> ValidateSettings(c.value.modelSettings.value).Success?
  }

  predicate ValidCommands(cs: CommandsSection) {
    ValidCommand(cs.commit) && ValidCommand(cs.review)
  }

  // ---------------------------------------------------------------------------
  // Sections and their defaults.
  // ---------------------------------------------------------------------------

  /** The `llm` section as written in the file; absent keys are `None`. */
  datatype LlmSection = LlmSection(model: Option<string>, apiKeyEnv: Option<string>, commands: Option<CommandsSection>)

  datatype LlmConfig = LlmConfig(model: string, apiKeyEnv: string, commands: Option<CommandsSection>)

  const DefaultApiKeyEnv := "OPENAI_API_KEY"

  /** The default model: the `openai` provider with the tool's default model name. */
  function DefaultModel(defaultModelName: string): string {
    "openai/" + defaultModelName
  }

  /**
   * The `llm` section after parsing: the model (given or default) must match the
   * model-id pattern, the API key variable defaults to `OPENAI_API_KEY`, and every
   * command's settings must satisfy the settings schema.
   */
  function ParseLlm(section: LlmSection, defaultModelName: string): (r: Result<LlmConfig, string>)
    ensures r.Success? <==>
      IsValidModelId(section.model.GetOr(DefaultModel(defaultModelName)))
      && (section.commands.Some? ==> ValidCommands(section.commands.value))
    ensures r.Success? ==> IsValidModelId(r.value.model)
    ensures r.Success? && section.model.Some? ==> r.value.model == section.model.value
    ensures r.Success? && section.model.None? ==> r.value.model == "openai/" + defaultModelName
    ensures r.Success? ==> r.value.apiKeyEnv == (if section.apiKeyEnv.Some? then section.apiKeyEnv.value else DefaultApiKeyEnv)
    ensures r.Success? ==> r.value.commands == section.commands
  {
    var model := section.model.GetOr(DefaultModel(defaultModelName));
    if !IsValidModelId(model) then Failure("Model must be in format 'provider/model-name' (e.g., 'openai/gpt-4o')")
    else if section.commands.Some? && !ValidCommands(section.commands.value) then
      Failure(SettingsIssue)
    else Success(LlmConfig(model, section.apiKeyEnv.GetOr(DefaultApiKeyEnv), section.commands))
  }

  /** Omitting the model is fine exactly when the default model name is a valid model name. */
  lemma DefaultModelAccepted(defaultModelName: string, apiKeyEnv: Option<string>)
    requires |defaultModelName| > 0 && AllModelNameChars(defaultModelName)
    ensures ParseLlm(LlmSection(None, apiKeyEnv, None), defaultModelName).Success?
  {
    assert forall k :: 0 <= k < |"openai"| ==> IsProviderChar("openai"[k]);
    ModelIdOfParts("openai", defaultModelName);
    assert "openai" + "/" + defaultModelName == DefaultModel(defaultModelName);
  }

  datatype CleanerSection = CleanerSection(
    whitelist: Option<seq<string>>, keepJSDoc: Option<bool>, useGitignore: Option<bool>, ignore: Option<seq<string>>)

  datatype CleanerConfig = CleanerConfig(whitelist: seq<string>, keepJSDoc: bool, useGitignore: bool, ignore: seq<string>)

  /** The default the schema gives a missing `cleaner` section. */
  const CleanerSectionDefault := CleanerConfig(["//!"], true, true, [])

  /** The `cleaner` section: each missing key takes its own default; a missing section takes the section default. */
  function ParseCleaner(section: Option<CleanerSection>): (c: CleanerConfig)
    ensures section.None? ==> c == CleanerSectionDefault
    ensures section.Some? ==>
      && (section.value.whitelist.Some? ==> c.whitelist == section.value.whitelist.value)
      && (section.value.keepJSDoc.Some? ==> c.keepJSDoc == section.value.keepJSDoc.value)
      && (section.value.useGitignore.Some? ==> c.useGitignore == section.value.useGitignore.value)
      && (section.value.ignore.Some? ==> c.ignore == section.value.ignore.value)
  {
    match section
    case None => CleanerSectionDefault
    case Some(s) => CleanerConfig(s.whitelist.GetOr(["//!"]), s.keepJSDoc.GetOr(true), s.useGitignore.GetOr(true), s.ignore.GetOr([]))
  }

  /** The section default and the per-key defaults describe the same configuration. */
  lemma CleanerDefaultsAgree()
    ensures ParseCleaner(Some(CleanerSection(None, None, None, None))) == ParseCleaner(None)
    ensures ParseCleaner(None).whitelist == ["//!"] && ParseCleaner(None).keepJSDoc
    ensures ParseCleaner(None).useGitignore && ParseCleaner(None).ignore == []
  {
  }

  const PackerIgnoreDefault: seq<string> :=
    ["package-lock.json", "yarn.lock", "pnpm-lock.yaml", ".git", ".kodu", "node_modules", "dist", "coverage"]

  datatype PackerSection = PackerSection(ignore: Option<seq<string>>, useGitignore: Option<bool>, contentBasedBinaryDetection: Option<bool>)

  datatype PackerConfig = PackerConfig(ignore: seq<string>, useGitignore: bool, contentBasedBinaryDetection: bool)

  /** The default the schema gives a missing `packer` section. */
  const PackerSectionDefault := PackerConfig(PackerIgnoreDefault, true, false)

  function ParsePacker(section: Option<PackerSection>): (c: PackerConfig)
    ensures section.None? ==> c == PackerSectionDefault
    ensures section.Some? ==>
      && (section.value.ignore.Some? ==> c.ignore == section.value.ignore.value)
      && (section.value.useGitignore.Some? ==> c.useGitignore == section.value.useGitignore.value)
      && (section.value.contentBasedBinaryDetection.Some? ==>
            c.contentBasedBinaryDetection == section.value.contentBasedBinaryDetection.value)
  {
    match section
    case None => PackerSectionDefault
    case Some(s) => PackerConfig(s.ignore.GetOr(PackerIgnoreDefault), s.useGitignore.GetOr(true), s.contentBasedBinaryDetection.GetOr(false))
  }

  lemma PackerDefaultsAgree()
    ensures ParsePacker(Some(PackerSection(None, None, None))) == ParsePacker(None)
    ensures |ParsePacker(None).ignore| == 8 && ParsePacker(None).useGitignore
    ensures !ParsePacker(None).contentBasedBinaryDetection
  {
  }
}
