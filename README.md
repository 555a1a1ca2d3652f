# kodu core in Dafny

kodu is a command-line helper for TypeScript/JavaScript projects. `kodu clean` strips
comments from source files. `kodu pack` bundles the project into one context file for
a language model. `kodu commit` and `kodu review` ask a model for a commit message or
a review. `kodu init` writes the `kodu.json` configuration.

This project models the deterministic core behind those commands and proves
properties of it:

- **Cleaner** (`cleaner.dfy`): the comment-removal pipeline of `CleanerService`.
  - ranges are collected in a Map keyed by start and end, where the first range seen wins
  - HTML files get the leftmost, non-greedy `<!-- ... -->` scan
  - the retention policy combines the JSDoc rule and the case-insensitive whitelist
  - the right-to-left edit loop puts a space or nothing in place of each range
  - previews are normalised, and counts and reports are kept per batch
- **DefaultPrompts** (`default_prompts.dfy`): the built-in prompt texts and `replacePromptVariables`.
- **ConfigSchema** (`config_schema.dfy`): the model-id pattern, the `maxOutputTokens` constraint and the section defaults of the zod schema.
- **AiService** (`ai_service.dfy`): the parts of `AiService` that do not call a model.
  - commit-message clean-up
  - the list of review modes
  - review-prompt selection
  - the model-id check
  - per-command model settings
- **InitCommand** (`init_command.dfy`): the decisions `kodu init` makes.
  - the defaults it writes and the custom-model input check
  - comma-separated list parsing and the whitelist merge
  - the `.gitignore` update
- **CleanCommand** (`clean_command.dfy`): target-file selection, the spinner text and the dry-run listing.
- **PackCommand** (`pack_command.dfy`): context and file-list assembly, template filling, template lookup and the output file.
- **Strings** and **Wrappers**: the JavaScript string and array operations the core relies on, with their lemmas, and `Option`/`Result`. Covered: slice, trim, split, join, `includes`, `replace`, filter and `Set` deduplication.

Imperative code stays imperative:

- `cleanFiles`, `cleanSource`, the collecting Map and its HTML scan loop, `replacePromptVariables`, `ensureGitignore`, `loadTemplate` and `writeOutput` are methods.
- Each of these methods is proved equal to a function that defines its result, and the properties are proved about that function.
- The rest of the code is functions and lemmas.

The comments of a file come from the TypeScript compiler and from ts-morph. They are
an input of the model: a `SourceInput` holds the comment spans the AST walk reports and
the `JsxExpression` nodes.

## Model

| member | source | states |
|---|---|---|
| Cleaner.RangeMap.AddRange | src/shared/cleaner/cleaner.service.ts:224-234 | storing a range whose start and end are already a key leaves the Map as it was; otherwise the range is appended to the values in insertion order |
| Cleaner.RangeMap.AddCommentRanges | src/shared/cleaner/cleaner.service.ts:131-150 | each comment span the compiler reports becomes a comment range holding the text between its ends, added through `addRange` in the order reported |
| Cleaner.RangeMap.AddJsxRanges | src/shared/cleaner/cleaner.service.ts:152-163 | each JSX container with no expression inside whose text holds `/*` becomes a JSX range, added through `addRange` in node order; other nodes add nothing |
| Cleaner.RangeMap.ValuesList | src/shared/cleaner/cleaner.service.ts:169 | `[...ranges.values()]` lists the stored ranges in insertion order |
| Cleaner.RangeMap.CollectHtmlCommentRanges | src/shared/cleaner/cleaner.service.ts:236-252 | the `exec` loop adds exactly the successive HTML comment matches of the text, in order, through `addRange` |
| Cleaner.WithRangesKeepsFirst | src/shared/cleaner/cleaner.service.ts:224-234 | adding ranges never replaces an entry: the old values stay a prefix, no key appears twice, and the keys are the old ones plus the added ones |
| Cleaner.WithRangesConcat | src/shared/cleaner/cleaner.service.ts:131-166 | adding two batches of ranges in turn is adding their concatenation |
| Cleaner.CollectCommentRanges | src/shared/cleaner/cleaner.service.ts:124-170 | the collected ranges are: the compiler's comment ranges, then the expression-free JSX containers whose text holds `/*`, then (for HTML files) the HTML comments, each key kept once, the first occurrence winning |
| Cleaner.NextHtmlComment | src/shared/cleaner/cleaner.service.ts:240-244 | one `exec` of `/<!--[\s\S]*?-->/g`: the match starts at the first `<!--` from `lastIndex` and ends with the first `-->` after it; an `<!--` with no `-->` after it means no match |
| Cleaner.HtmlCommentSpans | src/shared/cleaner/cleaner.service.ts:236-252 | every span the `exec` loop finds from a position starts at or after it and is an HTML comment, the spans follow each other without overlapping, and there are none exactly when the first `exec` finds no match |
| Cleaner.HtmlCommentCovered | src/shared/cleaner/cleaner.service.ts:236-252 | nothing is missed: every `<!--` from the position on that has a `-->` after it lies inside one of the spans |
| Cleaner.UnterminatedHtmlComment | src/shared/cleaner/cleaner.service.ts:240-246 | an `<!--` never followed by `-->` starts no span |
| Cleaner.BaseName | src/shared/cleaner/cleaner.service.ts:255 | the text after the last `/` of a path is a suffix of it without `/` |
| Cleaner.LastIndexOf | src/shared/cleaner/cleaner.service.ts:255 | the index of the last occurrence of a character, or none when it does not occur |
| Cleaner.Extname | src/shared/cleaner/cleaner.service.ts:255 | `path.extname` is a suffix of the last component once trailing `/` are dropped: empty, or a dot followed by no other dot and shorter than the component; it is empty only when the component is `..` or no dot follows its first character |
| Cleaner.ExtnameIgnoresTrailingSlash | src/shared/cleaner/cleaner.service.ts:255 | a `/` at the end of a path does not change its extension |
| Cleaner.ExtnameOfDotDot | src/shared/cleaner/cleaner.service.ts:255 | a path whose last component is `..` has no extension |
| Cleaner.HtmlExtensionScanned | src/shared/cleaner/cleaner.service.ts:254-257 | a path ending in `.html` or `.htm`, in any letter case, after a non-empty stem gets the HTML scan |
| Cleaner.ShouldCollectHtmlComments | src/shared/cleaner/cleaner.service.ts:254-257 | a path that gets the HTML scan ends, once trailing `/` are dropped and letters lower-cased, in `.html` or `.htm` |
| Cleaner.HtmlExtensionShape | src/shared/cleaner/cleaner.service.ts:255-256 | an extension that lower-cases to `.html`/`.htm` has one leading dot and no slash |
| Cleaner.BaseNameAppend | src/shared/cleaner/cleaner.service.ts:255 | appending a slash-free suffix to a path appends it to its base name |
| Cleaner.LastIndexOfAfter | src/shared/cleaner/cleaner.service.ts:255 | the last occurrence of a character is the one after which it no longer occurs |
| Cleaner.BuildWhitelist | src/shared/cleaner/cleaner.service.ts:214-217 | the whitelist holds every system marker and every configured entry lower-cased, and nothing else |
| Cleaner.RetentionPolicy | src/shared/cleaner/cleaner.service.ts:172-190 | a range is removed exactly when it is not a JSDoc block kept by `keepJSDoc` and its lower-cased text contains no system marker and no lower-cased configured entry |
| Cleaner.ShouldRemove | src/shared/cleaner/cleaner.service.ts:172-190 | a JSDoc block under `keepJSDoc` is kept, a range whose lower-cased text contains a whitelist entry is kept, and every kept range is kept for one of these two reasons |
| Cleaner.SystemMarkerKeeps | src/shared/cleaner/cleaner.service.ts:182-187 | a comment mentioning a system marker is kept under every configuration |
| Cleaner.ShouldRemoveExample | src/shared/cleaner/cleaner.service.ts:172-190 | the plain block comment `/*c*/` is removed under the default configuration |
| Cleaner.CollapseWhitespace | src/shared/cleaner/cleaner.service.ts:193 | `replace(/\s+/g, ' ')` leaves only single spaces, is empty only for empty text, and starts with a space exactly when the text starts with whitespace |
| Cleaner.CollapseNoWhitespace | src/shared/cleaner/cleaner.service.ts:193 | text without whitespace is left as it is |
| Cleaner.CollapseRun | src/shared/cleaner/cleaner.service.ts:193 | a run of whitespace between non-whitespace neighbours becomes exactly one space, and the text on either side is collapsed independently |
| Cleaner.CollapseKeepsVisible | src/shared/cleaner/cleaner.service.ts:193 | collapsing whitespace keeps every non-whitespace character in order |
| Cleaner.VisibleConcat | src/shared/cleaner/cleaner.service.ts:193 | the non-whitespace characters of a concatenation are those of its parts |
| Cleaner.VisibleTrimStart | src/shared/cleaner/cleaner.service.ts:193 | trimming the start loses no non-whitespace character |
| Cleaner.VisibleTrimEnd | src/shared/cleaner/cleaner.service.ts:193 | trimming the end loses no non-whitespace character |
| Cleaner.SingleSpacedSlice | src/shared/cleaner/cleaner.service.ts:195 | a slice of single-spaced text is single-spaced |
| Cleaner.SingleSpacedEllipsis | src/shared/cleaner/cleaner.service.ts:195 | appending `...` keeps text single-spaced |
| Cleaner.PreviewLineShape | src/shared/cleaner/cleaner.service.ts:193 | the one-line form is single-spaced, has no blank ends and keeps every non-whitespace character |
| Cleaner.NormalizePreview | src/shared/cleaner/cleaner.service.ts:192-196 | a preview has at most 50 characters, single spaces only and no blank ends |
| Cleaner.PreviewContent | src/shared/cleaner/cleaner.service.ts:192-196 | a one-line form of at most 50 characters is kept whole; a longer one becomes its first 47 characters and `...`, 50 in all |
| Cleaner.GetReplacement | src/shared/cleaner/cleaner.service.ts:198-212 | the replacement is a space exactly for a comment range whose neighbours in the original text both exist and match `[A-Za-z0-9_$]`, and is empty otherwise |
| Cleaner.JsxLeavesNothing | src/shared/cleaner/cleaner.service.ts:199-201 | a JSX range is always replaced by nothing |
| Cleaner.InsertDesc | src/shared/cleaner/cleaner.service.ts:113 | inserting into a list sorted by descending start keeps it sorted, and adds exactly that range |
| Cleaner.SortDesc | src/shared/cleaner/cleaner.service.ts:113 | `sort((a, b) => b.start - a.start)` gives a permutation sorted by descending start |
| Cleaner.ApplyDescRebuild | src/shared/cleaner/cleaner.service.ts:114-119 | on chained ranges, the edit loop produces the reference result: every range cut out, its replacement put in, the text between ranges kept in order |
| Cleaner.RebuildLength | src/shared/cleaner/cleaner.service.ts:114-119 | the reference result is shorter by the covered characters and longer by one per space inserted |
| Cleaner.SumsAppend | src/shared/cleaner/cleaner.service.ts:116-119 | the covered-character and space counts of a list grow by those of an appended range |
| Cleaner.SumsInsert | src/shared/cleaner/cleaner.service.ts:113 | inserting a range into a sorted list adds its covered characters and spaces |
| Cleaner.SumsSort | src/shared/cleaner/cleaner.service.ts:113 | sorting changes neither the covered characters nor the spaces |
| Cleaner.DisjointInsert | src/shared/cleaner/cleaner.service.ts:113 | inserting a range apart from all others keeps a sorted list free of overlaps |
| Cleaner.SortDescDisjoint | src/shared/cleaner/cleaner.service.ts:113 | sorting non-overlapping ranges keeps them non-overlapping |
| Cleaner.DisjointChained | src/shared/cleaner/cleaner.service.ts:113-119 | non-empty, non-overlapping ranges inside the text, sorted by descending start, are chained |
| Cleaner.RemovalCandidates | src/shared/cleaner/cleaner.service.ts:101-103 | the candidates are exactly the collected ranges the retention policy removes, in collection order |
| Cleaner.CleanSource | src/shared/cleaner/cleaner.service.ts:89-122 | `cleanSource` returns the defining result `Cleaned`: unchanged text with no previews when nothing is removed, otherwise the edit loop over the sorted candidates |
| Cleaner.Cleaned | src/shared/cleaner/cleaner.service.ts:89-122 | `removed` is the number of candidates, and a collected range is a candidate exactly when the policy removes it; with none the text is unchanged and there are no previews; otherwise there are `min(3, removed)` previews, the i-th the normalised text of the i-th candidate in collection order |
| Cleaner.EditLoopRebuilds | src/shared/cleaner/cleaner.service.ts:113-119 | for non-empty, non-overlapping ranges inside the text, the edit loop yields the reference result and its length is the original minus the covered characters plus the spaces |
| Cleaner.CleanedRebuilds | src/shared/cleaner/cleaner.service.ts:89-122 | a file whose candidates do not overlap is cleaned to the reference result, with that length |
| Cleaner.TallySnoc | src/shared/cleaner/cleaner.service.ts:56-85 | one more loop iteration adds one file to the batch tally |
| Cleaner.Tally | src/shared/cleaner/cleaner.service.ts:52-86 | every file is processed and reported; `commentsRemoved` is the sum of every file's `removed` and `filesChanged` the number of files with a removal, both counted independently from the first file; at most one write per changed file |
| Cleaner.CleanedSnoc | src/shared/cleaner/cleaner.service.ts:56-65 | the results gathered so far stay the cleaned results of their files |
| Cleaner.RecordResult | src/shared/cleaner/cleaner.service.ts:67-79 | the bookkeeping of one file: counters, report and write, as one step of the tally |
| Cleaner.CleanFiles | src/shared/cleaner/cleaner.service.ts:46-87 | the summary and the writes are the tally of every file's cleaned result, taken in input order |
| Cleaner.TallyFacts | src/shared/cleaner/cleaner.service.ts:52-86 | the batch processes every file and reports each in input order. No more files change than there are files, and each changed file removes at least one comment. No comments are removed exactly when no file changed. There is one write per changed file, carrying its cleaned text, and none in a dry run |
| DefaultPrompts.ReviewPromptPlaceholders | src/core/config/default-prompts.ts:1-22 | every review prompt contains `{mode}` and `{diff}` |
| DefaultPrompts.StandardModesPrompts | src/core/config/default-prompts.ts:1-42 | the default review prompts are keyed by exactly the standard modes, which are distinct, and each prompt contains `{mode}` and `{diff}` |
| DefaultPrompts.CommitPromptPlaceholder | src/core/config/default-prompts.ts:24-32 | the commit prompt contains `{diff}` |
| DefaultPrompts.PackPromptPlaceholders | src/core/config/default-prompts.ts:34-40 | the default `pack` prompt contains `{{tokenCount}}`, `{{usdEstimate}}`, `{{fileList}}` and `{{context}}` |
| DefaultPrompts.Placeholder | src/core/config/default-prompts.ts:50 | the placeholder of a key is the key in single braces |
| DefaultPrompts.ReplacePromptVariables | src/core/config/default-prompts.ts:44-53 | the loop computes the sequential substitution `SubstituteAll` of the entries in order |
| DefaultPrompts.SubstituteSnoc | src/core/config/default-prompts.ts:49-51 | substitution is sequential: the last entry is applied to the text the earlier ones produced, the values they inserted included |
| DefaultPrompts.SubstituteAll | src/core/config/default-prompts.ts:44-53 | a prompt without any of the placeholders, as with no variables at all, comes back unchanged |
| DefaultPrompts.AsWrittenAgrees | src/core/config/default-prompts.ts:49-51 | substitution as written agrees with literal substitution whenever no value contains `$` |
| DefaultPrompts.AsWrittenDollarDiff | src/core/config/default-prompts.ts:49-51 | a diff `$&` fills `{diff}` with the placeholder itself as written, and with `$&` literally |
| ConfigSchema.ProviderLength | src/core/config/config.schema.ts:9 | the provider part is the longest prefix of `[A-Za-z0-9-_]` characters |
| ConfigSchema.IsValidModelId | src/core/config/config.schema.ts:9-12 | the scan accepts a model id exactly when it matches `^[a-zA-Z0-9-_]+\/[a-zA-Z0-9-_.]+$` |
| ConfigSchema.ValidModelIdSlash | src/core/config/config.schema.ts:9-12 | an accepted model id contains exactly one `/` |
| ConfigSchema.ModelIdOfParts | src/core/config/config.schema.ts:9-12 | a non-empty provider and a non-empty model name of the allowed characters form an accepted id |
| ConfigSchema.ValidateSettings | src/core/config/config.schema.ts:14-18 | model settings pass exactly when `maxOutputTokens` is absent or a positive integer; passing settings, other keys included, are kept as they are |
| ConfigSchema.ParseLlm | src/core/config/config.schema.ts:36-40 | the llm section parses exactly when its model (by default `openai/` followed by the default name) is a valid id and its commands are valid. The key environment variable defaults to `OPENAI_API_KEY` |
| ConfigSchema.DefaultModelAccepted | src/core/config/config.schema.ts:37 | an llm section without a model parses when the default name uses the allowed characters |
| ConfigSchema.ParseCleaner | src/core/config/config.schema.ts:79-84 | a missing cleaner section yields whitelist `//!`, `keepJSDoc` and `useGitignore` on, no ignore entries; given fields are kept |
| ConfigSchema.CleanerDefaultsAgree | src/core/config/config.schema.ts:42-47 | an empty cleaner section and a missing one give the same defaults |
| ConfigSchema.ParsePacker | src/core/config/config.schema.ts:85-98 | a missing packer section yields the eight ignore entries, `useGitignore` on and binary detection off; given fields are kept |
| ConfigSchema.PackerDefaultsAgree | src/core/config/config.schema.ts:49-64 | an empty packer section and a missing one give the same defaults |
| AiService.OpeningFenceLength | src/shared/ai/ai.service.ts:198 | `/^```[a-zA-Z]*\s*/` matches three backticks, the longest run of letters after them, then the longest run of whitespace |
| AiService.LetterRun | src/shared/ai/ai.service.ts:198 | the longest run of ASCII letters from a position |
| AiService.WhitespaceRun | src/shared/ai/ai.service.ts:198 | the longest run of whitespace from a position |
| AiService.StripClosingFence | src/shared/ai/ai.service.ts:198 | a trailing three backticks are dropped, anything else is kept |
| AiService.Unfenced | src/shared/ai/ai.service.ts:198 | the fence-stripped text is a slice of the reply, the reply itself when it neither opens nor closes with a fence, and at least three characters shorter when it opens with one |
| AiService.StripQuote | src/shared/ai/ai.service.ts:209-210 | `/^q\|q$/g` drops a quote at the start and a quote at the end, both when both are there, a lone quote once, and keeps everything else |
| AiService.CommitPrefixLength | src/shared/ai/ai.service.ts:211 | `/^Commit message:?\s*/i` matches `commit message` in any case, an optional colon and the whitespace after |
| AiService.NonBlankLines | src/shared/ai/ai.service.ts:199-202 | the lines are exactly the non-empty trimmed pieces between line breaks, in order; none contains a line break or has blank ends |
| AiService.CleanFirstLine | src/shared/ai/ai.service.ts:208-212 | the cleaned first line is a trimmed slice of the line, without a line break |
| AiService.SliceKeepsChars | src/shared/ai/ai.service.ts:208-212 | a suffix adds no characters |
| AiService.CleanCommitMessage | src/shared/ai/ai.service.ts:197-215 | the message is a slice of the reply with no line break and no blank ends, and is empty when no non-blank line remains |
| AiService.CleanMessageKeepsPlainLine | src/shared/ai/ai.service.ts:197-215 | a single trimmed line without a fence, quotes or prefix comes back unchanged |
| AiService.QuotedReply | src/shared/ai/ai.service.ts:197-215 | a one-line reply wrapped in double or single quotes comes back without them |
| AiService.FirstLineDecides | src/shared/ai/ai.service.ts:197-215 | after a non-blank first line without a fence, the message is that line, trimmed and cleaned; the lines after it do not matter |
| AiService.BlankLineSkipped | src/shared/ai/ai.service.ts:199-206 | a blank first line is skipped: the message is that of the rest of the reply |
| AiService.FencedReplyCleansLikeBody | src/shared/ai/ai.service.ts:198-202 | a reply wrapped in a fenced block with a language tag gives the message of the body alone |
| AiService.CommitLabelRemoved | src/shared/ai/ai.service.ts:211 | a line `Commit message` in any case, followed by a colon or whitespace and then the message, gives the message |
| AiService.GenerateCommitMessage | src/shared/ai/ai.service.ts:49-56 | the call fails exactly when cleaning leaves nothing; a message returned is non-empty, one line and trimmed |
| AiService.BlankReplyFails | src/shared/ai/ai.service.ts:49-54 | a reply without a non-blank line fails |
| AiService.AvailableReviewModes | src/shared/ai/ai.service.ts:59-67 | the modes are the standard ones and the custom keys, each listed once |
| AiService.StandardModesFirst | src/shared/ai/ai.service.ts:59-67 | the standard modes come first, in their order |
| AiService.BuildReviewPrompt | src/shared/ai/ai.service.ts:100-122 | a configured, non-empty custom prompt is used when there is one; otherwise the built-in prompt is filled with the diff and the mode |
| AiService.ReviewTemplate | src/shared/ai/ai.service.ts:111-121 | a standard mode uses its own default prompt, any other mode the `bug` prompt |
| AiService.ReviewTemplateHasPlaceholders | src/shared/ai/ai.service.ts:111-121 | the chosen built-in prompt contains `{diff}` and `{mode}` |
| AiService.GetModelId | src/shared/ai/ai.service.ts:152-169 | fails when there is no llm section or the model has no `/`; otherwise returns the model unchanged |
| AiService.ParsedModelIdAccepted | src/shared/ai/ai.service.ts:152-169 | every model the schema accepts passes the check |
| AiService.ModelSettingsForCommand | src/shared/ai/ai.service.ts:171-195 | without commands or an override the settings are the command's default `maxOutputTokens`. Otherwise the override's keys are kept, and `maxOutputTokens` is the override's value unless it is missing or null |
| AiService.SettingsTokensPositive | src/shared/ai/ai.service.ts:171-195 | with positive defaults and a schema-valid configuration, `maxOutputTokens` is always a positive integer |
| InitCommand.DefaultCommandSettings | src/commands/init/init.command.ts:12-15 | the command settings `init` writes (150 and 5000 tokens) pass the schema |
| InitCommand.InitSectionsAreSchemaDefaults | src/commands/init/init.command.ts:31-49 | the cleaner and packer sections `init` writes read back as the schema defaults |
| InitCommand.ValidateModelInput | src/commands/init/init.command.ts:69-74 | the custom-model input is refused exactly when it has no `/` |
| InitCommand.SchemaValidModelPassesInput | src/commands/init/init.command.ts:69-74 | every id the schema accepts passes the input check |
| InitCommand.InputCheckLooserThanSchema | src/commands/init/init.command.ts:69-74 | the lone `/` passes the input check but not the schema |
| InitCommand.InitLlmSectionParses | src/commands/init/init.command.ts:82-86 | the llm section `init` writes for an accepted model parses, keeping that model |
| InitCommand.ParseCommaList | src/commands/init/init.command.ts:175-178 | the items are exactly the non-empty trimmed pieces between commas, in order; none contains a comma or has blank ends |
| InitCommand.SpacedItems | src/commands/init/init.command.ts:172 | every item after the first is preceded by a space |
| InitCommand.JoinCommaSpace | src/commands/init/init.command.ts:172 | joining with `, ` is joining the spaced items with `,` |
| InitCommand.TrimAfterSpace | src/commands/init/init.command.ts:177 | trimming a space-prefixed trimmed item gives the item |
| InitCommand.DefaultAnswerRoundTrip | src/commands/init/init.command.ts:169-179 | parsing the default answer `join(', ')` gives back the list, for items without commas or blank ends |
| InitCommand.SpacedItemNoComma | src/commands/init/init.command.ts:172-176 | a spaced item contains no comma |
| InitCommand.TrimSpacedItems | src/commands/init/init.command.ts:172-177 | trimming the spaced items gives back the items |
| InitCommand.TrimSpacedItem | src/commands/init/init.command.ts:172-177 | trimming one spaced item gives back that item |
| InitCommand.MergeWhitelist | src/commands/init/init.command.ts:181-192 | a blank answer keeps the defaults unchanged; otherwise the result holds the defaults and the parsed additions, each once |
| InitCommand.MergeKeepsDefaultsFirst | src/commands/init/init.command.ts:181-192 | distinct defaults stay first, in their order |
| InitCommand.SplitLines | src/commands/init/init.command.ts:280 | `split(/\r?\n/)` gives one line per piece between line feeds; a carriage return just before a line feed is dropped, and the last piece keeps its own |
| InitCommand.SplitLinesCrlf | src/commands/init/init.command.ts:280 | lines joined with `\r\n` split back into the same lines |
| InitCommand.SplitLinesLf | src/commands/init/init.command.ts:280 | lines joined with `\n` split back into the same lines when none but the last ends in a carriage return |
| InitCommand.HasEnvLine | src/commands/init/init.command.ts:280-283 | a line that trims to `.env` is found only in a text that contains `.env` |
| InitCommand.GitignoreText | src/commands/init/init.command.ts:298-303 | the new `.gitignore` is the old text trimmed at the end, a line break unless that is empty, the additions joined by line breaks, and a final line break |
| InitCommand.GitignoreLines | src/commands/init/init.command.ts:298-303 | read back line by line, the new `.gitignore` holds the old lines (none for a blank file), one line per addition, then the empty piece after the final line break |
| InitCommand.EnsureGitignore | src/commands/init/init.command.ts:274-305 | the user is asked exactly when no line trims to `.env`; the file is written exactly when asked and confirmed, with `.env` appended |
| InitCommand.GitignoreAddsEnvOnce | src/commands/init/init.command.ts:283-303 | after the update a line trims to `.env`, so a second run does not ask again |
| CleanCommand.CollectTargets | src/commands/clean/clean.command.ts:104-119 | a target is a project file with an accepted extension that, with `--changed`, is in the changed set |
| CleanCommand.IsCleanTarget | src/commands/clean/clean.command.ts:108-109 | a target path has at least three characters and, lower-cased, ends in `s`, `x` or `l` |
| CleanCommand.ToLowerTwice | src/commands/clean/clean.command.ts:108 | lower-casing twice is lower-casing once |
| CleanCommand.CleanTargetIgnoresCase | src/commands/clean/clean.command.ts:108-109 | the extension test ignores letter case |
| CleanCommand.ExtensionIsTarget | src/commands/clean/clean.command.ts:108-109 | a path ending in `.ts`, `.tsx`, `.js`, `.jsx` or `.html` is a target |
| CleanCommand.HtmIsNotTarget | src/commands/clean/clean.command.ts:108-109 | a `.htm` path is never a target, though the cleaner would scan it for HTML comments |
| CleanCommand.FilterTwice | src/commands/clean/clean.command.ts:109-118 | filtering twice is filtering once by both tests |
| CleanCommand.TargetsAreSubsequence | src/commands/clean/clean.command.ts:109-118 | the targets keep the order of the project files |
| CleanCommand.ChangedNarrowsTargets | src/commands/clean/clean.command.ts:115-118 | with `--changed` the targets are a subsequence of the unrestricted targets |
| CleanCommand.AllChangedIsNoRestriction | src/commands/clean/clean.command.ts:111-118 | when every file is changed, `--changed` selects the same targets as without it |
| CleanCommand.SpinnerText | src/commands/clean/clean.command.ts:98-102 | the text starts with `Analysis` exactly in a dry run and ends with `...` |
| CleanCommand.SpinnerTextDistinct | src/commands/clean/clean.command.ts:98-102 | the four option combinations give four different texts |
| CleanCommand.ListedReports | src/commands/clean/clean.command.ts:74-76 | a dry run lists exactly the reports with removals |
| CleanCommand.ListedReportsCount | src/commands/clean/clean.command.ts:70-83 | a dry run lists as many files as the summary says will be affected |
| PackCommand.ContextHoldsEveryFile | src/commands/pack/pack.command.ts:102-111 | every file appears in the context under its `// file:` header, content included |
| PackCommand.ContextAppendsInOrder | src/commands/pack/pack.command.ts:102-111 | the chunks follow the file order, separated by a blank line |
| PackCommand.BuildContext | src/commands/pack/pack.command.ts:102-111 | no files give an empty context; one file gives its `// file:` header, path, line break and content; with more the context opens with the first chunk and the blank-line separator |
| PackCommand.Paths | src/commands/pack/pack.command.ts:66 | one path per file |
| PackCommand.FileList | src/commands/pack/pack.command.ts:66 | no files give an empty list, and every path is found in the list |
| PackCommand.FileListLines | src/commands/pack/pack.command.ts:66 | the file list of paths without line breaks splits back into the paths |
| PackCommand.FillTemplate | src/commands/pack/pack.command.ts:118-122 | the four `replace` calls are sequential prompt substitution of `{context}`, `{fileList}`, `{tokenCount}`, `{usdEstimate}` in that order |
| PackCommand.ApplyTemplate | src/commands/pack/pack.command.ts:113-129 | the result is the filled template, followed by a blank line and the context exactly when the template had no `{{context}}` |
| PackCommand.TemplateWithoutSlots | src/commands/pack/pack.command.ts:118-126 | a template without placeholders is kept as it is, followed by a blank line and the context |
| PackCommand.DefaultPackPromptNotAppended | src/commands/pack/pack.command.ts:124-128 | the default `pack` prompt places the context itself, so nothing is appended |
| PackCommand.TemplateCandidates | src/commands/pack/pack.command.ts:132-133 | two distinct candidates under the prompts directory named after the template, the `.md` one first and the `.txt` one second |
| PackCommand.AsWrittenAgrees | src/commands/pack/pack.command.ts:118-122 | filling as written agrees with literal filling when no value contains `$` |
| PackCommand.AsWrittenDollarContext | src/commands/pack/pack.command.ts:118-119 | a context `$&` fills `{{context}}` with the placeholder itself as written, and with `$&` literally |
| PackCommand.LoadTemplate | src/commands/pack/pack.command.ts:131-146 | `<name>.md` is read when present, otherwise `<name>.txt`; with neither the error names both candidates |
| PackCommand.WriteOutput | src/commands/pack/pack.command.ts:148-157 | the text and a final line break go to the given path or `.kodu/context.txt`; no other file changes |

## Left out

- Comment discovery by the TypeScript compiler and ts-morph is an input (the comment spans and the `JsxExpression` nodes of `SourceInput`). The model assumes `getFullText()` returns the content it was given.
- File, process and network I/O are not modelled.
  - Reads and writes become values: `FileWrite`, the project map of `PackCommand`, and the `.gitignore` text and confirmation as parameters.
  - Also out: glob discovery, git, clipboard, model calls and `Promise.all`, which is treated as sequential because it keeps order.
- UI and orchestration are not modelled: spinners, prompts, log lines and the `run` methods. Two pieces of `run` logic are therefore not modelled: the rule that an empty `--template` name means no template, and the Russian and English messages.
- `hasApiKey`/`getApiKey` read the process environment and are not modelled. Loading custom prompts is also out: `BuildReviewPrompt` returns the configured source, and the prompt service is not part of this model.
- Configuration loading with lilconfig is not modelled. The default of `llm.commands` is also out, because what zod's `.default()` inside `.optional()` yields depends on the zod version.
- The shared constants (default token counts, the default model name) are not part of this model; they are parameters.
- Floating point is out. Token counts and `toFixed(4)` are opaque strings in `TemplateContext`, and `maxOutputTokens` is a `real`.
- Unicode is not modelled. `toLowerCase` folds ASCII letters only, which is exact for the case-insensitive regexes without the `u` flag. `\s` and `trim` use the JavaScript whitespace set.
- Prompt keys are taken to be plain identifiers: a regex metacharacter in a key is not modelled.
- Cleaner.Extname: `path.extname` is modelled as the POSIX variant, for `/`-separated paths; Windows `\` separators and drive letters are not modelled.
- ConfigSchema.ValidateSettings: a bad `maxOutputTokens` fails with the stand-in text `SettingsIssue`; the wording of zod's own issue messages is not modelled.
- CleanCommand.HtmIsNotTarget: stated for a stem that does not end in `/`; a bare `.htm` name is not covered.
- InitCommand.InitSectionsAreSchemaDefaults: covers the sections with the default whitelist and ignore list; the answers the user gives are covered by `MergeWhitelist` and `ParseCommaList`.
- The model choices offered by `init` are a constant; that each is an accepted id is not proved.
- DefaultPrompts.PackPromptPlaceholders: shows the default `pack` prompt holds its four double-brace placeholders, but not that it has no single-brace placeholder.
- Three behaviours of the code are kept as written:
  - removing a `// …` comment leaves the line break after it in place, because the compiler's comment span ends before it;
  - the previews follow collection order (compiler comments, then JSX, then HTML), not their position in the file;
  - a replacement looks at the neighbours of its range in the original text, not in the partly edited text.

## Findings

| source | as written | input that shows it | evidently intended | confidence | as-written member | corrected member |
|---|---|---|---|---|---|---|
| src/core/config/default-prompts.ts:49-51 | each value is passed to `String.prototype.replace` as a replacement pattern, so `$&`, `$'`, `` $` `` and `$$` in a diff are expanded | prompt `{diff}` with the diff `$&` yields `{diff}` | the diff is inserted verbatim, yielding `$&` | high, not executed | DefaultPrompts.AsWrittenDollarDiff | DefaultPrompts.ReplacePromptVariables |
| src/commands/pack/pack.command.ts:118-122 | file contents and the file list are passed to `replace` as replacement patterns, so a project file containing `$&` or `$$` is altered in the packed context | template `{{context}}` with the context `$&` yields `{{context}}` | the context is inserted verbatim, yielding `$&` | high, not executed | PackCommand.AsWrittenDollarContext | PackCommand.ApplyTemplate |
