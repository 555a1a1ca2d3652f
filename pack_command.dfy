/**
 * The text `kodu pack` assembles: the context made of every project file, the file
 * list, the filled template, where the template is looked up and where the result
 * is written.
 */
module PackCommand {
  import opened Wrappers
  import opened Strings
  import opened DefaultPrompts

  /** A project file as `pack` reads it: its relative path and its text. */
  datatype PackedFile = PackedFile(path: string, content: string)

  // ---------------------------------------------------------------------------
  // Context and file list.
  // ---------------------------------------------------------------------------

  const FileHeader := "// file: "
  const ChunkSeparator := "\n\n"

  function FileChunk(f: PackedFile): string {
    FileHeader + f.path + "\n" + f.content
  }

  function Chunks(files: seq<PackedFile>): seq<string> {
    seq(|files|, i requires 0 <= i < |files| => FileChunk(files[i]))
  }

  /**
   * `buildContext`: one headed chunk per file, separated by blank lines. No file gives
   * the empty context, a single file its chunk alone, and more files start with the
   * first file's chunk and a blank line.
   */
  function BuildContext(files: seq<PackedFile>): (ctx: string)
    ensures files == [] ==> ctx == ""
    ensures |files| == 1 ==> ctx == FileHeader + files[0].path + "\n" + files[0].content
    ensures |files| > 1 ==> StartsWith(ctx, FileChunk(files[0]) + ChunkSeparator)
  {
    ContextStart(files);
    Join(Chunks(files), ChunkSeparator)
  }

  lemma ContextStart(files: seq<PackedFile>)
    ensures |files| > 1 ==> StartsWith(Join(Chunks(files), ChunkSeparator), FileChunk(files[0]) + ChunkSeparator)
  {
    var chunks := Chunks(files);
    if |files| > 1 {
      assert chunks[0] == FileChunk(files[0]);
      PrefixStartsWith(chunks[0] + ChunkSeparator, Join(chunks[1..], ChunkSeparator));
    }
  }

  lemma PrefixStartsWith(a: string, b: string)
    ensures StartsWith(a + b, a)
  {
    assert (a + b)[..|a|] == a;
  }

  function Paths(files: seq<PackedFile>): (paths: seq<string>)
    ensures |paths| == |files|
    ensures forall i :: 0 <= i < |files| ==> paths[i] == files[i].path
  {
    seq(|files|, i requires 0 <= i < |files| => files[i].path)
  }

  /** The file list: the paths, one per line, each of them found in it. */
  function FileList(files: seq<PackedFile>): (list: string)
    ensures files == [] ==> list == ""
    ensures forall i :: 0 <= i < |files| ==> Contains(list, files[i].path)
  {
    JoinContainsAll(Paths(files), "\n");
    Join(Paths(files), "\n")
  }

  /** Every file appears in the context under its header, content included. */
  lemma ContextHoldsEveryFile(files: seq<PackedFile>, i: nat)
    requires i < |files|
    ensures Contains(BuildContext(files), FileChunk(files[i]))
    ensures Contains(BuildContext(files), files[i].content)
  {
    JoinContains(Chunks(files), ChunkSeparator, i);
    ContainsTail(BuildContext(files), FileHeader + files[i].path + "\n", files[i].content);
  }

  /** The chunks follow the order of the files: one more file adds its chunk at the end. */
  lemma ContextAppendsInOrder(files: seq<PackedFile>, f: PackedFile)
    requires files != []
    ensures BuildContext(files + [f]) == BuildContext(files) + ChunkSeparator + FileChunk(f)
  {
    assert Chunks(files + [f]) == Chunks(files) + [FileChunk(f)];
    JoinSnoc(Chunks(files), ChunkSeparator, FileChunk(f));
  }

  /** Paths without line breaks can be read back from the file list line by line. */
  lemma FileListLines(files: seq<PackedFile>)
    requires files != []
    requires forall i :: 0 <= i < |files| ==> '\n' !in files[i].path
    ensures Split(FileList(files), '\n') == Paths(files)
  {
    assert "\n" == ['\n'];
    SplitJoin(Paths(files), '\n');
  }

  // ---------------------------------------------------------------------------
  // Template filling.
  // ---------------------------------------------------------------------------

  /**
   * The values a template is filled with. The token count and the cost estimate are
   * given as the text `toString()` and `toFixed(4)` make of them.
   */
  datatype TemplateContext = TemplateContext(context: string, fileList: string, tokenCount: string, usdEstimate: string)

  /**
   * The four `replace` calls in order, each value inserted as it is: prompt-variable
   * substitution with the four pack variables.
   */
  function FillTemplate(template: string, ctx: TemplateContext): (filled: string)
    ensures filled == SubstituteAll(template, PackVariables(ctx))
  {
    FillSteps(template, ctx);
    var withContext := ReplaceAll(template, ContextSlot, ctx.context);
    var withFiles := ReplaceAll(withContext, FileListSlot, ctx.fileList);
    var withTokens := ReplaceAll(withFiles, TokenCountSlot, ctx.tokenCount);
    ReplaceAll(withTokens, UsdEstimateSlot, ctx.usdEstimate)
  }

  /** The same filling read as prompt variables: `{{name}}` is the placeholder of the key `{name}`. */
  function PackVariables(ctx: TemplateContext): Variables {
    [("{context}", ctx.context), ("{fileList}", ctx.fileList),
     ("{tokenCount}", ctx.tokenCount), ("{usdEstimate}", ctx.usdEstimate)]
  }

  lemma FillSteps(template: string, ctx: TemplateContext)
    ensures var withContext := ReplaceAll(template, ContextSlot, ctx.context);
      var withFiles := ReplaceAll(withContext, FileListSlot, ctx.fileList);
      var withTokens := ReplaceAll(withFiles, TokenCountSlot, ctx.tokenCount);
      ReplaceAll(withTokens, UsdEstimateSlot, ctx.usdEstimate) == SubstituteAll(template, PackVariables(ctx))
  {
    SlotsArePlaceholders();
    var vars := PackVariables(ctx);
    var s1 := ReplaceAll(template, ContextSlot, ctx.context);
    var s2 := ReplaceAll(s1, FileListSlot, ctx.fileList);
    var s3 := ReplaceAll(s2, TokenCountSlot, ctx.tokenCount);
    var s4 := ReplaceAll(s3, UsdEstimateSlot, ctx.usdEstimate);
    SubstituteFirst(template, vars);
    SubstituteFirst(s1, vars[1..]);
    SubstituteFirst(s2, vars[2..]);
    SubstituteFirst(s3, vars[3..]);
    assert vars[1..][1..] == vars[2..] && vars[2..][1..] == vars[3..] && vars[3..][1..] == [];
  }

  /** The double-brace slots are the placeholders of the brace-wrapped keys. */
  lemma SlotsArePlaceholders()
    ensures Placeholder("{context}") == ContextSlot && Placeholder("{fileList}") == FileListSlot
    ensures Placeholder("{tokenCount}") == TokenCountSlot && Placeholder("{usdEstimate}") == UsdEstimateSlot
  {
    CountSlotsArePlaceholders();
  }

  lemma CountSlotsArePlaceholders()
    ensures Placeholder("{tokenCount}") == TokenCountSlot && Placeholder("{usdEstimate}") == UsdEstimateSlot
  {
  }

  /** One step of the substitution: the first variable is replaced everywhere first. */
  lemma SubstituteFirst(prompt: string, vars: Variables)
    requires vars != []
    ensures SubstituteAll(prompt, vars) == SubstituteAll(ReplaceAll(prompt, Placeholder(vars[0].0), vars[0].1), vars[1..])
  {
  }

  /**
   * `applyTemplate` once the template is loaded: the filled template, followed by a
   * blank line and the context when the template has no `{{context}}` of its own.
   */
  function ApplyTemplate(template: string, ctx: TemplateContext): (out: string)
    ensures var filled := SubstituteAll(template, PackVariables(ctx));
      out == if Contains(template, ContextSlot) then filled else filled + ChunkSeparator + ctx.context
  {
    var filled := FillTemplate(template, ctx);
    if !Contains(template, ContextSlot) then filled + ChunkSeparator + ctx.context else filled
  }

  /** A template without any of the four placeholders is kept as it is, the context after it. */
  lemma TemplateWithoutSlots(template: string, ctx: TemplateContext)
    requires forall k: nat :: !OccursAt(template, ContextSlot, k) && !OccursAt(template, FileListSlot, k)
    requires forall k: nat :: !OccursAt(template, TokenCountSlot, k) && !OccursAt(template, UsdEstimateSlot, k)
    ensures ApplyTemplate(template, ctx) == template + ChunkSeparator + ctx.context
  {
    var vars := PackVariables(ctx);
    SlotsArePlaceholders();
    forall e, k: nat | e in vars
      ensures !OccursAt(template, Placeholder(e.0), k)
    {
    }
  }

  /** The default `pack` prompt places the context itself, so nothing is appended to it. */
  lemma DefaultPackPromptNotAppended(ctx: TemplateContext)
    ensures ApplyTemplate(PackPrompt, ctx) == FillTemplate(PackPrompt, ctx)
  {
    PackPromptPlaceholders();
  }

  /** Filling as the source writes it: each value is read as a `replace` pattern. */
  function FillTemplateAsWritten(template: string, ctx: TemplateContext): string {
    var withContext := ReplaceAllExpanding(template, ContextSlot, ctx.context);
    var withFiles := ReplaceAllExpanding(withContext, FileListSlot, ctx.fileList);
    var withTokens := ReplaceAllExpanding(withFiles, TokenCountSlot, ctx.tokenCount);
    ReplaceAllExpanding(withTokens, UsdEstimateSlot, ctx.usdEstimate)
  }

  function ApplyTemplateAsWritten(template: string, ctx: TemplateContext): string {
    var filled := FillTemplateAsWritten(template, ctx);
    if !Contains(template, ContextSlot) then filled + ChunkSeparator + ctx.context else filled
  }

  /** Both readings agree while no value holds a `$`. */
  lemma AsWrittenAgrees(template: string, ctx: TemplateContext)
    requires '$' !in ctx.context && '$' !in ctx.fileList
    requires '$' !in ctx.tokenCount && '$' !in ctx.usdEstimate
    ensures ApplyTemplateAsWritten(template, ctx) == ApplyTemplate(template, ctx)
  {
    var withContext := ReplaceAll(template, ContextSlot, ctx.context);
    var withFiles := ReplaceAll(withContext, FileListSlot, ctx.fileList);
    var withTokens := ReplaceAll(withFiles, TokenCountSlot, ctx.tokenCount);
    ReplaceExpandingAgrees(template, ContextSlot, ctx.context, 0);
    ReplaceExpandingAgrees(withContext, FileListSlot, ctx.fileList, 0);
    ReplaceExpandingAgrees(withFiles, TokenCountSlot, ctx.tokenCount, 0);
    ReplaceExpandingAgrees(withTokens, UsdEstimateSlot, ctx.usdEstimate, 0);
  }

  /**
   * A project file holding `$&` makes the template `{{context}}` come out as the
   * placeholder itself instead of the packed text.
   */
  lemma AsWrittenDollarContext()
    ensures ApplyTemplateAsWritten(ContextSlot, TemplateContext("$&", "", "", "")) == ContextSlot
    ensures ApplyTemplate(ContextSlot, TemplateContext("$&", "", "", "")) == "$&"
  {
    var s := ContextSlot;
    assert OccursAt(s, ContextSlot, 0);
    ContainsSelf(ContextSlot);
    assert ExpandReplacement("$&", s, [], []) == s by {
      assert ExpandReplacement("$&"[2..], s, [], []) == [];
    }
    assert ReplaceFromExpanding(s, ContextSlot, "$&", |s|) == [];
    assert ReplaceAllExpanding(s, ContextSlot, "$&") == s;
    assert ReplaceFrom(s, ContextSlot, "$&", |s|) == [];
    assert ReplaceAll(s, ContextSlot, "$&") == "$&";
    forall t: string, pat: string, v: string | |t| < |pat|
      ensures ReplaceAllExpanding(t, pat, v) == t && ReplaceAll(t, pat, v) == t
    {
    }
  }

  // ---------------------------------------------------------------------------
  // Template lookup and output.
  // ---------------------------------------------------------------------------

  const PromptsDir := ".kodu/prompts/"

  /** `<name>.md` first, then `<name>.txt`, in the prompts directory: two different paths. */
  function TemplateCandidates(name: string): (cands: seq<string>)
    ensures |cands| == 2 && cands[0] != cands[1]
    ensures forall c :: c in cands ==> StartsWith(c, PromptsDir + name + ".")
    ensures EndsWith(cands[0], ".md") && EndsWith(cands[1], ".txt")
  {
    var stem := PromptsDir + name + ".";
    assert PromptsDir + name + ".md" == stem + "md" && PromptsDir + name + ".txt" == stem + "txt";
    PrefixStartsWith(stem, "md");
    PrefixStartsWith(stem, "txt");
    assert (stem + "md")[|stem|] != (stem + "txt")[|stem|];
    [PromptsDir + name + ".md", PromptsDir + name + ".txt"]
  }

  /**
   * `loadTemplate` over the files of the project, given as a map from relative path
   * to text: the first candidate that exists is read; when none does, the error
   * names the candidates.
   */
  method LoadTemplate(name: string, project: map<string, string>) returns (r: Result<string, seq<string>>)
    ensures var cands := TemplateCandidates(name);
      && (cands[0] in project ==> r == Success(project[cands[0]]))
      && (cands[0] !in project && cands[1] in project ==> r == Success(project[cands[1]]))
      && (cands[0] !in project && cands[1] !in project ==> r == Failure(cands))
  {
    var cands := TemplateCandidates(name);
    for i := 0 to |cands|
      invariant forall j :: 0 <= j < i ==> cands[j] !in project
    {
      if cands[i] in project {
        return Success(project[cands[i]]);
      }
    }
    return Failure(cands);
  }

  const DefaultOutputPath := ".kodu/context.txt"

  /**
   * `writeOutput`: the text and a final line break go to the given path, or to
   * `.kodu/context.txt` without one; no other file changes.
   */
  method WriteOutput(content: string, outPath: Option<string>, project: map<string, string>)
    returns (target: string, project': map<string, string>)
    ensures target == if outPath.Some? then outPath.value else DefaultOutputPath
    ensures target in project' && project'[target] == content + "\n"
    ensures project'.Keys == project.Keys + {target}
    ensures forall p :: p in project && p != target ==> project'[p] == project[p]
  {
    target := match outPath case Some(p) => p case None => DefaultOutputPath;
    project' := project[target := content + "\n"];
  }

}
