/**
 * The code-generation backend: the prompts sent to the completion provider,
 * the split of the provider's reply into explanation and code, the response
 * built from it, the `/generate-code` handler around the provider call, and
 * the static `/analysis-types` listing.
 */
module Backend {
  import opened Wrappers
  import opened PyStr

  // ---------------------------------------------------------------------
  // Constants
  // ---------------------------------------------------------------------

  /** The delimiter of a fenced code block: three backticks. */
  const Fence: string := "```"

  /** The model identifier recorded in every response's metadata. */
  const ModelTag: string := "gpt-3.5-turbo"

  /** The fixed system-role instruction. */
  const SystemPrompt: string :=
    "You are an expert bioinformatics assistant. "
    + "Given a natural language description of an omic analysis task, "
    + "generate the appropriate code (in R or Python) to perform the analysis. "
    + "Explain your reasoning and any assumptions. "
    + "If a context or analysis type is provided, use it to inform your response."

  /** The fixed closing instruction of every user prompt: an empty line,
      then the request for code and a brief explanation. */
  const Trailer: string := "\n" + "Please provide only the code and a brief explanation."

  // ---------------------------------------------------------------------
  // Data model
  // ---------------------------------------------------------------------

  /** A JSON value, as a `context` dictionary entry decoded from the request
      body (numbers are kept integral; an object keeps its keys in the order
      they were read). */
  datatype JsonValue =
    | JNull
    | JBool(b: bool)
    | JNumber(n: int)
    | JString(s: string)
    | JArray(items: seq<JsonValue>)
    | JObject(fields: seq<(string, JsonValue)>)

  /** No key occurs twice among the entries. */
  predicate DistinctKeys(entries: seq<(string, JsonValue)>) {
    forall i, j :: 0 <= i < j < |entries| ==> entries[i].0 != entries[j].0
  }

  /** A Python `dict` with string keys: its entries in insertion order, which
      is the order `str()` prints them in. */
  type Dict = entries: seq<(string, JsonValue)> | DistinctKeys(entries)

  /** The body of `POST /generate-code`. */
  datatype GenerationRequest = GenerationRequest(
    naturalLanguage: string,
    analysisType: Option<string>,
    context: Option<Dict>)

  /** The body returned by `POST /generate-code` on success. */
  datatype GenerationResponse = GenerationResponse(
    generatedCode: string,
    explanation: string,
    metadata: Option<map<string, string>>)

  /** The HTTP error raised when generation fails: status and `detail`. */
  datatype HttpError = HttpError(status: int, detail: string)

  /** The reply split into its two fields. */
  datatype ReplyParts = ReplyParts(explanation: string, code: string)

  // ---------------------------------------------------------------------
  // The user prompt
  // ---------------------------------------------------------------------

  /** Python truthiness of `request.analysis_type`: present and not "". */
  predicate HasAnalysisType(request: GenerationRequest) {
    request.analysisType.Some? && request.analysisType.value != ""
  }

  /** Python truthiness of `request.context`: present and not `{}`. */
  predicate HasContext(request: GenerationRequest) {
    request.context.Some? && |request.context.value| > 0
  }

  function TaskLine(naturalLanguage: string): string {
    "Task: " + naturalLanguage + "\n"
  }

  function AnalysisLine(analysisType: string): string {
    "Analysis type: " + analysisType + "\n"
  }

  function ContextLine(renderedContext: string): string {
    "Context: " + renderedContext + "\n"
  }

  /** The user prompt as one expression: the task line, the analysis-type
      line when the request has a truthy one, the context line when it has a
      truthy context, and the trailer. `render` stands for Python's `str()` of
      a dict. */
  function UserPrompt(request: GenerationRequest, render: Dict -> string): string {
    TaskLine(request.naturalLanguage)
    + (if HasAnalysisType(request) then AnalysisLine(request.analysisType.value) else "")
    + (if HasContext(request) then ContextLine(render(request.context.value)) else "")
    + Trailer
  }

  /** The handler's step-by-step assembly of the user prompt. */
  method BuildUserPrompt(request: GenerationRequest, render: Dict -> string)
    returns (userPrompt: string)
    ensures userPrompt == UserPrompt(request, render)
  {
    userPrompt := "Task: " + request.naturalLanguage + "\n";
    if HasAnalysisType(request) {
      userPrompt := userPrompt + "Analysis type: " + request.analysisType.value + "\n";
      Associate(TaskLine(request.naturalLanguage), "Analysis type: ", request.analysisType.value, "\n");
    }
    ghost var front := userPrompt;
    if HasContext(request) {
      userPrompt := userPrompt + "Context: " + render(request.context.value) + "\n";
      Associate(front, "Context: ", render(request.context.value), "\n");
    }
    userPrompt := userPrompt + Trailer;
  }

  /** The pieces of a user prompt: task line, optional analysis-type line,
      optional context line, trailer. */
  lemma UserPromptPieces(request: GenerationRequest, render: Dict -> string)
    returns (task: string, analysis: string, context: string)
    ensures task == TaskLine(request.naturalLanguage)
    ensures analysis == if HasAnalysisType(request) then AnalysisLine(request.analysisType.value) else ""
    ensures context == if HasContext(request) then ContextLine(render(request.context.value)) else ""
    ensures UserPrompt(request, render) == task + (analysis + (context + Trailer))
    ensures UserPrompt(request, render) == (task + analysis + context) + Trailer
    ensures UserPrompt(request, render) == (task + analysis) + (context + Trailer)
  {
    task := TaskLine(request.naturalLanguage);
    analysis := if HasAnalysisType(request) then AnalysisLine(request.analysisType.value) else "";
    context := if HasContext(request) then ContextLine(render(request.context.value)) else "";
    Associate(task, analysis, context, Trailer);
  }

  /** Every user prompt opens with the task line and closes with the
      trailer. */
  lemma UserPromptFrame(request: GenerationRequest, render: Dict -> string)
    ensures StartsWith(UserPrompt(request, render), TaskLine(request.naturalLanguage))
    ensures EndsWith(UserPrompt(request, render), Trailer)
  {
    var task, analysis, context := UserPromptPieces(request, render);
    ConcatEnds(task, analysis + (context + Trailer));
    ConcatEnds(task + analysis + context, Trailer);
  }

  /** Right after the task line comes the analysis-type line exactly when
      the request has a truthy analysis type; otherwise nothing there starts
      like an analysis-type line. */
  lemma UserPromptAnalysisLine(request: GenerationRequest, render: Dict -> string)
    ensures |TaskLine(request.naturalLanguage)| <= |UserPrompt(request, render)|
    ensures var rest := UserPrompt(request, render)[|TaskLine(request.naturalLanguage)|..];
      && (HasAnalysisType(request) ==> StartsWith(rest, AnalysisLine(request.analysisType.value)))
      && (!HasAnalysisType(request) ==> !StartsWith(rest, "Analysis type: "))
  {
    var task, analysis, context := UserPromptPieces(request, render);
    DropLeft(task, analysis + (context + Trailer));
    if HasAnalysisType(request) {
      ConcatEnds(analysis, context + Trailer);
    } else {
      assert analysis + (context + Trailer) == context + Trailer;
      if HasContext(request) {
        assert (context + Trailer)[0] == context[0] == 'C';
      } else {
        assert Trailer[0] == '\n';
        assert (context + Trailer)[0] == Trailer[0];
      }
    }
  }

  /** After the task line and the analysis-type line (when there is one)
      come the context line exactly when the request has a truthy context,
      and then the trailer and nothing else. */
  lemma UserPromptContextLine(request: GenerationRequest, render: Dict -> string)
    ensures var offset := |TaskLine(request.naturalLanguage)|
      + (if HasAnalysisType(request) then |AnalysisLine(request.analysisType.value)| else 0);
      && offset <= |UserPrompt(request, render)|
      && (HasContext(request) ==>
            UserPrompt(request, render)[offset..] == ContextLine(render(request.context.value)) + Trailer)
      && (!HasContext(request) ==> UserPrompt(request, render)[offset..] == Trailer)
  {
    var task, analysis, context := UserPromptPieces(request, render);
    DropLeft(task + analysis, context + Trailer);
  }

  /** The user prompt does not determine the request: an analysis type that
      itself holds a context line reads the same as a separate context. */
  lemma UserPromptAmbiguous(naturalLanguage: string, analysisType: string, context: Dict,
                            render: Dict -> string)
    requires analysisType != "" && |context| > 0
    ensures var embedded := analysisType + "\n" + "Context: " + render(context);
      var first := GenerationRequest(naturalLanguage, Some(embedded), None);
      var second := GenerationRequest(naturalLanguage, Some(analysisType), Some(context));
      first != second && UserPrompt(first, render) == UserPrompt(second, render)
  {
    var rendered := render(context);
    var embedded := analysisType + "\n" + "Context: " + rendered;
    var first := GenerationRequest(naturalLanguage, Some(embedded), None);
    var second := GenerationRequest(naturalLanguage, Some(analysisType), Some(context));
    assert first.context != second.context;
    var task := TaskLine(naturalLanguage);
    assert AnalysisLine(embedded) == AnalysisLine(analysisType) + ContextLine(rendered) by {
      Regroup("Analysis type: ", analysisType, "\n", "Context: ", rendered);
    }
    assert UserPrompt(first, render) == task + AnalysisLine(embedded) + Trailer by {
      assert HasAnalysisType(first) && !HasContext(first);
      DropEmpty(task + AnalysisLine(embedded));
    }
    assert UserPrompt(second, render)
      == task + AnalysisLine(analysisType) + ContextLine(rendered) + Trailer;
    Associate(task, AnalysisLine(analysisType), ContextLine(rendered), Trailer);
  }

  /** `x + (b + n + y + c) + n` regroups as `(x + b + n) + (y + c + n)`. */
  lemma Regroup(x: string, b: string, n: string, y: string, c: string)
    ensures x + (b + n + y + c) + n == (x + b + n) + (y + c + n)
  {
  }

  /** Appending the empty string changes nothing. */
  lemma DropEmpty(a: string)
    ensures a + "" == a
  {
  }

  // ---------------------------------------------------------------------
  // The reply split
  // ---------------------------------------------------------------------

  /** The handler's split of the reply: with a fence, the stripped text
      before the first fence and the stripped text after it up to the next
      fence (or the end); without one, the whole reply and no code. */
  function SplitReply(content: string): (r: ReplyParts)
    ensures Contains(content, Fence) ==>
      && Trimmed(r.explanation) && Trimmed(r.code)
      && !Contains(r.explanation, Fence) && !Contains(r.code, Fence)
  {
    if Contains(content, Fence) then
      var parts := Split(content, Fence);
      SplitPartsFree(content, Fence);
      StripKeepsAbsence(parts[0], Fence);
      StripKeepsAbsence(parts[1], Fence);
      ReplyParts(Strip(parts[0]), Strip(parts[1]))
    else
      ReplyParts(content, "")
  }

  /** Stripping cannot create an occurrence of `d`. */
  lemma StripKeepsAbsence(s: string, d: string)
    requires !Contains(s, d)
    ensures !Contains(Strip(s), d)
  {
    var r := Strip(s);
    NoOccurrenceInInfix(s, d, LeadingSpace(s), LeadingSpace(s) + |r|);
  }

  /** Without a fence the explanation is the reply verbatim, unstripped, and
      the code is empty. */
  lemma SplitReplyWithoutFence(content: string)
    requires !Contains(content, Fence)
    ensures SplitReply(content) == ReplyParts(content, "")
  {
  }

  /** With a fence, the explanation is the stripped text before the first
      fence. */
  lemma SplitReplyExplanation(content: string, i: nat)
    requires FirstFrom(content, Fence, 0, i)
    ensures SplitReply(content).explanation == Strip(content[..i])
  {
    SplitFirstPart(content, Fence, i);
  }

  /** With two fences, the code is the stripped text between the first and
      the second. */
  lemma SplitReplyCodeBetween(content: string, i: nat, j: nat)
    requires FirstFrom(content, Fence, 0, i)
    requires FirstFrom(content, Fence, i + |Fence|, j)
    ensures SplitReply(content).code == Strip(content[i + |Fence|..j])
  {
    SplitFirstPart(content, Fence, i);
    SplitSecondPart(content, Fence, i, j);
  }

  /** With a single fence, the code is the stripped text after it. */
  lemma SplitReplyCodeToEnd(content: string, i: nat)
    requires FirstFrom(content, Fence, 0, i)
    requires forall k: nat :: i + |Fence| <= k ==> !OccursAt(content, Fence, k)
    ensures SplitReply(content).code == Strip(content[i + |Fence|..])
  {
    SplitFirstPart(content, Fence, i);
    SplitSecondPartToEnd(content, Fence, i);
  }

  /** Text after the second fence has no effect: two replies that agree up
      to and including the second fence of the first split the same way. */
  lemma SplitReplyIgnoresTail(reply: string, other: string, i: nat, j: nat)
    requires FirstFrom(reply, Fence, 0, i)
    requires FirstFrom(reply, Fence, i + |Fence|, j)
    requires j + |Fence| <= |other| && reply[..j + |Fence|] == other[..j + |Fence|]
    ensures SplitReply(reply) == SplitReply(other)
  {
    var n := j + |Fence|;
    FirstFromAgreeingPrefix(reply, other, Fence, 0, i, n);
    FirstFromAgreeingPrefix(reply, other, Fence, i + |Fence|, j, n);
    SplitReplyCodeBetween(reply, i, j);
    SplitReplyCodeBetween(other, i, j);
    SplitReplyExplanation(reply, i);
    SplitReplyExplanation(other, i);
    AgreeingPrefixSlice(reply, other, n, 0, i);
    assert reply[..i] == reply[0..i] && other[..i] == other[0..i];
    AgreeingPrefixSlice(reply, other, n, i + |Fence|, j);
  }

  /** A reply made of prose, one fenced block and anything after it, where
      neither the prose nor the block holds a backtick, splits into the
      stripped prose and the stripped block. */
  lemma SplitReplyOneBlock(reply: string, prose: string, block: string, tail: string)
    requires reply == prose + Fence + block + Fence + tail
    requires forall k :: 0 <= k < |prose| ==> prose[k] != '`'
    requires forall k :: 0 <= k < |block| ==> block[k] != '`'
    ensures SplitReply(reply) == ReplyParts(Strip(prose), Strip(block))
  {
    var i := |prose|;
    var j := i + |Fence| + |block|;
    assert reply[..i] == prose;
    assert reply[i + |Fence|..j] == block;
    assert reply[i..i + |Fence|] == Fence;
    assert reply[j..j + |Fence|] == Fence;
    NoOccurrenceWithoutFirstChar(reply, Fence, 0, i);
    NoOccurrenceWithoutFirstChar(reply, Fence, i + |Fence|, j);
    assert FirstFrom(reply, Fence, 0, i);
    assert FirstFrom(reply, Fence, i + |Fence|, j);
    SplitReplyExplanation(reply, i);
    SplitReplyCodeBetween(reply, i, j);
  }

  /** The same with the whitespace around the explanation and the code
      spelled out: whatever trimmed text sits between the runs of whitespace
      is what the split returns. */
  lemma SplitReplyPadded(reply: string, explanation: string, code: string,
                         prose: string, block: string, tail: string,
                         w1: string, w2: string, w3: string, w4: string)
    requires prose == w1 + explanation + w2 && block == w3 + code + w4
    requires reply == prose + Fence + block + Fence + tail
    requires AllSpace(w1) && AllSpace(w2) && AllSpace(w3) && AllSpace(w4)
    requires Trimmed(explanation) && Trimmed(code)
    requires forall k :: 0 <= k < |prose| ==> prose[k] != '`'
    requires forall k :: 0 <= k < |block| ==> block[k] != '`'
    ensures SplitReply(reply) == ReplyParts(explanation, code)
  {
    StripUnique(w1, explanation, w2);
    StripUnique(w3, code, w4);
    SplitReplyOneBlock(reply, prose, block, tail);
  }

  /** The worked example: a one-line explanation followed by one fenced R
      snippet. */
  lemma SplitReplyExample(reply: string)
    requires reply == "Use DESeq2.\n" + "```" + "\nlibrary(DESeq2)\n...\n" + "```"
    ensures SplitReply(reply) == ReplyParts("Use DESeq2.", "library(DESeq2)\n...")
  {
    var explanation, code := "Use DESeq2.", "library(DESeq2)\n...";
    var prose, block := explanation + "\n", "\n" + code + "\n";
    assert prose == [] + explanation + "\n";
    SplitReplyPadded(reply, explanation, code, prose, block, "", [], "\n", "\n", "\n");
  }

  /** A language tag after the opening fence stays in the code, and prose
      after the closing fence is dropped. */
  lemma SplitReplyKeepsLanguageTag(reply: string)
    requires reply == "Here:" + "```" + "python\nx = 1\n" + "```" + "Done."
    ensures SplitReply(reply) == ReplyParts("Here:", "python\nx = 1")
  {
    var explanation, code := "Here:", "python\nx = 1";
    var block := code + "\n";
    assert explanation == [] + explanation + [];
    assert block == [] + code + "\n";
    SplitReplyPadded(reply, explanation, code, explanation, block, "Done.", [], [], [], "\n");
  }

  // ---------------------------------------------------------------------
  // The response and the handler
  // ---------------------------------------------------------------------

  /** The metadata attached to every response. */
  function Metadata(): map<string, string> {
    map["model" := ModelTag]
  }

  /** The response built from the provider's reply text. */
  function Shape(content: string): (response: GenerationResponse)
    ensures response.metadata == Some(map["model" := "gpt-3.5-turbo"])
    ensures ReplyParts(response.explanation, response.generatedCode) == SplitReply(content)
  {
    var parts := SplitReply(content);
    GenerationResponse(parts.code, parts.explanation, Some(Metadata()))
  }

  /** `POST /generate-code`. The provider call is the parameter `complete`,
      given the system and the user prompt; a failure it reports becomes an
      HTTP 500 whose detail is the failure's message. */
  function GenerateCode(
    request: GenerationRequest,
    render: Dict -> string,
    complete: (string, string) -> Result<string, string>
  ): (r: Result<GenerationResponse, HttpError>)
    ensures var reply := complete(SystemPrompt, UserPrompt(request, render));
      && (reply.Failure? <==> r.Failure?)
      && (reply.Failure? ==> r.error == HttpError(500, reply.error))
      && (reply.Success? ==>
            && r.value == Shape(reply.value)
            && r.value.metadata == Some(map["model" := "gpt-3.5-turbo"])
            && (!Contains(reply.value, Fence) ==>
                  r.value.explanation == reply.value && r.value.generatedCode == "")
            && (Contains(reply.value, Fence) ==>
                  && Trimmed(r.value.explanation) && Trimmed(r.value.generatedCode)
                  && !Contains(r.value.explanation, Fence)
                  && !Contains(r.value.generatedCode, Fence)))
  {
    match complete(SystemPrompt, UserPrompt(request, render))
    case Failure(message) => Failure(HttpError(500, message))
    case Success(content) => Success(Shape(content))
  }

  // ---------------------------------------------------------------------
  // The analysis-type listing
  // ---------------------------------------------------------------------

  /** The fixed analysis-type labels, in order. */
  function AnalysisTypes(): seq<string> {
    ["RNA-seq", "DNA-seq", "Proteomics", "Metabolomics", "Single-cell"]
  }

  /** The body of `GET /analysis-types`. */
  function AnalysisTypesResponse(): (body: map<string, seq<string>>)
    ensures body.Keys == {"analysis_types"}
    ensures body["analysis_types"] == ["RNA-seq", "DNA-seq", "Proteomics", "Metabolomics", "Single-cell"]
  {
    map["analysis_types" := AnalysisTypes()]
  }

  /** The five labels are pairwise distinct, none is empty, and each is
      already stripped. */
  lemma AnalysisTypesWellFormed()
    ensures |AnalysisTypes()| == 5
    ensures forall i, j :: 0 <= i < j < |AnalysisTypes()| ==> AnalysisTypes()[i] != AnalysisTypes()[j]
    ensures forall i :: 0 <= i < |AnalysisTypes()| ==>
      AnalysisTypes()[i] != "" && Trimmed(AnalysisTypes()[i])
  {
  }
}
