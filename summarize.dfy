/** The deterministic part of `summarize_text` (src/summarize.py): the hard
    truncation of the document, the prompt, the clean-up of markdown code fences
    around the model's reply, and the choice between the parsed reply and the
    fallback record. The chat model and the JSON parser are parameters. */
module Summarize {
  import opened Strings
  import opened Summaries

  /** Only this many characters of the document reach the model. */
  const MaxChars := 6000
  const ModelName := "gpt-4o-mini"
  const Temperature: real := 0.2

  /** What the chat-completion call is given: model, sampling temperature, and the
      single user message. */
  datatype ChatRequest = ChatRequest(model: string, temperature: real, prompt: string)

  /** `text[:6000]`. */
  function Truncate(text: string): (r: string)
    ensures |r| == if |text| < MaxChars then |text| else MaxChars
    ensures r == text[..|r|]
  {
    if |text| <= MaxChars then text else text[..MaxChars]
  }

  /** The part of the prompt before the document. */
  const PromptHead := "\nYou are a professional document analyst.\n\n"
    + "Extract the following from the document and return ONLY valid JSON with this schema:\n"
    + "{\n"
    + "  \"one_liner\": \"One sentence summary\",\n"
    + "  \"bullets\": [\"5-7 bullet points max\"],\n"
    + "  \"entities\": [\"people, companies, funds, products\"],\n"
    + "  \"risks\": [\"key risks or issues mentioned (if none, empty list)\"]\n"
    + "}\n\n"
    + "Document:\n"

  /** The prompt: the fixed instructions, the document, and a final newline. */
  function Prompt(doc: string): (p: string)
    ensures |p| == |PromptHead| + |doc| + 1
    ensures p[..|PromptHead|] == PromptHead
    ensures p[|PromptHead|..|PromptHead| + |doc|] == doc
    ensures p[|PromptHead| + |doc|..] == "\n"
  {
    PromptHead + doc + "\n"
  }

  /** The document can be read back out of its prompt, so different documents
      give different prompts. */
  lemma PromptInjective(a: string, b: string)
    requires Prompt(a) == Prompt(b)
    ensures a == b
  {
    assert |a| == |b|;
    assert a == Prompt(a)[|PromptHead|..|PromptHead| + |a|];
  }

  /** The request `summarize_text(text)` sends. */
  function Request(text: string): (q: ChatRequest)
    ensures q.model == ModelName && q.temperature == Temperature
    ensures q.prompt == Prompt(Truncate(text))
  {
    ChatRequest(ModelName, Temperature, Prompt(Truncate(text)))
  }

  /** Two documents that agree on their first 6000 characters produce the same request. */
  lemma RequestSeesOnlyPrefix(a: string, b: string)
    requires |a| >= MaxChars && |b| >= MaxChars && a[..MaxChars] == b[..MaxChars]
    ensures Request(a) == Request(b)
  {
  }

  // ---------------------------------------------------------------------------
  // Code-fence clean-up

  const JsonFence := "```json"
  const Fence := "```"

  /** `re.sub(r"^" + p, "", s)` for a literal `p`: without the MULTILINE flag `^`
      matches only at the start of the string, so at most one `p` is removed there. */
  function SubAtStart(s: string, p: string): (r: string)
    ensures StartsWith(s, p) ==> s == p + r
    ensures !StartsWith(s, p) ==> r == s
  {
    if StartsWith(s, p) then s[|p|..] else s
  }

  /** `re.sub(r"```$", "", s)`: without the MULTILINE flag `$` matches at the end
      of the string and just before a final newline, and only one of those can
      follow a fence. */
  function SubFenceAtEnd(s: string): (r: string)
    ensures EndsWith(s, Fence) ==> s == r + Fence
    ensures (!EndsWith(s, Fence) && EndsWith(s, Fence + "\n"))
            ==> |r| >= 1 && s == r[..|r| - 1] + Fence + "\n" && r[|r| - 1] == '\n'
    ensures !EndsWith(s, Fence) && !EndsWith(s, Fence + "\n") ==> r == s
  {
    if EndsWith(s, Fence) then s[..|s| - |Fence|]
    else if EndsWith(s, Fence + "\n") then s[..|s| - |Fence| - 1] + "\n"
    else s
  }

  /** The three substitutions, in order: a leading "```json", then a leading
      "```", then a trailing "```". */
  function Unfence(s: string): (r: string)
    ensures |r| <= |s|
    ensures !StartsWith(s, Fence) && !EndsWith(s, Fence) && (s == [] || !IsSpace(s[|s| - 1]))
            ==> r == s
  {
    JsonFenceOpensWithFence(s);
    assert EndsWith(s, Fence + "\n") ==> s[|s| - 4..][3] == s[|s| - 1] == '\n';
    SubFenceAtEnd(SubAtStart(SubAtStart(s, JsonFence), Fence))
  }

  /** The clean-up of the reply: strip, remove the fences, strip again. */
  function CleanReply(reply: string): (c: string)
    ensures NoEdgeSpace(c)
  {
    Strip(Unfence(Strip(reply)))
  }

  /** Removing a prefix keeps the end of the string. */
  lemma SubAtStartKeepsEnd(s: string, p: string)
    ensures SubAtStart(s, p) == s[|s| - |SubAtStart(s, p)|..]
  {
  }

  /** On a string that does not end in whitespace the end-of-string substitution
      is plain removal of one trailing fence. */
  lemma SubFenceAtEndNoNewline(s: string)
    requires s == [] || !IsSpace(s[|s| - 1])
    ensures EndsWith(s, Fence) ==> SubFenceAtEnd(s) == s[..|s| - |Fence|]
    ensures !EndsWith(s, Fence) ==> SubFenceAtEnd(s) == s
  {
    if |s| >= 4 {
      assert s[|s| - 4..][3] == s[|s| - 1];
    }
    assert !EndsWith(s, Fence + "\n");
  }

  /** Every string opening with "```json" opens with "```". */
  lemma JsonFenceOpensWithFence(s: string)
    ensures StartsWith(s, JsonFence) ==> StartsWith(s, Fence)
  {
    if StartsWith(s, JsonFence) {
      assert s[..|Fence|] == s[..|JsonFence|][..|Fence|];
    }
  }

  /** The string between the two fence substitutions does not end in whitespace. */
  lemma AfterPrefixesNoTrailingSpace(s0: string)
    requires s0 == [] || !IsSpace(s0[|s0| - 1])
    ensures var s2 := SubAtStart(SubAtStart(s0, JsonFence), Fence);
            s2 == [] || !IsSpace(s2[|s2| - 1])
  {
    var s1 := SubAtStart(s0, JsonFence);
    var s2 := SubAtStart(s1, Fence);
    SubAtStartKeepsEnd(s0, JsonFence);
    SubAtStartKeepsEnd(s1, Fence);
    if s2 != [] {
      assert s2[|s2| - 1] == s1[|s1| - 1] == s0[|s0| - 1];
    }
  }

  /** Plain removal of one trailing "```". */
  function DropFenceSuffix(s: string): (r: string)
    ensures EndsWith(s, Fence) ==> s == r + Fence
    ensures !EndsWith(s, Fence) ==> r == s
  {
    if EndsWith(s, Fence) then s[..|s| - |Fence|] else s
  }

  /** Because the reply has just been stripped, the `$`-anchored substitution is
      plain removal of a trailing fence: cleaning is strip, drop one leading
      "```json", drop one leading "```", drop one trailing "```", strip. */
  lemma CleanIsFenceRemoval(reply: string)
    ensures CleanReply(reply)
         == Strip(DropFenceSuffix(SubAtStart(SubAtStart(Strip(reply), JsonFence), Fence)))
  {
    var s0 := Strip(reply);
    UnfenceDropsFences(s0);
  }

  /** On a string not ending in whitespace, the three substitutions are: drop one
      leading "```json", drop one leading "```", drop one trailing "```". */
  lemma UnfenceDropsFences(s0: string)
    requires s0 == [] || !IsSpace(s0[|s0| - 1])
    ensures Unfence(s0) == DropFenceSuffix(SubAtStart(SubAtStart(s0, JsonFence), Fence))
  {
    AfterPrefixesNoTrailingSpace(s0);
    SubFenceAtEndNoNewline(SubAtStart(SubAtStart(s0, JsonFence), Fence));
  }

  /** A reply whose stripped form neither starts nor ends with a fence is only
      stripped. */
  lemma CleanWithoutFences(reply: string)
    requires !StartsWith(Strip(reply), Fence) && !EndsWith(Strip(reply), Fence)
    ensures CleanReply(reply) == Strip(reply)
  {
    StripIdempotent(reply);
  }

  /** Only a body of fewer than three backticks lets the closing fence reach
      the front of body + "```"; dropping three backticks from the front then
      leaves exactly the body. */
  lemma BacktickBody(body: string)
    requires !StartsWith(body, Fence) && StartsWith(body + Fence, Fence)
    ensures |body| < |Fence|
    ensures (body + Fence)[|Fence|..] == body
  {
    var s := body + Fence;
    assert forall k :: 0 <= k < |body| ==> body[k] == s[..|Fence|][k];
    var t := s[|Fence|..];
    assert |t| == |body|;
    assert forall k :: 0 <= k < |t| ==> t[k] == '`' == body[k];
  }

  /** A fenced reply has no edge whitespace, so the first `strip()` keeps it. */
  lemma StripJsonFenced(body: string)
    ensures Strip(JsonFence + body + Fence) == JsonFence + body + Fence
  {
    var reply := JsonFence + body + Fence;
    assert NoEdgeSpace(reply);
    StripNoEdgeSpace(reply);
  }

  /** The opening "```json" is removed. */
  lemma DropJsonFence(body: string)
    ensures SubAtStart(JsonFence + body + Fence, JsonFence) == body + Fence
  {
    var reply := JsonFence + body + Fence;
    assert reply[..|JsonFence|] == JsonFence;
  }

  /** After the opening fence is gone, the two remaining substitutions leave the body. */
  lemma DropClosingFence(body: string)
    requires !StartsWith(body, Fence)
    ensures SubFenceAtEnd(SubAtStart(body + Fence, Fence)) == body
  {
    var s1 := body + Fence;
    var s2 := SubAtStart(s1, Fence);
    assert s2 == s1[|s1| - |s2|..];
    assert s2 == [] || !IsSpace(s2[|s2| - 1]);
    SubFenceAtEndNoNewline(s2);
    if StartsWith(s1, Fence) {
      BacktickBody(body);
      assert s2 == body;
    } else {
      assert s2 == body + Fence;
      assert s2[..|body|] == body;
    }
  }

  /** A reply "```json" + B + "```", where B does not itself open with a fence,
      cleans to B with its edge whitespace removed. */
  lemma CleanJsonFenced(body: string)
    requires !StartsWith(body, Fence)
    ensures CleanReply(JsonFence + body + Fence) == Strip(body)
  {
    StripJsonFenced(body);
    DropJsonFence(body);
    DropClosingFence(body);
  }

  /** What the two start-of-string substitutions can remove. */
  predicate IsFencePrefix(p: string) {
    p == [] || p == JsonFence || p == Fence || p == JsonFence + Fence
  }

  /** What the end-of-string substitution can remove once the string ends in
      something other than whitespace. */
  predicate IsFenceSuffix(p: string) {
    p == [] || p == Fence
  }

  /** `s` is a fence prefix `p`, then a middle `m`, then a fence suffix `q`. */
  predicate FenceSplit(s: string, p: string, m: string, q: string) {
    IsFencePrefix(p) && IsFenceSuffix(q) && s == p + (m + q)
  }

  /** The two start-of-string substitutions remove a fence prefix. */
  lemma OpeningFences(s0: string)
    ensures var s2 := SubAtStart(SubAtStart(s0, JsonFence), Fence);
            |s2| <= |s0| && s0 == s0[..|s0| - |s2|] + s2 && IsFencePrefix(s0[..|s0| - |s2|])
  {
    var s1 := SubAtStart(s0, JsonFence);
    var s2 := SubAtStart(s1, Fence);
    SubAtStartKeepsEnd(s0, JsonFence);
    SubAtStartKeepsEnd(s1, Fence);
    var i := |s0| - |s2|;
    assert s0 == s0[..i] + s2;
    if StartsWith(s0, JsonFence) {
      if StartsWith(s1, Fence) {
        assert s0 == JsonFence + Fence + s2;
        assert s0[..i] == JsonFence + Fence;
      } else {
        assert s0 == JsonFence + s2;
        assert s0[..i] == JsonFence;
      }
    } else if StartsWith(s1, Fence) {
      assert s0 == Fence + s2;
      assert s0[..i] == Fence;
    } else {
      assert s0[..i] == [];
    }
  }

  /** The end-of-string substitution on a string not ending in whitespace removes
      a fence suffix. */
  lemma ClosingFence(s2: string)
    requires s2 == [] || !IsSpace(s2[|s2| - 1])
    ensures var s3 := SubFenceAtEnd(s2);
            |s3| <= |s2| && s2 == s3 + s2[|s3|..] && IsFenceSuffix(s2[|s3|..])
  {
    SubFenceAtEndNoNewline(s2);
    if EndsWith(s2, Fence) {
      assert s2[|s2| - |Fence|..] == Fence;
    } else {
      assert s2[|s2|..] == [];
    }
  }

  /** On a string not ending in whitespace, the substitutions split off a
      fence prefix and a fence suffix around an unchanged middle. */
  lemma UnfenceSplits(s0: string)
    requires s0 == [] || !IsSpace(s0[|s0| - 1])
    ensures exists p, q :: FenceSplit(s0, p, Unfence(s0), q)
  {
    var s2 := SubAtStart(SubAtStart(s0, JsonFence), Fence);
    var s3 := SubFenceAtEnd(s2);
    OpeningFences(s0);
    AfterPrefixesNoTrailingSpace(s0);
    ClosingFence(s2);
    var p, q := s0[..|s0| - |s2|], s2[|s3|..];
    assert s3 == Unfence(s0);
    assert FenceSplit(s0, p, Unfence(s0), q);
  }

  /** Fence removal deletes at most one leading "```json", at most one further
      leading "```" and at most one trailing "```" from the stripped reply, and
      changes nothing in between. */
  lemma CleanRemovesOnlyFences(reply: string)
    ensures exists p, m, q :: FenceSplit(Strip(reply), p, m, q) && CleanReply(reply) == Strip(m)
  {
    var s0 := Strip(reply);
    UnfenceSplits(s0);
    var p, q :| FenceSplit(s0, p, Unfence(s0), q);
    assert FenceSplit(s0, p, Unfence(s0), q) && CleanReply(reply) == Strip(Unfence(s0));
  }

  /** "``````jsonA" does not open with "```json": its fourth character is a backtick. */
  lemma DoubledFenceNotJson()
    ensures !StartsWith("``````jsonA", JsonFence)
  {
    assert "``````jsonA"[..7][3] != JsonFence[3];
  }

  /** "``````jsonA" loses its first fence and keeps "```json", which is not at the front. */
  lemma CleanDoubledFence()
    ensures CleanReply("``````jsonA") == "```jsonA"
  {
    var r := "``````jsonA";
    StripNoEdgeSpace(r);
    DoubledFenceNotJson();
    assert SubAtStart(r, JsonFence) == r;
    assert SubAtStart(r, Fence) == "```jsonA";
    SubFenceAtEndNoNewline("```jsonA");
    assert SubFenceAtEnd("```jsonA") == "```jsonA";
    StripNoEdgeSpace("```jsonA");
  }

  /** "```jsonA" cleans to "A". */
  lemma CleanSingleFence()
    ensures CleanReply("```jsonA") == "A"
  {
    var r := "```jsonA";
    StripNoEdgeSpace(r);
    assert SubAtStart(r, JsonFence) == "A";
    assert SubAtStart("A", Fence) == "A";
    SubFenceAtEndNoNewline("A");
    StripNoEdgeSpace("A");
  }

  /** Cleaning is not idempotent: a doubled fence survives one pass. */
  lemma CleanNotIdempotent()
    ensures CleanReply("``````jsonA") != CleanReply(CleanReply("``````jsonA"))
  {
    CleanDoubledFence();
    CleanSingleFence();
  }

  // ---------------------------------------------------------------------------
  // Parse or fall back

  /** The record returned when the cleaned reply is not valid JSON: empty
      structured fields (all present) and the cleaned reply under `raw`. */
  function Fallback(content: string): (r: Summary)
    ensures r.oneLiner == Present("") && r.bullets == Present([])
    ensures r.entities == Present([]) && r.risks == Present([])
    ensures r.raw == Present(content)
  {
    Summary(Present(""), Present([]), Present([]), Present([]), Present(content))
  }

  /** `summarize_text(text)`, given the chat model `chat` and the JSON parser
      `parse` (which gives `None` where `json.loads` raises `JSONDecodeError`). */
  function SummarizeText(text: string, chat: ChatRequest -> string,
                         parse: string -> Option<Summary>): (r: Summary)
    ensures var c := CleanReply(chat(Request(text)));
            (parse(c).Some? ==> r == parse(c).value)
            && (parse(c).None? ==> r == Fallback(c) && NoEdgeSpace(c))
  {
    var c := CleanReply(chat(Request(text)));
    match parse(c)
    case Some(s) => s
    case None => Fallback(c)
  }

  /** For one fixed reply function `chat`, the summary depends on the document only
      through its first 6000 characters. */
  lemma SummarySeesOnlyPrefix(a: string, b: string, chat: ChatRequest -> string,
                              parse: string -> Option<Summary>)
    requires |a| >= MaxChars && |b| >= MaxChars && a[..MaxChars] == b[..MaxChars]
    ensures SummarizeText(a, chat, parse) == SummarizeText(b, chat, parse)
  {
    RequestSeesOnlyPrefix(a, b);
  }

  /** A reply that is not JSON, even inside a "```json" fence, comes back as the
      fallback record carrying the fence-free, stripped reply. */
  lemma FencedNonJsonFallsBack(text: string, chat: ChatRequest -> string,
                               parse: string -> Option<Summary>, body: string)
    requires chat(Request(text)) == JsonFence + body + Fence
    requires !StartsWith(body, Fence)
    requires parse(Strip(body)).None?
    ensures SummarizeText(text, chat, parse) == Fallback(Strip(body))
  {
    CleanJsonFenced(body);
  }
}
