/** The app's combination of the three steps (app.py): the summary of the
    extracted text, with the tags and the evaluation of that summary attached. */
module Pipeline {
  import opened Summaries
  import Tag
  import Evaluate
  import Summarize

  /** The result record after `result["tags"] = tags` and
      `result["evaluation"] = evaluation`. */
  datatype Analysis = Analysis(summary: Summary, tags: seq<string>, evaluation: Evaluate.Evaluation)

  /** Summarize, tag and evaluate the extracted text, as the "Summarize Document"
      step does. */
  method Analyze(text: string, chat: Summarize.ChatRequest -> string,
                 parse: string -> Option<Summary>) returns (a: Analysis)
    ensures a.summary == Summarize.SummarizeText(text, chat, parse)
    ensures a.tags == Tag.Tags(text)
    ensures a.evaluation == Evaluate.Evaluated(text, a.summary)
  {
    var result := Summarize.SummarizeText(text, chat, parse);
    var tags := Tag.TagDocument(text);
    var evaluation := Evaluate.EvaluateSummary(text, result);
    a := Analysis(result, tags, evaluation);
  }

  /** When the model's cleaned reply is not valid JSON, the stored record keeps
      that reply under `raw`, and its evaluation flags the empty one-liner and the
      missing bullets, so its confidence is at most 60. */
  lemma FallbackLowConfidence(text: string, chat: Summarize.ChatRequest -> string,
                              parse: string -> Option<Summary>)
    requires parse(Summarize.CleanReply(chat(Summarize.Request(text)))).None?
    ensures var s := Summarize.SummarizeText(text, chat, parse);
            s.raw == Present(Summarize.CleanReply(chat(Summarize.Request(text))))
            && Evaluate.WeakOneLiner in Evaluate.Evaluated(text, s).issues
            && Evaluate.FewBullets in Evaluate.Evaluated(text, s).issues
            && Evaluate.Evaluated(text, s).confidence <= 60
  {
    var s := Summarize.SummarizeText(text, chat, parse);
    Evaluate.EmptySummaryLowConfidence(text, s);
  }
}
