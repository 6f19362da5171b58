/** The deterministic quality check of a summary (src/evaluate.py): three threshold
    checks in a fixed order, each adding a fixed message, and a confidence score that
    loses 20 points per message. */
module Evaluate {
  import opened Strings
  import opened Sequences
  import opened Summaries

  const ShortDocument := "Document text is very short; extraction may be incomplete."
  const WeakOneLiner := "One-liner summary is missing or too short."
  const FewBullets := "Too few bullet points (expected 5\U{2013}7)."

  /** The three messages in the order the checks run. */
  const AllIssues: seq<string> := [ShortDocument, WeakOneLiner, FewBullets]

  datatype Evaluation = Evaluation(confidence: int, issues: seq<string>)

  /** `summary.get("bullets", []) or []`: a missing or null key reads as no bullets. */
  function BulletsOf(summary: Summary): (b: seq<string>)
    ensures b == [] <==> summary.bullets in {Absent, Null, Present([])}
    ensures b != [] ==> summary.bullets == Present(b)
  {
    if summary.bullets.Present? then summary.bullets.value else []
  }

  /** `summary.get("one_liner", "") or ""`: a missing or null key reads as "". */
  function OneLinerOf(summary: Summary): (o: string)
    ensures o == "" <==> summary.oneLiner in {Absent, Null, Present("")}
    ensures o != "" ==> summary.oneLiner == Present(o)
  {
    if summary.oneLiner.Present? then summary.oneLiner.value else ""
  }

  /** The issue list the three checks build, in order: at most one message per
      check, and none exactly when every threshold is met. */
  function Issues(text: string, summary: Summary): (issues: seq<string>)
    ensures |issues| <= 3
    ensures forall m :: m in issues ==> m in AllIssues
    ensures issues == [] <==> WordCount(text) >= 80 && WordCount(OneLinerOf(summary)) >= 8
                              && |BulletsOf(summary)| >= 3
  {
    var oneLiner := OneLinerOf(summary);
    (if WordCount(text) < 80 then [ShortDocument] else [])
    + (if oneLiner == "" || WordCount(oneLiner) < 8 then [WeakOneLiner] else [])
    + (if |BulletsOf(summary)| < 3 then [FewBullets] else [])
  }

  /** The score for a number of issues: 100 less 20 per issue, floored at 0. */
  function Score(n: nat): (score: int)
    ensures 0 <= score <= 100
    ensures n <= 5 ==> score == 100 - 20 * n
    ensures n >= 5 ==> score == 0
  {
    if 100 - 20 * n < 0 then 0 else 100 - 20 * n
  }

  /** The evaluation `evaluate_summary(text, summary)` returns: the confidence is
      100 less 20 per issue, never needs the clamp, and is one of 100, 80, 60, 40. */
  function Evaluated(text: string, summary: Summary): (e: Evaluation)
    ensures e.issues == Issues(text, summary)
    ensures e.confidence == 100 - 20 * |e.issues|
    ensures e.confidence in {100, 80, 60, 40}
    ensures 0 <= e.confidence <= 100
  {
    var issues := Issues(text, summary);
    Evaluation(Score(|issues|), issues)
  }

  /** `evaluate_summary`: grow the issue list check by check, then start the score
      at 100, take 20 per issue and clamp at 0. */
  method EvaluateSummary(text: string, summary: Summary) returns (e: Evaluation)
    ensures e == Evaluated(text, summary)
    ensures e.confidence == Score(|e.issues|)
    ensures e.confidence in {100, 80, 60, 40}
  {
    var bullets := BulletsOf(summary);
    var oneLiner := OneLinerOf(summary);
    var issues: seq<string> := [];
    if WordCount(text) < 80 {
      issues := issues + [ShortDocument];
    }
    if oneLiner == "" || WordCount(oneLiner) < 8 {
      issues := issues + [WeakOneLiner];
    }
    if |bullets| < 3 {
      issues := issues + [FewBullets];
    }
    var score := 100;
    score := score - 20 * |issues|;
    if score < 0 {
      score := 0;
    }
    e := Evaluation(score, issues);
  }

  // ---------------------------------------------------------------------------
  // Properties of the evaluator

  /** Each message is present exactly when its check fails. */
  lemma IssuesSpec(text: string, summary: Summary)
    ensures ShortDocument in Issues(text, summary) <==> WordCount(text) < 80
    ensures WeakOneLiner in Issues(text, summary)
        <==> OneLinerOf(summary) == "" || WordCount(OneLinerOf(summary)) < 8
    ensures FewBullets in Issues(text, summary) <==> |BulletsOf(summary)| < 3
  {
  }

  /** The messages come in check order, each at most once, so there are at most three. */
  lemma IssuesOrdered(text: string, summary: Summary)
    ensures IsSubsequence(Issues(text, summary), AllIssues)
    ensures NoDup(Issues(text, summary))
    ensures |Issues(text, summary)| <= 3
  {
    var oneLiner := OneLinerOf(summary);
    var a := WordCount(text) < 80;
    var b := oneLiner == "" || WordCount(oneLiner) < 8;
    var c := |BulletsOf(summary)| < 3;
    var tail := if c then [FewBullets] else [];
    assert IsSubsequence(tail, [FewBullets]);
    var mid := (if b then [WeakOneLiner] else []) + tail;
    assert IsSubsequence(mid, [WeakOneLiner, FewBullets]) by {
      if b {
        assert mid[1..] == tail;
      }
    }
    assert Issues(text, summary) == (if a then [ShortDocument] else []) + mid;
    if a {
      assert Issues(text, summary)[1..] == mid;
    }
    assert NoDup(AllIssues);
    SubsequenceFacts(Issues(text, summary), AllIssues);
  }

  /** A missing key, a null value and an empty value are read the same way. */
  lemma AbsentNullEmptyAgree(text: string, s: Summary, o1: Field<string>, o2: Field<string>,
                             b1: Field<seq<string>>, b2: Field<seq<string>>)
    requires o1 in {Absent, Null, Present("")} && o2 in {Absent, Null, Present("")}
    requires b1 in {Absent, Null, Present([])} && b2 in {Absent, Null, Present([])}
    ensures Evaluated(text, s.(oneLiner := o1, bullets := b1)) == Evaluated(text, s.(oneLiner := o2, bullets := b2))
  {
  }

  /** A summary with an empty one-liner and no bullets, such as the summarizer's
      parse-failure fallback, always carries those two messages, so its confidence
      is at most 60. */
  lemma EmptySummaryLowConfidence(text: string, summary: Summary)
    requires OneLinerOf(summary) == "" && BulletsOf(summary) == []
    ensures WeakOneLiner in Evaluated(text, summary).issues
    ensures FewBullets in Evaluated(text, summary).issues
    ensures Evaluated(text, summary).confidence <= 60
  {
  }

  /** A short document with an empty summary gets all three messages, in order,
      and confidence 40. */
  lemma ShortDocumentEmptySummary(text: string, summary: Summary)
    requires WordCount(text) < 80
    requires OneLinerOf(summary) == "" && BulletsOf(summary) == []
    ensures Evaluated(text, summary) == Evaluation(40, AllIssues)
  {
  }

  /** A document of at least 80 words, a one-liner of at least 8 words and at least
      three bullets get no message and confidence 100. */
  lemma GoodSummary(text: string, summary: Summary)
    requires WordCount(text) >= 80
    requires WordCount(OneLinerOf(summary)) >= 8
    requires |BulletsOf(summary)| >= 3
    ensures Evaluated(text, summary) == Evaluation(100, [])
  {
  }

  /** Six words joined by single spaces count as six words. */
  lemma SixWords(w1: string, w2: string, w3: string, w4: string, w5: string, w6: string)
    requires IsWord(w1) && IsWord(w2) && IsWord(w3) && IsWord(w4) && IsWord(w5) && IsWord(w6)
    ensures WordCount(w1 + " " + w2 + " " + w3 + " " + w4 + " " + w5 + " " + w6) == 6
  {
    SplitWord(w1);
    SplitAppendWord(w1, w2);
    SplitAppendWord(w1 + " " + w2, w3);
    SplitAppendWord(w1 + " " + w2 + " " + w3, w4);
    SplitAppendWord(w1 + " " + w2 + " " + w3 + " " + w4, w5);
    SplitAppendWord(w1 + " " + w2 + " " + w3 + " " + w4 + " " + w5, w6);
  }

  /** "A sufficiently long one-liner sentence here", written word by word, has six
      words: fewer than the eight the one-liner check asks for. */
  lemma SixWordOneLiner()
    ensures WordCount("A" + " " + "sufficiently" + " " + "long" + " " + "one-liner"
                      + " " + "sentence" + " " + "here") == 6
  {
    SixWords("A", "sufficiently", "long", "one-liner", "sentence", "here");
  }
}
