# DocumentPipelineAI — a Dafny model of the decision logic

DocumentPipelineAI turns a PDF into a structured summary. It extracts the text, asks a
chat model for a JSON summary, tags the document by keyword, and scores the summary
with a few fixed checks. This project models the deterministic parts of that flow
and proves what they promise:

- **Tagger** (`tag_document`, module `Tag`). The text is lower-cased. A fixed, ordered
  table of six categories is then walked, and a category is appended when one of its
  keywords is a substring of the text. If nothing matched, the result is `["general"]`.
  The loop is a method proved against a specification function `Tag.Tags`.
- **Evaluator** (`evaluate_summary`, module `Evaluate`). Three checks run in order:
  document length, one-liner length and bullet count. Each failed check appends a fixed
  message. The score starts at 100, drops 20 per message and is clamped at 0. The
  method is proved against `Evaluate.Evaluated`.
- **Summarizer post-processing** (`summarize_text`, module `Summarize`):
  - the 6000-character truncation;
  - the prompt and request;
  - the markdown-fence clean-up of the reply;
  - the choice between the parsed reply and the fallback record.

  The chat model is a parameter `chat: ChatRequest -> string`. The JSON parser is a
  parameter `parse: string -> Option<Summary>`, which gives `None` where `json.loads`
  raises `JSONDecodeError`.
- **Composition** (module `Pipeline`). The app summarizes, tags and evaluates the same
  extracted text, then attaches the tags and the evaluation to the summary record.

Module `Strings` gives the Python string operations the code relies on:
- `lower()`, restricted to ASCII;
- `strip()` and `split()` with no argument, over Python's `str.isspace` on ASCII
  (0x09-0x0D, 0x1C-0x1F and space);
- the substring test `k in t`.

Module `Sequences` gives the subsequence and no-duplicate facts used to state
the order of the tag and issue lists.

`Summaries` holds the summary record. Each JSON key of the record is a
`Field`: absent, `null` or present. This lets the model follow how `.get(...) or ...`
treats a missing key and a `null` value.

The 50-character example sentence of the tagger is written as the concatenation of two
literals, and the six-word one-liner word by word. The strings are the same; the split
only keeps the verifier's literal evaluation short.

A one-liner needs at least eight words (src/evaluate.py:15). A six-word one-liner such as
"A sufficiently long one-liner sentence here" therefore draws the one-liner issue
(`Evaluate.SixWordOneLiner`).

## Model

| member | source | states |
|---|---|---|
| Strings.LowerChar | src/tag.py:8 | ASCII lower-casing of one character: upper-case letters A-Z move up by 32, to a-z; every other character is unchanged. |
| Strings.LowerIdempotent | src/tag.py:8 | Lower-casing twice equals lower-casing once. |
| Strings.LowerAppend | src/tag.py:8 | Lower-casing a concatenation lower-cases each part. |
| Strings.Lower | src/tag.py:8 | `text.lower()` keeps the length, turns every upper-case letter A-Z into its lower-case letter (code point plus 32), keeps every other character, and leaves no upper-case letter. |
| Strings.Contains | src/tag.py:25 | A keyword found in `t` is no longer than `t`, and the empty keyword is found in every text. |
| Strings.ContainsSpec | src/tag.py:25 | The left-to-right substring scan holds exactly when the keyword occurs at some index of the text. |
| Strings.TrimStart | src/summarize.py:63 | The result is a suffix of the input, everything removed is whitespace, and the result does not begin with whitespace. |
| Strings.TrimEnd | src/summarize.py:63 | The result is a prefix of the input, everything removed is whitespace, and the result does not end with whitespace. |
| Strings.Strip | src/summarize.py:63 | The stripped string has no whitespace at either end and is no longer than the input. |
| Strings.StripRemovesOnlySpace | src/summarize.py:63 | The stripped string is a slice of the input, and every character outside the slice is whitespace. |
| Strings.StripNoEdgeSpace | src/summarize.py:69 | A string without edge whitespace is unchanged by stripping. |
| Strings.StripIdempotent | src/summarize.py:63-69 | Stripping twice equals stripping once. |
| Strings.WordLen | src/evaluate.py:12 | The length of the leading non-whitespace run: every character before it is non-whitespace, and the character at it, if any, is whitespace. |
| Strings.Split | src/evaluate.py:12 | `str.split()` with no separator: the maximal non-whitespace runs, in order; characterised by `SplitWords`, `SplitBlank`, `SplitWord`, `SplitJoin` and `SplitAppendWord`. |
| Strings.SplitWords | src/evaluate.py:12 | Every element of `split()` is a non-empty run without whitespace; the list is empty exactly when the string is all whitespace; there is at most one word per two characters, rounding up. |
| Strings.WordCount | src/evaluate.py:12 | `len(s.split())` is zero exactly when the string is all whitespace, and at most half the length, rounding up. |
| Strings.SplitBlank | src/evaluate.py:12 | An all-whitespace string has no words. |
| Strings.SplitWord | src/evaluate.py:15 | A single word splits into itself. |
| Strings.SplitJoin | src/evaluate.py:12 | Joining two strings with any one whitespace character (space, tab, line feed, carriage return, ...) concatenates their word lists. |
| Strings.SplitAppendWord | src/evaluate.py:15 | Appending a space and a word adds exactly that word to the end of the word list. |
| Tag.Names | src/tag.py:13-20 | The category column of a table has one entry per row, in row order. |
| Tag.AnyOccurs | src/tag.py:25 | `any(k in t for k in keywords)`: false for an empty keyword list, true when the first keyword is a substring of `t`; fully characterised by `AnyOccursSpec`. |
| Tag.AnyOccursSpec | src/tag.py:25 | `any(k in t for k in keywords)` holds iff some keyword of the list is a substring of `t`. |
| Tag.Tags | src/tag.py:24-32 | The tag list is never empty: when no category matched, `"general"` is appended (src/tag.py:29-30); its full meaning is given by `TagsCategory`, `TagsGeneral` and `TagsOrdered`. |
| Tag.Matched | src/tag.py:24-26 | The loop appends at most one category per row of the table. |
| Tag.MatchRules | src/tag.py:24-26 | The loop's list is the categories of the table whose keywords occur, in table order. |
| Tag.TagDocument | src/tag.py:1-32 | The method returns exactly the tags of the specification `Tag.Tags`. |
| Tag.MatchedMember | src/tag.py:24-26 | A category is appended iff some row with that name has a keyword occurring in the text. |
| Tag.MatchedSubsequence | src/tag.py:24-26 | The appended categories are a subsequence of the table's category column. |
| Tag.CategoriesListed | src/tag.py:13-20 | The table's category column is compliance, tax, investing, health, education, legal, in that order. |
| Tag.CategoriesDistinct | src/tag.py:13-20 | The six categories are distinct. |
| Tag.GeneralNotCategory | src/tag.py:13-30 | "general" is not one of the six categories. |
| Tag.MatchedRow | src/tag.py:24-26 | In a table with distinct category names, row i's category is appended iff `any(...)` holds for row i's keywords. |
| Tag.MatchedNone | src/tag.py:24-29 | The loop appends nothing iff no keyword of any row is a substring of the text. |
| Tag.TagsCategory | src/tag.py:8-26 | Category i is tagged iff one of its keywords is a substring of the lower-cased text. |
| Tag.TagsGeneral | src/tag.py:24-31 | "general" is tagged iff no keyword of any category occurs in the lower-cased text, and then it is the only tag. |
| Tag.TagsOrdered | src/tag.py:13-30 | The tags are a subsequence of the category list in table order, or exactly ["general"]; they have no duplicates and number at most six. |
| Tag.TagsCaseInsensitive | src/tag.py:8 | Texts with the same lower-casing get the same tags. |
| Tag.TagsOfLower | src/tag.py:8 | Tagging the lower-cased text gives the same tags as tagging the text. |
| Tag.ExampleLowered | src/tag.py:8 | The example sentence lower-cases to "this fund discusses tax withholding and irs forms.". |
| Tag.ExampleFrontAdjacent | src/tag.py:8 | Each adjacent pair of the first half of the lower-cased example is listed by `ExampleFollowers`. |
| Tag.ExampleBackAdjacent | src/tag.py:8 | Each adjacent pair of the second half of the lower-cased example is listed by `ExampleFollowers`. |
| Tag.ExampleAdjacent | src/tag.py:8 | Each adjacent pair of characters of the lower-cased example is listed by `ExampleFollowers`. |
| Tag.LacksPair | src/tag.py:25 | A keyword with two adjacent characters that never occur next to each other in the text is not a substring of it. |
| Tag.ExampleLacks | src/tag.py:25 | A keyword with such a pair does not occur in the lower-cased example. |
| Tag.ExampleLacksComplianceA | src/tag.py:14 | "compliance", "regulation" and "sec" do not occur in the lower-cased example. |
| Tag.ExampleLacksComplianceB | src/tag.py:14 | "finra", "policy" and "audit" do not occur in the lower-cased example. |
| Tag.ExampleLacksHealthA | src/tag.py:17 | "health", "mental" and "patient" do not occur in the lower-cased example. |
| Tag.ExampleLacksHealthB | src/tag.py:17 | "clinical", "care" and "well-being" do not occur in the lower-cased example. |
| Tag.ExampleLacksEducationA | src/tag.py:18 | "student", "course" and "curriculum" do not occur in the lower-cased example. |
| Tag.ExampleLacksEducationB | src/tag.py:18 | "learning" and "class" do not occur in the lower-cased example. |
| Tag.ExampleLacksLegalA | src/tag.py:19 | "agreement", "liability" and "terms" do not occur in the lower-cased example. |
| Tag.ExampleLacksLegalB | src/tag.py:19 | "contract" and "governing law" do not occur in the lower-cased example. |
| Tag.ExampleNotCompliance | src/tag.py:14 | No compliance keyword occurs in the example. |
| Tag.ExampleNotHealth | src/tag.py:17 | No health keyword occurs in the example. |
| Tag.ExampleNotEducation | src/tag.py:18 | No education keyword occurs in the example. |
| Tag.ExampleNotLegal | src/tag.py:19 | No legal keyword occurs in the example. |
| Tag.ExampleTaxAndInvesting | src/tag.py:15-16 | The example contains a tax keyword ("tax") and an investing keyword ("fund"). |
| Tag.TagsExample | src/tag.py:8-32 | "This fund discusses tax withholding and IRS forms." is tagged ["tax", "investing"]. |
| Evaluate.BulletsOf | src/evaluate.py:6 | The bullets read as empty exactly when the key is missing, null or an empty list; otherwise they are the stored list. |
| Evaluate.OneLinerOf | src/evaluate.py:7 | The one-liner reads as "" exactly when the key is missing, null or ""; otherwise it is the stored string. |
| Evaluate.Issues | src/evaluate.py:9-19 | At most three messages, all drawn from the three fixed messages; none exactly when the text has at least 80 words, the one-liner at least 8 and there are at least 3 bullets. |
| Evaluate.Score | src/evaluate.py:22-24 | `max(0, 100 - 20 * n)` lies in [0, 100], equals 100 - 20n up to five issues, and is 0 from five on. |
| Evaluate.Evaluated | src/evaluate.py:1-29 | The confidence is 100 - 20 * #issues without needing the clamp; it is one of 100, 80, 60, 40 and lies in [0, 100]. |
| Evaluate.EvaluateSummary | src/evaluate.py:1-29 | The method returns exactly `Evaluated`; the confidence is the score of the issue count and is one of 100, 80, 60, 40. |
| Evaluate.IssuesSpec | src/evaluate.py:6-19 | Each message is present iff its check fails: fewer than 80 words; a one-liner that is absent, null, empty or under 8 words; bullets that are absent, null or fewer than 3. |
| Evaluate.IssuesOrdered | src/evaluate.py:9-19 | The messages are a subsequence of short-document, one-liner, bullets in that order, with no duplicates and at most three. |
| Evaluate.AbsentNullEmptyAgree | src/evaluate.py:6-7 | A missing key, a null value and an empty value of `one_liner` or `bullets` give the same evaluation. |
| Evaluate.EmptySummaryLowConfidence | src/evaluate.py:15-19 | An empty one-liner with no bullets always draws the one-liner and bullet messages, so the confidence is at most 60. |
| Evaluate.ShortDocumentEmptySummary | src/evaluate.py:12-24 | A short document with an empty summary gets all three messages in order and confidence 40. |
| Evaluate.GoodSummary | src/evaluate.py:12-24 | At least 80 words, an 8-word one-liner and 3 bullets give no message and confidence 100. |
| Evaluate.SixWords | src/evaluate.py:15 | Six words joined by single spaces have word count six. |
| Evaluate.SixWordOneLiner | src/evaluate.py:15-16 | "A sufficiently long one-liner sentence here" has six words, fewer than the eight the check requires. |
| Summarize.Truncate | src/summarize.py:32 | The text sent on is the prefix of the input of length min(length, 6000). |
| Summarize.Prompt | src/summarize.py:36-49 | The prompt is the fixed instructions, then the document verbatim, then one final newline. |
| Summarize.PromptInjective | src/summarize.py:36-49 | Different documents give different prompts. |
| Summarize.Request | src/summarize.py:52-58 | The request names model gpt-4o-mini, temperature 0.2, and the prompt of the truncated text. |
| Summarize.RequestSeesOnlyPrefix | src/summarize.py:32 | Documents that agree on their first 6000 characters give the same request. |
| Summarize.SubAtStart | src/summarize.py:66-67 | A `^`-anchored substitution removes one copy of the pattern from the front when it is there and otherwise changes nothing. |
| Summarize.SubFenceAtEnd | src/summarize.py:68 | The `$`-anchored substitution removes a fence at the very end or just before a final newline, and otherwise changes nothing. |
| Summarize.Unfence | src/summarize.py:66-68 | The three substitutions never lengthen the string, and leave a string without a fence at either end and without trailing whitespace unchanged. |
| Summarize.CleanReply | src/summarize.py:63-69 | The cleaned reply has no whitespace at either end. |
| Summarize.SubFenceAtEndNoNewline | src/summarize.py:68 | On a string not ending in whitespace, the `$` substitution is plain removal of one trailing fence. |
| Summarize.JsonFenceOpensWithFence | src/summarize.py:66-67 | A string opening with "```json" opens with "```". |
| Summarize.AfterPrefixesNoTrailingSpace | src/summarize.py:63-67 | After the first strip and the two front substitutions, the string does not end in whitespace. |
| Summarize.DropFenceSuffix | src/summarize.py:68 | Plain removal of one trailing "```" when present. |
| Summarize.UnfenceDropsFences | src/summarize.py:66-68 | On a string not ending in whitespace, the three substitutions are: drop one leading "```json", drop one leading "```", drop one trailing "```". |
| Summarize.CleanIsFenceRemoval | src/summarize.py:63-69 | Cleaning is exactly: strip, drop one leading "```json", drop one leading "```", drop one trailing "```", strip. |
| Summarize.CleanWithoutFences | src/summarize.py:63-69 | If the stripped reply neither starts nor ends with "```", cleaning is plain stripping. |
| Summarize.BacktickBody | src/summarize.py:67 | If the closing fence reaches the front of body + "```", the body has fewer than three characters, and dropping three from the front leaves the body. |
| Summarize.StripJsonFenced | src/summarize.py:63 | A fenced reply is unchanged by the first strip. |
| Summarize.DropJsonFence | src/summarize.py:66 | The opening "```json" of a fenced reply is removed. |
| Summarize.DropClosingFence | src/summarize.py:67-68 | After the opening fence, the remaining substitutions leave exactly the body, when the body does not open with "```". |
| Summarize.CleanJsonFenced | src/summarize.py:66-69 | "```json" + B + "```", with B not opening with "```", cleans to B stripped. |
| Summarize.OpeningFences | src/summarize.py:66-67 | The two front substitutions remove one of "", "```json", "```", "```json```" and keep the rest. |
| Summarize.ClosingFence | src/summarize.py:68 | On a string not ending in whitespace the end substitution removes "" or "```" and keeps the rest. |
| Summarize.UnfenceSplits | src/summarize.py:66-68 | On a string not ending in whitespace, the three substitutions keep a middle part between a fence prefix and a fence suffix. |
| Summarize.CleanRemovesOnlyFences | src/summarize.py:63-69 | The stripped reply is a fence prefix ("", "```json", "```" or "```json```"), a middle and a fence suffix ("" or "```"), and the cleaned reply is that middle, stripped; nothing else changes. |
| Summarize.DoubledFenceNotJson | src/summarize.py:66 | "``````jsonA" does not open with "```json". |
| Summarize.CleanDoubledFence | src/summarize.py:63-69 | "``````jsonA" cleans to "```jsonA". |
| Summarize.CleanSingleFence | src/summarize.py:63-69 | "```jsonA" cleans to "A". |
| Summarize.CleanNotIdempotent | src/summarize.py:63-69 | Cleaning is not idempotent: "``````jsonA" cleans to a different result when cleaned twice. |
| Summarize.Fallback | src/summarize.py:78-84 | The fallback record has `one_liner` "", present empty `bullets`, `entities` and `risks` (not absent), and `raw` set to the given content. |
| Summarize.SummarizeText | src/summarize.py:19-84 | A successful parse of the cleaned reply is returned unchanged, with no `raw` added. A failed parse gives the fallback record, with `raw` the cleaned reply, which has no edge whitespace. |
| Summarize.SummarySeesOnlyPrefix | src/summarize.py:32 | For one fixed reply function, documents that agree on their first 6000 characters get the same summary. |
| Summarize.FencedNonJsonFallsBack | src/summarize.py:66-84 | A non-JSON body inside a "```json" fence yields the fallback record carrying the stripped body, when the body does not open with "```". |
| Pipeline.Analyze | app.py:74-91 | The stored record is the summary of the text, the tags of the text and the evaluation of that summary against the text. |
| Pipeline.FallbackLowConfidence | app.py:74-91 | When the cleaned reply does not parse, the record keeps that reply under `raw`, and its evaluation flags the one-liner and the bullets, with confidence at most 60. |

## Left out

- PDF extraction (src/extract.py) is not part of this model. It calls a PDF library on an uploaded file object.
- Output saving (src/export.py) is not part of this model. It consists of directory creation, timestamps and file writes.
- The Streamlit interface of app.py (widgets, buttons, session-state staging, the display section) is not modelled. Only the composition at app.py:74-91 is.
- Environment and `.env` loading, the API-key check and the OpenAI client (src/summarize.py:7-17) are not modelled. They are process and network setup, so the chat model is a parameter.
- `json.loads` (src/summarize.py:73) is not modelled. It is a foreign parser, passed in as `parse`. That parser decides which strings are JSON.
- JSON that parses to something other than an object with the expected keys is accepted as-is by the code. `Summary` only represents objects whose four keys are strings or lists of strings, absent or null, and has no other keys: any other key of the parsed object, which `summarize_text` returns and app.py:90-97 stores and saves, is not represented.
- A reply whose `message.content` is `None` makes `.strip()` raise. The model's `chat` always returns a string.
- The chat model is modelled as a deterministic, total function of the request. The real call samples at temperature 0.2 (src/summarize.py:57), so the same prompt can get different replies, and `Summarize.SummarySeesOnlyPrefix` holds only for one fixed reply function.
- A failing chat call (network, authentication, rate limit) raises out of `client.chat.completions.create` (src/summarize.py:52) and out of `summarize_text`, which aborts the "Summarize Document" step of app.py. The total `chat` parameter cannot show this failure.
- Tag.Tags and the `Strings` module use ASCII lower-casing and ASCII whitespace, not Python's full Unicode `str.lower()`, `str.isspace()` and `str.split()`.
- Pipeline.Analyze does not model `result["tags"]` overwriting a `tags` key already present in the parsed reply; the record keeps the summary and the attached values side by side.
- Dedicated error types for malformed documents or service failures, schema validation, a cap of seven bullets, and concurrent tagging and summarizing are not modelled, because the code has none of them.
