/** Rule-based topic tagging (src/tag.py): a fixed, ordered table of categories,
    each with a keyword list; a category is tagged when one of its keywords occurs
    in the lower-cased text, and "general" is the tag of last resort. */
module Tag {
  import opened Strings
  import opened Sequences

  /** One row of the rules table: a category and its keywords. */
  type Rule = (string, seq<string>)

  const General := "general"

  /** The rules table, in declaration order. */
  const Rules: seq<Rule> := [
    ("compliance", ["compliance", "regulation", "sec", "finra", "policy", "audit"]),
    ("tax", ["tax", "irs", "withholding", "1099", "k-1"]),
    ("investing", ["portfolio", "fund", "allocation", "returns", "risk", "advisor"]),
    ("health", ["health", "mental", "patient", "clinical", "care", "well-being"]),
    ("education", ["student", "course", "curriculum", "learning", "class"]),
    ("legal", ["agreement", "liability", "terms", "contract", "governing law"])
  ]

  /** The category column of a rules table. */
  function Names(rs: seq<Rule>): (ns: seq<string>)
    ensures |ns| == |rs|
    ensures forall i :: 0 <= i < |rs| ==> ns[i] == rs[i].0
  {
    if rs == [] then [] else [rs[0].0] + Names(rs[1..])
  }

  /** The categories, in table order. */
  const Categories: seq<string> := Names(Rules)

  /** `any(k in t for k in keywords)`. */
  predicate AnyOccurs(t: string, keywords: seq<string>)
    ensures AnyOccurs(t, keywords) ==> keywords != []
    ensures keywords != [] && Contains(t, keywords[0]) ==> AnyOccurs(t, keywords)
    decreases |keywords|
  {
    keywords != [] && (Contains(t, keywords[0]) || AnyOccurs(t, keywords[1..]))
  }

  /** `any(...)` holds exactly when some keyword of the list is a substring of `t`. */
  lemma {:induction false} AnyOccursSpec(t: string, keywords: seq<string>)
    ensures AnyOccurs(t, keywords) <==> exists j :: 0 <= j < |keywords| && Contains(t, keywords[j])
    decreases |keywords|
  {
    if keywords != [] {
      AnyOccursSpec(t, keywords[1..]);
      if AnyOccurs(t, keywords[1..]) {
        var j :| 0 <= j < |keywords[1..]| && Contains(t, keywords[1..][j]);
        assert Contains(t, keywords[j + 1]);
      }
      forall j | 1 <= j < |keywords| && Contains(t, keywords[j])
        ensures AnyOccurs(t, keywords[1..])
      {
        assert keywords[1..][j - 1] == keywords[j];
      }
    }
  }

  /** The categories of `rs` whose keywords occur in `t`, in table order:
      what the loop over the rules table appends. */
  function Matched(rs: seq<Rule>, t: string): (m: seq<string>)
    ensures |m| <= |rs|
    decreases |rs|
  {
    if rs == [] then []
    else (if AnyOccurs(t, rs[0].1) then [rs[0].0] else []) + Matched(rs[1..], t)
  }

  /** The tag list `tag_document(text)` returns. */
  function Tags(text: string): (tags: seq<string>)
    ensures tags != []
  {
    var m := Matched(Rules, Lower(text));
    if m == [] then [General] else m
  }

  /** The loop of `tag_document`: walk a rules table in order, appending each
      category that has a keyword occurring in `t`. */
  method MatchRules(rules: seq<Rule>, t: string) returns (tags: seq<string>)
    ensures tags == Matched(rules, t)
  {
    tags := [];
    for i := 0 to |rules|
      invariant tags + Matched(rules[i..], t) == Matched(rules, t)
    {
      assert rules[i..][1..] == rules[i + 1..];
      if AnyOccurs(t, rules[i].1) {
        tags := tags + [rules[i].0];
      }
    }
  }

  /** `tag_document`: lower-case the text, match it against the rules table,
      and fall back to "general" when nothing matched. */
  method TagDocument(text: string) returns (tags: seq<string>)
    ensures tags == Tags(text)
  {
    var t := Lower(text);
    tags := MatchRules(Rules, t);
    if tags == [] {
      tags := tags + [General];
    }
  }

  // ---------------------------------------------------------------------------
  // Properties of the tagger

  /** A category is matched exactly when some row of the table with that name
      has a keyword occurring in `t`. */
  lemma {:induction false} MatchedMember(rs: seq<Rule>, t: string, c: string)
    ensures c in Matched(rs, t) <==> exists i :: 0 <= i < |rs| && rs[i].0 == c && AnyOccurs(t, rs[i].1)
    decreases |rs|
  {
    if rs != [] {
      MatchedMember(rs[1..], t, c);
      if c in Matched(rs[1..], t) {
        var i :| 0 <= i < |rs[1..]| && rs[1..][i].0 == c && AnyOccurs(t, rs[1..][i].1);
        assert rs[i + 1] == rs[1..][i];
      }
      forall i | 1 <= i < |rs| && rs[i].0 == c && AnyOccurs(t, rs[i].1)
        ensures c in Matched(rs[1..], t)
      {
        assert rs[1..][i - 1] == rs[i];
      }
    }
  }

  /** The matched categories keep the table's order. */
  lemma {:induction false} MatchedSubsequence(rs: seq<Rule>, t: string)
    ensures IsSubsequence(Matched(rs, t), Names(rs))
    decreases |rs|
  {
    if rs != [] {
      MatchedSubsequence(rs[1..], t);
      var rest := Matched(rs[1..], t);
      if AnyOccurs(t, rs[0].1) {
        assert Matched(rs, t) == [rs[0].0] + rest;
        assert ([rs[0].0] + rest)[1..] == rest;
      } else {
        assert Matched(rs, t) == rest;
      }
    }
  }

  /** The categories are compliance, tax, investing, health, education and legal,
      in that order. */
  lemma CategoriesListed()
    ensures Categories == ["compliance", "tax", "investing", "health", "education", "legal"]
  {
  }

  /** The six categories are distinct. */
  lemma CategoriesDistinct()
    ensures NoDup(Categories)
  {
    CategoriesListed();
  }

  /** "general" is not one of the six categories. */
  lemma GeneralNotCategory()
    ensures General !in Categories
  {
    CategoriesListed();
  }

  /** In a table whose category names are distinct, the category of row `i` is
      matched exactly when one of that row's keywords occurs in `t`. */
  lemma MatchedRow(rs: seq<Rule>, t: string, i: nat)
    requires i < |rs| && NoDup(Names(rs))
    ensures rs[i].0 in Matched(rs, t) <==> AnyOccurs(t, rs[i].1)
  {
    MatchedMember(rs, t, rs[i].0);
    if rs[i].0 in Matched(rs, t) {
      var i' :| 0 <= i' < |rs| && rs[i'].0 == rs[i].0 && AnyOccurs(t, rs[i'].1);
      assert Names(rs)[i'] == Names(rs)[i];
    }
  }

  /** A category is tagged iff one of its keywords is a substring of the
      lower-cased text. */
  lemma TagsCategory(text: string, i: nat)
    requires i < |Rules|
    ensures Rules[i].0 in Tags(text)
        <==> exists j :: 0 <= j < |Rules[i].1| && Contains(Lower(text), Rules[i].1[j])
  {
    CategoriesDistinct();
    GeneralNotCategory();
    MatchedRow(Rules, Lower(text), i);
    AnyOccursSpec(Lower(text), Rules[i].1);
    assert Rules[i].0 == Categories[i];
  }

  /** Nothing is matched exactly when no keyword of any row occurs in `t`. */
  lemma MatchedNone(rs: seq<Rule>, t: string)
    ensures Matched(rs, t) == []
        <==> forall i, j :: 0 <= i < |rs| && 0 <= j < |rs[i].1| ==> !Contains(t, rs[i].1[j])
  {
    if Matched(rs, t) == [] {
      forall i, j | 0 <= i < |rs| && 0 <= j < |rs[i].1|
        ensures !Contains(t, rs[i].1[j])
      {
        MatchedMember(rs, t, rs[i].0);
        AnyOccursSpec(t, rs[i].1);
      }
    } else {
      var c := Matched(rs, t)[0];
      MatchedMember(rs, t, c);
      var i :| 0 <= i < |rs| && rs[i].0 == c && AnyOccurs(t, rs[i].1);
      AnyOccursSpec(t, rs[i].1);
    }
  }

  /** "general" is tagged iff no keyword of any category occurs in the lower-cased
      text, and then it is the only tag. */
  lemma TagsGeneral(text: string)
    ensures General in Tags(text)
        <==> forall i, j :: 0 <= i < |Rules| && 0 <= j < |Rules[i].1| ==> !Contains(Lower(text), Rules[i].1[j])
    ensures General in Tags(text) ==> Tags(text) == [General]
  {
    MatchedNone(Rules, Lower(text));
    MatchedMember(Rules, Lower(text), General);
    GeneralNotCategory();
  }

  /** The tags are the categories of the table in table order with some left out,
      or exactly ["general"]; either way there are no duplicates and at most six. */
  lemma TagsOrdered(text: string)
    ensures IsSubsequence(Tags(text), Categories) || Tags(text) == [General]
    ensures NoDup(Tags(text))
    ensures |Tags(text)| <= 6
  {
    var m := Matched(Rules, Lower(text));
    CategoriesListed();
    CategoriesDistinct();
    GeneralNotCategory();
    MatchedSubsequence(Rules, Lower(text));
    SubsequenceFacts(m, Categories);
  }

  /** Tagging sees only the lower-cased text. */
  lemma TagsCaseInsensitive(a: string, b: string)
    requires Lower(a) == Lower(b)
    ensures Tags(a) == Tags(b)
  {
  }

  /** Tagging the lower-cased text gives the same tags. */
  lemma TagsOfLower(text: string)
    ensures Tags(Lower(text)) == Tags(text)
  {
    LowerIdempotent(text);
  }

  // ---------------------------------------------------------------------------
  // The worked example: "This fund discusses tax withholding and IRS forms."

  const ExampleText := "This fund discusses tax " + "withholding and IRS forms."
  /** The lower-cased example, in two halves. */
  const ExampleFront := "this fund discusses tax "
  const ExampleBack := "withholding and irs forms."
  const ExampleLower := ExampleFront + ExampleBack

  /** The characters that follow `c` somewhere in the lower-cased example text. */
  function ExampleFollowers(c: char): string {
    match c
    case ' ' => "adfitw"
    case 'a' => "nx"
    case 'c' => "u"
    case 'd' => " i"
    case 'e' => "s"
    case 'f' => "ou"
    case 'g' => " "
    case 'h' => "hio"
    case 'i' => "nrst"
    case 'l' => "d"
    case 'm' => "s"
    case 'n' => "dg"
    case 'o' => "lr"
    case 'r' => "ms"
    case 's' => " .ces"
    case 't' => "ah"
    case 'u' => "ns"
    case 'w' => "i"
    case 'x' => " "
    case _ => ""
  }

  /** Lower-casing the example sentence changes only "T", "I", "R" and "S". */
  lemma ExampleLowered()
    ensures Lower(ExampleText) == ExampleLower
  {
    var a, b := "This fund discusses tax ", "withholding and IRS forms.";
    LowerAppend(a, b);
    forall i | 0 <= i < |a|
      ensures Lower(a)[i] == ExampleFront[i]
    {
    }
    forall i | 0 <= i < |b|
      ensures Lower(b)[i] == ExampleBack[i]
    {
    }
  }

  /** `ExampleFollowers` lists every adjacent pair of the front half. */
  lemma ExampleFrontAdjacent(i: int)
    requires 0 <= i < |ExampleFront| - 1
    ensures ExampleFront[i + 1] in ExampleFollowers(ExampleFront[i])
  {
  }

  /** `ExampleFollowers` lists every adjacent pair of the back half. */
  lemma ExampleBackAdjacent(i: int)
    requires 0 <= i < |ExampleBack| - 1
    ensures ExampleBack[i + 1] in ExampleFollowers(ExampleBack[i])
  {
  }

  /** `ExampleFollowers` lists every adjacent pair of the lower-cased example. */
  lemma ExampleAdjacent(i: int)
    requires 0 <= i < |ExampleLower| - 1
    ensures ExampleLower[i + 1] in ExampleFollowers(ExampleLower[i])
  {
    var n := |ExampleFront|;
    if i < n - 1 {
      ExampleFrontAdjacent(i);
      assert ExampleLower[i] == ExampleFront[i] && ExampleLower[i + 1] == ExampleFront[i + 1];
    } else if i == n - 1 {
      assert ExampleLower[i] == ' ' && ExampleLower[i + 1] == 'w';
    } else {
      ExampleBackAdjacent(i - n);
      assert ExampleLower[i] == ExampleBack[i - n] && ExampleLower[i + 1] == ExampleBack[i - n + 1];
    }
  }

  /** A keyword holding two adjacent characters that are never adjacent in `t`
      does not occur in `t`; `followers(c)` lists what may follow `c` in `t`. */
  lemma LacksPair(t: string, followers: char -> string, k: string, m: nat)
    requires forall i :: 0 <= i < |t| - 1 ==> t[i + 1] in followers(t[i])
    requires m + 1 < |k| && k[m + 1] !in followers(k[m])
    ensures !Contains(t, k)
  {
    ContainsSpec(t, k);
    forall i | 0 <= i && i + |k| <= |t|
      ensures !OccursAt(t, k, i)
    {
      var w := t[i..i + |k|];
      assert w[m] == t[i + m] && w[m + 1] == t[i + m + 1];
    }
  }

  /** The keyword `k` does not occur in the example: its characters `k[m]`,
      `k[m + 1]` are never adjacent there. */
  lemma ExampleLacks(k: string, m: nat)
    requires m + 1 < |k| && k[m + 1] !in ExampleFollowers(k[m])
    ensures !Contains(ExampleLower, k)
  {
    forall i | 0 <= i < |ExampleLower| - 1
      ensures ExampleLower[i + 1] in ExampleFollowers(ExampleLower[i])
    {
      ExampleAdjacent(i);
    }
    LacksPair(ExampleLower, ExampleFollowers, k, m);
  }

  /** No keyword of the rows other than "tax" and "investing" occurs in the
      example; each row is checked three keywords at a time. */
  lemma ExampleLacksComplianceA()
    ensures !Contains(ExampleLower, "compliance") && !Contains(ExampleLower, "regulation")
    ensures !Contains(ExampleLower, "sec")
  {
    ExampleLacks("compliance", 0);
    ExampleLacks("regulation", 0);
    ExampleLacks("sec", 1);
  }

  lemma ExampleLacksComplianceB()
    ensures !Contains(ExampleLower, "finra") && !Contains(ExampleLower, "policy")
    ensures !Contains(ExampleLower, "audit")
  {
    ExampleLacks("finra", 0);
    ExampleLacks("policy", 0);
    ExampleLacks("audit", 0);
  }

  lemma ExampleNotCompliance()
    ensures !AnyOccurs(ExampleLower, Rules[0].1)
  {
    ExampleLacksComplianceA();
    ExampleLacksComplianceB();
  }

  lemma ExampleLacksHealthA()
    ensures !Contains(ExampleLower, "health") && !Contains(ExampleLower, "mental")
    ensures !Contains(ExampleLower, "patient")
  {
    ExampleLacks("health", 0);
    ExampleLacks("mental", 0);
    ExampleLacks("patient", 0);
  }

  lemma ExampleLacksHealthB()
    ensures !Contains(ExampleLower, "clinical") && !Contains(ExampleLower, "care")
    ensures !Contains(ExampleLower, "well-being")
  {
    ExampleLacks("clinical", 0);
    ExampleLacks("care", 0);
    ExampleLacks("well-being", 0);
  }

  lemma ExampleNotHealth()
    ensures !AnyOccurs(ExampleLower, Rules[3].1)
  {
    ExampleLacksHealthA();
    ExampleLacksHealthB();
  }

  lemma ExampleLacksEducationA()
    ensures !Contains(ExampleLower, "student") && !Contains(ExampleLower, "course")
    ensures !Contains(ExampleLower, "curriculum")
  {
    ExampleLacks("student", 0);
    ExampleLacks("course", 0);
    ExampleLacks("curriculum", 1);
  }

  lemma ExampleLacksEducationB()
    ensures !Contains(ExampleLower, "learning") && !Contains(ExampleLower, "class")
  {
    ExampleLacks("learning", 0);
    ExampleLacks("class", 0);
  }

  lemma ExampleNotEducation()
    ensures !AnyOccurs(ExampleLower, Rules[4].1)
  {
    ExampleLacksEducationA();
    ExampleLacksEducationB();
  }

  lemma ExampleLacksLegalA()
    ensures !Contains(ExampleLower, "agreement") && !Contains(ExampleLower, "liability")
    ensures !Contains(ExampleLower, "terms")
  {
    ExampleLacks("agreement", 0);
    ExampleLacks("liability", 0);
    ExampleLacks("terms", 0);
  }

  lemma ExampleLacksLegalB()
    ensures !Contains(ExampleLower, "contract") && !Contains(ExampleLower, "governing law")
  {
    ExampleLacks("contract", 0);
    ExampleLacks("governing law", 0);
  }

  lemma ExampleNotLegal()
    ensures !AnyOccurs(ExampleLower, Rules[5].1)
  {
    ExampleLacksLegalA();
    ExampleLacksLegalB();
  }

  /** The example says "tax" (at index 20) and "fund" (at index 5). */
  lemma ExampleTaxAndInvesting()
    ensures AnyOccurs(ExampleLower, Rules[1].1)
    ensures AnyOccurs(ExampleLower, Rules[2].1)
  {
    assert ExampleLower[20..23] == ExampleFront[20..23] == "tax";
    assert OccursAt(ExampleLower, "tax", 20);
    ContainsSpec(ExampleLower, "tax");
    ExampleLacks("portfolio", 0);
    assert ExampleLower[5..9] == ExampleFront[5..9] == "fund";
    assert OccursAt(ExampleLower, "fund", 5);
    ContainsSpec(ExampleLower, "fund");
  }

  /** The example text is tagged "tax" (it says "tax") and "investing" (it says
      "fund"), in table order, and nothing else. */
  lemma TagsExample()
    ensures Tags(ExampleText) == ["tax", "investing"]
  {
    ExampleLowered();
    ExampleNotCompliance();
    ExampleTaxAndInvesting();
    ExampleNotHealth();
    ExampleNotEducation();
    ExampleNotLegal();
  }
}
