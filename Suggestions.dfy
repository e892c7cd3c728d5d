/** The suggestion generator `generateSuggestions`: a keyword suggestion
    when keywords are missing, then every format issue, then three fixed
    tips, cut down to six entries. */
module Suggestions {
  import opened Seqs
  import opened Text

  const MaxSuggestions: nat := 6
  const MaxNamedKeywords: nat := 5

  const KeywordsPrefix: string := "Add these important keywords: "
  const ActionVerbsTip: string := "Use action verbs to start bullet points (e.g., \"Developed\", \"Managed\", \"Led\")"
  const QuantifyTip: string := "Quantify your achievements with numbers and percentages"
  const FileTypeTip: string := "Ensure your resume is saved as a .pdf or .docx file"

  /** The three tips every report ends with, in order. */
  const GenericTips: seq<string> := [ActionVerbsTip, QuantifyTip, FileTypeTip]

  /** The keyword suggestion: the first five missing keywords joined by
      ", " after the prefix, or nothing when none is missing. */
  function KeywordSuggestion(missingKeywords: seq<string>): (r: seq<string>)
    ensures |r| <= 1
    ensures |r| == 1 <==> |missingKeywords| > 0
  {
    if |missingKeywords| > 0 then [KeywordsPrefix + Join(Take(missingKeywords, MaxNamedKeywords), ", ")] else []
  }

  /** What `generateSuggestions` returns: the first six of the keyword
      suggestion, the format issues and the tips, in that order. */
  function SuggestionsFor(missingKeywords: seq<string>, formatIssues: seq<string>): seq<string> {
    Take(KeywordSuggestion(missingKeywords) + formatIssues + GenericTips, MaxSuggestions)
  }

  /** `generateSuggestions`: pushes the parts onto a list, then slices it. */
  method GenerateSuggestions(missingKeywords: seq<string>, formatIssues: seq<string>)
    returns (suggestions: seq<string>)
    ensures suggestions == SuggestionsFor(missingKeywords, formatIssues)
  {
    suggestions := [];
    if |missingKeywords| > 0 {
      var topMissing := Take(missingKeywords, MaxNamedKeywords);
      suggestions := suggestions + [KeywordsPrefix + Join(topMissing, ", ")];
    }
    if |formatIssues| > 0 {
      suggestions := suggestions + formatIssues;
    }
    assert suggestions == KeywordSuggestion(missingKeywords) + formatIssues;
    suggestions := suggestions + [ActionVerbsTip];
    suggestions := suggestions + [QuantifyTip];
    suggestions := suggestions + [FileTypeTip];
    assert suggestions == KeywordSuggestion(missingKeywords) + formatIssues + GenericTips;
    suggestions := Take(suggestions, MaxSuggestions);
  }

  /** There are always between three and six suggestions. */
  lemma SuggestionCount(missingKeywords: seq<string>, formatIssues: seq<string>)
    ensures 3 <= |SuggestionsFor(missingKeywords, formatIssues)| <= 6
  {
  }

  /** The cut keeps the leading part whole up to six entries and fills the
      rest with tips in order: a full leading part of six or more crowds
      out every tip. */
  lemma SuggestionsTruncation(missingKeywords: seq<string>, formatIssues: seq<string>)
    ensures var head := KeywordSuggestion(missingKeywords) + formatIssues;
      var r := SuggestionsFor(missingKeywords, formatIssues);
      (|head| >= MaxSuggestions ==> r == head[..MaxSuggestions]) &&
      (|head| < MaxSuggestions ==> r == head + GenericTips[..Min(3, MaxSuggestions - |head|)])
  {
    var head := KeywordSuggestion(missingKeywords) + formatIssues;
    var full := head + GenericTips;
    if |head| >= MaxSuggestions {
      assert full[..MaxSuggestions] == head[..MaxSuggestions];
    } else if |head| <= 3 {
      assert GenericTips[..3] == GenericTips;
    } else {
      assert full[..MaxSuggestions] == head + GenericTips[..MaxSuggestions - |head|];
    }
  }

  /** When keywords are missing, the keyword suggestion comes first; when
      nothing is missing and there are no format issues, the report is the
      three tips alone. */
  lemma SuggestionsHead(missingKeywords: seq<string>, formatIssues: seq<string>)
    ensures |missingKeywords| > 0 ==>
      SuggestionsFor(missingKeywords, formatIssues)[0]
        == KeywordsPrefix + Join(Take(missingKeywords, MaxNamedKeywords), ", ")
    ensures |missingKeywords| == 0 && formatIssues == [] ==> SuggestionsFor(missingKeywords, formatIssues) == GenericTips
  {
    if |missingKeywords| == 0 && formatIssues == [] {
      assert KeywordSuggestion(missingKeywords) + formatIssues + GenericTips == GenericTips;
    }
  }

  /** At most five format issues (all `checkResumeFormat` can report) are
      never cut: each one appears among the suggestions, after the keyword
      suggestion and in report order. */
  lemma IssuesSurviveTruncation(missingKeywords: seq<string>, formatIssues: seq<string>)
    requires |formatIssues| <= 5
    ensures var k := |KeywordSuggestion(missingKeywords)|;
      SuggestionsFor(missingKeywords, formatIssues)[k..k + |formatIssues|] == formatIssues
  {
    var k := |KeywordSuggestion(missingKeywords)|;
    var full := KeywordSuggestion(missingKeywords) + formatIssues + GenericTips;
    assert full[k..k + |formatIssues|] == formatIssues;
  }
}
