/** `calculateATSScore`: keyword matching, the format audit and the
    suggestions put together into one report, with the overall score the
    rounded mean of the keyword score and the format score. */
module AtsChecker {
  import opened Seqs
  import opened Text
  import opened Keywords
  import opened FormatAudit
  import opened Suggestions

  /** The report `ATSResult`. */
  datatype ATSResult = ATSResult(
    overallScore: int,
    matchedKeywords: seq<string>,
    missingKeywords: seq<string>,
    formatScore: int,
    formatIssues: seq<string>,
    suggestions: seq<string>)

  /** How many matched and missing keywords the report lists. */
  const MaxMatchedShown: nat := 20
  const MaxMissingShown: nat := 15

  /** `keywordScore`: the percentage of candidates matched, with the
      denominator raised to 1 when there are no candidates. */
  function KeywordScore(matchedCount: nat, candidateCount: nat): real {
    (matchedCount as real / Max(candidateCount, 1) as real) * 100.0
  }

  /** `Math.round((keywordScore + formatScore) / 2)` in exact integer
      arithmetic: with n = max(candidates, 1), the mean plus one half is
      (100 m + f n + n) / (2 n), and rounding half up takes its floor. */
  function OverallScore(matchedCount: nat, candidateCount: nat, formatScore: int): int {
    var n := Max(candidateCount, 1);
    (100 * matchedCount + formatScore * n + n) / (2 * n)
  }

  /** The report for a résumé against a job. Scores come from the full
      matched and missing lists; the report shows the first 20 matched and
      the first 15 missing keywords, and the suggestions draw on the full
      missing list. */
  function AtsScore(resumeText: string, jobDescription: string, jobSkills: seq<string>): ATSResult {
    var resumeLower := Lower(resumeText);
    var keywords := Candidates(Lower(jobDescription), jobSkills);
    var matched := MatchedOf(keywords, resumeLower);
    var missing := MissingOf(keywords, resumeLower);
    ATSResult(
      OverallScore(|matched|, |keywords|, FormatScore(resumeText)),
      Take(matched, MaxMatchedShown),
      Take(missing, MaxMissingShown),
      FormatScore(resumeText),
      FormatIssues(resumeText),
      SuggestionsFor(missing, FormatIssues(resumeText)))
  }

  /** `calculateATSScore`. */
  method CalculateATSScore(resumeText: string, jobDescription: string, jobSkills: seq<string>)
    returns (result: ATSResult)
    ensures result == AtsScore(resumeText, jobDescription, jobSkills)
  {
    var resumeLower := Lower(resumeText);
    var jobDescLower := Lower(jobDescription);
    var allKeywords := Candidates(jobDescLower, jobSkills);
    var matchedKeywords, missingKeywords := PartitionKeywords(allKeywords, resumeLower);
    var formatScore, formatIssues := CheckResumeFormat(resumeText);
    var suggestions := GenerateSuggestions(missingKeywords, formatIssues);
    result := ATSResult(
      OverallScore(|matchedKeywords|, |allKeywords|, formatScore),
      Take(matchedKeywords, MaxMatchedShown),
      Take(missingKeywords, MaxMissingShown),
      formatScore,
      formatIssues,
      suggestions);
  }

  /** The keyword score lies in [0, 100] when no more keywords are matched
      than there are candidates, and is 0 when there are no candidates: the
      raised denominator avoids a division by zero. */
  lemma KeywordScoreRange(matchedCount: nat, candidateCount: nat)
    requires matchedCount <= candidateCount
    ensures 0.0 <= KeywordScore(matchedCount, candidateCount) <= 100.0
    ensures candidateCount == 0 ==> KeywordScore(matchedCount, candidateCount) == 0.0
  {
    if candidateCount > 0 {
      var n := candidateCount as real;
      assert matchedCount as real / n <= 1.0 by {
        assert matchedCount as real <= n;
      }
    }
  }

  /** `OverallScore` is `Math.round` of the mean of the keyword score and
      the format score: the largest integer not above the mean plus one
      half. */
  lemma OverallScoreIsRoundedMean(matchedCount: nat, candidateCount: nat, formatScore: int)
    ensures var r := OverallScore(matchedCount, candidateCount, formatScore);
      var mean := (KeywordScore(matchedCount, candidateCount) + formatScore as real) / 2.0;
      r as real <= mean + 0.5 < r as real + 1.0
  {
    var n := Max(candidateCount, 1);
    var k := 100 * matchedCount + formatScore * n + n;
    var d := 2 * n;
    var r := k / d;
    assert r * d <= k < r * d + d;
    CastMul(r, d);
    MeanPlusHalf(matchedCount, candidateCount, formatScore);
    RealDivBounds(r as real, k as real, d as real);
  }

  lemma CastMul(a: int, b: int)
    ensures (a * b) as real == a as real * b as real
  {
  }

  /** The mean plus one half, as one fraction. */
  lemma MeanPlusHalf(matchedCount: nat, candidateCount: nat, formatScore: int)
    ensures var n := Max(candidateCount, 1);
      (KeywordScore(matchedCount, candidateCount) + formatScore as real) / 2.0 + 0.5
        == (100 * matchedCount + formatScore * n + n) as real / (2 * n) as real
  {
    var n := Max(candidateCount, 1);
    var nr := n as real;
    var x := matchedCount as real / nr;
    assert x * nr == matchedCount as real;
    var mean := (x * 100.0 + formatScore as real) / 2.0 + 0.5;
    assert mean * (2.0 * nr) == 100.0 * (x * nr) + formatScore as real * nr + nr;
    CastMul(formatScore, n);
    assert (100 * matchedCount + formatScore * n + n) as real == mean * (2.0 * nr);
    assert (2 * n) as real == 2.0 * nr;
    assert mean * (2.0 * nr) / (2.0 * nr) == mean;
  }

  /** Dividing `lo * d <= x < lo * d + d` by a positive `d`. */
  lemma RealDivBounds(lo: real, x: real, d: real)
    requires d > 0.0
    requires lo * d <= x < lo * d + d
    ensures lo <= x / d < lo + 1.0
  {
    var q := x / d;
    assert q * d == x;
    assert (q - lo) * d == q * d - lo * d >= 0.0;
    var e := lo + 1.0 - q;
    assert e * d == (lo + 1.0) * d - x;
    assert e * d > 0.0;
    PositiveFactor(e, d);
  }

  lemma PositiveFactor(e: real, d: real)
    requires d > 0.0 && e * d > 0.0
    ensures e > 0.0
  {
    assert e == e * d / d;
  }

  /** With no more matches than candidates and a format score in
      [0, 100], the overall score lies in [0, 100]. */
  lemma OverallScoreRange(matchedCount: nat, candidateCount: nat, formatScore: int)
    requires matchedCount <= candidateCount
    requires 0 <= formatScore <= 100
    ensures 0 <= OverallScore(matchedCount, candidateCount, formatScore) <= 100
  {
    var n := Max(candidateCount, 1);
    var k := 100 * matchedCount + formatScore * n + n;
    assert 100 * matchedCount <= 100 * n;
    assert 0 <= formatScore * n <= 100 * n;
    assert 0 <= k < 101 * (2 * n);
    DivBelow(k, 2 * n, 101);
  }

  lemma DivBelow(k: int, d: int, bound: int)
    requires d > 0 && 0 <= k && k < bound * d
    ensures 0 <= k / d < bound
  {
    var q := k / d;
    assert q * d <= k;
    assert (bound - q) * d > 0;
  }

  /** Every candidate matched and a clean format give a perfect score; with
      no candidates at all (an empty description and no skill tags) the
      keyword half counts as 0 and the score is at most 50. */
  lemma OverallScoreExtremes(candidateCount: nat, formatScore: int)
    requires 0 <= formatScore <= 100
    ensures candidateCount > 0 ==> OverallScore(candidateCount, candidateCount, 100) == 100
    ensures OverallScore(0, 0, formatScore) == (formatScore + 1) / 2 <= 50
  {
    if candidateCount > 0 {
      var n := candidateCount;
      assert 100 * n + 100 * n + n == 100 * (2 * n) + n;
      DivWithRemainder(100, 2 * n, n);
    }
  }

  lemma DivWithRemainder(q: int, d: int, r: int)
    requires d > 0 && 0 <= r < d
    ensures (q * d + r) / d == q
  {
    var k := q * d + r;
    var q', r' := k / d, k % d;
    var e := q' - q;
    assert e * d == q' * d - q * d;
    assert e * d == r - r';
    if e > 0 {
      assert e * d == (e - 1) * d + d;
      MulNonnegative(e - 1, d);
    } else if e < 0 {
      assert -e * d == (-e - 1) * d + d;
      MulNonnegative(-e - 1, d);
    }
  }

  lemma MulNonnegative(a: int, b: int)
    requires a >= 0 && b >= 0
    ensures a * b >= 0
  {
  }

  /** What the report promises: both scores in range, the shown keyword
      lists prefixes of the full lists of at most 20 and 15 entries, the
      scores computed from the full lists, every issue one per failing
      check, and between three and six suggestions. */
  lemma AtsScoreProperties(resumeText: string, jobDescription: string, jobSkills: seq<string>)
    ensures var r := AtsScore(resumeText, jobDescription, jobSkills);
      var keywords := Candidates(Lower(jobDescription), jobSkills);
      var matched := MatchedOf(keywords, Lower(resumeText));
      var missing := MissingOf(keywords, Lower(resumeText));
      && 0 <= r.overallScore <= 100
      && 5 <= r.formatScore <= 100
      && r.matchedKeywords <= matched && |r.matchedKeywords| <= MaxMatchedShown
      && r.missingKeywords <= missing && |r.missingKeywords| <= MaxMissingShown
      && |matched| + |missing| == |keywords|
      && r.overallScore == OverallScore(|matched|, |keywords|, r.formatScore)
      && r.formatIssues == FormatIssues(resumeText)
      && (forall c: FormatCheck :: Issue(c) in r.formatIssues <==> Fails(c, resumeText))
      && |r.formatIssues| <= 5
      && 3 <= |r.suggestions| <= 6
  {
    var resumeLower := Lower(resumeText);
    var keywords := Candidates(Lower(jobDescription), jobSkills);
    var matched, missing := MatchedOf(keywords, resumeLower), MissingOf(keywords, resumeLower);
    var formatScore, formatIssues := FormatScore(resumeText), FormatIssues(resumeText);
    assert AtsScore(resumeText, jobDescription, jobSkills) == ATSResult(
      OverallScore(|matched|, |keywords|, formatScore),
      Take(matched, MaxMatchedShown),
      Take(missing, MaxMissingShown),
      formatScore,
      formatIssues,
      SuggestionsFor(missing, formatIssues));
    PartitionLaws(keywords, resumeLower);
    FormatScoreRange(resumeText);
    FormatIssuesAreFailures(resumeText);
    SuggestionCount(missing, formatIssues);
    OverallScoreRange(|matched|, |keywords|, formatScore);
  }


  /** The matched list shown loses nothing as long as there are at most 20
      matches. */
  lemma MatchedListComplete(resumeText: string, jobDescription: string, jobSkills: seq<string>)
    ensures var matched := MatchedOf(Candidates(Lower(jobDescription), jobSkills), Lower(resumeText));
      |matched| <= MaxMatchedShown ==> AtsScore(resumeText, jobDescription, jobSkills).matchedKeywords == matched
  {
    var matched := MatchedOf(Candidates(Lower(jobDescription), jobSkills), Lower(resumeText));
    assert AtsScore(resumeText, jobDescription, jobSkills).matchedKeywords == Take(matched, MaxMatchedShown);
  }

  /** The missing list shown loses nothing as long as there are at most 15
      misses. */
  lemma MissingListComplete(resumeText: string, jobDescription: string, jobSkills: seq<string>)
    ensures var missing := MissingOf(Candidates(Lower(jobDescription), jobSkills), Lower(resumeText));
      |missing| <= MaxMissingShown ==> AtsScore(resumeText, jobDescription, jobSkills).missingKeywords == missing
  {
    var missing := MissingOf(Candidates(Lower(jobDescription), jobSkills), Lower(resumeText));
    assert AtsScore(resumeText, jobDescription, jobSkills).missingKeywords == Take(missing, MaxMissingShown);
  }

  /** A résumé that mentions every candidate keyword and passes every
      format check scores 100. */
  lemma FullMatchScoresPerfect(resumeText: string, jobDescription: string, jobSkills: seq<string>)
    requires forall k | k in Candidates(Lower(jobDescription), jobSkills) :: InResume(Lower(resumeText), k)
    requires FormatIssues(resumeText) == []
    requires |Candidates(Lower(jobDescription), jobSkills)| > 0
    ensures AtsScore(resumeText, jobDescription, jobSkills).overallScore == 100
  {
    var keywords := Candidates(Lower(jobDescription), jobSkills);
    FilterKeepsAll(keywords, Mentions(Lower(resumeText)));
    PerfectScoreIffNoIssues(resumeText);
    OverallScoreExtremes(|keywords|, 100);
  }

  /** A one-letter skill tag such as "R" is a candidate keyword, "r": skill
      tags bypass the tokeniser and the length filter. */
  lemma OneLetterSkillIsCandidate(jobDescription: string, otherSkills: seq<string>)
    ensures "r" in Candidates(Lower(jobDescription), ["R"] + otherSkills)
  {
    var skills := ["R"] + otherSkills;
    assert Lower(skills[0]) == "r";
  }

  /** A résumé with a clean format gets a report with format score 100, no
      issues, and at most the keyword suggestion followed by the tips. */
  lemma CleanFormatReport(resumeText: string, jobDescription: string, jobSkills: seq<string>)
    requires FormatScore(resumeText) == 100 && FormatIssues(resumeText) == []
    ensures var r := AtsScore(resumeText, jobDescription, jobSkills);
      && r.formatScore == 100 && r.formatIssues == []
      && 0 <= r.overallScore <= 100
      && 3 <= |r.suggestions| <= 4
  {
    var keywords := Candidates(Lower(jobDescription), jobSkills);
    var missing := MissingOf(keywords, Lower(resumeText));
    PartitionLaws(keywords, Lower(resumeText));
    OverallScoreRange(|MatchedOf(keywords, Lower(resumeText))|, |keywords|, 100);
    assert |KeywordSuggestion(missing) + [] + GenericTips| <= 4;
  }
}
