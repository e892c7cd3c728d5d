/** The format auditor `checkResumeFormat`: five independent penalty checks
    run in a fixed order, each adding one issue when it fails, plus one bonus
    for quantified achievements; the score starts at 100 and is clamped to
    [0, 100]. */
module FormatAudit {
  import opened Seqs
  import opened Text

  /** The five checks, named after the problem each one detects. */
  datatype FormatCheck =
    | ComplexFormatting
    | TooShort
    | NoExperienceSection
    | NoSkillsSection
    | NoDates

  /** The order in which the auditor runs the checks. */
  const Checks: seq<FormatCheck> := [ComplexFormatting, TooShort, NoExperienceSection, NoSkillsSection, NoDates]

  const QuantifiedBonus: nat := 10

  function Penalty(c: FormatCheck): nat {
    match c
    case ComplexFormatting => 20
    case TooShort => 15
    case NoExperienceSection => 25
    case NoSkillsSection => 20
    case NoDates => 15
  }

  const TablesMessage: string := "Remove tables and complex formatting - use simple bullet points"
  const TooShortMessage: string := "Resume appears too short - ensure it includes all relevant experience"
  const ExperienceMessage: string := "Include a clear work experience section"
  const SkillsMessage: string := "Add a dedicated skills section"
  const DatesMessage: string := "Include dates for your work experience and education"

  /** The message a failing check reports. */
  function Issue(c: FormatCheck): string {
    match c
    case ComplexFormatting => TablesMessage
    case TooShort => TooShortMessage
    case NoExperienceSection => ExperienceMessage
    case NoSkillsSection => SkillsMessage
    case NoDates => DatesMessage
  }

  /** The text holds one of the box-drawing characters `│`, `┌`, `└`. */
  predicate HasTableChars(text: string) {
    Contains(text, "\U{2502}") || Contains(text, "\U{250C}") || Contains(text, "\U{2514}")
  }

  /** `text.split('\n').length`. */
  function LineCount(text: string): nat {
    |SplitOn(text, '\n')|
  }

  /** Four digits start at position `i`. */
  predicate FourDigitsAt(text: string, i: nat) {
    i + 4 <= |text| && IsDigit(text[i]) && IsDigit(text[i + 1]) && IsDigit(text[i + 2]) && IsDigit(text[i + 3])
  }

  /** `/\d{4}/.test(text)`. */
  predicate HasFourDigitRun(text: string) {
    exists i: nat | i <= |text| :: FourDigitsAt(text, i)
  }

  /** A digit at position `i` is directly followed by `%`. */
  predicate PercentAfterDigitAt(text: string, i: nat) {
    i + 1 < |text| && IsDigit(text[i]) && text[i + 1] == '%'
  }

  /** `/\d+%/.test(text)`: some digit is directly followed by `%`. */
  predicate HasPercentAfterDigit(text: string) {
    exists i: nat | i <= |text| :: PercentAfterDigitAt(text, i)
  }

  /** A `$` at position `i` is directly followed by a digit. */
  predicate DollarBeforeDigitAt(text: string, i: nat) {
    i + 1 < |text| && text[i] == '$' && IsDigit(text[i + 1])
  }

  /** `/\$\d+/.test(text)`: some `$` is directly followed by a digit. */
  predicate HasDollarBeforeDigit(text: string) {
    exists i: nat | i <= |text| :: DollarBeforeDigitAt(text, i)
  }

  /** The condition under which a check fails on the résumé text. */
  predicate Fails(c: FormatCheck, text: string) {
    match c
    case ComplexFormatting => HasTableChars(text)
    case TooShort => LineCount(text) < 10
    case NoExperienceSection => !Contains(Lower(text), "experience") && !Contains(Lower(text), "work")
    case NoSkillsSection => !Contains(Lower(text), "skill")
    case NoDates => !HasFourDigitRun(text)
  }

  /** The bonus for quantified achievements. */
  predicate EarnsBonus(text: string) {
    Contains(Lower(text), "quantified") || HasPercentAfterDigit(text) || HasDollarBeforeDigit(text)
  }

  /** Which checks fail on a given text, as a first-class predicate. */
  function FailingOn(text: string): FormatCheck -> bool {
    c => Fails(c, text)
  }

  /** The issue of a check when it fails, and nothing otherwise. */
  function IssueIf(c: FormatCheck, failing: FormatCheck -> bool): seq<string> {
    if failing(c) then [Issue(c)] else []
  }

  /** The penalty of a check when it fails, and nothing otherwise. */
  function PenaltyIf(c: FormatCheck, failing: FormatCheck -> bool): nat {
    if failing(c) then Penalty(c) else 0
  }

  /** One issue per failing check, in check order. */
  function IssuesOf(checks: seq<FormatCheck>, failing: FormatCheck -> bool): seq<string> {
    if checks == [] then [] else IssueIf(checks[0], failing) + IssuesOf(checks[1..], failing)
  }

  /** The sum of the penalties of the failing checks. */
  function PenaltyOf(checks: seq<FormatCheck>, failing: FormatCheck -> bool): nat {
    if checks == [] then 0 else PenaltyIf(checks[0], failing) + PenaltyOf(checks[1..], failing)
  }

  /** The issues `checkResumeFormat` reports. */
  function FormatIssues(text: string): seq<string> {
    IssuesOf(Checks, FailingOn(text))
  }

  /** The score `checkResumeFormat` reports: 100, less the penalties of the
      failing checks, plus the bonus when earned, capped at 100. */
  function FormatScore(text: string): int {
    Min(100, 100 - PenaltyOf(Checks, FailingOn(text)) + (if EarnsBonus(text) then QuantifiedBonus else 0))
  }

  /** `checkResumeFormat`: runs the checks one after the other on a running
      score and a growing issue list, then clamps the score. */
  method CheckResumeFormat(resumeText: string) returns (score: int, issues: seq<string>)
    ensures score == FormatScore(resumeText)
    ensures issues == FormatIssues(resumeText)
    ensures 5 <= score <= 100
  {
    ghost var failing := FailingOn(resumeText);
    FailingOnUnfolded(resumeText);
    issues := [];
    score := 100;
    if HasTableChars(resumeText) {
      issues := issues + [TablesMessage];
      score := score - 20;
    }
    ghost var issues1, score1 := issues, score;
    assert issues1 == IssueIf(ComplexFormatting, failing) && score1 == 100 - PenaltyIf(ComplexFormatting, failing);
    if LineCount(resumeText) < 10 {
      issues := issues + [TooShortMessage];
      score := score - 15;
    }
    ghost var issues2, score2 := issues, score;
    assert issues2 == issues1 + IssueIf(TooShort, failing) && score2 == score1 - PenaltyIf(TooShort, failing);
    if !Contains(Lower(resumeText), "experience") && !Contains(Lower(resumeText), "work") {
      issues := issues + [ExperienceMessage];
      score := score - 25;
    }
    ghost var issues3, score3 := issues, score;
    assert issues3 == issues2 + IssueIf(NoExperienceSection, failing) && score3 == score2 - PenaltyIf(NoExperienceSection, failing);
    if !Contains(Lower(resumeText), "skill") {
      issues := issues + [SkillsMessage];
      score := score - 20;
    }
    ghost var issues4, score4 := issues, score;
    assert issues4 == issues3 + IssueIf(NoSkillsSection, failing) && score4 == score3 - PenaltyIf(NoSkillsSection, failing);
    if !HasFourDigitRun(resumeText) {
      issues := issues + [DatesMessage];
      score := score - 15;
    }
    ghost var score5 := score;
    assert issues == issues4 + IssueIf(NoDates, failing) && score5 == score4 - PenaltyIf(NoDates, failing);
    if Contains(Lower(resumeText), "quantified") || HasPercentAfterDigit(resumeText) || HasDollarBeforeDigit(resumeText) {
      score := score + 10;
    }
    assert score == score5 + (if EarnsBonus(resumeText) then QuantifiedBonus else 0);
    ScoreAndIssuesOfSteps(failing, issues1, issues2, issues3, issues4, issues, score1, score2, score3, score4, score5);
    score := Max(0, Min(100, score));
    FormatScoreRange(resumeText);
  }

  /** The five failure conditions, one by one. */
  lemma FailingOnUnfolded(text: string)
    ensures FailingOn(text)(ComplexFormatting) == HasTableChars(text)
    ensures FailingOn(text)(TooShort) == (LineCount(text) < 10)
    ensures FailingOn(text)(NoExperienceSection) == (!Contains(Lower(text), "experience") && !Contains(Lower(text), "work"))
    ensures FailingOn(text)(NoSkillsSection) == !Contains(Lower(text), "skill")
    ensures FailingOn(text)(NoDates) == !HasFourDigitRun(text)
  {
  }

  /** Five steps of the check loop, each adding its check's issue and
      subtracting its penalty, add up to the whole table. */
  lemma ScoreAndIssuesOfSteps(failing: FormatCheck -> bool, i1: seq<string>, i2: seq<string>, i3: seq<string>,
                              i4: seq<string>, i5: seq<string>, s1: int, s2: int, s3: int, s4: int, s5: int)
    requires i1 == IssueIf(ComplexFormatting, failing) && s1 == 100 - PenaltyIf(ComplexFormatting, failing)
    requires i2 == i1 + IssueIf(TooShort, failing) && s2 == s1 - PenaltyIf(TooShort, failing)
    requires i3 == i2 + IssueIf(NoExperienceSection, failing) && s3 == s2 - PenaltyIf(NoExperienceSection, failing)
    requires i4 == i3 + IssueIf(NoSkillsSection, failing) && s4 == s3 - PenaltyIf(NoSkillsSection, failing)
    requires i5 == i4 + IssueIf(NoDates, failing) && s5 == s4 - PenaltyIf(NoDates, failing)
    ensures i5 == IssuesOf(Checks, failing)
    ensures s5 == 100 - PenaltyOf(Checks, failing)
  {
    UnrollIssues(failing);
    UnrollPenalties(failing);
    AppendAssoc5(IssueIf(ComplexFormatting, failing), IssueIf(TooShort, failing),
      IssueIf(NoExperienceSection, failing), IssueIf(NoSkillsSection, failing), IssueIf(NoDates, failing));
  }

  lemma AppendAssoc5<T>(a: seq<T>, b: seq<T>, c: seq<T>, d: seq<T>, e: seq<T>)
    ensures a + b + c + d + e == a + (b + (c + (d + e)))
  {
  }

  /** All five penalties together come to 95. */
  lemma PenaltyAtMost95(failing: FormatCheck -> bool)
    ensures PenaltyOf(Checks, failing) <= 95
  {
    UnrollPenalties(failing);
  }

  /** The format score lies in [5, 100], so the lower clamp at 0 never
      applies. */
  lemma FormatScoreRange(text: string)
    ensures 5 <= FormatScore(text) <= 100
  {
    PenaltyAtMost95(FailingOn(text));
  }

  /** The check table, unrolled in check order: the issues. */
  lemma UnrollIssues(failing: FormatCheck -> bool)
    ensures IssuesOf(Checks, failing)
         == IssueIf(ComplexFormatting, failing) + (IssueIf(TooShort, failing) + (IssueIf(NoExperienceSection, failing)
          + (IssueIf(NoSkillsSection, failing) + IssueIf(NoDates, failing))))
  {
    var all := [ComplexFormatting, TooShort, NoExperienceSection, NoSkillsSection, NoDates];
    assert all[1..] == [TooShort, NoExperienceSection, NoSkillsSection, NoDates];
    assert all[2..] == [NoExperienceSection, NoSkillsSection, NoDates];
    assert all[3..] == [NoSkillsSection, NoDates];
    assert all[4..] == [NoDates];
    assert all[5..] == [];
    assert IssuesOf(all[4..], failing) == IssueIf(NoDates, failing) + IssuesOf(all[5..], failing);
    assert IssueIf(NoDates, failing) + [] == IssueIf(NoDates, failing);
    assert IssuesOf(all[3..], failing) == IssueIf(NoSkillsSection, failing) + IssuesOf(all[4..], failing);
    assert IssuesOf(all[2..], failing) == IssueIf(NoExperienceSection, failing) + IssuesOf(all[3..], failing);
    assert IssuesOf(all[1..], failing) == IssueIf(TooShort, failing) + IssuesOf(all[2..], failing);
    assert IssuesOf(all, failing) == IssueIf(ComplexFormatting, failing) + IssuesOf(all[1..], failing);
  }

  /** The check table, unrolled in check order: the penalties. */
  lemma UnrollPenalties(failing: FormatCheck -> bool)
    ensures PenaltyOf(Checks, failing)
         == PenaltyIf(ComplexFormatting, failing) + PenaltyIf(TooShort, failing) + PenaltyIf(NoExperienceSection, failing)
          + PenaltyIf(NoSkillsSection, failing) + PenaltyIf(NoDates, failing)
  {
    var all := [ComplexFormatting, TooShort, NoExperienceSection, NoSkillsSection, NoDates];
    assert all[1..] == [TooShort, NoExperienceSection, NoSkillsSection, NoDates];
    assert all[2..] == [NoExperienceSection, NoSkillsSection, NoDates];
    assert all[3..] == [NoSkillsSection, NoDates];
    assert all[4..] == [NoDates];
    assert all[5..] == [];
  }

  /** The five messages are pairwise different (they differ in length). */
  lemma IssueInjective(c: FormatCheck, d: FormatCheck)
    ensures Issue(c) == Issue(d) ==> c == d
  {
    var n, m := |Issue(c)|, |Issue(d)|;
  }

  /** A check's message is reported exactly when the check is in the table
      and fails, and the report has at most one message per check. */
  lemma {:induction false} IssuesOfReportsFailures(checks: seq<FormatCheck>, failing: FormatCheck -> bool, c: FormatCheck)
    ensures Issue(c) in IssuesOf(checks, failing) <==> c in checks && failing(c)
    ensures |IssuesOf(checks, failing)| <= |checks|
  {
    if checks != [] {
      IssuesOfReportsFailures(checks[1..], failing, c);
      IssueInjective(c, checks[0]);
      assert c in checks <==> c == checks[0] || c in checks[1..];
    }
  }

  /** `checkResumeFormat` reports the message of a check exactly when that
      check fails on the text, so at most five messages. */
  lemma FormatIssuesAreFailures(text: string)
    ensures forall c: FormatCheck :: Issue(c) in FormatIssues(text) <==> Fails(c, text)
    ensures |FormatIssues(text)| <= 5
  {
    forall c: FormatCheck ensures Issue(c) in FormatIssues(text) <==> Fails(c, text) {
      IssuesOfReportsFailures(Checks, FailingOn(text), c);
      assert c in Checks by {
        match c
        case ComplexFormatting => assert Checks[0] == c;
        case TooShort => assert Checks[1] == c;
        case NoExperienceSection => assert Checks[2] == c;
        case NoSkillsSection => assert Checks[3] == c;
        case NoDates => assert Checks[4] == c;
      }
    }
    IssuesOfReportsFailures(Checks, FailingOn(text), ComplexFormatting);
  }

  /** No penalty is as small as the bonus: a table with no failing check
      costs nothing, and any failing check costs at least 15. */
  lemma PenaltyVersusIssues(failing: FormatCheck -> bool)
    ensures PenaltyOf(Checks, failing) == 0 <==> IssuesOf(Checks, failing) == []
    ensures PenaltyOf(Checks, failing) != 0 ==> PenaltyOf(Checks, failing) >= 15
  {
    UnrollIssues(failing);
    UnrollPenalties(failing);
  }

  /** The format score is 100 exactly when no issue is reported: the bonus
      of 10 never makes up for a penalty. */
  lemma PerfectScoreIffNoIssues(text: string)
    ensures FormatScore(text) == 100 <==> FormatIssues(text) == []
  {
    PenaltyVersusIssues(FailingOn(text));
  }

  /** The length check counts lines as newlines plus one, so a text is too
      short exactly when it has fewer than nine newlines. */
  lemma TooShortIffFewNewlines(text: string)
    ensures Fails(TooShort, text) <==> Count(text, '\n') < 9
  {
  }

  /** Four digits in a row anywhere in the text satisfy the dates check. */
  lemma FourDigitWitness(text: string, digits: string)
    requires |digits| == 4 && forall k | 0 <= k < 4 :: IsDigit(digits[k])
    requires Contains(text, digits)
    ensures HasFourDigitRun(text)
  {
    var i: nat :| i <= |text| && OccursAt(text, digits, i);
    assert text[i..i + 4] == digits;
    assert text[i] == digits[0] && text[i + 1] == digits[1] && text[i + 2] == digits[2] && text[i + 3] == digits[3];
    assert FourDigitsAt(text, i);
  }

  /** A digit followed by `%` anywhere in the text earns the bonus. */
  lemma PercentWitness(text: string, w: string)
    requires |w| == 2 && IsDigit(w[0]) && w[1] == '%'
    requires Contains(text, w)
    ensures EarnsBonus(text)
  {
    var i: nat :| i <= |text| && OccursAt(text, w, i);
    assert text[i..i + 2] == w;
    assert text[i] == w[0] && text[i + 1] == w[1];
    assert PercentAfterDigitAt(text, i);
  }

  /** A `$` followed by a digit anywhere in the text earns the bonus. */
  lemma DollarWitness(text: string, w: string)
    requires |w| == 2 && w[0] == '$' && IsDigit(w[1])
    requires Contains(text, w)
    ensures EarnsBonus(text)
  {
    var i: nat :| i <= |text| && OccursAt(text, w, i);
    assert text[i..i + 2] == w;
    assert text[i] == w[0] && text[i + 1] == w[1];
    assert DollarBeforeDigitAt(text, i);
  }

  /** A text on which no check fails and which earns the bonus scores 100
      with no issues. */
  lemma CleanFormat(text: string)
    requires !HasTableChars(text) && LineCount(text) >= 10
    requires Contains(Lower(text), "experience") && Contains(Lower(text), "skill")
    requires HasFourDigitRun(text)
    ensures forall c: FormatCheck :: !Fails(c, text)
    ensures FormatIssues(text) == []
    ensures FormatScore(text) == 100
  {
    UnrollIssues(FailingOn(text));
    UnrollPenalties(FailingOn(text));
  }
}
