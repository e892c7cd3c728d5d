/** The decision logic of the résumé check page: the job lookup by id, the
    upload guards, the job text handed to the scorer, the fixed demo résumé
    it scores, and the colour and label bands the score is shown with. */
module AtsCheck {
  import opened Seqs
  import opened Text
  import opened Jobs
  import opened FormatAudit
  import opened AtsChecker

  // ---- Score bands ------------------------------------------------------

  const SuccessColor: string := "text-success"
  const WarningColor: string := "text-warning"
  const DestructiveColor: string := "text-destructive"

  const ExcellentLabel: string := "Excellent Match"
  const GoodLabel: string := "Good Match"
  const FairLabel: string := "Fair Match"
  const NeedsImprovementLabel: string := "Needs Improvement"

  /** `getScoreColor`. */
  function ScoreColor(score: int): string {
    if score >= 80 then SuccessColor
    else if score >= 60 then WarningColor
    else DestructiveColor
  }

  /** `getScoreLabel`. */
  function ScoreLabel(score: int): string {
    if score >= 80 then ExcellentLabel
    else if score >= 60 then GoodLabel
    else if score >= 40 then FairLabel
    else NeedsImprovementLabel
  }

  /** The four label bands: 80 and up, 60 to 79, 40 to 59, below 40. */
  lemma LabelBands(score: int)
    ensures ScoreLabel(score) == ExcellentLabel <==> score >= 80
    ensures ScoreLabel(score) == GoodLabel <==> 60 <= score < 80
    ensures ScoreLabel(score) == FairLabel <==> 40 <= score < 60
    ensures ScoreLabel(score) == NeedsImprovementLabel <==> score < 40
  {
    assert ExcellentLabel[0] == 'E' && GoodLabel[0] == 'G' && FairLabel[0] == 'F' && NeedsImprovementLabel[0] == 'N';
  }

  /** The three colour bands: 80 and up, 60 to 79, below 60. */
  lemma ColorBands(score: int)
    ensures ScoreColor(score) == SuccessColor <==> score >= 80
    ensures ScoreColor(score) == WarningColor <==> 60 <= score < 80
    ensures ScoreColor(score) == DestructiveColor <==> score < 60
  {
    assert SuccessColor[5] == 's' && WarningColor[5] == 'w' && DestructiveColor[5] == 'd';
  }

  /** Colour and label agree: success goes with "Excellent Match", warning
      with "Good Match", and the destructive colour covers the two lowest
      labels. */
  lemma ColorAgreesWithLabel(score: int)
    ensures ScoreColor(score) == SuccessColor <==> ScoreLabel(score) == ExcellentLabel
    ensures ScoreColor(score) == WarningColor <==> ScoreLabel(score) == GoodLabel
    ensures ScoreColor(score) == DestructiveColor <==>
      ScoreLabel(score) == FairLabel || ScoreLabel(score) == NeedsImprovementLabel
  {
    LabelBands(score);
    ColorBands(score);
  }

  // ---- Upload guards ----------------------------------------------------

  /** The part of a browser `File` the guards look at. */
  datatype FileInfo = FileInfo(name: string, mimeType: string, size: nat)

  /** What the guards decide about the first selected file. */
  datatype UploadDecision =
    | NoFileSelected
    | InvalidFileType
    | FileTooLarge
    | Accepted(file: FileInfo)

  /** The 10 MiB size limit. */
  const MaxUploadBytes: nat := 10 * 1024 * 1024

  /** The type guard: the MIME type mentions "pdf", "word" or "document". */
  predicate IsDocumentType(mimeType: string) {
    Contains(mimeType, "pdf") || Contains(mimeType, "word") || Contains(mimeType, "document")
  }

  /** The guards of `handleFileUpload`, in their order: no file, then the
      type, then the size. */
  function CheckUpload(file: Option<FileInfo>): (d: UploadDecision)
    ensures d.Accepted? <==> file.Some? && IsDocumentType(file.value.mimeType) && file.value.size <= MaxUploadBytes
    ensures d.Accepted? ==> d.file == file.value
    ensures d == NoFileSelected <==> file.None?
    ensures d == InvalidFileType <==> file.Some? && !IsDocumentType(file.value.mimeType)
    ensures d == FileTooLarge <==> file.Some? && IsDocumentType(file.value.mimeType) && file.value.size > MaxUploadBytes
  {
    match file
    case None => NoFileSelected
    case Some(f) =>
      if !IsDocumentType(f.mimeType) then InvalidFileType
      else if f.size > MaxUploadBytes then FileTooLarge
      else Accepted(f)
  }

  /** The type check runs first: a file of the wrong type is reported as
      such whatever its size. */
  lemma TypeCheckedBeforeSize(f: FileInfo)
    requires !IsDocumentType(f.mimeType)
    ensures CheckUpload(Some(f)) == InvalidFileType
  {
  }

  /** The limit is inclusive: a PDF of exactly 10 MiB is accepted and one
      byte more is refused. */
  lemma SizeLimitIsInclusive(name: string)
    ensures CheckUpload(Some(FileInfo(name, "application/pdf", 10485760))).Accepted?
    ensures CheckUpload(Some(FileInfo(name, "application/pdf", 10485761))) == FileTooLarge
  {
    assert OccursAt("application/pdf", "pdf", 12);
  }

  /** Old Word files pass the type check; plain text does not. */
  lemma TypeExamples()
    ensures IsDocumentType("application/msword")
    ensures !IsDocumentType("text/plain")
  {
    assert OccursAt("application/msword", "word", 14);
    NoLetterNoContains("text/plain", "document", 'd');
    NoLetterNoContains("text/plain", "pdf", 'd');
    NoLetterNoContains("text/plain", "word", 'w');
  }

  lemma NoLetterNoContains(s: string, sub: string, c: char)
    requires c in sub && c !in s
    ensures !Contains(s, sub)
  {
    var k :| 0 <= k < |sub| && sub[k] == c;
    forall i: nat | i <= |s| ensures !OccursAt(s, sub, i) {
      if i + |sub| <= |s| {
        assert s[i + k] == s[i..i + |sub|][k];
      }
    }
  }

  // ---- Job lookup and the scorer's input --------------------------------

  /** `jobListings.find(j => j.id === jobId)`: the first listing with that
      id, or nothing. */
  function FindJob(jobs: seq<Job>, jobId: string): (r: Option<Job>)
    ensures r.None? <==> forall j | j in jobs :: j.id != jobId
    ensures r.Some? ==> r.value in jobs && r.value.id == jobId
    ensures r.Some? ==> exists i | 0 <= i < |jobs| :: jobs[i] == r.value && forall k | 0 <= k < i :: jobs[k].id != jobId
  {
    if jobs == [] then None
    else if jobs[0].id == jobId then Some(jobs[0])
    else
      var r := FindJob(jobs[1..], jobId);
      assert forall j | j in jobs :: j == jobs[0] || j in jobs[1..];
      if r.Some? then
        var i :| 0 <= i < |jobs[1..]| && jobs[1..][i] == r.value && forall k | 0 <= k < i :: jobs[1..][k].id != jobId;
        assert jobs[i + 1] == r.value;
        assert forall k | 0 <= k < i + 1 :: jobs[k].id != jobId by {
          forall k | 0 <= k < i + 1 ensures jobs[k].id != jobId {
            if k > 0 { assert jobs[k] == jobs[1..][k - 1]; }
          }
        }
        r
      else r
  }

  /** `jobDescription`: the description, the responsibilities and the
      requirements, each list joined by single spaces, separated by single
      spaces. */
  function JobDescriptionText(job: Job): string {
    job.description + " " + Join(job.responsibilities, " ") + " " + Join(job.requirements, " ")
  }

  /** Where each part sits: the description first, the responsibilities
      right after it and the requirements last, so every responsibility and
      every requirement reaches the keyword extractor. */
  lemma JobDescriptionLayout(job: Job)
    ensures var text := JobDescriptionText(job);
      var resp := Join(job.responsibilities, " ");
      var reqs := Join(job.requirements, " ");
      && OccursAt(text, job.description, 0)
      && OccursAt(text, resp, |job.description| + 1)
      && OccursAt(text, reqs, |job.description| + |resp| + 2)
      && |text| == |job.description| + |resp| + |reqs| + 2
      && (forall i | 0 <= i < |job.responsibilities| :: Contains(text, job.responsibilities[i]))
      && (forall i | 0 <= i < |job.requirements| :: Contains(text, job.requirements[i]))
  {
    var text := JobDescriptionText(job);
    var resp := Join(job.responsibilities, " ");
    var reqs := Join(job.requirements, " ");
    var d := |job.description|;
    assert text[0..d] == job.description;
    assert text[d + 1..d + 1 + |resp|] == resp;
    assert text[d + |resp| + 2..d + |resp| + 2 + |reqs|] == reqs;
    JoinContainsParts(job.responsibilities, " ");
    JoinContainsParts(job.requirements, " ");
    assert OccursAt(text, resp, d + 1) && OccursAt(text, reqs, d + |resp| + 2);
    forall i | 0 <= i < |job.responsibilities| ensures Contains(text, job.responsibilities[i]) {
      ContainsTrans(text, resp, job.responsibilities[i]);
    }
    forall i | 0 <= i < |job.requirements| ensures Contains(text, job.requirements[i]) {
      ContainsTrans(text, reqs, job.requirements[i]);
    }
  }

  // ---- The demo résumé --------------------------------------------------

  const Indent: string := "        "
  const NameLine: string := Indent + "John Doe"
  const TitleLine: string := Indent + "Software Engineer"
  const ExperienceHeading: string := Indent + "Experience:"
  const RoleLine: string := Indent + "Senior Developer at " + "Tech Company (2020-2024)"
  const WebAppsBullet: string := Indent + "- Developed web applications " + "using React and Node.js"
  const TeamBullet: string := Indent + "- Led team of 5 developers"
  const PerformanceBullet: string := Indent + "- Increased performance by 40%"
  const SkillsLine: string := Indent + "Skills: " + "JavaScript, Python, " + "React, Node.js, AWS, Git"
  const EducationHeading: string := Indent + "Education:"
  const DegreeLine: string := Indent + "Bachelor of Computer Science, " + "2020"
  const ClosingLine: string := "      "

  /** The lines of the fixed résumé text the page scores in place of a
      parsed upload: a leading empty line, thirteen indented lines (three of
      them blank) and a last line of six spaces. */
  const DemoLines: seq<string> := [
    "", NameLine, TitleLine, Indent, ExperienceHeading, RoleLine, WebAppsBullet, TeamBullet,
    PerformanceBullet, Indent, SkillsLine, Indent, EducationHeading, DegreeLine, ClosingLine
  ]

  /** The demo résumé text. */
  function DemoResume(): string {
    Join(DemoLines, "\n")
  }

  /** Printable ASCII only: no line breaks and no box-drawing characters. */
  predicate Printable(s: string) {
    forall i | 0 <= i < |s| :: ' ' <= s[i] <= '~'
  }

  lemma PrintableAvoids(s: string, c: char)
    requires Printable(s) && !(' ' <= c <= '~')
    ensures c !in s
  {
  }

  lemma HeaderLinesPrintable()
    ensures Printable(NameLine) && Printable(TitleLine) && Printable(Indent) && Printable(ExperienceHeading)
  {
  }

  lemma RoleLinesPrintable()
    ensures Printable(RoleLine) && Printable(WebAppsBullet)
  {
  }

  lemma BulletLinesPrintable()
    ensures Printable(TeamBullet) && Printable(PerformanceBullet) && Printable(EducationHeading) && Printable(ClosingLine)
  {
  }

  lemma SkillLinesPrintable()
    ensures Printable(SkillsLine) && Printable(DegreeLine)
  {
  }

  /** Every line of the demo résumé is printable ASCII. */
  lemma DemoLinesPrintable()
    ensures |DemoLines| == 15
    ensures forall i | 0 <= i < |DemoLines| :: Printable(DemoLines[i])
  {
    HeaderLinesPrintable();
    RoleLinesPrintable();
    BulletLinesPrintable();
    SkillLinesPrintable();
  }

  /** The demo résumé has 15 lines. */
  lemma DemoLineCount()
    ensures LineCount(DemoResume()) == 15
  {
    DemoLinesPrintable();
    forall i | 0 <= i < |DemoLines| ensures '\n' !in DemoLines[i] {
      PrintableAvoids(DemoLines[i], '\n');
    }
    SplitOnJoin(DemoLines, '\n');
  }

  /** The demo résumé holds none of the box-drawing characters. */
  lemma DemoHasNoTableChars()
    ensures !HasTableChars(DemoResume())
  {
    DemoLinesPrintable();
    NoCharInDemo('\U{2502}');
    NoCharInDemo('\U{250C}');
    NoCharInDemo('\U{2514}');
  }

  lemma NoCharInDemo(c: char)
    requires !(' ' <= c <= '~') && c != '\n'
    ensures !Contains(DemoResume(), [c])
  {
    DemoLinesPrintable();
    forall i | 0 <= i < |DemoLines| ensures c !in DemoLines[i] {
      PrintableAvoids(DemoLines[i], c);
    }
    JoinAvoids(DemoLines, "\n", c);
    ContainsChar(DemoResume(), c);
  }

  /** The demo résumé mentions "Experience", "Skills", "2020" and "0%"
      (the tail of "40%", a digit followed by a percent sign). */
  lemma DemoMentions()
    ensures Contains(DemoResume(), "Experience")
    ensures Contains(DemoResume(), "Skills")
    ensures Contains(DemoResume(), "2020")
    ensures Contains(DemoResume(), "0%")
  {
    var text, lines := DemoResume(), DemoLines;
    JoinContainsParts(lines, "\n");
    WordInLine(text, lines[4], "Experience", 8);
    SkillsLineMentionsSkills();
    WordInLine(text, lines[10], "Skills", 8);
    WordInLine(text, lines[13], "2020", 38);
    WordInLine(text, lines[8], "0%", 36);
  }

  lemma SkillsLineMentionsSkills()
    ensures OccursAt(SkillsLine, "Skills", 8)
  {
    var head := Indent + "Skills: ";
    assert OccursAt(head, "Skills", 8);
    OccursInPrefix(head, "JavaScript, Python, ", "Skills", 8);
    OccursInPrefix(head + "JavaScript, Python, ", "React, Node.js, AWS, Git", "Skills", 8);
  }

  /** The demo résumé passes every format check and earns the bonus, so
      its format score is 100 with no issues. */
  lemma DemoResumePassesFormat()
    ensures forall c: FormatCheck :: !Fails(c, DemoResume())
    ensures EarnsBonus(DemoResume())
    ensures FormatIssues(DemoResume()) == []
    ensures FormatScore(DemoResume()) == 100
  {
    DemoMeetsEveryCheck();
    CleanFormat(DemoResume());
  }

  lemma DemoMeetsEveryCheck()
    ensures !HasTableChars(DemoResume()) && LineCount(DemoResume()) >= 10
    ensures Contains(Lower(DemoResume()), "experience") && Contains(Lower(DemoResume()), "skill")
    ensures HasFourDigitRun(DemoResume()) && EarnsBonus(DemoResume())
  {
    DemoLineCount();
    DemoHasNoTableChars();
    DemoMentions();
    DemoSections();
    DemoNumbers();
  }

  lemma DemoSections()
    ensures Contains(Lower(DemoResume()), "experience") && Contains(Lower(DemoResume()), "skill")
  {
    DemoMentions();
    MentionsWords(DemoResume());
  }

  lemma DemoNumbers()
    ensures HasFourDigitRun(DemoResume()) && EarnsBonus(DemoResume())
  {
    DemoMentions();
    FourDigitWitness(DemoResume(), "2020");
    PercentWitness(DemoResume(), "0%");
  }

  /** "Experience" and "Skills" in a text satisfy the section checks. */
  lemma MentionsWords(text: string)
    requires Contains(text, "Experience") && Contains(text, "Skills")
    ensures Contains(Lower(text), "experience") && Contains(Lower(text), "skill")
  {
    ContainsLower(text, "Experience");
    assert Lower("Experience") == "experience";
    ContainsLower(text, "Skills");
    assert Lower("Skills") == "skills";
    assert OccursAt("skills", "skill", 0);
    ContainsTrans(Lower(text), "skills", "skill");
  }

  /** A word found at a known offset of a line of the text occurs in the
      text. */
  lemma WordInLine(text: string, line: string, word: string, offset: nat)
    requires Contains(text, line)
    requires OccursAt(line, word, offset)
    ensures Contains(text, word)
  {
    ContainsTrans(text, line, word);
  }

  // ---- The page ---------------------------------------------------------

  /** What the page shows for a job id. */
  datatype PageView = NotFoundPage | CheckPage(job: Job)

  /** What a file selection leads to on a job's page. */
  datatype UploadOutcome =
    | NothingHappens
    | Rejected(decision: UploadDecision)
    | Analysed(file: FileInfo, result: ATSResult)

  /** The page for `jobId`: the not-found page when no listing has it. */
  function PageFor(jobs: seq<Job>, jobId: string): (v: PageView)
    ensures v == NotFoundPage <==> forall j | j in jobs :: j.id != jobId
    ensures v.CheckPage? ==> v.job in jobs && v.job.id == jobId
    ensures v.CheckPage? ==> FindJob(jobs, jobId) == Some(v.job)
  {
    match FindJob(jobs, jobId)
    case None => NotFoundPage
    case Some(job) => CheckPage(job)
  }

  /** `handleFileUpload` on a job's page, as a decision: the guards, then
      the scorer on the demo résumé and the job's text and skill tags. */
  function HandleFileUpload(job: Job, file: Option<FileInfo>): (o: UploadOutcome)
    ensures o.Analysed? <==> CheckUpload(file).Accepted?
    ensures o == NothingHappens <==> file.None?
    ensures o.Analysed? ==> o.file == file.value && o.result == AtsScore(DemoResume(), JobDescriptionText(job), job.skills)
    ensures o.Rejected? ==> o.decision == CheckUpload(file) && (o.decision == InvalidFileType || o.decision == FileTooLarge)
  {
    match CheckUpload(file)
    case NoFileSelected => NothingHappens
    case Accepted(f) => Analysed(f, AtsScore(DemoResume(), JobDescriptionText(job), job.skills))
    case d => Rejected(d)
  }

  /** A file selected on the page for `jobId`: nothing when the page is the
      not-found page, since it has no upload control. */
  function UploadOnPage(jobs: seq<Job>, jobId: string, file: Option<FileInfo>): Option<UploadOutcome> {
    match PageFor(jobs, jobId)
    case NotFoundPage => None
    case CheckPage(job) => Some(HandleFileUpload(job, file))
  }

  /** An unknown job id shows the not-found page and never reaches the
      scorer. */
  lemma UnknownJobNeverScored(jobs: seq<Job>, jobId: string, file: Option<FileInfo>)
    requires forall j | j in jobs :: j.id != jobId
    ensures PageFor(jobs, jobId) == NotFoundPage
    ensures UploadOnPage(jobs, jobId, file) == None
  {
  }

  /** Every analysed upload reports the demo résumé's clean format: score
      100, no issues, and suggestions that are the keyword suggestion (when
      keywords are missing) followed by the three tips. */
  lemma AnalysedUploadReport(job: Job, f: FileInfo)
    requires CheckUpload(Some(f)).Accepted?
    ensures var o := HandleFileUpload(job, Some(f));
      && o.Analysed? && o.file == f
      && o.result.formatScore == 100
      && o.result.formatIssues == []
      && 0 <= o.result.overallScore <= 100
      && 3 <= |o.result.suggestions| <= 4
  {
    var text, description := DemoResume(), JobDescriptionText(job);
    assert HandleFileUpload(job, Some(f)) == Analysed(f, AtsScore(text, description, job.skills));
    DemoResumePassesFormat();
    CleanFormatReport(text, description, job.skills);
  }
}
