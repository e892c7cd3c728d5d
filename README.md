# ATS résumé checker: a verified model

This project models the decision logic of a small job-board web application.

- **The scorer.** `calculateATSScore` rates a résumé against a job. It extracts candidate keywords from the job's skill tags and the long words of its description. It matches them by substring in the lower-cased résumé, audits the résumé's format with five heuristic checks and a bonus, averages the keyword and format scores, and builds at most six suggestions.
- **The job board's search.** A listing is kept when the lower-cased search term occurs in its title, company, location or one of its skill tags. The page counts the listings that are kept and shows an empty state when there are none.
- **The résumé check page.** The page looks up the job by id, guards the upload by file type and size, and builds the text handed to the scorer. It scores a fixed demo résumé, never the uploaded file, and turns the score into a colour and a label.

Modules:

- `Seqs` holds the array operations the source relies on: `filter`, `slice(0, n)`, `indexOf`, and de-duplication through `indexOf`. Each has a reference definition and lemmas.
- `Text` holds ASCII text primitives: `toLowerCase`, `\w`, `\d`, `includes`, `split` and `join`.
- `Keywords` extracts and matches keywords.
- `FormatAudit` holds `checkResumeFormat`.
- `Suggestions` holds `generateSuggestions`.
- `AtsChecker` holds `calculateATSScore` and the `ATSResult` record.
- `Jobs` holds the listing record.
- `JobBoard` holds the search filter.
- `AtsCheck` holds the check page's logic.

The three routines that build their results step by step are methods with loops or sequences of updates:

- `PartitionKeywords` is the `forEach` that pushes keywords onto two lists.
- `CheckResumeFormat` decrements a score and pushes issues.
- `GenerateSuggestions` pushes suggestions and then slices them.

Each method is proved equal to a specification function, and the lemmas are stated about those functions.

A few facts surfaced while proving:

- The format score is always between 5 and 100. Every penalty together comes to 95, so the clamp at 0 never takes effect.
- The stop-word filter removes nothing. Every stop-word has three letters, and words of three letters or fewer are already dropped.
- The demo résumé passes every format check and earns the bonus. So every analysed upload reports a format score of 100 and no format issues.

## Model

| member | source | states |
|---|---|---|
| Seqs.IndexOf | src/utils/atsChecker.ts:22 | `indexOf` gives the first position that holds the element, and -1 exactly when the element is absent |
| Seqs.Filter | src/utils/atsChecker.ts:17-18 | `filter`: the result is no longer than the input and holds exactly the elements that pass; `FilterIsSubsequence` keeps their order |
| Seqs.Reject | src/utils/atsChecker.ts:31-33 | the elements that fail the test, the else-branch list of the `forEach`; `FilterRejectPartition` makes it the complement of `Filter` |
| Seqs.Take | src/utils/atsChecker.ts:47-48 | `slice(0, n)`: a prefix of the list of length `min(length, n)` |
| Seqs.KeepFirst | src/utils/atsChecker.ts:21-22 | the `filter((word, index, arr) => arr.indexOf(word) === index)` de-duplication; its meaning is stated by `KeepFirstIsDedup` and `KeepFirstOfAppend` |
| Seqs.KeepFirstIsDedup | src/utils/atsChecker.ts:21-22 | the `indexOf(word) === index` filter equals the reference de-duplication, which keeps each element at its first occurrence |
| Seqs.DedupAppend | src/utils/atsChecker.ts:21-22 | de-duplicating two lists joined gives the distinct elements of the first, then those of the second that the first lacks, in first-occurrence order |
| Seqs.KeepFirstOfAppend | src/utils/atsChecker.ts:21-22 | the de-duplicated candidate list has no duplicates and holds exactly the elements of its two parts |
| Seqs.FilterRejectPartition | src/utils/atsChecker.ts:28-34 | each element lands in exactly one of the kept and the rejected lists (lengths add up and multisets add up) |
| Text.Lower | src/utils/atsChecker.ts:11-12 | lower-casing keeps the length and maps each character through ASCII lower-casing |
| Text.Contains | src/utils/atsChecker.ts:29 | `includes`; `ContainsEmpty`, `ContainsChar`, `ContainsTrans`, `ContainsParts` and `ContainsLower` state its laws |
| Text.Join | src/pages/ATSCheck.tsx:73 | `join(sep)`; `SplitOnJoin`, `JoinContainsParts` and `JoinAvoids` state what the joined text holds |
| Text.SplitOn | src/utils/atsChecker.ts:65 | `split('\n')` gives one piece more than there are newlines, and no piece holds a newline |
| Text.SplitOnJoin | src/utils/atsChecker.ts:65 | splitting a text joined by a character that occurs in no piece gives back exactly the pieces |
| Text.SplitWords | src/utils/atsChecker.ts:16 | `split(/[^\w]+/)` yields at least one token, and every token holds only word characters |
| Text.SplitWordsOfWord | src/utils/atsChecker.ts:16 | a text made only of word characters splits into itself alone |
| Text.SplitWordsInterleave | src/utils/atsChecker.ts:16 | a text laid out as word-character pieces between non-empty runs of non-word characters, with only the first and last piece allowed to be empty, splits into exactly those pieces |
| Text.SplitWordsDecomposes | src/utils/atsChecker.ts:16 | every text is its tokens laid out between the separator runs `/[^\w]+/` matches in it, in that shape: the split loses nothing but the runs and cuts at every run |
| Text.LowerIdempotent | src/utils/atsChecker.ts:29 | lower-casing twice is lower-casing once, so the second `toLowerCase` on an already lower-cased keyword (and the lower-cased search term of src/pages/JobBoard.tsx:13-16) changes nothing |
| Keywords.JobWords | src/utils/atsChecker.ts:15-18 | every extracted description word is longer than three characters, holds only word characters and is not a stop-word |
| Keywords.LowerAll | src/utils/atsChecker.ts:21 | `jobSkills.map(s => s.toLowerCase())`: same length, each tag lower-cased in place |
| Keywords.CommonWordsHaveLengthThree | src/utils/atsChecker.ts:112-114 | every entry of the stop-word table has exactly three characters |
| Keywords.StopWordFilterRemovesNothing | src/utils/atsChecker.ts:17-18 | after the length filter, the stop-word filter removes nothing |
| Keywords.JobWordsAreLongTokens | src/utils/atsChecker.ts:15-18 | the description contributes exactly its tokens longer than three characters |
| Keywords.Candidates | src/utils/atsChecker.ts:21-22 | the candidate list has no duplicates, holds every lower-cased skill tag and every description word, and nothing else |
| Keywords.InResume | src/utils/atsChecker.ts:29 | `resumeLower.includes(keyword.toLowerCase())`; `PartitionStep` and `PartitionLaws` put a keyword on the matched list iff it holds |
| Keywords.MatchedOf | src/utils/atsChecker.ts:28-34 | the full matched list before slicing; `PartitionKeywords` builds it and `PartitionLaws` states that it holds exactly the contained candidates in order |
| Keywords.MissingOf | src/utils/atsChecker.ts:28-34 | the full missing list before slicing; `PartitionKeywords` builds it and `PartitionLaws` states that it holds exactly the other candidates in order |
| Keywords.CandidatesOrder | src/utils/atsChecker.ts:21-22 | candidates are the distinct skill tags in tag order, then the distinct description words that are not already skills, in order of first appearance |
| Keywords.PartitionKeywords | src/utils/atsChecker.ts:28-34 | the loop builds exactly the keywords the résumé mentions and exactly the ones it does not, each in candidate order |
| Keywords.PartitionStep | src/utils/atsChecker.ts:29-33 | one more candidate is appended to exactly one of the two lists, according to whether the résumé contains it |
| Keywords.PartitionLaws | src/utils/atsChecker.ts:28-34 | matched and missing split the candidates (lengths and multisets add up), a candidate is matched iff the résumé contains it and missing iff not, and both keep candidate order |
| Keywords.SubstringMatching | src/utils/atsChecker.ts:29 | matching is by substring: "java" counts as found in "javascript" |
| FormatAudit.CheckResumeFormat | src/utils/atsChecker.ts:55-91 | the step-by-step audit returns the check table's score and issue list, and the score lies in 5..100 |
| FormatAudit.FormatScore | src/utils/atsChecker.ts:57-90 | the score as 100 less the failing checks' penalties plus the bonus, capped at 100; its range is stated by `FormatScoreRange` and `PerfectScoreIffNoIssues` |
| FormatAudit.FormatIssues | src/utils/atsChecker.ts:59-83 | the failing checks' messages in table order; `FormatIssuesAreFailures` states that a message is reported iff its check fails |
| FormatAudit.Fails | src/utils/atsChecker.ts:60-80 | the five failure conditions; `FormatIssuesAreFailures` ties them to the messages, `TooShortIffFewNewlines` and `CleanFormat` to the text |
| FormatAudit.EarnsBonus | src/utils/atsChecker.ts:86 | the bonus condition; `PercentWitness` and `DollarWitness` give texts that earn it |
| FormatAudit.HasTableChars | src/utils/atsChecker.ts:60 | one of `│`, `┌`, `└` occurs; `DemoHasNoTableChars` shows a text without them |
| FormatAudit.LineCount | src/utils/atsChecker.ts:65 | `split('\n').length`; `TooShortIffFewNewlines` relates it to the newline count |
| FormatAudit.HasFourDigitRun | src/utils/atsChecker.ts:80 | `/\d{4}/.test`; `FourDigitWitness` |
| FormatAudit.HasPercentAfterDigit | src/utils/atsChecker.ts:86 | `/\d+%/.test`, a digit directly followed by `%`; `PercentWitness` |
| FormatAudit.HasDollarBeforeDigit | src/utils/atsChecker.ts:86 | `/\$\d+/.test`, a `$` directly followed by a digit; `DollarWitness` |
| FormatAudit.FormatScoreRange | src/utils/atsChecker.ts:57-90 | the clamped format score always lies between 5 and 100 |
| FormatAudit.PenaltyAtMost95 | src/utils/atsChecker.ts:62-82 | the penalties of all five checks together come to at most 95 |
| FormatAudit.IssuesOfReportsFailures | src/utils/atsChecker.ts:59-83 | a check's message is among the issues iff the check is in the table and fails; there are no more issues than checks |
| FormatAudit.FormatIssuesAreFailures | src/utils/atsChecker.ts:59-83 | each check's message is reported iff that check fails on the text, and there are at most five issues |
| FormatAudit.IssueInjective | src/utils/atsChecker.ts:61-81 | the five issue messages are pairwise distinct |
| FormatAudit.PenaltyVersusIssues | src/utils/atsChecker.ts:59-83 | the total penalty is 0 iff no issue is reported, and otherwise it is at least 15 |
| FormatAudit.PerfectScoreIffNoIssues | src/utils/atsChecker.ts:57-90 | the format score is 100 iff no issue is reported, since the +10 bonus cannot make up the smallest penalty |
| FormatAudit.TooShortIffFewNewlines | src/utils/atsChecker.ts:65 | the too-short check fails iff the text has fewer than nine newlines |
| FormatAudit.FourDigitWitness | src/utils/atsChecker.ts:80 | any four digits in a row satisfy the date check `/\d{4}/` |
| FormatAudit.PercentWitness | src/utils/atsChecker.ts:86 | a digit followed by "%" earns the quantified-achievement bonus |
| FormatAudit.DollarWitness | src/utils/atsChecker.ts:86 | a `$` followed by a digit anywhere in the text earns the quantified-achievement bonus |
| FormatAudit.CleanFormat | src/utils/atsChecker.ts:59-90 | a text without box characters, with at least ten lines, mentioning "experience" and "skill" and holding a four-digit run passes every check, with no issues and a score of 100 |
| Suggestions.KeywordSuggestion | src/utils/atsChecker.ts:96-99 | there is one keyword suggestion exactly when some keyword is missing, and none otherwise |
| Suggestions.SuggestionsFor | src/utils/atsChecker.ts:93-110 | the suggestion list; `SuggestionCount`, `SuggestionsTruncation`, `SuggestionsHead` and `IssuesSurviveTruncation` state its length, order and truncation |
| Suggestions.GenerateSuggestions | src/utils/atsChecker.ts:93-110 | the pushes and the final slice give the first six of: keyword suggestion, format issues, the three tips |
| Suggestions.SuggestionCount | src/utils/atsChecker.ts:105-109 | there are always between three and six suggestions |
| Suggestions.SuggestionsTruncation | src/utils/atsChecker.ts:109 | a leading part of six or more crowds out every tip; otherwise it is kept whole and topped up with tips in order |
| Suggestions.SuggestionsHead | src/utils/atsChecker.ts:96-107 | the keyword suggestion comes first when keywords are missing; with nothing missing and no issues, the suggestions are the three tips alone |
| Suggestions.IssuesSurviveTruncation | src/utils/atsChecker.ts:101-109 | up to five format issues are never cut, and they follow the keyword suggestion in report order |
| AtsChecker.CalculateATSScore | src/utils/atsChecker.ts:10-53 | the routine's result equals the report function built from the candidate list, the partition, the format audit and the suggestions |
| AtsChecker.AtsScore | src/utils/atsChecker.ts:10-53 | the report `calculateATSScore` returns; `AtsScoreProperties` states its ranges, truncation and suggestion count |
| AtsChecker.KeywordScore | src/utils/atsChecker.ts:37 | `(matched / max(keywords, 1)) * 100` over exact reals; `KeywordScoreRange` bounds it |
| AtsChecker.OverallScore | src/utils/atsChecker.ts:46 | the rounded mean of keyword and format scores in integer arithmetic; `OverallScoreIsRoundedMean` proves it is `Math.round` of the exact mean |
| AtsChecker.KeywordScoreRange | src/utils/atsChecker.ts:37 | the keyword score lies in 0..100, and is 0 when there are no candidates |
| AtsChecker.OverallScoreIsRoundedMean | src/utils/atsChecker.ts:46 | the integer overall score is `Math.round` of the mean of keyword and format scores: r ≤ mean + 0.5 < r + 1 |
| AtsChecker.OverallScoreRange | src/utils/atsChecker.ts:46 | with at most as many matches as candidates and a format score in 0..100, the overall score lies in 0..100 |
| AtsChecker.OverallScoreExtremes | src/utils/atsChecker.ts:37-46 | all candidates matched with a perfect format score give 100; with no candidates the score is (formatScore + 1) / 2, at most 50 |
| AtsChecker.AtsScoreProperties | src/utils/atsChecker.ts:10-53 | both scores are in range; the shown lists are prefixes of the full lists of at most 20 and 15 entries; matched and missing add up to the candidates; the overall score uses the full lists; the issues are the format audit's, one per failing check; there are 3..6 suggestions |
| AtsChecker.MatchedListComplete | src/utils/atsChecker.ts:47 | with at most 20 matches, the shown matched list is the full list |
| AtsChecker.MissingListComplete | src/utils/atsChecker.ts:48 | with at most 15 misses, the shown missing list is the full list |
| AtsChecker.FullMatchScoresPerfect | src/utils/atsChecker.ts:28-46 | a résumé that mentions every candidate and passes every format check scores 100 overall |
| AtsChecker.OneLetterSkillIsCandidate | src/utils/atsChecker.ts:21 | skill tags bypass the length filter: a tag "R" becomes the candidate "r" |
| AtsChecker.CleanFormatReport | src/utils/atsChecker.ts:40-50 | a résumé with a clean format gets format score 100, no issues, an overall score in range, and three or four suggestions |
| JobBoard.FilteredJobs | src/pages/JobBoard.tsx:12-17 | a listing is kept iff its lower-cased title, company, location or a skill contains the lower-cased term; the result keeps listing order, and with the dropped listings it makes up the listings as a multiset, so every copy of a matching listing is kept |
| JobBoard.MatchesSearch | src/pages/JobBoard.tsx:13-16 | the search predicate; `FilteredJobs`, `SearchIgnoresCase`, `UnsearchedFields` and `DescriptionOnlyMatchIsDropped` state its meaning |
| JobBoard.JobsAvailable | src/pages/JobBoard.tsx:62 | the "N Jobs Available" count, the length of the filtered list; `EmptyStateIffNoMatch` bounds it by the listings |
| JobBoard.ShowsEmptyState | src/pages/JobBoard.tsx:76 | the "No jobs found" condition; `EmptyStateIffNoMatch` states that it holds iff no listing matches |
| JobBoard.EmptyStateIffNoMatch | src/pages/JobBoard.tsx:62-76 | the "Jobs Available" count never exceeds the listings, and the empty state shows iff no listing matches |
| JobBoard.EmptySearchKeepsAll | src/pages/JobBoard.tsx:12-17 | an empty search term keeps every listing |
| JobBoard.SearchIgnoresCase | src/pages/JobBoard.tsx:13-16 | a term and its lower-cased form keep the same listings |
| JobBoard.LongerTermNarrows | src/pages/JobBoard.tsx:12-17 | a term that contains a shorter one keeps only listings the shorter term keeps |
| JobBoard.UnsearchedFields | src/pages/JobBoard.tsx:12-17 | description, requirements, responsibilities, job type, salary and posting date never affect whether a listing is kept |
| JobBoard.DescriptionOnlyMatchIsDropped | src/pages/JobBoard.tsx:12-17 | a term found only in the description does not keep the listing |
| AtsCheck.ColorBands | src/pages/ATSCheck.tsx:92-96 | the colour is success iff the score is ≥ 80, warning iff it is 60..79, destructive iff it is < 60 |
| AtsCheck.ScoreColor | src/pages/ATSCheck.tsx:92-96 | `getScoreColor`; its three bands are stated by `ColorBands` |
| AtsCheck.LabelBands | src/pages/ATSCheck.tsx:98-103 | the label is "Excellent Match" iff the score is ≥ 80, "Good Match" iff 60..79, "Fair Match" iff 40..59, "Needs Improvement" iff < 40 |
| AtsCheck.ScoreLabel | src/pages/ATSCheck.tsx:98-103 | `getScoreLabel`; its four bands are stated by `LabelBands` |
| AtsCheck.ColorAgreesWithLabel | src/pages/ATSCheck.tsx:92-103 | success goes with "Excellent Match", warning with "Good Match", and destructive with the two lowest labels |
| AtsCheck.CheckUpload | src/pages/ATSCheck.tsx:28-47 | a file is accepted iff one is selected, its type mentions pdf, word or document, and its size is at most 10 MiB; no file means nothing happens; a file is refused for its type iff its type is invalid, and for its size iff its type is valid and it is larger than 10 MiB |
| AtsCheck.TypeCheckedBeforeSize | src/pages/ATSCheck.tsx:31-47 | a file of the wrong type is refused for its type, whatever its size |
| AtsCheck.SizeLimitIsInclusive | src/pages/ATSCheck.tsx:40 | a PDF of exactly 10485760 bytes is accepted; one byte more is refused as too large |
| AtsCheck.TypeExamples | src/pages/ATSCheck.tsx:31 | "application/msword" passes the type check and "text/plain" does not |
| AtsCheck.IsDocumentType | src/pages/ATSCheck.tsx:31 | the type guard: the MIME type includes "pdf", "word" or "document"; `TypeExamples` and `CheckUpload` |
| AtsCheck.FindJob | src/pages/ATSCheck.tsx:17 | `find` gives nothing iff no listing has the id, and otherwise the first listing with that id |
| AtsCheck.PageFor | src/pages/ATSCheck.tsx:17-25 | the page is the not-found page iff no listing has the id; otherwise it is the check page of the first listing with that id, the one `find` returns |
| AtsCheck.UnknownJobNeverScored | src/pages/ATSCheck.tsx:23-25 | an unknown id shows the not-found page, and no file selection on it reaches the scorer |
| AtsCheck.UploadOnPage | src/pages/ATSCheck.tsx:23-25 | a file selected on a page: nothing on the not-found page; `UnknownJobNeverScored` |
| AtsCheck.JobDescriptionLayout | src/pages/ATSCheck.tsx:73 | the scorer's text is description, responsibilities and requirements at known offsets, separated by single spaces, and it contains every responsibility and every requirement |
| AtsCheck.JobDescriptionText | src/pages/ATSCheck.tsx:73 | the description, responsibilities and requirements joined by spaces; `JobDescriptionLayout` states where each part sits |
| AtsCheck.DemoResume | src/pages/ATSCheck.tsx:57-71 | the fixed demo résumé, its fifteen lines joined by newlines; `DemoLineCount`, `DemoMentions` and `DemoResumePassesFormat` state what it holds |
| AtsCheck.DemoLineCount | src/pages/ATSCheck.tsx:57-71 | the demo résumé has 15 lines |
| AtsCheck.DemoHasNoTableChars | src/pages/ATSCheck.tsx:57-71 | the demo résumé holds none of the three box-drawing characters |
| AtsCheck.DemoMentions | src/pages/ATSCheck.tsx:57-71 | the demo résumé contains "Experience", "Skills", "2020" and "0%" |
| AtsCheck.DemoResumePassesFormat | src/pages/ATSCheck.tsx:57-71 | the demo résumé passes every format check and earns the bonus, so its format score is 100 with no issues |
| AtsCheck.HandleFileUpload | src/pages/ATSCheck.tsx:27-74 | an upload is analysed iff the guards accept the file, and nothing happens iff no file is selected; an analysed upload carries the selected file and the report for the demo résumé, the job text and the job's skills; a rejected one carries the guard's type or size decision |
| AtsCheck.AnalysedUploadReport | src/pages/ATSCheck.tsx:57-74 | every analysed upload reports the demo résumé: format score 100, no issues, overall score in range, three or four suggestions |

## Left out

- Rendering, routing, styling and the UI components are not modelled. This covers the JSX of all three pages, `Header`, `JobCard`, `JobDetail.tsx` and `NotFound`.
- React state is not modelled: `searchTerm`, `selectedFile`, `uploading` and `atsResult`. The search term and the selected file become parameters.
- Toasts are not modelled. Each guard's toast is the corresponding `UploadDecision` value.
- The asynchronous flow of `handleFileUpload` is left out: the two-second simulated delay and the `try`/`catch`/`finally`. Nothing in the modelled path throws, so the "Upload failed" branch is unreachable in the model.
- The listing data in `src/data/jobs.ts` is not part of this model. Listings are a parameter.
- `useParams` can give an undefined `jobId`. The model takes a string: an undefined id matches no listing, just like an id that no listing has.
- A browser `File` is reduced to its name, MIME type and byte size.
- Text.Lower: lower-cases ASCII letters only, not full Unicode `toLowerCase`. Non-ASCII text, such as a Turkish dotted I or a German sharp s, is compared as it is.
- AtsChecker.KeywordScore: the keyword score is an exact real, not an IEEE double. `OverallScore` rounds the exact mean half up, while JavaScript's `Math.round` of the floating-point mean can differ when the mean lies within rounding error of a half.
- AtsChecker.OverallScoreIsRoundedMean: states `Math.round` for the exact mean, not for the floating-point value the source computes.
- JobBoard.FilteredJobs: `some` stops at the first matching skill. Short-circuit evaluation has no observable effect here, so the model uses an existential.
