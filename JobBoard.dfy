/** The job board's search: a job stays listed when the lower-cased search
    term occurs in its lower-cased title, company, location or one of its
    skills; the heading counts what stays and an empty-state block shows
    when nothing does. */
module JobBoard {
  import opened Seqs
  import opened Text
  import opened Jobs

  /** `job.skills.some(skill => skill.toLowerCase().includes(termLower))`. */
  predicate SomeSkillMentions(skills: seq<string>, termLower: string) {
    exists i | 0 <= i < |skills| :: Contains(Lower(skills[i]), termLower)
  }

  /** The search predicate of `filteredJobs`. */
  predicate MatchesSearch(job: Job, searchTerm: string) {
    var termLower := Lower(searchTerm);
    Contains(Lower(job.title), termLower) ||
    Contains(Lower(job.company), termLower) ||
    Contains(Lower(job.location), termLower) ||
    SomeSkillMentions(job.skills, termLower)
  }

  /** The search predicate as a first-class value. */
  function Matcher(searchTerm: string): Job -> bool {
    job => MatchesSearch(job, searchTerm)
  }

  /** `filteredJobs`: the listings the search keeps, in listing order. */
  function FilteredJobs(jobListings: seq<Job>, searchTerm: string): (r: seq<Job>)
    ensures forall job | job in jobListings :: job in r <==> MatchesSearch(job, searchTerm)
    ensures forall job | job in r :: job in jobListings
    ensures IsSubsequence(r, jobListings)
    ensures multiset(r) + multiset(Reject(jobListings, Matcher(searchTerm))) == multiset(jobListings)
    ensures forall job | MatchesSearch(job, searchTerm) :: multiset(r)[job] == multiset(jobListings)[job]
  {
    var keep := Matcher(searchTerm);
    FilterIsSubsequence(jobListings, keep);
    FilterRejectPartition(jobListings, keep);
    assert forall job | MatchesSearch(job, searchTerm) :: job !in Reject(jobListings, keep);
    Filter(jobListings, keep)
  }

  /** The number in the "N Jobs Available" heading. */
  function JobsAvailable(jobListings: seq<Job>, searchTerm: string): nat {
    |FilteredJobs(jobListings, searchTerm)|
  }

  /** Whether the "No jobs found" block shows. */
  predicate ShowsEmptyState(jobListings: seq<Job>, searchTerm: string) {
    JobsAvailable(jobListings, searchTerm) == 0
  }

  /** The count never exceeds the number of listings, and the empty state
      shows exactly when no listing matches the search. */
  lemma EmptyStateIffNoMatch(jobListings: seq<Job>, searchTerm: string)
    ensures JobsAvailable(jobListings, searchTerm) <= |jobListings|
    ensures ShowsEmptyState(jobListings, searchTerm) <==>
      forall job | job in jobListings :: !MatchesSearch(job, searchTerm)
  {
    var r := FilteredJobs(jobListings, searchTerm);
    if r != [] {
      assert r[0] in r;
    }
  }

  /** An empty search term keeps every listing. */
  lemma EmptySearchKeepsAll(jobListings: seq<Job>)
    ensures FilteredJobs(jobListings, "") == jobListings
  {
    forall job | job in jobListings ensures MatchesSearch(job, "") {
      ContainsEmpty(Lower(job.title));
    }
    FilterKeepsAll(jobListings, Matcher(""));
  }

  /** The search ignores case: a term and its lower-cased form keep the
      same listings. */
  lemma SearchIgnoresCase(jobListings: seq<Job>, searchTerm: string)
    ensures FilteredJobs(jobListings, searchTerm) == FilteredJobs(jobListings, Lower(searchTerm))
  {
    LowerIdempotent(searchTerm);
    FilterAgree(jobListings, Matcher(searchTerm), Matcher(Lower(searchTerm)));
  }

  /** Typing more narrows the list: a term that contains another keeps
      only listings the shorter term keeps too. */
  lemma LongerTermNarrows(jobListings: seq<Job>, shorter: string, longer: string)
    requires Contains(Lower(longer), Lower(shorter))
    ensures forall job | job in FilteredJobs(jobListings, longer) :: job in FilteredJobs(jobListings, shorter)
  {
    var s, l := Lower(shorter), Lower(longer);
    forall job | job in jobListings && MatchesSearch(job, longer) ensures MatchesSearch(job, shorter) {
      if Contains(Lower(job.title), l) {
        ContainsTrans(Lower(job.title), l, s);
      } else if Contains(Lower(job.company), l) {
        ContainsTrans(Lower(job.company), l, s);
      } else if Contains(Lower(job.location), l) {
        ContainsTrans(Lower(job.location), l, s);
      } else {
        var i :| 0 <= i < |job.skills| && Contains(Lower(job.skills[i]), l);
        ContainsTrans(Lower(job.skills[i]), l, s);
      }
    }
  }

  /** The description, requirements, responsibilities, type, salary and
      posting date are not searched: changing them never changes whether a
      listing is kept. */
  lemma UnsearchedFields(job: Job, searchTerm: string, description: string,
                         requirements: seq<string>, responsibilities: seq<string>,
                         jobType: string, salary: string, posted: string)
    ensures MatchesSearch(job.(description := description, requirements := requirements,
                               responsibilities := responsibilities, jobType := jobType,
                               salary := salary, posted := posted), searchTerm)
        == MatchesSearch(job, searchTerm)
  {
  }

  /** A term found only in the description does not keep the listing. */
  lemma DescriptionOnlyMatchIsDropped()
    ensures var job := Job("1", "Dev", "Acme", "Remote", "Full-time", "", "kubernetes", [], [], [], "");
      Contains(Lower(job.description), "kubernetes") && FilteredJobs([job], "kubernetes") == []
  {
    var job := Job("1", "Dev", "Acme", "Remote", "Full-time", "", "kubernetes", [], [], [], "");
    assert Lower("kubernetes") == "kubernetes";
    assert OccursAt(Lower(job.description), "kubernetes", 0);
    assert !MatchesSearch(job, "kubernetes");
  }
}
