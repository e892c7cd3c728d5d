/** The keyword extractor and matcher of `calculateATSScore`: candidate
    keywords come from the job's skill tags and from the long words of its
    description, and each candidate is matched by substring containment in
    the lower-cased résumé. */
module Keywords {
  import opened Seqs
  import opened Text

  /** The stop-word table `commonWords`. */
  const CommonWords: seq<string> := [
    "the", "and", "for", "are", "but", "not", "you", "all", "can", "had", "her",
    "was", "one", "our", "out", "day", "get", "has", "him", "his", "how", "its",
    "may", "new", "now", "old", "see", "two", "way", "who", "boy", "did", "man",
    "end", "few", "got", "let", "put", "say", "she", "too", "use"
  ]

  /** The length filter `word.length > 3`. */
  predicate IsLongToken(w: string) {
    |w| > 3
  }

  /** The stop-word filter `!commonWords.includes(word)`. */
  predicate IsNotCommonWord(w: string) {
    w !in CommonWords
  }

  /** `jobWords`: the description (already lower-cased) split on runs of
      non-word characters, keeping the tokens longer than three characters
      that are not stop-words. */
  function JobWords(jobDescLower: string): (words: seq<string>)
    ensures forall w | w in words :: |w| > 3 && AllWordChars(w) && IsNotCommonWord(w)
  {
    Filter(Filter(SplitWords(jobDescLower), IsLongToken), IsNotCommonWord)
  }

  /** `jobSkills.map(s => s.toLowerCase())`. */
  function LowerAll(skills: seq<string>): (r: seq<string>)
    ensures |r| == |skills|
    ensures forall i | 0 <= i < |skills| :: r[i] == Lower(skills[i])
  {
    seq(|skills|, i requires 0 <= i < |skills| => Lower(skills[i]))
  }

  /** `allKeywords`: the lower-cased skill tags followed by the description
      words, each kept at its first occurrence. Skill tags bypass the
      tokeniser and the length filter, so every one of them is a candidate. */
  function Candidates(jobDescLower: string, jobSkills: seq<string>): (keywords: seq<string>)
    ensures NoDuplicates(keywords)
    ensures forall k | k in keywords :: k in LowerAll(jobSkills) || k in JobWords(jobDescLower)
    ensures forall i | 0 <= i < |jobSkills| :: Lower(jobSkills[i]) in keywords
    ensures forall w | w in JobWords(jobDescLower) :: w in keywords
  {
    var skills := LowerAll(jobSkills);
    KeepFirstOfAppend(skills, JobWords(jobDescLower));
    assert forall i | 0 <= i < |jobSkills| :: Lower(jobSkills[i]) in skills by {
      forall i | 0 <= i < |jobSkills| ensures Lower(jobSkills[i]) in skills {
        assert skills[i] == Lower(jobSkills[i]);
      }
    }
    KeepFirst(skills + JobWords(jobDescLower))
  }

  /** `resumeLower.includes(keyword.toLowerCase())`. */
  predicate InResume(resumeLower: string, keyword: string) {
    Contains(resumeLower, Lower(keyword))
  }

  /** The matching test as a first-class predicate. */
  function Mentions(resumeLower: string): string -> bool {
    k => InResume(resumeLower, k)
  }

  /** The full (untruncated) list of matched keywords, in candidate order. */
  function MatchedOf(keywords: seq<string>, resumeLower: string): seq<string> {
    Filter(keywords, Mentions(resumeLower))
  }

  /** The full (untruncated) list of missing keywords, in candidate order. */
  function MissingOf(keywords: seq<string>, resumeLower: string): seq<string> {
    Reject(keywords, Mentions(resumeLower))
  }

  /** The `forEach` loop that pushes each candidate onto `matchedKeywords`
      or `missingKeywords`. */
  method PartitionKeywords(keywords: seq<string>, resumeLower: string)
    returns (matched: seq<string>, missing: seq<string>)
    ensures matched == MatchedOf(keywords, resumeLower)
    ensures missing == MissingOf(keywords, resumeLower)
  {
    matched, missing := [], [];
    for i := 0 to |keywords|
      invariant matched == MatchedOf(keywords[..i], resumeLower)
      invariant missing == MissingOf(keywords[..i], resumeLower)
    {
      var keyword := keywords[i];
      assert keywords[..i + 1] == keywords[..i] + [keyword];
      PartitionStep(keywords[..i], keyword, resumeLower);
      if Contains(resumeLower, Lower(keyword)) {
        matched := matched + [keyword];
      } else {
        missing := missing + [keyword];
      }
    }
    assert keywords[..|keywords|] == keywords;
  }

  /** One more candidate goes to exactly one of the two lists. */
  lemma PartitionStep(keywords: seq<string>, keyword: string, resumeLower: string)
    ensures MatchedOf(keywords + [keyword], resumeLower)
         == MatchedOf(keywords, resumeLower) + (if InResume(resumeLower, keyword) then [keyword] else [])
    ensures MissingOf(keywords + [keyword], resumeLower)
         == MissingOf(keywords, resumeLower) + (if InResume(resumeLower, keyword) then [] else [keyword])
  {
    FilterAppend(keywords, [keyword], Mentions(resumeLower));
    RejectAppend(keywords, [keyword], Mentions(resumeLower));
  }

  /** Every stop-word is three characters long. */
  lemma CommonWordsHaveLengthThree()
    ensures forall w | w in CommonWords :: |w| == 3
  {
  }

  /** The stop-word filter removes nothing that the length filter has let
      through: every stop-word is already too short. */
  lemma StopWordFilterRemovesNothing(tokens: seq<string>)
    ensures Filter(Filter(tokens, IsLongToken), IsNotCommonWord) == Filter(tokens, IsLongToken)
  {
    CommonWordsHaveLengthThree();
    FilterKeepsAll(Filter(tokens, IsLongToken), IsNotCommonWord);
  }

  /** So the description contributes exactly its tokens longer than three
      characters. */
  lemma JobWordsAreLongTokens(jobDescLower: string)
    ensures JobWords(jobDescLower) == Filter(SplitWords(jobDescLower), IsLongToken)
  {
    StopWordFilterRemovesNothing(SplitWords(jobDescLower));
  }

  /** The candidate list is the distinct lower-cased skills in tag order,
      followed by the distinct description words that are not already
      skills, in the order they first appear. */
  lemma CandidatesOrder(jobDescLower: string, jobSkills: seq<string>)
    ensures Candidates(jobDescLower, jobSkills)
         == Dedup(LowerAll(jobSkills)) + Filter(Dedup(JobWords(jobDescLower)), Absent(LowerAll(jobSkills)))
  {
    KeepFirstIsDedup(LowerAll(jobSkills) + JobWords(jobDescLower));
    DedupAppend(LowerAll(jobSkills), JobWords(jobDescLower));
  }

  /** Every candidate lands in exactly one of the matched and missing lists,
      each in candidate order, and it is matched exactly when its
      lower-cased form occurs in the résumé. */
  lemma PartitionLaws(keywords: seq<string>, resumeLower: string)
    ensures |MatchedOf(keywords, resumeLower)| + |MissingOf(keywords, resumeLower)| == |keywords|
    ensures multiset(MatchedOf(keywords, resumeLower)) + multiset(MissingOf(keywords, resumeLower))
         == multiset(keywords)
    ensures forall k | k in keywords ::
              (k in MatchedOf(keywords, resumeLower) <==> InResume(resumeLower, k)) &&
              (k in MissingOf(keywords, resumeLower) <==> !InResume(resumeLower, k))
    ensures IsSubsequence(MatchedOf(keywords, resumeLower), keywords)
    ensures IsSubsequence(MissingOf(keywords, resumeLower), keywords)
  {
    FilterRejectPartition(keywords, Mentions(resumeLower));
    FilterIsSubsequence(keywords, Mentions(resumeLower));
    RejectIsSubsequence(keywords, Mentions(resumeLower));
  }

  /** Matching is by substring, not by whole word: "java" is found in a
      résumé that only says "javascript". */
  lemma SubstringMatching()
    ensures MatchedOf(["java"], "javascript") == ["java"]
  {
    assert Lower("java") == "java";
    assert OccursAt("javascript", "java", 0);
  }
}
