/** The deterministic part of `ResumeScreener.analyze_resume`
    (resume_screener.py): the empty-text short circuit, the matched and
    missing skill lists, the score read from the scorer's reply, and the
    short-input guard of `match_job_description`.

    The two model replies (`gemini_evaluation`, `gemini_scorer`) and the
    outcome of reading the PDF are inputs here. */
module ResumeScreener {
  import opened Wrappers
  import opened Text
  import opened Skills
  import opened Experience
  import opened Education

  // ---------------------------------------------------------------------
  // `extract_text_from_pdf` and `... if file else ""`

  /** What happened to the uploaded file: there was none, the reader
      returned these page texts, or the reader raised with this message. */
  datatype PdfRead = NoFile | Pages(pageTexts: seq<string>) | ReadFailed(message: string)

  /** The text `analyze_resume` goes on with: empty without a file, and the
      reader's message after a fixed prefix when reading failed. */
  function ResumeText(read: PdfRead): (r: string)
    ensures read.NoFile? ==> r == []
    ensures read.ReadFailed? ==> |r| == 23 + |read.message| && r[23..] == read.message
  {
    match read
    case NoFile => ""
    case Pages(ps) => Concat(ps)
    case ReadFailed(m) => "Error extracting text: " + m
  }

  /** A failed read yields a non-empty text, so it goes down the analysis
      path rather than the "could not extract" one. */
  lemma ReadFailureIsNotEmpty(message: string)
    ensures ResumeText(ReadFailed(message)) != []
    ensures |ResumeText(ReadFailed(message))| == 23 + |message|
  {
  }

  // ---------------------------------------------------------------------
  // `int(re.search(r"\d+", reply).group())`

  /** The first position at or after `i` holding a digit. */
  function FirstDigit(s: string, i: nat): (r: Option<nat>)
    requires i <= |s|
    ensures r.Some? ==> i <= r.value < |s| && IsDigit(s[r.value])
    ensures r.Some? ==> forall k :: i <= k < r.value ==> !IsDigit(s[k])
    ensures r.None? ==> forall k :: i <= k < |s| ==> !IsDigit(s[k])
    decreases |s| - i
  {
    if i == |s| then None
    else if IsDigit(s[i]) then Some(i)
    else FirstDigit(s, i + 1)
  }

  /** The value of the leftmost maximal run of digits; a reply without a
      digit makes `re.search` return None, and `.group()` on it raises. */
  function ParseScore(reply: string): (r: Result<nat>)
    ensures r.Err? <==> forall k :: 0 <= k < |reply| ==> !IsDigit(reply[k])
    ensures r.Err? ==> r.fault == NoDigitInScoreReply
  {
    match FirstDigit(reply, 0)
    case None => Err(NoDigitInScoreReply)
    case Some(a) => Ok(DecimalValue(reply[a..DigitsEnd(reply, a)]))
  }

  /** A run of digits ending where a non-digit or the end of the text
      follows is the one `DigitsEnd` finds. */
  lemma {:induction false} DigitsEndUnique(s: string, i: nat, j: nat)
    requires i <= j <= |s|
    requires forall k :: i <= k < j ==> IsDigit(s[k])
    requires j == |s| || !IsDigit(s[j])
    ensures DigitsEnd(s, i) == j
    decreases j - i
  {
    if i < j {
      DigitsEndUnique(s, i + 1, j);
    }
  }

  /** The score is the value of the first run of digits, whatever text
      without digits comes before it and whatever follows it. */
  lemma {:induction false} ParseScoreReadsRun(prefix: string, ds: string, suffix: string)
    requires forall k :: 0 <= k < |prefix| ==> !IsDigit(prefix[k])
    requires ds != [] && AllDigits(ds)
    requires suffix == [] || !IsDigit(suffix[0])
    ensures ParseScore(prefix + ds + suffix) == Ok(DecimalValue(ds))
  {
    var s := prefix + ds + suffix;
    var a := |prefix|;
    var e := a + |ds|;
    assert IsDigit(s[a]);
    assert forall k :: 0 <= k < a ==> s[k] == prefix[k];
    assert FirstDigit(s, 0) == Some(a);
    assert forall k :: a <= k < e ==> s[k] == ds[k - a];
    assert e < |s| ==> s[e] == suffix[0];
    DigitsEndUnique(s, a, e);
    assert s[a..e] == ds;
  }

  /** Reading back a number written between digit-free text and text that
      does not start with a digit gives the number. */
  lemma ParseScoreRoundTrip(prefix: string, n: nat, suffix: string)
    requires forall k :: 0 <= k < |prefix| ==> !IsDigit(prefix[k])
    requires suffix == [] || !IsDigit(suffix[0])
    ensures ParseScore(prefix + Numeral(n) + suffix) == Ok(n)
  {
    ParseScoreReadsRun(prefix, Numeral(n), suffix);
    NumeralValue(n);
  }

  /** The score is not clamped to 0-100. */
  lemma ScoreNotClamped()
    ensures ParseScore("Match score: 150") == Ok(150)
  {
    assert Numeral(150) == "150";
    ParseScoreRoundTrip("Match score: ", 150, "");
    assert "Match score: " + "150" + "" == "Match score: 150";
  }

  /** Only the first run of digits is read. */
  lemma FirstRunWins()
    ensures ParseScore("85/100") == Ok(85)
  {
    assert Numeral(85) == "85";
    ParseScoreRoundTrip("", 85, "/100");
    assert "" + "85" + "/100" == "85/100";
  }

  /** Leading zeros are read as `int` reads them. */
  lemma LeadingZeroScore()
    ensures ParseScore("Score: 085") == Ok(85)
  {
    ParseScoreReadsRun("Score: ", "085", "");
    assert "Score: " + "085" + "" == "Score: 085";
    assert "085" == "0" + "85";
    LeadingZerosValue("0", "85");
    assert Numeral(85) == "85";
    NumeralValue(85);
  }

  // ---------------------------------------------------------------------
  // `match_job_description`

  /** `match_job_description`, with the cosine similarity of the two count
      vectors given as `similarity`: zero when either text has fewer than
      five whitespace-separated tokens. */
  function MatchJobDescription(resumeText: string, jobDescription: string, similarity: real): (score: real)
    ensures score == 0.0 || score == similarity
    ensures TokenStarts(resumeText, true) < 5 || TokenStarts(jobDescription, true) < 5 ==> score == 0.0
    ensures TokenStarts(resumeText, true) >= 5 && TokenStarts(jobDescription, true) >= 5 ==> score == similarity
  {
    SplitCount(resumeText);
    SplitCount(jobDescription);
    if |Split(resumeText)| < 5 || |Split(jobDescription)| < 5 then 0.0 else similarity
  }

  /** Fewer than five non-space characters in either text already means
      fewer than five tokens, hence a score of zero. */
  lemma ShortTextScoresZero(resumeText: string, jobDescription: string, similarity: real)
    requires |NonSpace(resumeText)| < 5 || |NonSpace(jobDescription)| < 5
    ensures MatchJobDescription(resumeText, jobDescription, similarity) == 0.0
  {
    TokensBoundedByCharacters(resumeText);
    TokensBoundedByCharacters(jobDescription);
  }

  /** Four words are too few, however long they are. */
  lemma FourWordsScoreZero(w1: string, w2: string, w3: string, w4: string, jobDescription: string, similarity: real)
    requires IsWord(w1) && IsWord(w2) && IsWord(w3) && IsWord(w4)
    ensures MatchJobDescription(w1 + " " + w2 + " " + w3 + " " + w4, jobDescription, similarity) == 0.0
  {
    WordThenSpace(w4, "");
    assert w4 + " " + "" == w4 + " ";
    TokenStartsOfWord(w4);
    WordThenSpace(w3, w4);
    WordThenSpace(w2, w3 + " " + w4);
    assert w2 + " " + (w3 + " " + w4) == w2 + " " + w3 + " " + w4;
    WordThenSpace(w1, w2 + " " + w3 + " " + w4);
    assert w1 + " " + (w2 + " " + w3 + " " + w4) == w1 + " " + w2 + " " + w3 + " " + w4;
  }

  const FourWordSentence := "Python developer with Django"

  /** The same, on a sentence of 25 non-space characters. */
  lemma PythonDeveloperScoresZero(jobDescription: string, similarity: real)
    ensures MatchJobDescription(FourWordSentence, jobDescription, similarity) == 0.0
  {
    var w1, w2, w3, w4 := "Python", "developer", "with", "Django";
    assert IsWord(w1);
    assert IsWord(w2);
    assert IsWord(w3);
    assert IsWord(w4);
    FourWordsScoreZero(w1, w2, w3, w4, jobDescription, similarity);
    assert w1 + " " == "Python ";
    assert "Python " + w2 == "Python developer";
    assert "Python developer" + " " == "Python developer ";
    assert "Python developer " + w3 == "Python developer with";
    assert "Python developer with" + " " == "Python developer with ";
    assert "Python developer with " + w4 == FourWordSentence;
  }

  /** A blank text has no tokens at all. */
  lemma BlankTextScoresZero(resumeText: string, jobDescription: string, similarity: real)
    requires IsBlank(resumeText) || IsBlank(jobDescription)
    ensures MatchJobDescription(resumeText, jobDescription, similarity) == 0.0
  {
    SplitEmptyIffBlank(resumeText);
    SplitEmptyIffBlank(jobDescription);
  }

  // ---------------------------------------------------------------------
  // `analyze_resume`

  /** The two shapes of dictionary `analyze_resume` returns. */
  datatype ResumeReport =
    | Unreadable(error: string, matchScore: nat, skillsMatched: seq<string>, skillsMissing: seq<string>,
                 experienceYears: Option<nat>, education: set<EducationLevel>, recommendation: string)
    | Scored(matchScore: nat, skillsMatched: seq<string>, skillsMissing: seq<string>,
             experienceYears: Option<nat>, education: set<EducationLevel>, geminiAnalysis: string)

  /** The fixed record for an empty resume text. */
  const UnreadableReport: ResumeReport :=
    Unreadable("Could not extract text from the resume", 0, [], [], None, {},
               "Cannot analyze - resume text extraction failed")

  /** What `analyze_resume` returns for a resume text, a job description and
      the two replies of the model (the narrative evaluation and the scorer). */
  function ResumeAnalysis(resumeText: string, jobDescription: string, evaluation: string, scorerReply: string): (r: Result<ResumeReport>)
    ensures r.Err? ==> r.fault == NoDigitInScoreReply
    ensures r.Ok? ==> (r.value.Unreadable? <==> resumeText == [])
    ensures r.Ok? && r.value.Scored? ==> r.value.geminiAnalysis == evaluation
  {
    if resumeText == [] then Ok(UnreadableReport)
    else
      var candidate := Detected(Vocabulary, resumeText);
      var required := Detected(Vocabulary, jobDescription);
      match ParseScore(scorerReply)
      case Err(f) => Err(f)
      case Ok(score) =>
        Ok(Scored(score, Matched(candidate, required), Missing(candidate, required),
                  ExperienceYears(resumeText), EducationIn(resumeText), evaluation))
  }

  /** `analyze_resume`. */
  method AnalyzeResume(read: PdfRead, jobDescription: string, evaluation: string, scorerReply: string)
    returns (r: Result<ResumeReport>)
    ensures r == ResumeAnalysis(ResumeText(read), jobDescription, evaluation, scorerReply)
  {
    var resumeText := if read.NoFile? then "" else ResumeText(read);
    if resumeText == [] {
      return Ok(UnreadableReport);
    }
    var candidateSkills := ExtractSkills(Vocabulary, resumeText);
    var requiredSkills := ExtractSkills(Vocabulary, jobDescription);
    var skillsMatched := Matched(candidateSkills, requiredSkills);
    var skillsMissing := Missing(candidateSkills, requiredSkills);
    var experienceYears := ExtractExperience(resumeText);
    var education := AnalyzeEducation(resumeText);
    var score := ParseScore(scorerReply);
    if score.Err? {
      return Err(score.fault);
    }
    return Ok(Scored(score.value, skillsMatched, skillsMissing, experienceYears, education, evaluation));
  }

  /** An empty text gives the fixed record whatever the rest of the input:
      neither reply is read, so a scorer reply without a digit does no harm. */
  lemma EmptyResumeShortCircuits(jd: string, evaluation: string, scorerReply: string, jd': string, evaluation': string, scorerReply': string)
    ensures ResumeAnalysis("", jd, evaluation, scorerReply) == ResumeAnalysis("", jd', evaluation', scorerReply')
    ensures ResumeAnalysis("", jd, evaluation, scorerReply) == Ok(UnreadableReport)
    ensures UnreadableReport.matchScore == 0 && UnreadableReport.experienceYears == None
    ensures UnreadableReport.skillsMatched == [] && UnreadableReport.skillsMissing == [] && UnreadableReport.education == {}
  {
  }

  /** No file is the empty text; a failed read is analysed instead. */
  lemma PdfOutcomes(jd: string, evaluation: string, scorerReply: string, message: string)
    ensures ResumeAnalysis(ResumeText(NoFile), jd, evaluation, scorerReply) == Ok(UnreadableReport)
    ensures ResumeAnalysis(ResumeText(ReadFailed(message)), jd, evaluation, scorerReply) != Ok(UnreadableReport)
  {
    ReadFailureIsNotEmpty(message);
  }

  /** For a non-empty text the scorer reply decides between a failure and a
      report, and a report carries the score read from the reply. */
  lemma ScoreDecides(resumeText: string, jd: string, evaluation: string, scorerReply: string)
    requires resumeText != []
    ensures ResumeAnalysis(resumeText, jd, evaluation, scorerReply).Err? <==> ParseScore(scorerReply).Err?
    ensures ResumeAnalysis(resumeText, jd, evaluation, scorerReply).Err? ==>
      ResumeAnalysis(resumeText, jd, evaluation, scorerReply).fault == NoDigitInScoreReply
    ensures ResumeAnalysis(resumeText, jd, evaluation, scorerReply).Ok? ==>
      ResumeAnalysis(resumeText, jd, evaluation, scorerReply).value.Scored? &&
      ResumeAnalysis(resumeText, jd, evaluation, scorerReply).value.matchScore == ParseScore(scorerReply).value
  {
  }

  /** A skill is matched exactly when both texts mention it, and missing
      exactly when the job description mentions it and the resume does not;
      no skill is both. */
  lemma {:induction false} ReportSkills(resumeText: string, jd: string, evaluation: string, scorerReply: string, s: string)
    requires resumeText != [] && ParseScore(scorerReply).Ok?
    ensures ResumeAnalysis(resumeText, jd, evaluation, scorerReply).Ok?
    ensures s in ResumeAnalysis(resumeText, jd, evaluation, scorerReply).value.skillsMatched <==>
      s in Vocabulary && ContainsWord(resumeText, s) && ContainsWord(jd, s)
    ensures s in ResumeAnalysis(resumeText, jd, evaluation, scorerReply).value.skillsMissing <==>
      s in Vocabulary && ContainsWord(jd, s) && !ContainsWord(resumeText, s)
  {
    DetectedMembers(Vocabulary, resumeText);
    DetectedMembers(Vocabulary, jd);
  }

  /** The reported experience is None exactly when no pattern matches anywhere. */
  lemma ReportExperience(resumeText: string, jd: string, evaluation: string, scorerReply: string)
    requires resumeText != [] && ParseScore(scorerReply).Ok?
    ensures ResumeAnalysis(resumeText, jd, evaluation, scorerReply).Ok?
    ensures ResumeAnalysis(resumeText, jd, evaluation, scorerReply).value.experienceYears.None? <==>
      forall k, i :: 0 <= k < |Patterns| && 0 <= i <= |resumeText| ==> MatchAt(Patterns[k], resumeText, i).None?
  {
    var r := ResumeAnalysis(resumeText, jd, evaluation, scorerReply);
    assert r.value.experienceYears == ExperienceYears(resumeText);
    ExperienceNoneIff(resumeText);
  }

  /** The reported levels are those some keyword of which the resume mentions. */
  lemma ReportEducation(resumeText: string, jd: string, evaluation: string, scorerReply: string)
    requires resumeText != [] && ParseScore(scorerReply).Ok?
    ensures ResumeAnalysis(resumeText, jd, evaluation, scorerReply).Ok?
    ensures forall level :: level in ResumeAnalysis(resumeText, jd, evaluation, scorerReply).value.education <==>
      Mentions(resumeText, level)
  {
    var r := ResumeAnalysis(resumeText, jd, evaluation, scorerReply);
    assert r.value.education == EducationIn(resumeText);
    forall level ensures level in r.value.education <==> Mentions(resumeText, level) {
      EducationInMembers(resumeText, level);
    }
  }
}
