# HR assistant: verified model of the text-analysis core

This project models the deterministic text handling that sits under the two
model-backed analysers of the HR assistant. The external services are not
modelled; their replies are inputs.

**`ResumeScreener`** (resume_screener.py) is modelled in these modules:

- **`Skills`**: the 34-term skill vocabulary and `extract_skills`. Each term is searched for as `\b term \b`, ignoring case. The matched and missing skill lists are here too.
- **`Experience`**: `extract_experience`. Three years-of-experience regexes are tried in a fixed order, and the first one that matches decides. Each regex is written out as a deterministic matcher. The module comment explains why the greedy choice is the only one that can succeed, so backtracking never changes the outcome.
- **`Education`**: `analyze_education`, a keyword table over four levels. The result is a set.
- **`ResumeScreener`**:
  - the digit parse of the scorer's reply;
  - the short-input guard of `match_job_description`;
  - `analyze_resume`, including its empty-text short circuit.

  The outcome of reading the PDF (`PdfRead`), the narrative reply, the scorer reply and the cosine similarity are all inputs.

**`EmployeeSentimentAnalyzer`** (sentiment_analyzer.py) is modelled in **`SentimentAnalyzer`**:

- the blank-input short circuits of `gemini_feedback` and `analyze_feedback`;
- the code-fence cleaning of the reply;
- the parse with its error-record fallback;
- `_safe_parse`;
- the defaults `analyze_feedback` applies.

`json.loads` is the parameter `decode: string -> Option<Json>`, where None stands for `JSONDecodeError`.

**Shared modules:**

- **`Text`** holds the Python string primitives the core relies on:
  - `str.strip`;
  - `str.split`;
  - the `\b … \b` case-insensitive search;
  - runs of digits and `int`.

  Whitespace is Python's `str.isspace()` table. This table is also what `\s` matches.
- **`Wrappers`** holds `Option`, `Result` and the two faults the model covers. `NoDigitInScoreReply` is `.group()` on a failed search. `GetOnNonObject` is `.get` on a verdict that is not a dictionary.

The loops of `extract_skills`, `extract_experience` and `analyze_education` are methods. Each is proved equal to a specification function, and the properties are proved about those functions. The comprehensions, the guard, the parse and the whole of sentiment_analyzer.py are functions.

Where the prompts ask the language model for more than the code then checks, this project follows the code:

- **No clamping or re-derivation.** The scorer prompt asks for a match score between 0 and 100 (resume_screener.py:169-171). The feedback prompt asks for a risk score between 0 and 100 and gives the thresholds of the three risk levels (sentiment_analyzer.py:70-74). The code clamps neither score and never derives `risk_level` from the score. See `ResumeScreener.ScoreNotClamped` and `SentimentAnalyzer.ReportPassesThrough`.
- **Which record blank feedback gives.** `gemini_feedback` has a fixed record for blank feedback: `risk_score` 0, level `"Unknown"`, no recommendations (sentiment_analyzer.py:52-59). `analyze_feedback` tests the text itself first and returns a different record (sentiment_analyzer.py:121-128), so the record of `gemini_feedback` is never seen through it. See `SentimentAnalyzer.BlankFeedbackReport` and `SentimentAnalyzer.VerdictComesFromReply`.
- **There is no top-level `risk_level`.** The prompt asks for a `risk_level`, but the result of `analyze_feedback` has only `sentiment`, `risk_score` and `recommendations`. The level stays inside the verdict. See `SentimentAnalyzer.ReportPassesThrough` and `SentimentAnalyzer.WorkloadExample`.
- **A failed read is analysed.** `analyze_resume` gives the fixed "could not extract" record only for an empty text. A reader that raises yields the non-empty text `"Error extracting text: …"` (resume_screener.py:59-60), which is analysed like a resume. See `ResumeScreener.PdfOutcomes`.

## Model

| member | source | states |
|---|---|---|
| Skills.VocabularyDistinct | resume_screener.py:39-47 | the vocabulary has 34 entries, no two equal |
| Skills.VocabularyDelimited | resume_screener.py:39-47 | every term begins and ends with a word character, so `\b term \b` means "bounded by non-word characters or the ends of the text" |
| Text.ContainsWordFinds | resume_screener.py:67-68 | the search succeeds exactly when the escaped term occurs, ignoring case, with `\b` on both sides |
| Skills.ExtractSkills | resume_screener.py:63-70 | the loop returns the terms that occur, in vocabulary order; a term is listed iff it is in the vocabulary and occurs; the result is a subsequence of the vocabulary and is duplicate-free when the vocabulary is |
| Skills.DetectedMembers | resume_screener.py:63-70 | membership in the detected list is exactly "in the vocabulary and found in the text" |
| Skills.DetectedInOrder | resume_screener.py:65-69 | the detected list is a subsequence of the vocabulary, without duplicates when the vocabulary has none |
| Skills.DetectedMeansDelimited | resume_screener.py:67-68 | a delimited term is detected iff it occurs with a non-word character or a text end on each side |
| Skills.DetectedIgnoresCase | resume_screener.py:67-68 | texts that differ only in ASCII letter case give the same skills |
| Skills.JavaIsNotJavaScript | resume_screener.py:67-68 | "Java" is not found in "JavaScript", while "JavaScript" is |
| Skills.Matched | resume_screener.py:199 | a skill is matched iff it is a candidate skill and a required skill |
| Skills.Missing | resume_screener.py:200 | a skill is missing iff it is required and not a candidate skill |
| Skills.MatchedMissingPartition | resume_screener.py:199-200 | matched and missing are disjoint, and as sets their union is the required skills |
| Skills.MatchedMissingKeepOrder | resume_screener.py:199-200 | matched keeps the order of the candidate list and missing the order of the required list |
| Experience.MatchAt | resume_screener.py:75-77 | a match of one of the three patterns ends after its start, inside the text, and captures a non-empty run of digits |
| Experience.FindAll | resume_screener.py:81 | every element is a non-empty run of digits, and there are fewer elements than start positions, since the matches do not overlap |
| Experience.FindAllHead | resume_screener.py:81-83 | `findall` is empty iff the pattern matches nowhere, and its first element is the group of the leftmost match |
| Experience.LeftmostAtFinds | resume_screener.py:81 | the leftmost match is found and nothing matches before it; none is found only when nothing matches |
| Experience.ExtractExperience | resume_screener.py:72-85 | the loop with its early return computes `ExperienceYears` |
| Experience.ExperienceNoneIff | resume_screener.py:80-85 | the result is None (not 0) iff none of the three patterns matches anywhere |
| Experience.ExperienceDetermined | resume_screener.py:80-83 | when the earlier patterns match nowhere, the result is the value of the digits of the leftmost match of the first pattern that matches |
| Experience.YearsOfExperienceWins | resume_screener.py:74-83 | a first-pattern match anywhere decides, whatever the later patterns match earlier in the text |
| Experience.PlusAndAbbreviation | resume_screener.py:75 | "5+ yrs experience" gives 5 |
| Experience.YearsOfExperiencePhrase | resume_screener.py:75 | "5 years of experience" matches the first pattern up to its end, with group "5", and gives 5 |
| Experience.ExperienceOfYearsPhrase | resume_screener.py:76 | "Experience of 3 yrs" matches the second pattern up to its end, with group "3" |
| Experience.WorkedForYearsPhrase | resume_screener.py:77 | "working for 7 years" matches the third pattern up to its end, with group "7" |
| Education.AnalyzeEducation | resume_screener.py:87-103 | the nested loops with `break` return exactly the levels some keyword of which occurs word-bounded, ignoring case |
| Education.EducationInMembers | resume_screener.py:89-94 | a level is in the result set iff one of its keywords is mentioned |
| Education.KeywordFound | resume_screener.py:98-101 | one word-bounded occurrence of any keyword of a level is enough |
| Education.PhdAndMasters | resume_screener.py:96-103 | "PhD, MSc" yields both the phd and the masters level |
| Education.DottedPhd | resume_screener.py:90 | "Ph.D." is recognised as phd; the dot is matched literally |
| Education.VerbBeCountsAsBachelors | resume_screener.py:92 | the keyword `be` makes "eager to be hired" count as bachelors |
| Education.KeywordInsideWord | resume_screener.py:99 | "mbappe" does not yield masters: `mba` inside a word does not count |
| Education.MentionsIgnoresCase | resume_screener.py:99 | texts that differ only in ASCII letter case give the same levels |
| ResumeScreener.ResumeText | resume_screener.py:52-61 | no file gives the empty text; a reader error gives the message after the 23-character prefix |
| ResumeScreener.ReadFailureIsNotEmpty | resume_screener.py:59-60 | the text built from a reader error is non-empty |
| ResumeScreener.ParseScore | resume_screener.py:212 | the parse fails exactly when the reply has no digit, and then with `NoDigitInScoreReply` |
| ResumeScreener.FirstDigit | resume_screener.py:212 | the search finds the first digit, and none only when there is no digit |
| ResumeScreener.ParseScoreReadsRun | resume_screener.py:212 | the score is the value of the first run of digits, leading zeros included, whatever digit-free text precedes it and whatever follows it |
| ResumeScreener.LeadingZeroScore | resume_screener.py:212 | "Score: 085" gives 85 |
| Text.LeadingZerosValue | resume_screener.py:212 | leading zeros do not change the value `int` reads |
| ResumeScreener.ParseScoreRoundTrip | resume_screener.py:212 | a number written between digit-free text and text not starting with a digit is read back as that number |
| ResumeScreener.ScoreNotClamped | resume_screener.py:212 | "Match score: 150" gives 150 |
| ResumeScreener.FirstRunWins | resume_screener.py:212 | "85/100" gives 85: only the first run is read |
| ResumeScreener.MatchJobDescription | resume_screener.py:105-114 | the result is 0.0 when either text has fewer than five whitespace-separated tokens, counted independently of the split, and the similarity otherwise |
| ResumeScreener.FourWordsScoreZero | resume_screener.py:109-110 | four words separated by single spaces give 0.0, however long the words are |
| ResumeScreener.PythonDeveloperScoresZero | resume_screener.py:109-110 | "Python developer with Django" (four tokens, 25 non-space characters) gives 0.0 |
| ResumeScreener.ShortTextScoresZero | resume_screener.py:109-110 | if either text has fewer than five non-space characters, the result is exactly 0.0 |
| ResumeScreener.BlankTextScoresZero | resume_screener.py:109-110 | if either text is blank, the result is exactly 0.0 |
| ResumeScreener.ResumeAnalysis | resume_screener.py:181-221 | the only failure is a scorer reply without a digit; the "could not extract" record is given iff the text is empty; a report carries the narrative evaluation unchanged |
| ResumeScreener.AnalyzeResume | resume_screener.py:181-221 | the method computes `ResumeAnalysis` of the text the PDF read produced |
| ResumeScreener.EmptyResumeShortCircuits | resume_screener.py:183-194 | an empty text gives the fixed record (score 0, empty lists, no experience, no education) whatever the job description and the replies are, even a scorer reply without a digit |
| ResumeScreener.PdfOutcomes | resume_screener.py:183-185 | no file gives the fixed record; a reader error never does |
| ResumeScreener.ScoreDecides | resume_screener.py:209-216 | for a non-empty text, the analysis fails iff the scorer reply has no digit, and a report carries the parsed score |
| ResumeScreener.ReportSkills | resume_screener.py:196-200 | a skill is matched iff both texts mention it, and missing iff the job description mentions it and the resume does not |
| ResumeScreener.ReportExperience | resume_screener.py:202 | the reported experience is None iff no pattern matches the resume anywhere |
| ResumeScreener.ReportEducation | resume_screener.py:203 | the reported levels are exactly those the resume mentions |
| Text.Strip | sentiment_analyzer.py:95 | the result is the input with the whitespace at both ends removed, and is empty iff the input is blank |
| Text.StripIdempotent | sentiment_analyzer.py:95-98 | stripping twice is stripping once |
| Text.Split | resume_screener.py:109 | the tokens are non-empty and hold no whitespace |
| Text.SplitCount | resume_screener.py:109 | the number of tokens is the number of positions where a non-space character follows whitespace or the start of the text |
| Text.WordThenSpace | resume_screener.py:109 | a word followed by a space adds exactly one token to the rest |
| Text.SplitKeepsNonSpace | resume_screener.py:109 | the tokens together hold exactly the non-space characters of the text, in order |
| Text.SplitEmptyIffBlank | resume_screener.py:109 | there is no token iff the text is blank |
| Text.ContainsWordIgnoresCase | resume_screener.py:68 | texts that differ only in ASCII letter case give the same search result |
| SentimentAnalyzer.BlankFeedbackVerdict | sentiment_analyzer.py:52-59 | blank feedback gives the fixed verdict, whatever the reply and the decoder |
| SentimentAnalyzer.RemoveFencesLeavesNone | sentiment_analyzer.py:98 | after `.replace("```", "")` no three backticks in a row remain |
| SentimentAnalyzer.RemoveFences | sentiment_analyzer.py:98 | the result of `.replace("```", "")` contains no three backticks in a row |
| SentimentAnalyzer.CleanReply | sentiment_analyzer.py:98 | the cleaned reply never contains "```" and has no whitespace at either end |
| SentimentAnalyzer.NoFenceKept | sentiment_analyzer.py:98 | text without three backticks in a row passes the `re.sub` and the `.replace` unchanged |
| SentimentAnalyzer.PlainReplyUnchanged | sentiment_analyzer.py:95-98 | a reply without three backticks in a row is only stripped of whitespace |
| SentimentAnalyzer.FencedBody | sentiment_analyzer.py:98 | the `re.sub` removes the opening fence with its letters and newline, and the closing fence, leaving the body and its newline |
| SentimentAnalyzer.FencedReplyUnwrapped | sentiment_analyzer.py:95-98 | "```" + letters + newline + body + newline + "```" is cleaned to the stripped body whenever the body has no three backticks in a row; single backticks stay |
| SentimentAnalyzer.InlineCodeKept | sentiment_analyzer.py:98 | a fenced JSON body holding inline code in single backticks comes back whole |
| SentimentAnalyzer.ReplyVerdict | sentiment_analyzer.py:95-110 | the decoded cleaned reply is returned unchanged; if it does not decode, the error record holding the stripped, uncleaned reply is returned |
| SentimentAnalyzer.FencedFeedbackRoundTrip | sentiment_analyzer.py:95-110 | a fenced well-formed reply comes back as exactly the decoded body; a malformed one comes back as the error record holding the raw reply |
| SentimentAnalyzer.SafeParse | sentiment_analyzer.py:143-149 | the decoded value, or exactly the fallback when decoding fails |
| SentimentAnalyzer.GeminiFeedback | sentiment_analyzer.py:47-110 | blank feedback gives the fixed verdict; any other feedback gives the verdict read from the reply |
| SentimentAnalyzer.FeedbackIsSafeParse | sentiment_analyzer.py:100-108 | for non-blank feedback, the verdict is `_safe_parse` of the cleaned reply with the error record as fallback |
| SentimentAnalyzer.BlankFeedbackReport | sentiment_analyzer.py:121-128 | blank feedback gives the fixed record of `analyze_feedback`, whatever the reply; that record is not the one of `gemini_feedback` |
| SentimentAnalyzer.AnalyzeFeedback | sentiment_analyzer.py:119-141 | blank feedback gives the fixed record; otherwise the call succeeds iff the verdict read from the reply is an object, and the only failure is `.get` on a non-object |
| SentimentAnalyzer.VerdictComesFromReply | sentiment_analyzer.py:121-137 | for non-blank feedback, a success wraps an object verdict read from the reply and is never the blank-feedback record, so the blank branch of `gemini_feedback` is unreachable |
| SentimentAnalyzer.ReportPassesThrough | sentiment_analyzer.py:130-141 | the result has exactly the keys sentiment, risk_score and recommendations; the verdict is kept whole and its risk_score and recommendations pass through unchanged; a verdict object without `risk_score` gives 0, and one without `recommendations` gives [] |
| SentimentAnalyzer.SentimentOnlyVerdict | sentiment_analyzer.py:130-141 | a reply decoding to `{"sentiment": "negative"}` gives that verdict with risk_score 0 and no recommendations |
| SentimentAnalyzer.ParseFailureDefaults | sentiment_analyzer.py:131-132 | a reply that does not decode gives risk_score 0 and no recommendations |
| SentimentAnalyzer.NonObjectVerdictFails | sentiment_analyzer.py:131 | a reply that decodes to a non-object makes `.get` raise |
| SentimentAnalyzer.WorkloadExample | sentiment_analyzer.py:130-141 | a reply decoding to a verdict with score 65, level "Medium" and one recommendation gives risk_score 65 and that recommendation unchanged |

## Left out

- Reading the PDF (PyPDF2, resume_screener.py:52-61) is left out. Its outcome is the input `PdfRead`: no file, the page texts, or the reader's error message.
- The Gemini calls and the prompts (resume_screener.py:116-179, sentiment_analyzer.py:61-93) are left out. The replies are inputs. A failing call is not modelled.
- `CountVectorizer` and the cosine similarity (resume_screener.py:107, 112-113) are floating point inside a library. The similarity is the parameter `similarity`. The vectorizer's own errors are not modelled, such as a text made only of stop words. `analyze_resume` never calls `match_job_description`.
- The model matches `\w`, `\d`, `[a-zA-Z]` and case folding on ASCII only. Python's Unicode digits, word characters and case folding (for example non-ASCII letters under `IGNORECASE`) are not modelled. Whitespace follows Python's full `isspace()` table.
- The JSON decoder is the parameter `decode`. Several details of Python values are not modelled:
  - the key order of dictionaries;
  - duplicate keys;
  - the difference between Python's `float` and the `real` used for `0.5` and `0.0`.
- Exceptions other than `JSONDecodeError` are not modelled. At sentiment_analyzer.py:103, `gemini_feedback` lets them through.
- `ParseScore`, `ExperienceYears`: CPython's `int` raises `ValueError` on a string of more than 4300 digits (`sys.int_max_str_digits`, the default since Python 3.11 and in the 3.7-3.10 security releases; the limit is configurable). The model reads runs of any length, so on such a reply `int(...)` at resume_screener.py:212 and at resume_screener.py:83 raises where the model returns a value.
- `WorkloadExample` covers any non-blank feedback text. The decoder is a parameter, so the text plays no part.
- Setup is not modelled:
  - the API-key check and the `ValueError` in both constructors;
  - `load_dotenv` and the NLTK downloads;
  - the unused fields `stop_words` and `topics`;
  - the unused `past_feedback` parameter.
- tools.py (interface and plotting), app.py and downloads.py are not part of this model.
