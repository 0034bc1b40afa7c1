/** Education-level classification of `ResumeScreener` (resume_screener.py,
    `analyze_education`): a four-level keyword table, each keyword searched
    for as a whole word, ignoring case. */
module Education {
  import opened Text

  datatype EducationLevel = Phd | Masters | Bachelors | Associate

  /** The keys of `education_levels`, in insertion order. */
  const Levels: seq<EducationLevel> := [Phd, Masters, Bachelors, Associate]

  /** The keyword list of each level of `education_levels`. */
  function Keywords(level: EducationLevel): seq<string> {
    match level
    case Phd => ["phd", "ph.d", "doctor of philosophy"]
    case Masters => ["masters", "ms", "m.s", "master of", "msc", "m.sc", "mba"]
    case Bachelors => ["bachelors", "bachelor of", "bs", "b.s", "b.tech", "btech", "be", "b.e"]
    case Associate => ["associate", "a.s", "as degree"]
  }

  /** Some keyword of `level` occurs in `text` as `\b keyword \b`, ignoring case. */
  predicate Mentions(text: string, level: EducationLevel) {
    exists m :: 0 <= m < |Keywords(level)| && ContainsWord(text, Keywords(level)[m])
  }

  /** The levels some keyword of which occurs in `text`. */
  function EducationIn(text: string): set<EducationLevel> {
    set level | level in Levels && Mentions(text, level)
  }

  lemma EducationInMembers(text: string, level: EducationLevel)
    ensures level in EducationIn(text) <==> Mentions(text, level)
  {
    assert level in Levels by {
      match level
      case Phd => assert Levels[0] == level;
      case Masters => assert Levels[1] == level;
      case Bachelors => assert Levels[2] == level;
      case Associate => assert Levels[3] == level;
    }
  }

  /** `analyze_education`: the level loop, the keyword loop that stops at
      the first keyword found, and the final `list(set(education))`, whose
      order is unspecified and is therefore a set here. */
  method AnalyzeEducation(text: string) returns (levels: set<EducationLevel>)
    ensures forall level :: level in levels <==> Mentions(text, level)
    ensures levels == EducationIn(text)
  {
    var education: seq<EducationLevel> := [];
    var i := 0;
    while i < |Levels|
      invariant 0 <= i <= |Levels|
      invariant forall level :: level in education <==> level in Levels[..i] && Mentions(text, level)
    {
      var level := Levels[i];
      var keywords := Keywords(level);
      ghost var before := education;
      var j := 0;
      while j < |keywords|
        invariant 0 <= j <= |keywords|
        invariant education == before
        invariant forall m :: 0 <= m < j ==> !ContainsWord(text, keywords[m])
      {
        if ContainsWord(text, keywords[j]) {
          education := education + [level];
          break;
        }
        j := j + 1;
      }
      assert Levels[..i + 1] == Levels[..i] + [level];
      i := i + 1;
    }
    assert Levels[..i] == Levels;
    levels := set level | level in education;
  }

  /** A word-bounded occurrence of any one keyword of a level is enough. */
  lemma {:induction false} KeywordFound(text: string, level: EducationLevel, m: nat, i: nat)
    requires m < |Keywords(level)| && WordAt(text, Keywords(level)[m], i)
    ensures Mentions(text, level)
  {
    ContainsWordFinds(text, Keywords(level)[m]);
  }

  /** Several levels can be reported at once. */
  lemma {:induction false} PhdAndMasters()
    ensures Mentions("PhD, MSc", Phd) && Mentions("PhD, MSc", Masters)
  {
    var t := "PhD, MSc";
    assert WordAt(t, Keywords(Phd)[0], 0);
    KeywordFound(t, Phd, 0, 0);
    assert WordAt(t, Keywords(Masters)[4], 5);
    KeywordFound(t, Masters, 4, 5);
  }

  /** The dotted spelling is a keyword too; the dot is matched literally. */
  lemma {:induction false} DottedPhd()
    ensures Mentions("Ph.D. in Physics", Phd)
  {
    var t := "Ph.D. in Physics";
    assert WordAt(t, Keywords(Phd)[1], 0);
    KeywordFound(t, Phd, 1, 0);
  }

  /** The keyword `be` is matched as a word too, so the English verb
      counts as a bachelor's degree. */
  lemma {:induction false} VerbBeCountsAsBachelors()
    ensures Mentions("eager to be hired", Bachelors)
  {
    var t := "eager to be hired";
    assert WordAt(t, Keywords(Bachelors)[6], 9);
    KeywordFound(t, Bachelors, 6, 9);
  }

  /** A keyword inside a longer word does not count: `mba` in `mbappe`. */
  lemma {:induction false} KeywordInsideWord()
    ensures !Mentions("mbappe", Masters)
  {
    var t := "mbappe";
    forall m | 0 <= m < |Keywords(Masters)| ensures !ContainsWord(t, Keywords(Masters)[m]) {
      ContainsWordFinds(t, Keywords(Masters)[m]);
    }
  }

  /** Changing the letter case of the text does not change the levels. */
  lemma {:induction false} MentionsIgnoresCase(t: string, u: string, level: EducationLevel)
    requires SameUpToCase(t, u)
    ensures Mentions(t, level) == Mentions(u, level)
  {
    forall m | 0 <= m < |Keywords(level)| ensures ContainsWord(t, Keywords(level)[m]) == ContainsWord(u, Keywords(level)[m]) {
      ContainsWordIgnoresCase(t, u, Keywords(level)[m]);
    }
  }
}
