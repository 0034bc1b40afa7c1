/** Experience-years extraction of `ResumeScreener` (resume_screener.py,
    `extract_experience`): three case-insensitive regexes tried in a fixed
    order.

    Each regex is written out as a deterministic matcher. The greedy choice
    the regex engine tries first is, at every step, the only one that can
    still lead to a match (shortening `\d+` or `\s*`/`\s+` leaves a digit
    or a space where the next item needs `+`, a space, `y`, `o` or `e`;
    dropping the optional `+` or `s` leaves that character where a space or
    a letter of the next word is needed), so backtracking never changes
    which positions match, what the group captures, or where a match ends. */
module Experience {
  import opened Wrappers
  import opened Text

  datatype ExperiencePattern =
    | YearsOfExperience   // (\d+)(?:\+)?\s*(?:years?|yrs?)(?:\s+of)?\s+experience
    | ExperienceOfYears   // experience\s+of\s+(\d+)(?:\+)?\s*(?:years?|yrs?)
    | WorkedForYears      // (?:worked|working)\s+for\s+(\d+)(?:\+)?\s*(?:years?|yrs?)

  /** The list `patterns`, in the order it is tried. */
  const Patterns: seq<ExperiencePattern> := [YearsOfExperience, ExperienceOfYears, WorkedForYears]

  /** A match: what the group `(\d+)` captured and where the match ends. */
  datatype Hit = Hit(digits: string, end: nat)

  /** A lower-case literal, matched ignoring case. */
  function Literal(t: string, w: string, i: nat): (r: Option<nat>)
    requires i <= |t|
    ensures r.Some? ==> r.value == i + |w| <= |t|
  {
    if i + |w| <= |t| && CaseEqAt(t, w, i) then Some(i + |w|) else None
  }

  /** `\s+`. */
  function Spaces1(t: string, i: nat): (r: Option<nat>)
    requires i <= |t|
    ensures r.Some? ==> i < r.value <= |t|
  {
    if i < |t| && IsSpace(t[i]) then Some(SkipSpaces(t, i)) else None
  }

  /** `\s+` followed by the literal `w`. */
  function SpacesThen(t: string, i: nat, w: string): (r: Option<nat>)
    requires i <= |t|
    ensures r.Some? ==> i < r.value <= |t|
  {
    match Spaces1(t, i)
    case None => None
    case Some(a) => Literal(t, w, a)
  }

  /** `(?:\+)?`. */
  function OptionalPlus(t: string, i: nat): (j: nat)
    requires i <= |t|
    ensures i <= j <= |t|
  {
    if i < |t| && t[i] == '+' then i + 1 else i
  }

  /** `(?:years?|yrs?)`. */
  function YearUnit(t: string, i: nat): (r: Option<nat>)
    requires i <= |t|
    ensures r.Some? ==> i < r.value <= |t|
  {
    var stem := if Literal(t, "year", i).Some? then Literal(t, "year", i) else Literal(t, "yr", i);
    match stem
    case None => None
    case Some(j) => Some(if j < |t| && Lower(t[j]) == 's' then j + 1 else j)
  }

  /** `(\d+)(?:\+)?\s*(?:years?|yrs?)`, shared by all three patterns. */
  function CountAndUnit(t: string, i: nat): (r: Option<Hit>)
    requires i <= |t|
    ensures r.Some? ==> i < r.value.end <= |t| && r.value.digits != [] && AllDigits(r.value.digits)
  {
    var d := DigitsEnd(t, i);
    if d == i then None
    else
      match YearUnit(t, SkipSpaces(t, OptionalPlus(t, d)))
      case None => None
      case Some(e) => Some(Hit(t[i..d], e))
  }

  /** `(?:\s+of)?\s+experience`: with the optional group first, then without. */
  function ExperienceTail(t: string, i: nat): (r: Option<nat>)
    requires i <= |t|
    ensures r.Some? ==> i < r.value <= |t|
  {
    var withOf :=
      match SpacesThen(t, i, "of")
      case None => None
      case Some(a) => SpacesThen(t, a, "experience");
    if withOf.Some? then withOf else SpacesThen(t, i, "experience")
  }

  /** The pattern `p` matched at position `i` of `t`, ignoring case. */
  function MatchAt(p: ExperiencePattern, t: string, i: nat): (r: Option<Hit>)
    requires i <= |t|
    ensures r.Some? ==> i < r.value.end <= |t| && r.value.digits != [] && AllDigits(r.value.digits)
  {
    match p
    case YearsOfExperience =>
      (match CountAndUnit(t, i)
       case None => None
       case Some(h) =>
         match ExperienceTail(t, h.end)
         case None => None
         case Some(e) => Some(Hit(h.digits, e)))
    case ExperienceOfYears =>
      (match Literal(t, "experience", i)
       case None => None
       case Some(a) =>
         match SpacesThen(t, a, "of")
         case None => None
         case Some(b) =>
           match Spaces1(t, b)
           case None => None
           case Some(c) => CountAndUnit(t, c))
    case WorkedForYears =>
      var verb := if Literal(t, "worked", i).Some? then Literal(t, "worked", i) else Literal(t, "working", i);
      match verb
      case None => None
      case Some(a) =>
        match SpacesThen(t, a, "for")
        case None => None
        case Some(b) =>
          match Spaces1(t, b)
          case None => None
          case Some(c) => CountAndUnit(t, c)
  }

  /** Whether each entry of `ms` is a proper match result for its start
      position: a match ends after its start and inside the text, and its
      group is a non-empty run of digits. */
  ghost predicate Advancing(ms: seq<Option<Hit>>) {
    forall j :: 0 <= j < |ms| && ms[j].Some? ==>
      j < ms[j].value.end < |ms| && ms[j].value.digits != [] && AllDigits(ms[j].value.digits)
  }

  /** The result of trying `p` at every start position `0 .. |t|` of `t`. */
  function Trials(p: ExperiencePattern, t: string): (ms: seq<Option<Hit>>)
    ensures |ms| == |t| + 1 && Advancing(ms)
  {
    seq(|t| + 1, j requires 0 <= j <= |t| => MatchAt(p, t, j))
  }

  lemma TrialsAt(p: ExperiencePattern, t: string, j: nat)
    requires j <= |t|
    ensures Trials(p, t)[j] == MatchAt(p, t, j)
  {
  }

  /** `re.findall`, from start position `i` on: the groups of the
      successive non-overlapping matches, each search resuming where the
      last match ended. */
  function FindAll(ms: seq<Option<Hit>>, i: nat): (r: seq<string>)
    requires Advancing(ms) && i < |ms|
    ensures forall k :: 0 <= k < |r| ==> r[k] != [] && AllDigits(r[k])
    ensures |r| <= |ms| - 1 - i
    decreases |ms| - i
  {
    match ms[i]
    case Some(h) => [h.digits] + FindAll(ms, h.end)
    case None => if i + 1 < |ms| then FindAll(ms, i + 1) else []
  }

  /** The leftmost start position at or after `i` where a match is found. */
  function LeftmostAt(ms: seq<Option<Hit>>, i: nat): (r: Option<nat>)
    requires i < |ms|
    ensures r.Some? ==> i <= r.value < |ms| && ms[r.value].Some?
    decreases |ms| - i
  {
    if ms[i].Some? then Some(i)
    else if i + 1 < |ms| then LeftmostAt(ms, i + 1)
    else None
  }

  /** `LeftmostAt` finds the first matching position, and finds none only
      when there is none. */
  lemma {:induction false} LeftmostAtFinds(ms: seq<Option<Hit>>, i: nat)
    requires i < |ms|
    ensures LeftmostAt(ms, i).Some? ==> forall j :: i <= j < LeftmostAt(ms, i).value ==> ms[j].None?
    ensures LeftmostAt(ms, i).None? <==> forall j :: i <= j < |ms| ==> ms[j].None?
    decreases |ms| - i
  {
    if ms[i].None? && i + 1 < |ms| {
      LeftmostAtFinds(ms, i + 1);
    }
  }

  lemma {:induction false} LeftmostIsFirst(ms: seq<Option<Hit>>, lo: nat, i: nat)
    requires lo <= i < |ms| && ms[i].Some?
    requires forall j :: lo <= j < i ==> ms[j].None?
    ensures LeftmostAt(ms, lo) == Some(i)
    decreases i - lo
  {
    if lo < i {
      LeftmostIsFirst(ms, lo + 1, i);
    }
  }

  /** `findall` finds something exactly when the pattern matches somewhere,
      and its first element is the group of the leftmost match. */
  lemma {:induction false} FindAllHead(ms: seq<Option<Hit>>, i: nat)
    requires Advancing(ms) && i < |ms|
    ensures FindAll(ms, i) == [] <==> LeftmostAt(ms, i).None?
    ensures FindAll(ms, i) != [] ==> FindAll(ms, i)[0] == ms[LeftmostAt(ms, i).value].value.digits
    decreases |ms| - i
  {
    if ms[i].None? && i + 1 < |ms| {
      FindAllHead(ms, i + 1);
    }
  }

  /** Whether every table is a proper, non-empty table of match results. */
  ghost predicate ProperTables(tables: seq<seq<Option<Hit>>>) {
    forall k :: 0 <= k < |tables| ==> tables[k] != [] && Advancing(tables[k])
  }

  /** The first table, in list order, with a match anywhere decides; its
      leftmost match gives the number. */
  function FirstYears(tables: seq<seq<Option<Hit>>>): Option<nat>
    requires ProperTables(tables)
  {
    if tables == [] then None
    else
      match LeftmostAt(tables[0], 0)
      case Some(i) => Some(DecimalValue(tables[0][i].value.digits))
      case None => FirstYears(tables[1..])
  }

  /** The match tables of the three patterns, in the order they are tried. */
  function PatternTables(t: string): (tables: seq<seq<Option<Hit>>>)
    ensures |tables| == |Patterns| && ProperTables(tables)
    ensures forall k :: 0 <= k < |Patterns| ==> tables[k] == Trials(Patterns[k], t)
  {
    [Trials(Patterns[0], t), Trials(Patterns[1], t), Trials(Patterns[2], t)]
  }

  /** What `extract_experience` returns for `t`. */
  function ExperienceYears(t: string): Option<nat> {
    FirstYears(PatternTables(t))
  }

  /** `extract_experience`: the loop over `patterns` with its early return. */
  method ExtractExperience(text: string) returns (years: Option<nat>)
    ensures years == ExperienceYears(text)
  {
    ghost var tables := PatternTables(text);
    var k := 0;
    while k < |Patterns|
      invariant 0 <= k <= |Patterns|
      invariant FirstYears(tables[k..]) == ExperienceYears(text)
    {
      var trials := Trials(Patterns[k], text);
      assert trials == tables[k..][0];
      var matches := FindAll(trials, 0);
      FindAllHead(trials, 0);
      if matches != [] {
        return Some(DecimalValue(matches[0]));
      }
      assert tables[k..][1..] == tables[k + 1..];
      k := k + 1;
    }
    return None;
  }

  /** `p` matches `t` at `i` and nowhere before. */
  ghost predicate FirstMatchAt(p: ExperiencePattern, t: string, i: nat) {
    && i <= |t| && MatchAt(p, t, i).Some?
    && forall j :: 0 <= j < i ==> MatchAt(p, t, j).None?
  }

  lemma {:induction false} FirstYearsNone(tables: seq<seq<Option<Hit>>>)
    requires ProperTables(tables)
    ensures FirstYears(tables).None? <==>
      forall k, i :: 0 <= k < |tables| && 0 <= i < |tables[k]| ==> tables[k][i].None?
  {
    if tables != [] {
      LeftmostAtFinds(tables[0], 0);
      FirstYearsNone(tables[1..]);
      if LeftmostAt(tables[0], 0).None? {
        forall k, i | 0 <= k < |tables| && 0 <= i < |tables[k]| && FirstYears(tables).None?
          ensures tables[k][i].None?
        {
          if k > 0 { assert tables[k] == tables[1..][k - 1]; }
        }
      }
    }
  }

  lemma {:induction false} FirstYearsDetermined(tables: seq<seq<Option<Hit>>>, k: nat, i: nat)
    requires ProperTables(tables) && k < |tables| && i < |tables[k]|
    requires forall k', j :: 0 <= k' < k && 0 <= j < |tables[k']| ==> tables[k'][j].None?
    requires tables[k][i].Some?
    requires forall j :: 0 <= j < i ==> tables[k][j].None?
    ensures FirstYears(tables) == Some(DecimalValue(tables[k][i].value.digits))
  {
    if k == 0 {
      LeftmostIsFirst(tables[0], 0, i);
    } else {
      var rest := tables[1..];
      LeftmostAtFinds(tables[0], 0);
      assert FirstYears(tables) == FirstYears(rest);
      assert forall k' :: 0 <= k' < |rest| ==> rest[k'] == tables[k' + 1];
      FirstYearsDetermined(rest, k - 1, i);
    }
  }

  /** Nothing is found (None, not zero) exactly when none of the three
      patterns matches anywhere. */
  lemma ExperienceNoneIff(t: string)
    ensures ExperienceYears(t).None? <==>
      forall k, i :: 0 <= k < |Patterns| && 0 <= i <= |t| ==> MatchAt(Patterns[k], t, i).None?
  {
    var tables := PatternTables(t);
    FirstYearsNone(tables);
    forall k, i | 0 <= k < |Patterns| && 0 <= i <= |t| {
      TrialsAt(Patterns[k], t, i);
    }
  }

  /** If patterns before `k` match nowhere and pattern `k` first matches at
      `i`, the result is the value of the digits captured there, whatever
      the later patterns would find, even earlier in the text. */
  lemma ExperienceDetermined(t: string, k: nat, i: nat)
    requires k < |Patterns|
    requires forall k', j :: 0 <= k' < k && 0 <= j <= |t| ==> MatchAt(Patterns[k'], t, j).None?
    requires FirstMatchAt(Patterns[k], t, i)
    ensures ExperienceYears(t) == Some(DecimalValue(MatchAt(Patterns[k], t, i).value.digits))
  {
    var tables := PatternTables(t);
    forall k', j | 0 <= k' <= k && 0 <= j <= |t| {
      TrialsAt(Patterns[k'], t, j);
    }
    FirstYearsDetermined(tables, k, i);
  }

  /** A `years of experience` phrase anywhere beats an `experience of`
      phrase, even one further to the left. */
  lemma YearsOfExperienceWins(t: string, i: nat)
    requires FirstMatchAt(YearsOfExperience, t, i)
    ensures ExperienceYears(t) == Some(DecimalValue(MatchAt(YearsOfExperience, t, i).value.digits))
  {
    ExperienceDetermined(t, 0, i);
  }

  const AbbreviatedPhrase := "5+ yrs experience"

  lemma AbbreviatedCount()
    ensures CountAndUnit(AbbreviatedPhrase, 0) == Some(Hit("5", 6))
  {
    var t := AbbreviatedPhrase;
    assert DigitsEnd(t, 0) == 1;
    assert OptionalPlus(t, 1) == 2;
    assert SkipSpaces(t, 2) == 3;
    assert Lower(t[5]) != Lower("year"[2]);
    assert Literal(t, "year", 3).None?;
    assert Literal(t, "yr", 3) == Some(5);
    assert YearUnit(t, 3) == Some(6);
    assert t[0..1] == "5";
  }

  lemma AbbreviatedTail()
    ensures ExperienceTail(AbbreviatedPhrase, 6) == Some(17)
  {
    var t := AbbreviatedPhrase;
    assert Spaces1(t, 6) == Some(7);
    assert Lower(t[7]) != Lower("of"[0]);
    assert SpacesThen(t, 6, "of").None?;
    assert Literal(t, "experience", 7) == Some(17);
  }

  /** The count may be followed by `+` and the unit abbreviated. */
  lemma PlusAndAbbreviation()
    ensures ExperienceYears(AbbreviatedPhrase) == Some(5)
  {
    AbbreviatedCount();
    AbbreviatedTail();
    assert MatchAt(YearsOfExperience, AbbreviatedPhrase, 0) == Some(Hit("5", 17));
    assert DecimalValue("5") == 5;
    YearsOfExperienceWins(AbbreviatedPhrase, 0);
  }

  const FullPhrase := "5 years of experience"

  lemma FullCount()
    ensures CountAndUnit(FullPhrase, 0) == Some(Hit("5", 7))
  {
    var t := FullPhrase;
    assert DigitsEnd(t, 0) == 1;
    assert OptionalPlus(t, 1) == 1;
    assert SkipSpaces(t, 1) == 2;
    assert Literal(t, "year", 2) == Some(6);
    assert YearUnit(t, 2) == Some(7);
    assert t[0..1] == "5";
  }

  lemma FullTail()
    ensures ExperienceTail(FullPhrase, 7) == Some(21)
  {
    var t := FullPhrase;
    assert Spaces1(t, 7) == Some(8);
    assert Literal(t, "of", 8) == Some(10);
    assert Spaces1(t, 10) == Some(11);
    assert Literal(t, "experience", 11) == Some(21);
  }

  /** The optional `of` is taken when present; the match runs to the end of
      `experience`. */
  lemma YearsOfExperiencePhrase()
    ensures MatchAt(YearsOfExperience, FullPhrase, 0) == Some(Hit("5", 21))
    ensures ExperienceYears(FullPhrase) == Some(5)
  {
    FullCount();
    FullTail();
    assert DecimalValue("5") == 5;
    YearsOfExperienceWins(FullPhrase, 0);
  }

  const ExperienceFirstPhrase := "Experience of 3 yrs"

  lemma ExperienceFirstCount()
    ensures CountAndUnit(ExperienceFirstPhrase, 14) == Some(Hit("3", 19))
  {
    var t := ExperienceFirstPhrase;
    assert DigitsEnd(t, 14) == 15;
    assert OptionalPlus(t, 15) == 15;
    assert SkipSpaces(t, 15) == 16;
    assert Lower(t[17]) != Lower("year"[1]);
    assert Literal(t, "year", 16).None?;
    assert Literal(t, "yr", 16) == Some(18);
    assert YearUnit(t, 16) == Some(19);
    assert t[14..15] == "3";
  }

  /** The second pattern, starting with a capital letter. */
  lemma ExperienceOfYearsPhrase()
    ensures MatchAt(ExperienceOfYears, ExperienceFirstPhrase, 0) == Some(Hit("3", 19))
  {
    var t := ExperienceFirstPhrase;
    assert Literal(t, "experience", 0) == Some(10);
    assert Spaces1(t, 10) == Some(11);
    assert Literal(t, "of", 11) == Some(13);
    assert Spaces1(t, 13) == Some(14);
    ExperienceFirstCount();
  }

  const WorkingPhrase := "working for 7 years"

  lemma WorkingCount()
    ensures CountAndUnit(WorkingPhrase, 12) == Some(Hit("7", 19))
  {
    var t := WorkingPhrase;
    assert DigitsEnd(t, 12) == 13;
    assert OptionalPlus(t, 13) == 13;
    assert SkipSpaces(t, 13) == 14;
    assert Literal(t, "year", 14) == Some(18);
    assert YearUnit(t, 14) == Some(19);
    assert t[12..13] == "7";
  }

  /** The third pattern, with the `working` spelling of the verb. */
  lemma WorkedForYearsPhrase()
    ensures MatchAt(WorkedForYears, WorkingPhrase, 0) == Some(Hit("7", 19))
  {
    var t := WorkingPhrase;
    assert Lower(t[4]) != Lower("worked"[4]);
    assert Literal(t, "worked", 0).None?;
    assert Literal(t, "working", 0) == Some(7);
    assert Spaces1(t, 7) == Some(8);
    assert Literal(t, "for", 8) == Some(11);
    assert Spaces1(t, 11) == Some(12);
    WorkingCount();
  }
}
