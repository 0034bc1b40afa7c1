/** Skill detection of `ResumeScreener` (resume_screener.py): which entries
    of the fixed vocabulary a text mentions, and how the candidate's skills
    are split against those a job description asks for. */
module Skills {
  import opened Text

  /** `self.technical_skills`, in the constructor's order. */
  const Vocabulary: seq<string> := [
    "Python", "Java", "JavaScript", "C", "Go",
    "SQL", "NoSQL", "MongoDB", "MySQL",
    "Docker", "Kubernetes", "AWS", "Azure", "REST API",
    "GraphQL", "React", "Node.js", "Django", "Flask",
    "Microservices", "Git", "CI/CD", "Jenkins", "RAG", "LangChain",
    "Machine Learning", "Deep Learning", "TensorFlow", "PyTorch",
    "Agile", "Scrum", "Data Structures", "Algorithms", "OOP"
  ]

  predicate NoDuplicates<T(==)>(s: seq<T>) {
    forall i, j :: 0 <= i < j < |s| ==> s[i] != s[j]
  }

  /** `a` is `b` with some elements left out, the rest in their order. */
  ghost predicate IsSubsequence<T>(a: seq<T>, b: seq<T>) {
    a == [] || (b != [] && ((a[0] == b[0] && IsSubsequence(a[1..], b[1..])) || IsSubsequence(a, b[1..])))
  }

  /** Every vocabulary entry begins and ends with a word character, so the
      `\b` on either side of it means "not glued to another word". */
  predicate WordDelimited(w: string) {
    w != [] && IsWordChar(w[0]) && IsWordChar(w[|w| - 1])
  }

  /** The vocabulary has 34 entries, no two of them equal. */
  lemma VocabularyDistinct()
    ensures |Vocabulary| == 34
    ensures NoDuplicates(Vocabulary)
  {
    VocabularyDistinctRows0();
    VocabularyDistinctRows2();
    VocabularyDistinctRows4();
    VocabularyDistinctRows6();
    VocabularyDistinctRows9();
    VocabularyDistinctRows13();
    VocabularyDistinctRows18();
    VocabularyDistinctRows25();
  }

  lemma VocabularyDistinctRows0()
    ensures forall i, j :: 0 <= i < 2 && i < j < |Vocabulary| ==> Vocabulary[i] != Vocabulary[j]
  {
  }

  lemma VocabularyDistinctRows2()
    ensures forall i, j :: 2 <= i < 4 && i < j < |Vocabulary| ==> Vocabulary[i] != Vocabulary[j]
  {
  }

  lemma VocabularyDistinctRows4()
    ensures forall i, j :: 4 <= i < 6 && i < j < |Vocabulary| ==> Vocabulary[i] != Vocabulary[j]
  {
  }

  lemma VocabularyDistinctRows6()
    ensures forall i, j :: 6 <= i < 9 && i < j < |Vocabulary| ==> Vocabulary[i] != Vocabulary[j]
  {
  }

  lemma VocabularyDistinctRows9()
    ensures forall i, j :: 9 <= i < 13 && i < j < |Vocabulary| ==> Vocabulary[i] != Vocabulary[j]
  {
  }

  lemma VocabularyDistinctRows13()
    ensures forall i, j :: 13 <= i < 18 && i < j < |Vocabulary| ==> Vocabulary[i] != Vocabulary[j]
  {
  }

  lemma VocabularyDistinctRows18()
    ensures forall i, j :: 18 <= i < 25 && i < j < |Vocabulary| ==> Vocabulary[i] != Vocabulary[j]
  {
  }

  lemma VocabularyDistinctRows25()
    ensures forall i, j :: 25 <= i < 34 && i < j < |Vocabulary| ==> Vocabulary[i] != Vocabulary[j]
  {
  }

  /** Every vocabulary entry begins and ends with a word character. */
  lemma VocabularyDelimited()
    ensures forall w :: w in Vocabulary ==> WordDelimited(w)
  {
    VocabularyDelimitedRows0();
    VocabularyDelimitedRows6();
    VocabularyDelimitedRows12();
    VocabularyDelimitedRows18();
    VocabularyDelimitedRows25();
    forall w | w in Vocabulary ensures WordDelimited(w) {
      var k :| 0 <= k < |Vocabulary| && Vocabulary[k] == w;
    }
  }

  lemma VocabularyDelimitedRows0()
    ensures forall k :: 0 <= k < 6 ==> WordDelimited(Vocabulary[k])
  {
  }

  lemma VocabularyDelimitedRows6()
    ensures forall k :: 6 <= k < 12 ==> WordDelimited(Vocabulary[k])
  {
  }

  lemma VocabularyDelimitedRows12()
    ensures forall k :: 12 <= k < 18 ==> WordDelimited(Vocabulary[k])
  {
  }

  lemma VocabularyDelimitedRows18()
    ensures forall k :: 18 <= k < 25 ==> WordDelimited(Vocabulary[k])
  {
  }

  lemma VocabularyDelimitedRows25()
    ensures forall k :: 25 <= k < 34 ==> WordDelimited(Vocabulary[k])
  {
  }

  /** The entries of `vocab` that `text` mentions as whole words, in the
      order of `vocab`. */
  function Detected(vocab: seq<string>, text: string): seq<string> {
    if vocab == [] then []
    else (if ContainsWord(text, vocab[0]) then [vocab[0]] else []) + Detected(vocab[1..], text)
  }

  /** An entry is listed exactly when the text mentions it. */
  lemma {:induction false} DetectedMembers(vocab: seq<string>, text: string)
    ensures forall s :: s in Detected(vocab, text) <==> s in vocab && ContainsWord(text, s)
  {
    if vocab != [] {
      DetectedMembers(vocab[1..], text);
      assert vocab == [vocab[0]] + vocab[1..];
    }
  }

  /** `extract_skills`: one `re.search` per entry of `self.technical_skills`
      (passed in as `vocabulary`), appending the entries found. */
  method ExtractSkills(vocabulary: seq<string>, text: string) returns (skills: seq<string>)
    ensures skills == Detected(vocabulary, text)
    ensures forall s :: s in skills <==> s in vocabulary && ContainsWord(text, s)
    ensures IsSubsequence(skills, vocabulary)
    ensures NoDuplicates(vocabulary) ==> NoDuplicates(skills)
  {
    skills := [];
    var i := 0;
    while i < |vocabulary|
      invariant 0 <= i <= |vocabulary|
      invariant skills + Detected(vocabulary[i..], text) == Detected(vocabulary, text)
    {
      assert vocabulary[i..][1..] == vocabulary[i + 1..];
      var skill := vocabulary[i];
      if ContainsWord(text, skill) {
        skills := skills + [skill];
      }
      i := i + 1;
    }
    assert vocabulary[i..] == [];
    DetectedMembers(vocabulary, text);
    DetectedInOrder(vocabulary, text);
  }

  lemma {:induction false} DetectedInOrder(vocab: seq<string>, text: string)
    ensures IsSubsequence(Detected(vocab, text), vocab)
    ensures NoDuplicates(vocab) ==> NoDuplicates(Detected(vocab, text))
  {
    if vocab != [] {
      var rest := Detected(vocab[1..], text);
      DetectedInOrder(vocab[1..], text);
      if ContainsWord(text, vocab[0]) {
        assert Detected(vocab, text) == [vocab[0]] + rest;
        assert ([vocab[0]] + rest)[1..] == rest;
        if NoDuplicates(vocab) {
          DetectedMembers(vocab[1..], text);
          assert vocab[0] !in vocab[1..];
          assert vocab[0] !in rest;
        }
      } else {
        assert Detected(vocab, text) == rest;
        SubsequenceOfTail(rest, vocab);
      }
    }
  }

  lemma SubsequenceOfTail<T>(a: seq<T>, b: seq<T>)
    requires b != [] && IsSubsequence(a, b[1..])
    ensures IsSubsequence(a, b)
  {
  }

  /** A keyword that begins and ends with a word character is found
      exactly when it occurs, ignoring case, with a non-word character or an
      end of the text on either side. */
  lemma ContainsWordMeansDelimited(text: string, w: string)
    requires WordDelimited(w)
    ensures ContainsWord(text, w) <==>
      exists i :: 0 <= i && i + |w| <= |text| && CaseEqAt(text, w, i)
        && (i == 0 || !IsWordChar(text[i - 1]))
        && (i + |w| == |text| || !IsWordChar(text[i + |w|]))
  {
    ContainsWordFinds(text, w);
    forall i: nat ensures WordAt(text, w, i) <==>
      && i + |w| <= |text| && CaseEqAt(text, w, i)
      && (i == 0 || !IsWordChar(text[i - 1]))
      && (i + |w| == |text| || !IsWordChar(text[i + |w|]))
    {
      WordAtMeansDelimited(text, w, i);
    }
  }

  /** So an entry of a vocabulary is listed exactly when it occurs
      delimited in the text; `VocabularyDelimited` says every entry of the
      resume vocabulary qualifies. */
  lemma DetectedMeansDelimited(vocab: seq<string>, text: string, w: string)
    requires w in vocab && WordDelimited(w)
    ensures w in Detected(vocab, text) <==>
      exists i :: 0 <= i && i + |w| <= |text| && CaseEqAt(text, w, i)
        && (i == 0 || !IsWordChar(text[i - 1]))
        && (i + |w| == |text| || !IsWordChar(text[i + |w|]))
  {
    DetectedMembers(vocab, text);
    ContainsWordMeansDelimited(text, w);
  }

  /** Changing the ASCII case of the text does not change which skills are
      found. */
  lemma {:induction false} DetectedIgnoresCase(vocab: seq<string>, t: string, u: string)
    requires SameUpToCase(t, u)
    ensures Detected(vocab, t) == Detected(vocab, u)
  {
    if vocab != [] {
      ContainsWordIgnoresCase(t, u, vocab[0]);
      DetectedIgnoresCase(vocab[1..], t, u);
    }
  }

  /** `JavaScript` is not `Java`: the `a` ending `Java` is glued to `S`. */
  lemma JavaIsNotJavaScript(vocab: seq<string>)
    ensures "Java" !in Detected(vocab, "JavaScript")
    ensures "JavaScript" in vocab ==> "JavaScript" in Detected(vocab, "JavaScript")
  {
    var t := "JavaScript";
    ContainsWordFinds(t, "Java");
    ContainsWordFinds(t, "JavaScript");
    DetectedMembers(vocab, t);
    assert WordAt(t, "JavaScript", 0);
    forall j | 0 <= j <= |t| ensures !WordAt(t, "Java", j) {
      if j == 0 {
        assert IsWordChar(t[4]);
      } else if j + 4 <= |t| {
        assert Lower(t[j]) != Lower("Java"[0]);
      }
    }
  }

  // ---------------------------------------------------------------------
  // `analyze_resume`, lines 199-200

  /** `[s for s in candidate if s in required]`. */
  function Matched(candidate: seq<string>, required: seq<string>): (r: seq<string>)
    ensures forall s :: s in r <==> s in candidate && s in required
  {
    if candidate == [] then []
    else (if candidate[0] in required then [candidate[0]] else []) + Matched(candidate[1..], required)
  }

  /** `[s for s in required if s not in candidate]`. */
  function Missing(candidate: seq<string>, required: seq<string>): (r: seq<string>)
    ensures forall s :: s in r <==> s in required && s !in candidate
  {
    if required == [] then []
    else (if required[0] !in candidate then [required[0]] else []) + Missing(candidate, required[1..])
  }

  /** The two lists share no skill, and together they cover exactly the
      required skills. */
  lemma MatchedMissingPartition(candidate: seq<string>, required: seq<string>)
    ensures forall s :: !(s in Matched(candidate, required) && s in Missing(candidate, required))
    ensures (set s | s in Matched(candidate, required)) + (set s | s in Missing(candidate, required))
         == (set s | s in required)
  {
  }

  /** Each list keeps the order of the list it filters. */
  lemma {:induction false} MatchedMissingKeepOrder(candidate: seq<string>, required: seq<string>)
    ensures IsSubsequence(Matched(candidate, required), candidate)
    ensures IsSubsequence(Missing(candidate, required), required)
    decreases |candidate| + |required|
  {
    if candidate != [] {
      MatchedMissingKeepOrder(candidate[1..], required);
      var rest := Matched(candidate[1..], required);
      if candidate[0] in required {
        assert Matched(candidate, required) == [candidate[0]] + rest;
        assert ([candidate[0]] + rest)[1..] == rest;
      } else {
        assert Matched(candidate, required) == rest;
        SubsequenceOfTail(rest, candidate);
      }
    }
    if required != [] {
      MatchedMissingKeepOrder(candidate, required[1..]);
      var rest := Missing(candidate, required[1..]);
      if required[0] !in candidate {
        assert Missing(candidate, required) == [required[0]] + rest;
        assert ([required[0]] + rest)[1..] == rest;
      } else {
        assert Missing(candidate, required) == rest;
        SubsequenceOfTail(rest, required);
      }
    }
  }
}
