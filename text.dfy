/** The pieces of Python's `str` and `re` that the analysers rely on:
    character classes, `strip`, `split`, word-bounded case-insensitive
    search and the decimal reading of a run of digits (`int`). */
module Text {

  /** `str.isspace()` on one code point. Python's `\s` (for `str`
      patterns), `str.split()` and `str.strip()` all use this class. */
  predicate IsSpace(c: char) {
    || ('\t' <= c <= '\r')
    || ('\U{1C}' <= c <= ' ')
    || c == '\U{85}' || c == '\U{A0}' || c == '\U{1680}'
    || ('\U{2000}' <= c <= '\U{200A}')
    || c == '\U{2028}' || c == '\U{2029}' || c == '\U{202F}'
    || c == '\U{205F}' || c == '\U{3000}'
  }

  predicate IsDigit(c: char) { '0' <= c <= '9' }

  predicate IsAsciiLetter(c: char) { 'a' <= c <= 'z' || 'A' <= c <= 'Z' }

  /** The `\w` class, restricted to ASCII. */
  predicate IsWordChar(c: char) { IsAsciiLetter(c) || IsDigit(c) || c == '_' }

  /** ASCII lower-casing; what `re.IGNORECASE` compares. */
  function Lower(c: char): char {
    if 'A' <= c <= 'Z' then (c as int + 32) as char else c
  }

  /** The two strings differ at most in the ASCII case of their letters. */
  predicate SameUpToCase(s: string, t: string) {
    |s| == |t| && forall i :: 0 <= i < |s| ==> Lower(s[i]) == Lower(t[i])
  }

  lemma SameCaseSameClass(c: char, d: char)
    requires Lower(c) == Lower(d)
    ensures IsWordChar(c) == IsWordChar(d)
  {
  }

  // ---------------------------------------------------------------------
  // strip

  /** First index at or after `i` that does not hold whitespace (greedy `\s*`). */
  function SkipSpaces(s: string, i: nat): (j: nat)
    requires i <= |s|
    ensures i <= j <= |s|
    ensures forall k :: i <= k < j ==> IsSpace(s[k])
    ensures j == |s| || !IsSpace(s[j])
    decreases |s| - i
  {
    if i < |s| && IsSpace(s[i]) then SkipSpaces(s, i + 1) else i
  }

  /** Index just past the last non-whitespace character of `s[lo..hi]`,
      or `lo` when there is none. */
  function TrimmedEnd(s: string, lo: nat, hi: nat): (e: nat)
    requires lo <= hi <= |s|
    ensures lo <= e <= hi
    ensures forall k :: e <= k < hi ==> IsSpace(s[k])
    ensures e == lo || !IsSpace(s[e - 1])
    decreases hi - lo
  {
    if lo < hi && IsSpace(s[hi - 1]) then TrimmedEnd(s, lo, hi - 1) else hi
  }

  predicate IsBlank(s: string) { forall i :: 0 <= i < |s| ==> IsSpace(s[i]) }

  /** `r` sits at offset `a` of `s` with only whitespace around it. */
  ghost predicate Framed(s: string, a: int, r: string) {
    && 0 <= a && a + |r| <= |s| && s[a..a + |r|] == r
    && (forall i :: 0 <= i < a ==> IsSpace(s[i]))
    && (forall i :: a + |r| <= i < |s| ==> IsSpace(s[i]))
  }

  /** Neither end of `r` is whitespace. */
  predicate Trimmed(r: string) { r == [] || (!IsSpace(r[0]) && !IsSpace(r[|r| - 1])) }

  /** `s.strip()`: the slice of `s` left once the leading and trailing
      whitespace is cut off. */
  function Strip(s: string): (r: string)
    ensures Framed(s, SkipSpaces(s, 0), r)
    ensures Trimmed(r)
    ensures r == [] <==> IsBlank(s)
  {
    var a := SkipSpaces(s, 0);
    var e := TrimmedEnd(s, a, |s|);
    assert e == a ==> IsBlank(s);
    s[a..e]
  }

  /** Whitespace around a trimmed core is all that `strip` removes: any
      such decomposition of `s` is the one `strip` finds. */
  lemma StripUnique(s: string, a: int, r: string)
    requires Framed(s, a, r) && Trimmed(r)
    ensures Strip(s) == r
  {
    if r == [] {
      assert IsBlank(s);
    } else {
      var b := SkipSpaces(s, 0);
      assert s[a] == r[0];
      assert b == a;
      var e := TrimmedEnd(s, a, |s|);
      assert s[a + |r| - 1] == r[|r| - 1];
      assert e == a + |r|;
    }
  }

  lemma StripIdempotent(s: string)
    ensures Strip(Strip(s)) == Strip(s)
  {
    var r := Strip(s);
    StripUnique(r, 0, r);
  }

  /** Trailing whitespace never survives `strip` (used for the newline
      left in front of a closing code fence). */
  lemma StripDropsTrailingSpace(x: string, c: char)
    requires IsSpace(c)
    ensures Strip(x + [c]) == Strip(x)
  {
    var a := SkipSpaces(x, 0);
    var r := Strip(x);
    var s := x + [c];
    assert s[a..a + |r|] == x[a..a + |r|];
    StripUnique(s, a, r);
  }

  // ---------------------------------------------------------------------
  // split

  /** End of the run of non-whitespace characters that starts at `i`. */
  function TokenEnd(s: string, i: nat): (j: nat)
    requires i <= |s|
    ensures i <= j <= |s|
    ensures forall k :: i <= k < j ==> !IsSpace(s[k])
    ensures j == |s| || IsSpace(s[j])
    decreases |s| - i
  {
    if i == |s| || IsSpace(s[i]) then i else TokenEnd(s, i + 1)
  }

  /** `s.split()` with no separator: the maximal runs of non-whitespace. */
  function Split(s: string): (tokens: seq<string>)
    ensures forall k :: 0 <= k < |tokens| ==> tokens[k] != []
    ensures forall k, i :: 0 <= k < |tokens| && 0 <= i < |tokens[k]| ==> !IsSpace(tokens[k][i])
    decreases |s|
  {
    if s == [] then []
    else if IsSpace(s[0]) then Split(s[1..])
    else
      var j := TokenEnd(s, 0);
      [s[..j]] + Split(s[j..])
  }

  function Concat(ts: seq<string>): string {
    if ts == [] then [] else ts[0] + Concat(ts[1..])
  }

  /** The characters of `s` that are not whitespace, in order. */
  function NonSpace(s: string): (r: string)
    ensures |r| <= |s|
  {
    if s == [] then [] else (if IsSpace(s[0]) then [] else [s[0]]) + NonSpace(s[1..])
  }

  lemma {:induction false} NonSpaceAppend(x: string, y: string)
    ensures NonSpace(x + y) == NonSpace(x) + NonSpace(y)
    decreases |x|
  {
    if x == [] {
      assert x + y == y;
    } else {
      assert (x + y)[1..] == x[1..] + y;
      NonSpaceAppend(x[1..], y);
    }
  }

  lemma {:induction false} NonSpaceOfToken(x: string)
    requires forall i :: 0 <= i < |x| ==> !IsSpace(x[i])
    ensures NonSpace(x) == x
    decreases |x|
  {
    if x != [] {
      NonSpaceOfToken(x[1..]);
    }
  }

  /** Splitting loses exactly the whitespace: gluing the tokens back
      together gives the non-whitespace characters of `s`. */
  lemma {:induction false} SplitKeepsNonSpace(s: string)
    ensures Concat(Split(s)) == NonSpace(s)
    decreases |s|
  {
    if s == [] {
    } else if IsSpace(s[0]) {
      SplitKeepsNonSpace(s[1..]);
    } else {
      var j := TokenEnd(s, 0);
      SplitKeepsNonSpace(s[j..]);
      assert s == s[..j] + s[j..];
      NonSpaceAppend(s[..j], s[j..]);
      NonSpaceOfToken(s[..j]);
      assert Split(s)[1..] == Split(s[j..]);
    }
  }

  lemma {:induction false} ConcatOfNonEmpty(ts: seq<string>)
    requires forall k :: 0 <= k < |ts| ==> ts[k] != []
    ensures |ts| <= |Concat(ts)|
  {
    if ts != [] {
      ConcatOfNonEmpty(ts[1..]);
    }
  }

  /** The number of positions of `s` where a token starts: a non-whitespace
      character at the start of the text (when `afterSpace` holds) or just
      after a whitespace character. */
  function TokenStarts(s: string, afterSpace: bool): nat
    decreases |s|
  {
    if s == [] then 0
    else (if !IsSpace(s[0]) && afterSpace then 1 else 0) + TokenStarts(s[1..], IsSpace(s[0]))
  }

  /** Inside a token no new one starts. */
  lemma {:induction false} TokenStartsSkipsToken(s: string, k: nat)
    requires k <= |s|
    requires forall i :: 0 <= i < k ==> !IsSpace(s[i])
    ensures TokenStarts(s, false) == TokenStarts(s[k..], false)
    decreases k
  {
    if k > 0 {
      TokenStartsSkipsToken(s[1..], k - 1);
      assert s[1..][k - 1..] == s[k..];
    }
  }

  /** A non-empty run of non-whitespace characters. */
  predicate IsWord(w: string) {
    w != [] && forall i :: 0 <= i < |w| ==> !IsSpace(w[i])
  }

  lemma TokenStartsOfWord(w: string)
    requires IsWord(w)
    ensures TokenStarts(w, true) == 1
  {
    TokenStartsSkipsToken(w[1..], |w| - 1);
    assert w[1..][|w| - 1..] == [];
  }

  /** A word followed by a space starts one token before the rest. */
  lemma WordThenSpace(w: string, rest: string)
    requires IsWord(w)
    ensures TokenStarts(w + " " + rest, true) == 1 + TokenStarts(rest, true)
  {
    var s := w + " " + rest;
    assert s[0] == w[0];
    assert forall i :: 0 <= i < |w| - 1 ==> s[1..][i] == w[i + 1];
    TokenStartsSkipsToken(s[1..], |w| - 1);
    assert s[1..][|w| - 1..] == [' '] + rest;
    assert ([' '] + rest)[1..] == rest;
  }

  /** `len(s.split())` is the number of token starts of `s`. */
  lemma {:induction false} SplitCount(s: string)
    ensures |Split(s)| == TokenStarts(s, true)
    decreases |s|
  {
    if s == [] {
    } else if IsSpace(s[0]) {
      SplitCount(s[1..]);
    } else {
      var j := TokenEnd(s, 0);
      var rest := s[j..];
      TokenStartsSkipsToken(s[1..], j - 1);
      assert s[1..][j - 1..] == rest;
      assert TokenStarts(rest, false) == TokenStarts(rest, true);
      SplitCount(rest);
    }
  }

  /** A text with fewer than `n` non-whitespace characters has fewer than
      `n` tokens. */
  lemma TokensBoundedByCharacters(s: string)
    ensures |Split(s)| <= |NonSpace(s)|
  {
    SplitKeepsNonSpace(s);
    ConcatOfNonEmpty(Split(s));
  }

  /** `s.split()` is empty exactly when `s.strip()` is. */
  lemma {:induction false} SplitEmptyIffBlank(s: string)
    ensures Split(s) == [] <==> IsBlank(s)
    decreases |s|
  {
    if s != [] && IsSpace(s[0]) {
      SplitEmptyIffBlank(s[1..]);
      assert IsBlank(s) <==> IsBlank(s[1..]) by {
        if IsBlank(s[1..]) {
          forall i | 0 <= i < |s| ensures IsSpace(s[i]) {
            if i > 0 { assert s[i] == s[1..][i - 1]; }
          }
        }
      }
    }
  }

  // ---------------------------------------------------------------------
  // `re.search(r'\b' + re.escape(w) + r'\b', t, re.IGNORECASE)`

  /** `\b` at position `i`: a word character on exactly one side of `i`
      (outside the string counts as a non-word character). */
  predicate Boundary(t: string, i: nat)
    requires i <= |t|
  {
    (i > 0 && IsWordChar(t[i - 1])) != (i < |t| && IsWordChar(t[i]))
  }

  /** The escaped literal `w` matches `t` at `i`, ignoring ASCII case. */
  predicate CaseEqAt(t: string, w: string, i: nat)
    requires i + |w| <= |t|
  {
    forall k :: 0 <= k < |w| ==> Lower(t[i + k]) == Lower(w[k])
  }

  /** The pattern `\b w \b` matches `t` starting at `i`. */
  predicate WordAt(t: string, w: string, i: nat) {
    i + |w| <= |t| && Boundary(t, i) && CaseEqAt(t, w, i) && Boundary(t, i + |w|)
  }

  /** Scans the start positions `i`, `i + 1`, ... as `re.search` does. */
  function SearchFrom(t: string, w: string, i: nat): bool
    requires i <= |t|
    decreases |t| - i
  {
    WordAt(t, w, i) || (i < |t| && SearchFrom(t, w, i + 1))
  }

  /** `re.search(r'\b' + re.escape(w) + r'\b', t, re.IGNORECASE)` is not None. */
  function ContainsWord(t: string, w: string): bool {
    SearchFrom(t, w, 0)
  }

  lemma {:induction false} SearchFromFinds(t: string, w: string, i: nat)
    requires i <= |t|
    ensures SearchFrom(t, w, i) <==> exists j :: i <= j <= |t| && WordAt(t, w, j)
    decreases |t| - i
  {
    if i < |t| {
      SearchFromFinds(t, w, i + 1);
    }
  }

  /** The search succeeds exactly when the pattern matches at some position. */
  lemma ContainsWordFinds(t: string, w: string)
    ensures ContainsWord(t, w) <==> exists j :: 0 <= j <= |t| && WordAt(t, w, j)
  {
    SearchFromFinds(t, w, 0);
  }

  /** For a keyword that begins and ends with a word character, `\b ... \b`
      means: an occurrence preceded and followed by a non-word character or
      an end of the text. */
  lemma WordAtMeansDelimited(t: string, w: string, i: nat)
    requires w != [] && IsWordChar(w[0]) && IsWordChar(w[|w| - 1])
    ensures WordAt(t, w, i) <==>
      && i + |w| <= |t| && CaseEqAt(t, w, i)
      && (i == 0 || !IsWordChar(t[i - 1]))
      && (i + |w| == |t| || !IsWordChar(t[i + |w|]))
  {
    if i + |w| <= |t| && CaseEqAt(t, w, i) {
      SameCaseSameClass(t[i], w[0]);
      assert t[i + |w| - 1] == t[i + (|w| - 1)];
      SameCaseSameClass(t[i + |w| - 1], w[|w| - 1]);
    }
  }

  /** Case-insensitivity: the match positions do not depend on ASCII case. */
  lemma WordAtIgnoresCase(t: string, u: string, w: string, i: nat)
    requires SameUpToCase(t, u)
    ensures WordAt(t, w, i) == WordAt(u, w, i)
  {
    if i + |w| <= |t| {
      if i > 0 { SameCaseSameClass(t[i - 1], u[i - 1]); }
      if i < |t| { SameCaseSameClass(t[i], u[i]); }
      if i + |w| < |t| { SameCaseSameClass(t[i + |w|], u[i + |w|]); }
      if i + |w| > 0 { SameCaseSameClass(t[i + |w| - 1], u[i + |w| - 1]); }
      assert CaseEqAt(t, w, i) == CaseEqAt(u, w, i) by {
        if CaseEqAt(t, w, i) {
          forall k | 0 <= k < |w| ensures Lower(u[i + k]) == Lower(w[k]) {
            assert Lower(t[i + k]) == Lower(u[i + k]);
          }
        }
        if CaseEqAt(u, w, i) {
          forall k | 0 <= k < |w| ensures Lower(t[i + k]) == Lower(w[k]) {
            assert Lower(t[i + k]) == Lower(u[i + k]);
          }
        }
      }
    }
  }

  lemma ContainsWordIgnoresCase(t: string, u: string, w: string)
    requires SameUpToCase(t, u)
    ensures ContainsWord(t, w) == ContainsWord(u, w)
  {
    ContainsWordFinds(t, w);
    ContainsWordFinds(u, w);
    if ContainsWord(t, w) {
      var j :| 0 <= j <= |t| && WordAt(t, w, j);
      WordAtIgnoresCase(t, u, w, j);
    }
    if ContainsWord(u, w) {
      var j :| 0 <= j <= |u| && WordAt(u, w, j);
      WordAtIgnoresCase(t, u, w, j);
    }
  }

  // ---------------------------------------------------------------------
  // digits and `int(...)`

  /** End of the run of ASCII digits that starts at `i` (greedy `\d+`/`\d*`). */
  function DigitsEnd(s: string, i: nat): (j: nat)
    requires i <= |s|
    ensures i <= j <= |s|
    ensures forall k :: i <= k < j ==> IsDigit(s[k])
    ensures j == |s| || !IsDigit(s[j])
    decreases |s| - i
  {
    if i < |s| && IsDigit(s[i]) then DigitsEnd(s, i + 1) else i
  }

  predicate AllDigits(s: string) { forall i :: 0 <= i < |s| ==> IsDigit(s[i]) }

  /** `int(ds)` for a string of ASCII digits (leading zeros allowed). */
  function DecimalValue(ds: string): nat
    requires AllDigits(ds)
  {
    if ds == [] then 0
    else DecimalValue(ds[..|ds| - 1]) * 10 + (ds[|ds| - 1] as int - '0' as int)
  }

  /** `str(n)`: the decimal numeral of `n`, without leading zeros. */
  function Numeral(n: nat): (ds: string)
    ensures ds != [] && AllDigits(ds)
  {
    var d := ('0' as int + n % 10) as char;
    if n < 10 then [d] else Numeral(n / 10) + [d]
  }

  /** A string of zeros has value zero. */
  lemma {:induction false} ZerosValue(zs: string)
    requires forall k :: 0 <= k < |zs| ==> zs[k] == '0'
    ensures AllDigits(zs) && DecimalValue(zs) == 0
    decreases |zs|
  {
    if zs != [] {
      ZerosValue(zs[..|zs| - 1]);
    }
  }

  /** Leading zeros do not change the value, as for `int`. */
  lemma {:induction false} LeadingZerosValue(zs: string, ds: string)
    requires forall k :: 0 <= k < |zs| ==> zs[k] == '0'
    requires AllDigits(ds)
    ensures AllDigits(zs + ds) && DecimalValue(zs + ds) == DecimalValue(ds)
    decreases |ds|
  {
    ZerosValue(zs);
    if ds == [] {
      assert zs + ds == zs;
    } else {
      var s := zs + ds;
      assert s[..|s| - 1] == zs + ds[..|ds| - 1];
      LeadingZerosValue(zs, ds[..|ds| - 1]);
    }
  }

  lemma {:induction false} NumeralValue(n: nat)
    ensures DecimalValue(Numeral(n)) == n
  {
    var ds := Numeral(n);
    if n >= 10 {
      NumeralValue(n / 10);
      assert ds[..|ds| - 1] == Numeral(n / 10);
    }
  }
}
