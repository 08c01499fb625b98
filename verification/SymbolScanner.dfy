/** The ticker extractor: a regular-expression scan for `\b([A-Z]{2,10})\b`, against splitting the
    text into words. The character class `\w` is a parameter; all it must do is contain A-Z. */
module SymbolScanner {
  import opened Options

  predicate IsCapital(c: char) {
    'A' <= c <= 'Z'
  }

  ghost predicate ContainsCapitals(isWord: char -> bool) {
    forall c :: IsCapital(c) ==> isWord(c)
  }

  datatype Span = Span(start: nat, end: nat)

  /** There is a word character at position `i`. */
  predicate WordAt(text: string, isWord: char -> bool, i: int) {
    0 <= i < |text| && isWord(text[i])
  }

  /** `\b`: exactly one side of position `i` is a word character. */
  predicate Boundary(text: string, isWord: char -> bool, i: int) {
    WordAt(text, isWord, i - 1) != WordAt(text, isWord, i)
  }

  // ---- the scan ----

  /** Where the capitals that start at `i` end, reading at most `limit` of them. */
  function CapitalsEnd(text: string, i: nat, limit: nat): (e: nat)
    ensures i <= e <= i + limit && (i < e ==> e <= |text|)
    ensures forall k :: i <= k < e ==> IsCapital(text[k])
    ensures e < i + limit ==> |text| <= e || !IsCapital(text[e])
    decreases limit
  {
    if limit == 0 || |text| <= i || !IsCapital(text[i]) then i else CapitalsEnd(text, i + 1, limit - 1)
  }

  /** Gives back capitals one at a time, down to two, until the closing `\b` holds. */
  function Backtrack(text: string, isWord: char -> bool, i: nat, e: nat): (m: Option<nat>)
    ensures m.Some? ==> i + 2 <= m.value <= e && Boundary(text, isWord, m.value)
    ensures m.None? ==> forall k :: i + 2 <= k <= e ==> !Boundary(text, isWord, k)
    decreases e
  {
    if e < i + 2 then None
    else if Boundary(text, isWord, e) then Some(e)
    else Backtrack(text, isWord, i, e - 1)
  }

  /** The end of the match that starts at `i`: opening `\b`, two to ten capitals (greedy), closing
      `\b`. */
  function MatchAt(text: string, isWord: char -> bool, i: nat): (m: Option<nat>)
    ensures m.Some? ==> i + 2 <= m.value <= |text|
  {
    if Boundary(text, isWord, i) then Backtrack(text, isWord, i, CapitalsEnd(text, i, 10)) else None
  }

  /** Leftmost, non-overlapping matches from `i` on. */
  function Scan(text: string, isWord: char -> bool, i: nat): seq<Span>
    decreases |text| - i
  {
    if |text| <= i then []
    else
      match MatchAt(text, isWord, i)
      case Some(e) => [Span(i, e)] + Scan(text, isWord, e)
      case None => Scan(text, isWord, i + 1)
  }

  // ---- the tokeniser ----

  /** Where the word that starts (or goes on) at `i` ends. */
  function WordEnd(text: string, isWord: char -> bool, i: nat): (j: nat)
    requires i <= |text|
    ensures i <= j <= |text| && !WordAt(text, isWord, j)
    ensures forall k :: i <= k < j ==> isWord(text[k])
    decreases |text| - i
  {
    if WordAt(text, isWord, i) then WordEnd(text, isWord, i + 1) else i
  }

  /** Two to ten capitals and nothing else. */
  predicate IsTicker(s: string) {
    2 <= |s| <= 10 && forall k :: 0 <= k < |s| ==> IsCapital(s[k])
  }

  /** Split into words, keep those that are tickers. */
  function Tokens(text: string, isWord: char -> bool, i: nat): seq<Span>
    decreases |text| - i
  {
    if |text| <= i then []
    else if !isWord(text[i]) then Tokens(text, isWord, i + 1)
    else
      var j := WordEnd(text, isWord, i + 1);
      (if IsTicker(text[i..j]) then [Span(i, j)] else []) + Tokens(text, isWord, j)
  }

  // ---- they agree ----

  /** Inside a word nothing matches. */
  lemma {:induction false} NoMatchInsideWord(text: string, isWord: char -> bool, i: nat, j: nat)
    requires i <= j <= |text| && WordAt(text, isWord, i - 1)
    requires forall k :: i <= k < j ==> isWord(text[k])
    ensures Scan(text, isWord, i) == Scan(text, isWord, j)
    decreases j - i
  {
    hide CapitalsEnd, Backtrack;
    if i < j {
      NoMatchInsideWord(text, isWord, i + 1, j);
    }
  }

  /** Within a word's capitals, the only closing boundary is the end of the word. */
  lemma {:induction false} BoundariesOfWord(text: string, isWord: char -> bool, i: nat, j: nat, e: nat)
    requires ContainsCapitals(isWord) && i < j <= |text| && i <= e && (i < e ==> e <= |text|)
    requires !WordAt(text, isWord, j)
    requires forall k :: i <= k < j ==> isWord(text[k])
    requires forall k :: i <= k < e ==> IsCapital(text[k])
    ensures e <= j
    ensures forall k :: i < k <= e ==> (Boundary(text, isWord, k) <==> k == j)
  {
    assert j < |text| ==> !IsCapital(text[j]);
    forall k | i < k <= e ensures Boundary(text, isWord, k) <==> k == j {
      assert IsCapital(text[k - 1]);
    }
  }

  /** At the start of a word the scan matches all of it if it is a ticker, and nothing otherwise. */
  lemma {:induction false} MatchAtWord(text: string, isWord: char -> bool, i: nat, j: nat)
    requires ContainsCapitals(isWord) && i < j <= |text|
    requires !WordAt(text, isWord, i - 1) && !WordAt(text, isWord, j)
    requires forall k :: i <= k < j ==> isWord(text[k])
    ensures MatchAt(text, isWord, i) == if IsTicker(text[i..j]) then Some(j) else None
  {
    hide CapitalsEnd, Backtrack;
    var e := CapitalsEnd(text, i, 10);
    BoundariesOfWord(text, isWord, i, j, e);
    var word := text[i..j];
    forall k | i <= k < j ensures text[k] == word[k - i] {
    }
    if IsTicker(word) {
      assert e == j;
      assert Boundary(text, isWord, i) && Boundary(text, isWord, j);
      assert MatchAt(text, isWord, i) == Backtrack(text, isWord, i, e);
    } else if e == j {
      forall k | 0 <= k < |word| ensures IsCapital(word[k]) {
        assert word[k] == text[i + k];
      }
    }
  }

  /** The position after a word holds no word character, so both sides skip it. */
  lemma {:induction false} AfterWord(text: string, isWord: char -> bool, j: nat)
    requires j < |text| && !WordAt(text, isWord, j) && ContainsCapitals(isWord)
    ensures Tokens(text, isWord, j) == Tokens(text, isWord, j + 1)
    ensures Scan(text, isWord, j) == Scan(text, isWord, j + 1)
  {
    assert !IsCapital(text[j]);
    assert CapitalsEnd(text, j, 10) == j;
  }

  /** A whole word at once. */
  lemma {:induction false} ScanOfWord(text: string, isWord: char -> bool, i: nat, j: nat)
    requires ContainsCapitals(isWord) && i < j <= |text|
    requires !WordAt(text, isWord, i - 1) && !WordAt(text, isWord, j)
    requires forall k :: i <= k < j ==> isWord(text[k])
    ensures Scan(text, isWord, i) == (if IsTicker(text[i..j]) then [Span(i, j)] else []) + Scan(text, isWord, j)
  {
    hide MatchAt, IsTicker;
    MatchAtWord(text, isWord, i, j);
    if !IsTicker(text[i..j]) {
      NoMatchInsideWord(text, isWord, i + 1, j);
    }
  }

  /** The regular expression finds exactly what the tokeniser keeps, in the same order. */
  lemma {:induction false} ScanIsTokenise(text: string, isWord: char -> bool, i: nat)
    requires ContainsCapitals(isWord) && !WordAt(text, isWord, i - 1)
    ensures Scan(text, isWord, i) == Tokens(text, isWord, i)
    decreases |text| - i
  {
    hide MatchAt, IsTicker, ContainsCapitals;
    if i < |text| {
      if isWord(text[i]) {
        var j := WordEnd(text, isWord, i + 1);
        ScanOfWord(text, isWord, i, j);
        if j < |text| {
          AfterWord(text, isWord, j);
          ScanIsTokenise(text, isWord, j + 1);
        }
      } else {
        AfterWord(text, isWord, i);
        ScanIsTokenise(text, isWord, i + 1);
      }
    }
  }

  // ---- what the tokens are ----

  /** A maximal run of word characters. */
  predicate IsWordSpan(text: string, isWord: char -> bool, s: Span) {
    && s.start < s.end <= |text|
    && !WordAt(text, isWord, s.start - 1) && !WordAt(text, isWord, s.end)
    && forall k :: s.start <= k < s.end ==> isWord(text[k])
  }

  predicate IsTickerSpan(text: string, isWord: char -> bool, s: Span) {
    IsWordSpan(text, isWord, s) && IsTicker(text[s.start..s.end])
  }

  lemma {:induction false} WordSpanEnds(text: string, isWord: char -> bool, s: Span, i: nat, j: nat)
    requires IsWordSpan(text, isWord, s) && IsWordSpan(text, isWord, Span(i, j))
    ensures s.start < i ==> s.end < i
    ensures s.start == i ==> s.end == j
    ensures i < s.start ==> j < s.start
  {
    assert WordAt(text, isWord, s.start) && WordAt(text, isWord, i);
    assert s.start < i <= s.end ==> WordAt(text, isWord, i - 1);
    assert i < s.start <= j ==> WordAt(text, isWord, s.start - 1);
  }

  /** Every ticker word from `i` on is a token, and nothing else is. */
  lemma {:induction false} TokensAreTickerWords(text: string, isWord: char -> bool, i: nat, s: Span)
    requires !WordAt(text, isWord, i - 1)
    ensures s in Tokens(text, isWord, i) <==> i <= s.start && IsTickerSpan(text, isWord, s)
    decreases |text| - i
  {
    hide IsTicker;
    if i < |text| {
      if !isWord(text[i]) {
        TokensAreTickerWords(text, isWord, i + 1, s);
        assert s.start == i ==> !IsWordSpan(text, isWord, s);
      } else {
        var j := WordEnd(text, isWord, i + 1);
        assert IsWordSpan(text, isWord, Span(i, j));
        if j < |text| {
          TokensAreTickerWords(text, isWord, j + 1, s);
        }
        if IsWordSpan(text, isWord, s) {
          WordSpanEnds(text, isWord, s, i, j);
          assert s.start != j;
        }
      }
    }
  }

  /** A span is matched if and only if it is a maximal word run of two to ten capitals: no match is
      part of a longer word, and no such word is missed. */
  lemma {:induction false} ScanFindsTheTickerWords(text: string, isWord: char -> bool, s: Span)
    requires ContainsCapitals(isWord)
    ensures s in Scan(text, isWord, 0) <==> IsTickerSpan(text, isWord, s)
  {
    hide Scan, Tokens, IsTickerSpan;
    ScanIsTokenise(text, isWord, 0);
    TokensAreTickerWords(text, isWord, 0, s);
  }

  /** `extract_symbols`. */
  function ExtractSymbols(text: Option<string>, isWord: char -> bool): set<string> {
    match text
    case None => {}
    case Some(t) =>
      var spans := Scan(t, isWord, 0);
      set s | s in spans && s.start <= s.end <= |t| :: t[s.start..s.end]
  }

  /** The extracted set is the set of words of the text that are two to ten capitals. */
  lemma {:induction false} ExtractedAreTheTickers(text: string, isWord: char -> bool, symbol: string)
    requires ContainsCapitals(isWord)
    ensures symbol in ExtractSymbols(Some(text), isWord)
            <==> exists s :: IsTickerSpan(text, isWord, s) && symbol == text[s.start..s.end]
    ensures ExtractSymbols(None, isWord) == {}
  {
    hide Scan, IsTicker;
    forall s ensures s in Scan(text, isWord, 0) <==> IsTickerSpan(text, isWord, s) {
      ScanFindsTheTickerWords(text, isWord, s);
    }
  }
}
