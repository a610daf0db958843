/**
 * The text normaliser `tokenize_and_stem`: lower-case the text, replace
 * every character outside `[a-záéíóúüñ\s]` by one space, split on runs of
 * whitespace, drop tokens of length one and stem the rest.
 *
 * The Spanish Snowball stemmer is a foreign algorithm; it enters the model
 * as the parameter `stem`, about which nothing is assumed.
 */
module Normalizer {
  import opened Chars

  // ---------------------------------------------------------------------
  // Lower-casing and character substitution
  // ---------------------------------------------------------------------

  /** Python's `str.lower`, character by character, on the modelled alphabet. */
  function Lower(s: string): string {
    seq(|s|, i requires 0 <= i < |s| => LowerChar(s[i]))
  }

  /**
   * The regular-expression substitution: every character that is neither a
   * Spanish letter nor whitespace is replaced by one space.
   */
  function Substitute(s: string): string {
    seq(|s|, i requires 0 <= i < |s| => if IsSpanishLetter(s[i]) || IsSpace(s[i]) then s[i] else ' ')
  }

  /** The two character-level steps, in the source's order. */
  function CleanText(text: string): string {
    Substitute(Lower(text))
  }

  /**
   * What happens to one character of the input under `CleanText`; it is
   * not used to define `CleanText`, only to state `CleanTextAt`.
   */
  function CleanChar(c: char): char {
    var d := LowerChar(c);
    if IsSpanishLetter(d) || IsSpace(d) then d else ' '
  }

  /**
   * The filtered text has the input's length, and every position holds a
   * lower-case Spanish letter or whitespace: a letter (after lower-casing)
   * is kept, whitespace is kept as it was, anything else becomes one space.
   */
  lemma {:induction false} CleanTextAlphabet(text: string)
    ensures |CleanText(text)| == |text|
    ensures forall i :: 0 <= i < |text| ==>
      IsSpanishLetter(CleanText(text)[i]) || IsSpace(CleanText(text)[i])
    ensures forall i :: 0 <= i < |text| ==>
      (IsSpanishLetter(CleanText(text)[i]) <==> IsSpanishLetter(text[i]) || IsUpperLetter(text[i]))
    ensures forall i :: 0 <= i < |text| && (IsSpanishLetter(text[i]) || IsSpace(text[i])) ==>
      CleanText(text)[i] == text[i]
    ensures forall i :: 0 <= i < |text| && !IsSpanishLetter(LowerChar(text[i])) && !IsSpace(text[i]) ==>
      CleanText(text)[i] == ' '
  {
  }

  /** The character filter works position by position. */
  lemma {:induction false} CleanTextAt(text: string, i: nat)
    requires i < |text|
    ensures |CleanText(text)| == |text| && CleanText(text)[i] == CleanChar(text[i])
  {
  }

  /** The filter distributes over concatenation. */
  lemma {:induction false} CleanTextAppend(a: string, b: string)
    ensures CleanText(a + b) == CleanText(a) + CleanText(b)
  {
    var l, r := CleanText(a + b), CleanText(a) + CleanText(b);
    assert |l| == |r|;
    forall i | 0 <= i < |l| ensures l[i] == r[i] {
      CleanTextAt(a + b, i);
      if i < |a| {
        CleanTextAt(a, i);
      } else {
        CleanTextAt(b, i - |a|);
      }
    }
  }

  /** Applying lower-casing and substitution a second time changes nothing. */
  lemma {:induction false} CleanTextIdempotent(text: string)
    ensures CleanText(CleanText(text)) == CleanText(text)
  {
    var once := CleanText(text);
    forall i | 0 <= i < |once| ensures CleanText(once)[i] == once[i] {
      CleanTextAt(once, i);
      CleanTextAt(text, i);
    }
  }

  // ---------------------------------------------------------------------
  // Splitting on whitespace (`str.split()` with no argument)
  // ---------------------------------------------------------------------

  /** A token of `str.split()`: non-empty, no whitespace inside. */
  predicate IsWord(w: string) {
    |w| > 0 && forall i :: 0 <= i < |w| ==> !IsSpace(w[i])
  }

  /** Length of the maximal whitespace-free prefix of `s`. */
  function WordLen(s: string): (n: nat)
    ensures n <= |s|
    ensures forall i :: 0 <= i < n ==> !IsSpace(s[i])
    ensures n == |s| || IsSpace(s[n])
  {
    if s == [] || IsSpace(s[0]) then 0 else 1 + WordLen(s[1..])
  }

  /** `s.split()`: the maximal runs of non-whitespace characters, in order. */
  function Split(s: string): (r: seq<string>)
    ensures forall k :: 0 <= k < |r| ==> IsWord(r[k])
    decreases |s|
  {
    if s == [] then []
    else if IsSpace(s[0]) then Split(s[1..])
    else
      var n := WordLen(s);
      [s[..n]] + Split(s[n..])
  }

  /** The maximal prefix is unaffected by what follows a whitespace character. */
  lemma {:induction false} WordLenAppend(a: string, b: string)
    requires WordLen(a) < |a| || (b != [] && IsSpace(b[0]))
    ensures WordLen(a + b) == WordLen(a)
  {
    if a != [] && !IsSpace(a[0]) {
      assert (a + b)[1..] == a[1..] + b;
      WordLenAppend(a[1..], b);
    }
  }

  /** A string of whitespace only has no tokens. */
  lemma {:induction false} SplitAllSpace(s: string)
    requires AllSpace(s)
    ensures Split(s) == []
  {
    if s != [] {
      SplitAllSpace(s[1..]);
    }
  }

  /** A single word is its own only token. */
  lemma {:induction false} SplitWord(w: string)
    requires IsWord(w)
    ensures Split(w) == [w]
  {
    assert WordLen(w) == |w|;
    assert w[..|w|] == w;
    assert w[|w|..] == [];
  }

  /** Whitespace separates: the tokens on both sides of it are kept apart, in order. */
  lemma {:induction false} SplitAtSpace(a: string, c: char, b: string)
    requires IsSpace(c)
    ensures Split(a + [c] + b) == Split(a) + Split(b)
    decreases |a|
  {
    var s := a + [c] + b;
    if a == [] {
      assert s[1..] == b;
    } else if IsSpace(a[0]) {
      assert s[1..] == a[1..] + [c] + b;
      SplitAtSpace(a[1..], c, b);
    } else {
      var n := WordLen(a);
      assert s == a + ([c] + b);
      WordLenAppend(a, [c] + b);
      calc {
        Split(s);
        == { assert s[..n] == a[..n] && s[n..] == a[n..] + [c] + b; }
        [a[..n]] + Split(a[n..] + [c] + b);
        == { SplitAtSpace(a[n..], c, b); }
        [a[..n]] + (Split(a[n..]) + Split(b));
        ([a[..n]] + Split(a[n..])) + Split(b);
        Split(a) + Split(b);
      }
    }
  }

  predicate AllLetters(w: string) {
    forall i :: 0 <= i < |w| ==> IsSpanishLetter(w[i])
  }

  /** In a string of letters and whitespace, every token consists of letters. */
  lemma {:induction false} SplitLetters(s: string)
    requires forall i :: 0 <= i < |s| ==> IsSpanishLetter(s[i]) || IsSpace(s[i])
    ensures forall k :: 0 <= k < |Split(s)| ==> AllLetters(Split(s)[k])
    decreases |s|
  {
    if s == [] {
    } else if IsSpace(s[0]) {
      SplitLetters(s[1..]);
    } else {
      var n := WordLen(s);
      SplitLetters(s[n..]);
      assert Split(s) == [s[..n]] + Split(s[n..]);
    }
  }

  /** Tokens never span two words: splitting joined words gives the words back. */
  lemma {:induction false} SplitJoin(ws: seq<string>)
    requires forall k :: 0 <= k < |ws| ==> IsWord(ws[k])
    ensures Split(JoinWords(ws)) == ws
  {
    if |ws| == 1 {
      SplitWord(ws[0]);
    } else if |ws| > 1 {
      SplitAtSpace(ws[0], ' ', JoinWords(ws[1..]));
      SplitWord(ws[0]);
      SplitJoin(ws[1..]);
    }
  }

  /** The words joined by single spaces. */
  function JoinWords(ws: seq<string>): string {
    if |ws| == 0 then []
    else if |ws| == 1 then ws[0]
    else ws[0] + [' '] + JoinWords(ws[1..])
  }

  // ---------------------------------------------------------------------
  // The length filter (`if len(t) > 1`)
  // ---------------------------------------------------------------------

  /** The tokens longer than one character, in their order, duplicates kept. */
  function LongTokens(ts: seq<string>): seq<string> {
    if ts == [] then []
    else (if |ts[0]| > 1 then [ts[0]] else []) + LongTokens(ts[1..])
  }

  /**
   * The filter keeps a token exactly when it is longer than one character,
   * and keeps it as often as it occurs; it never adds or lengthens.
   */
  lemma {:induction false} LongTokensSpec(ts: seq<string>)
    ensures |LongTokens(ts)| <= |ts|
    ensures forall k :: 0 <= k < |LongTokens(ts)| ==> |LongTokens(ts)[k]| > 1
    ensures forall t :: multiset(LongTokens(ts))[t] == if |t| > 1 then multiset(ts)[t] else 0
  {
    if ts != [] {
      LongTokensSpec(ts[1..]);
      assert ts == [ts[0]] + ts[1..];
    }
  }

  lemma {:induction false} LongTokensSingle(t: string)
    ensures LongTokens([t]) == if |t| > 1 then [t] else []
  {
    assert [t][1..] == [];
  }

  lemma {:induction false} LongTokensKeepLetters(ts: seq<string>)
    requires forall k :: 0 <= k < |ts| ==> AllLetters(ts[k])
    ensures forall k :: 0 <= k < |LongTokens(ts)| ==> AllLetters(LongTokens(ts)[k])
  {
    if ts != [] {
      LongTokensKeepLetters(ts[1..]);
    }
  }

  lemma {:induction false} LongTokensAppend(a: seq<string>, b: seq<string>)
    ensures LongTokens(a + b) == LongTokens(a) + LongTokens(b)
  {
    if a == [] {
      assert a + b == b;
    } else {
      assert (a + b)[0] == a[0];
      assert (a + b)[1..] == a[1..] + b;
      LongTokensAppend(a[1..], b);
    }
  }

  // ---------------------------------------------------------------------
  // tokenize_and_stem
  // ---------------------------------------------------------------------

  /** The surviving tokens, before stemming. */
  function Tokens(text: string): seq<string> {
    LongTokens(Split(CleanText(text)))
  }

  /**
   * `tokenize_and_stem(text)`, with the stemmer as a parameter: one stem
   * per surviving token, in the tokens' order, duplicates kept.
   */
  function TokenizeAndStem(text: string, stem: string -> string): seq<string> {
    var ts := Tokens(text);
    seq(|ts|, k requires 0 <= k < |ts| => stem(ts[k]))
  }

  /**
   * Every surviving token has at least two characters, each a lower-case
   * Spanish letter, and the tokens are exactly the long tokens of the
   * filtered text, each as often as it occurs there.
   */
  lemma {:induction false} TokensSpec(text: string)
    ensures forall k :: 0 <= k < |Tokens(text)| ==> |Tokens(text)[k]| >= 2 && AllLetters(Tokens(text)[k])
    ensures forall t :: multiset(Tokens(text))[t] == (if |t| > 1 then multiset(Split(CleanText(text)))[t] else 0)
  {
    var clean := CleanText(text);
    CleanTextAlphabet(text);
    SplitLetters(clean);
    LongTokensSpec(Split(clean));
    LongTokensKeepLetters(Split(clean));
  }

  /** Whitespace in the input separates tokens: the stems on either side are concatenated. */
  lemma {:induction false} TokenizeAndStemAtSpace(a: string, c: char, b: string, stem: string -> string)
    requires IsSpace(c)
    ensures TokenizeAndStem(a + [c] + b, stem) == TokenizeAndStem(a, stem) + TokenizeAndStem(b, stem)
  {
    CleanTextAppend(a + [c], b);
    CleanTextAppend(a, [c]);
    assert CleanText([c]) == [c];
    assert CleanText(a + [c] + b) == CleanText(a) + [c] + CleanText(b);
    SplitAtSpace(CleanText(a), c, CleanText(b));
    LongTokensAppend(Split(CleanText(a)), Split(CleanText(b)));
  }

  /** A character outside the letter class acts exactly like a space. */
  lemma {:induction false} TokenizeAndStemOtherChar(a: string, c: char, b: string, stem: string -> string)
    requires !IsSpanishLetter(LowerChar(c))
    ensures TokenizeAndStem(a + [c] + b, stem) == TokenizeAndStem(a + [' '] + b, stem)
  {
    CleanTextAppend(a + [c], b);
    CleanTextAppend(a, [c]);
    CleanTextAppend(a + [' '], b);
    CleanTextAppend(a, [' ']);
    assert CleanText([c]) == [CleanChar(c)];
    assert CleanText([' ']) == [' '];
    SplitAtSpace(CleanText(a), CleanChar(c), CleanText(b));
    SplitAtSpace(CleanText(a), ' ', CleanText(b));
  }

  /** A word of two or more letters yields the stem of its lower-case form. */
  lemma {:induction false} TokenizeAndStemWord(w: string, stem: string -> string)
    requires |w| >= 2
    requires forall i :: 0 <= i < |w| ==> IsSpanishLetter(LowerChar(w[i]))
    ensures TokenizeAndStem(w, stem) == [stem(Lower(w))]
  {
    var lw := Lower(w);
    assert CleanText(w) == lw;
    SplitWord(lw);
    LongTokensSingle(lw);
  }

  /** A single letter is dropped. */
  lemma {:induction false} TokenizeAndStemLetter(c: char, stem: string -> string)
    ensures TokenizeAndStem([c], stem) == []
  {
    var clean := CleanText([c]);
    if !IsSpace(clean[0]) {
      SplitWord(clean);
      LongTokensSingle(clean);
    } else {
      SplitAllSpace(clean);
    }
  }

  /** The empty text has no stems. */
  lemma {:induction false} TokenizeAndStemEmpty(stem: string -> string)
    ensures TokenizeAndStem([], stem) == []
  {
  }

  /** Some two adjacent positions hold a non-whitespace character each. */
  predicate HasWordPair(s: string) {
    exists i :: 0 <= i < |s| - 1 && !IsSpace(s[i]) && !IsSpace(s[i + 1])
  }

  /** A string has a token of length two or more exactly when it has two adjacent non-space characters. */
  lemma {:induction false} LongTokensOfSplitEmpty(s: string)
    ensures LongTokens(Split(s)) == [] <==> !HasWordPair(s)
    decreases |s|
  {
    if s == [] {
    } else if IsSpace(s[0]) {
      LongTokensOfSplitEmpty(s[1..]);
      if HasWordPair(s) {
        var i :| 0 <= i < |s| - 1 && !IsSpace(s[i]) && !IsSpace(s[i + 1]);
        assert !IsSpace(s[1..][i - 1]) && !IsSpace(s[1..][i]);
      }
      if HasWordPair(s[1..]) {
        var i :| 0 <= i < |s| - 2 && !IsSpace(s[1..][i]) && !IsSpace(s[1..][i + 1]);
        assert !IsSpace(s[i + 1]) && !IsSpace(s[i + 2]);
      }
    } else {
      var n := WordLen(s);
      var rest := s[n..];
      assert Split(s) == [s[..n]] + Split(rest);
      LongTokensAppend([s[..n]], Split(rest));
      LongTokensOfSplitEmpty(rest);
      if n >= 2 {
        assert !IsSpace(s[0]) && !IsSpace(s[1]);
      } else {
        assert n == 1;
        if HasWordPair(s) {
          var i :| 0 <= i < |s| - 1 && !IsSpace(s[i]) && !IsSpace(s[i + 1]);
          assert i != 0;
          assert !IsSpace(rest[i - 1]) && !IsSpace(rest[i]);
        }
        if HasWordPair(rest) {
          var i :| 0 <= i < |rest| - 1 && !IsSpace(rest[i]) && !IsSpace(rest[i + 1]);
          assert !IsSpace(s[i + 1]) && !IsSpace(s[i + 2]);
        }
      }
    }
  }

  /** Two adjacent characters of the text are letters once lower-cased. */
  predicate HasLetterPair(text: string) {
    exists i :: 0 <= i < |text| - 1 && IsSpanishLetter(LowerChar(text[i])) && IsSpanishLetter(LowerChar(text[i + 1]))
  }

  /** After filtering, a character is non-whitespace exactly when it was a letter once lower-cased. */
  lemma CleanCharLetter(c: char)
    ensures !IsSpace(CleanChar(c)) <==> IsSpanishLetter(LowerChar(c))
  {
  }

  lemma {:induction false} CleanTextWordPair(text: string)
    ensures HasWordPair(CleanText(text)) <==> HasLetterPair(text)
  {
    var clean := CleanText(text);
    assert |clean| == |text|;
    if HasWordPair(clean) {
      var i :| 0 <= i < |clean| - 1 && !IsSpace(clean[i]) && !IsSpace(clean[i + 1]);
      CleanTextAt(text, i);
      CleanTextAt(text, i + 1);
      CleanCharLetter(text[i]);
      CleanCharLetter(text[i + 1]);
      assert IsSpanishLetter(LowerChar(text[i])) && IsSpanishLetter(LowerChar(text[i + 1]));
    }
    if HasLetterPair(text) {
      var i :| 0 <= i < |text| - 1 && IsSpanishLetter(LowerChar(text[i])) && IsSpanishLetter(LowerChar(text[i + 1]));
      CleanTextAt(text, i);
      CleanTextAt(text, i + 1);
      CleanCharLetter(text[i]);
      CleanCharLetter(text[i + 1]);
      assert !IsSpace(clean[i]) && !IsSpace(clean[i + 1]);
    }
  }

  /**
   * No stems come out exactly when the text has no two adjacent
   * characters that are letters once lower-cased.
   */
  lemma {:induction false} TokenizeAndStemEmptyIff(text: string, stem: string -> string)
    ensures TokenizeAndStem(text, stem) == [] <==> !HasLetterPair(text)
  {
    LongTokensOfSplitEmpty(CleanText(text));
    CleanTextWordPair(text);
    assert TokenizeAndStem(text, stem) == [] <==> Tokens(text) == [];
  }

  /**
   * A worked example: "¿Qué es y?" gives the stems of "qué" and "es"; the
   * question marks become spaces and the lone "y" is dropped.
   */
  lemma {:induction false} ExampleQuestion(stem: string -> string)
    ensures TokenizeAndStem("\U{BF}Qu\U{E9} es y?", stem) == [stem("qu\U{E9}"), stem("es")]
  {
    var head := [] + ['\U{BF}'] + "Qu\U{E9}";
    var tail := "es" + [' '] + ("y" + ['?'] + []);
    ExampleHead(stem);
    ExampleTail(stem);
    assert "\U{BF}Qu\U{E9} es y?" == head + [' '] + tail;
    TokenizeAndStemAtSpace(head, ' ', tail, stem);
  }

  lemma {:induction false} ExampleHead(stem: string -> string)
    ensures TokenizeAndStem([] + ['\U{BF}'] + "Qu\U{E9}", stem) == [stem("qu\U{E9}")]
  {
    var que := "Qu\U{E9}";
    TokenizeAndStemOtherChar([], '\U{BF}', que, stem);
    TokenizeAndStemAtSpace([], ' ', que, stem);
    TokenizeAndStemEmpty(stem);
    assert [] + TokenizeAndStem(que, stem) == TokenizeAndStem(que, stem);
    ExampleWord(stem);
  }

  lemma {:induction false} ExampleWord(stem: string -> string)
    ensures TokenizeAndStem("Qu\U{E9}", stem) == [stem("qu\U{E9}")]
  {
    var que := "Qu\U{E9}";
    assert que == ['Q', 'u', '\U{E9}'];
    assert LowerChar('Q') == 'q';
    assert IsSpanishLetter(LowerChar(que[0])) && IsSpanishLetter(LowerChar(que[1])) && IsSpanishLetter(LowerChar(que[2]));
    TokenizeAndStemWord(que, stem);
    assert Lower(que) == "qu\U{E9}";
  }

  lemma {:induction false} ExampleTail(stem: string -> string)
    ensures TokenizeAndStem("es" + [' '] + ("y" + ['?'] + []), stem) == [stem("es")]
  {
    ExampleDrop(stem);
    TokenizeAndStemAtSpace("es", ' ', "y" + ['?'] + [], stem);
    TokenizeAndStemWord("es", stem);
    assert Lower("es") == "es";
  }

  lemma {:induction false} ExampleDrop(stem: string -> string)
    ensures TokenizeAndStem("y" + ['?'] + [], stem) == []
  {
    TokenizeAndStemOtherChar("y", '?', [], stem);
    TokenizeAndStemAtSpace("y", ' ', [], stem);
    TokenizeAndStemEmpty(stem);
    TokenizeAndStemLetter('y', stem);
    assert "y" == ['y'];
  }
}
