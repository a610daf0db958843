/**
 * Preparing the corpus and checking the two inputs before analysis:
 * the text area is split on "\n", each line is stripped, blank lines are
 * dropped; then an empty corpus is reported before a blank question.
 */
module Corpus {
  import opened Chars

  // ---------------------------------------------------------------------
  // Splitting on "\n" (`str.split("\n")`) and joining back
  // ---------------------------------------------------------------------

  /** A piece of `split("\n")`: it holds no "\n". */
  predicate IsLine(l: string) {
    forall i :: 0 <= i < |l| ==> l[i] != '\n'
  }

  /** Position of the first "\n" in `s`, or `|s|` when there is none. */
  function LineLen(s: string): (n: nat)
    ensures n <= |s|
    ensures forall i :: 0 <= i < n ==> s[i] != '\n'
    ensures n == |s| || s[n] == '\n'
  {
    if s == [] || s[0] == '\n' then 0 else 1 + LineLen(s[1..])
  }

  /**
   * `s.split("\n")`: the pieces between separators, empty ones included;
   * there is always at least one piece, and none holds a "\n".
   */
  function SplitLines(s: string): (r: seq<string>)
    ensures |r| >= 1
    ensures forall k :: 0 <= k < |r| ==> IsLine(r[k])
    decreases |s|
  {
    var n := LineLen(s);
    if n == |s| then [s] else [s[..n]] + SplitLines(s[n + 1..])
  }

  /** `"\n".join(lines)` */
  function JoinLines(lines: seq<string>): string {
    if |lines| == 0 then []
    else if |lines| == 1 then lines[0]
    else lines[0] + ['\n'] + JoinLines(lines[1..])
  }

  /** Joining the pieces gives back the text. */
  lemma {:induction false} JoinSplitLines(s: string)
    ensures JoinLines(SplitLines(s)) == s
    decreases |s|
  {
    var n := LineLen(s);
    if n < |s| {
      SplitLinesCons(s);
      var tail := SplitLines(s[n + 1..]);
      JoinSplitLines(s[n + 1..]);
      assert |[s[..n]] + tail| > 1;
      assert JoinLines([s[..n]] + tail) == s[..n] + ['\n'] + JoinLines(tail);
      assert s == s[..n] + [s[n]] + s[n + 1..];
    } else {
      assert SplitLines(s) == [s];
    }
  }

  lemma {:induction false} LineLenAppend(a: string, b: string)
    requires IsLine(a)
    requires b != [] && b[0] == '\n'
    ensures LineLen(a + b) == |a|
  {
    if a != [] {
      assert (a + b)[1..] == a[1..] + b;
      LineLenAppend(a[1..], b);
    }
  }

  /** Splitting lines that hold no "\n" after joining them gives the lines back. */
  lemma {:induction false} SplitJoinLines(lines: seq<string>)
    requires |lines| >= 1
    requires forall k :: 0 <= k < |lines| ==> IsLine(lines[k])
    ensures SplitLines(JoinLines(lines)) == lines
  {
    if |lines| == 1 {
    } else {
      var s := JoinLines(lines);
      var a := lines[0];
      LineLenAppend(a, ['\n'] + JoinLines(lines[1..]));
      assert s == a + (['\n'] + JoinLines(lines[1..]));
      assert s[..|a|] == a;
      assert s[|a| + 1..] == JoinLines(lines[1..]);
      SplitJoinLines(lines[1..]);
    }
  }

  // ---------------------------------------------------------------------
  // Stripping (`str.strip()` with no argument)
  // ---------------------------------------------------------------------

  /** Number of whitespace characters at the start of `s`. */
  function LeadLen(s: string): (n: nat)
    ensures n <= |s|
    ensures forall i :: 0 <= i < n ==> IsSpace(s[i])
    ensures n == |s| || !IsSpace(s[n])
  {
    if s == [] || !IsSpace(s[0]) then 0 else 1 + LeadLen(s[1..])
  }

  /** Number of whitespace characters at the end of `s`. */
  function TrailLen(s: string): (n: nat)
    ensures n <= |s|
    ensures forall i :: |s| - n <= i < |s| ==> IsSpace(s[i])
    ensures n == |s| || !IsSpace(s[|s| - n - 1])
  {
    if s == [] || !IsSpace(s[|s| - 1]) then 0 else 1 + TrailLen(s[..|s| - 1])
  }

  /**
   * `s.strip()`: `s` is whitespace, then the result, then whitespace; the
   * result is empty or starts and ends with a non-whitespace character.
   */
  function Strip(s: string): (r: string)
    ensures r == [] || (!IsSpace(r[0]) && !IsSpace(r[|r| - 1]))
    ensures r == [] <==> AllSpace(s)
  {
    var t := s[LeadLen(s)..];
    t[..|t| - TrailLen(t)]
  }

  /** What `strip` removes is whitespace on both sides of its result. */
  lemma {:induction false} StripSlice(s: string)
    ensures var r, i := Strip(s), LeadLen(s);
      && i + |r| <= |s|
      && r == s[i..i + |r|]
      && AllSpace(s[..i]) && AllSpace(s[i + |r|..])
  {
    var i := LeadLen(s);
    var t := s[i..];
    var j := |t| - TrailLen(t);
    assert Strip(s) == t[..j] == s[i..i + j];
    assert s[i + j..] == t[j..];
  }

  lemma {:induction false} LeadLenAppend(pre: string, rest: string)
    requires AllSpace(pre)
    requires rest != [] && !IsSpace(rest[0])
    ensures LeadLen(pre + rest) == |pre|
  {
    if pre != [] {
      assert (pre + rest)[1..] == pre[1..] + rest;
      LeadLenAppend(pre[1..], rest);
    }
  }

  lemma {:induction false} TrailLenAppend(rest: string, post: string)
    requires AllSpace(post)
    requires rest != [] && !IsSpace(rest[|rest| - 1])
    ensures TrailLen(rest + post) == |post|
  {
    if post != [] {
      var s := rest + post;
      assert s[..|s| - 1] == rest + post[..|post| - 1];
      TrailLenAppend(rest, post[..|post| - 1]);
    }
  }

  /**
   * Stripping is determined by its three properties: whatever splits into
   * leading whitespace, a middle that is empty or has non-whitespace ends,
   * and trailing whitespace strips to that middle.
   */
  lemma {:induction false} StripUnique(pre: string, mid: string, post: string)
    requires AllSpace(pre) && AllSpace(post)
    requires mid == [] || (!IsSpace(mid[0]) && !IsSpace(mid[|mid| - 1]))
    ensures Strip(pre + mid + post) == mid
  {
    var s := pre + mid + post;
    if mid == [] {
      assert AllSpace(s);
    } else {
      assert s == pre + (mid + post);
      LeadLenAppend(pre, mid + post);
      assert s[|pre|..] == mid + post;
      TrailLenAppend(mid, post);
    }
  }

  /** Stripping twice is stripping once. */
  lemma {:induction false} StripIdempotent(s: string)
    ensures Strip(Strip(s)) == Strip(s)
  {
    var r := Strip(s);
    StripUnique([], r, []);
    assert [] + r + [] == r;
  }

  // ---------------------------------------------------------------------
  // The corpus: each line of the text area, stripped, unless it is blank
  // ---------------------------------------------------------------------

  /** The stripped lines that are not blank, in input order. */
  function NonBlank(lines: seq<string>): seq<string> {
    if lines == [] then [] else KeepLine(lines[0]) + NonBlank(lines[1..])
  }

  /** The document a line contributes: its stripped form, unless that is empty. */
  function KeepLine(line: string): seq<string> {
    var d := Strip(line);
    if d == [] then [] else [d]
  }

  /**
   * There are no more documents than lines, and every document is
   * non-empty and already stripped.
   */
  lemma {:induction false} NonBlankSpec(lines: seq<string>)
    ensures |NonBlank(lines)| <= |lines|
    ensures forall k :: 0 <= k < |NonBlank(lines)| ==>
      NonBlank(lines)[k] != [] && Strip(NonBlank(lines)[k]) == NonBlank(lines)[k]
  {
    if lines != [] {
      StripIdempotent(lines[0]);
      NonBlankSpec(lines[1..]);
    }
  }

  /** The corpus built from the text area's content. */
  function Documents(text: string): seq<string> {
    NonBlank(SplitLines(text))
  }

  lemma {:induction false} NonBlankSingle(line: string)
    ensures NonBlank([line]) == if AllSpace(line) then [] else [Strip(line)]
  {
    assert [line][1..] == [];
  }

  /** The filter keeps the lines' relative order: it works line by line. */
  lemma {:induction false} NonBlankAppend(a: seq<string>, b: seq<string>)
    ensures NonBlank(a + b) == NonBlank(a) + NonBlank(b)
  {
    if a == [] {
      assert a + b == b;
    } else {
      calc {
        NonBlank(a + b);
        == { assert (a + b)[0] == a[0] && (a + b)[1..] == a[1..] + b; }
        KeepLine(a[0]) + NonBlank(a[1..] + b);
        == { NonBlankAppend(a[1..], b); }
        KeepLine(a[0]) + (NonBlank(a[1..]) + NonBlank(b));
        (KeepLine(a[0]) + NonBlank(a[1..])) + NonBlank(b);
        NonBlank(a) + NonBlank(b);
      }
    }
  }

  /**
   * The corpus, for text made of lines: one stripped document per line
   * that is not blank, in the lines' order; and there are no more
   * documents than lines.
   */
  lemma {:induction false} DocumentsOfLines(lines: seq<string>)
    requires |lines| >= 1
    requires forall k :: 0 <= k < |lines| ==> IsLine(lines[k])
    ensures Documents(JoinLines(lines)) == NonBlank(lines)
    ensures |Documents(JoinLines(lines))| <= |lines|
  {
    SplitJoinLines(lines);
    NonBlankSpec(lines);
  }

  /** A whitespace character splits a whitespace-only text into two whitespace-only parts. */
  lemma {:induction false} AllSpaceAt(s: string, n: nat)
    requires n < |s| && IsSpace(s[n])
    ensures AllSpace(s) <==> AllSpace(s[..n]) && AllSpace(s[n + 1..])
  {
    if AllSpace(s[..n]) && AllSpace(s[n + 1..]) {
      forall i | 0 <= i < |s| ensures IsSpace(s[i]) {
        if i < n {
          assert s[i] == s[..n][i];
        } else if i > n {
          assert s[i] == s[n + 1..][i - n - 1];
        }
      }
    }
  }

  lemma {:induction false} NonBlankConsEmpty(line: string, rest: seq<string>)
    ensures NonBlank([line] + rest) == [] <==> AllSpace(line) && NonBlank(rest) == []
  {
    NonBlankAppend([line], rest);
    NonBlankSingle(line);
  }

  lemma {:induction false} SplitLinesCons(text: string)
    requires LineLen(text) < |text|
    ensures SplitLines(text) == [text[..LineLen(text)]] + SplitLines(text[LineLen(text) + 1..])
  {
    var n := LineLen(text);
    assert n < |text|;
  }

  lemma {:induction false} DocumentsFirstLine(text: string)
    requires LineLen(text) < |text|
    ensures var n := LineLen(text);
      Documents(text) == [] <==> AllSpace(text[..n]) && Documents(text[n + 1..]) == []
  {
    var n := LineLen(text);
    var head, rest := text[..n], SplitLines(text[n + 1..]);
    SplitLinesCons(text);
    assert Documents(text) == NonBlank([head] + rest);
    NonBlankConsEmpty(head, rest);
    assert Documents(text[n + 1..]) == NonBlank(rest);
  }

  /** The corpus is empty exactly when the whole text is whitespace. */
  lemma {:induction false} DocumentsEmptyIff(text: string)
    ensures Documents(text) == [] <==> AllSpace(text)
    decreases |text|
  {
    var n := LineLen(text);
    if n == |text| {
      NonBlankSingle(text);
    } else {
      DocumentsFirstLine(text);
      DocumentsEmptyIff(text[n + 1..]);
      AllSpaceAt(text, n);
    }
  }

  // ---------------------------------------------------------------------
  // Validation
  // ---------------------------------------------------------------------

  /** The two validation messages of the page. */
  datatype InputError = NoDocuments | NoQuestion

  datatype Validation = Proceed | Reject(error: InputError)

  /**
   * The page's two input checks: a missing corpus is reported first, a
   * question that strips to nothing second.
   */
  function Validate(docs: seq<string>, question: string): (v: Validation)
    ensures v == Reject(NoDocuments) <==> |docs| == 0
    ensures v == Reject(NoQuestion) <==> |docs| > 0 && AllSpace(question)
    ensures v == Proceed <==> |docs| > 0 && !AllSpace(question)
  {
    if |docs| < 1 then Reject(NoDocuments)
    else if Strip(question) == [] then Reject(NoQuestion)
    else Proceed
  }
}
