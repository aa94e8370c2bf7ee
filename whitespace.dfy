/**
  Splitting a name into whitespace-separated words, as `str::split_whitespace`
  does: maximal runs of non-whitespace characters, in order, with no empty
  words however much whitespace there is before, between or after them.
*/
module Whitespace {

  /**
    Unicode White_Space, the set `char::is_whitespace` accepts. The space is
    in it and '_', which replaces spaces in repository names, is not.
  */
  predicate IsWhitespace(c: char): (b: bool)
    ensures c == ' ' ==> b
    ensures c == '_' ==> !b
  {
    ('\t' <= c <= '\r') || c == ' ' || c == '\U{85}' || c == '\U{A0}' || c == '\U{1680}'
    || ('\U{2000}' <= c <= '\U{200A}') || c == '\U{2028}' || c == '\U{2029}'
    || c == '\U{202F}' || c == '\U{205F}' || c == '\U{3000}'
  }

  /**
    Among ASCII characters the whitespace is exactly the space, tab, line
    feed, vertical tab, form feed and carriage return.
  */
  lemma WhitespaceAscii(c: char)
    requires c < '\U{80}'
    ensures IsWhitespace(c) <==> c == ' ' || c == '\t' || c == '\n' || c == '\U{0B}' || c == '\U{0C}' || c == '\r'
  {
  }

  predicate AllWhitespace(s: string) { forall i :: 0 <= i < |s| ==> IsWhitespace(s[i]) }

  /** A word: non-empty and free of whitespace. */
  predicate IsWord(t: string) { |t| > 0 && forall i :: 0 <= i < |t| ==> !IsWhitespace(t[i]) }

  predicate AllWords(ws: seq<string>) { forall k :: 0 <= k < |ws| ==> IsWord(ws[k]) }

  /** Length of the longest whitespace-free prefix of `s`. */
  function WordLength(s: string): (n: nat)
    ensures n <= |s|
    ensures forall i :: 0 <= i < n ==> !IsWhitespace(s[i])
    ensures n == |s| || IsWhitespace(s[n])
  {
    if s == [] || IsWhitespace(s[0]) then 0 else 1 + WordLength(s[1..])
  }

  /** The words of `s`, in order. */
  function Words(s: string): (ws: seq<string>)
    ensures AllWords(ws)
    decreases |s|
  {
    if s == [] then []
    else if IsWhitespace(s[0]) then Words(s[1..])
    else
      var n := WordLength(s);
      [s[..n]] + Words(s[n..])
  }

  /** The words written one after another, with nothing between them. */
  function Concat(ws: seq<string>): string {
    if ws == [] then [] else ws[0] + Concat(ws[1..])
  }

  /** `s` with every whitespace character removed. */
  function NonWhitespace(s: string): (r: string)
    ensures |r| <= |s|
  {
    if s == [] then []
    else (if IsWhitespace(s[0]) then [] else [s[0]]) + NonWhitespace(s[1..])
  }

  /** The words joined with a single space between neighbours. */
  function JoinWithSpaces(ws: seq<string>): string {
    if |ws| == 0 then []
    else if |ws| == 1 then ws[0]
    else ws[0] + " " + JoinWithSpaces(ws[1..])
  }

  // ---------------------------------------------------------------------

  lemma {:induction false} NonWhitespaceAppend(a: string, b: string)
    ensures NonWhitespace(a + b) == NonWhitespace(a) + NonWhitespace(b)
  {
    if a == [] {
      assert a + b == b;
    } else {
      var head := if IsWhitespace(a[0]) then [] else [a[0]];
      NonWhitespaceAppend(a[1..], b);
      assert (a + b)[0] == a[0] && (a + b)[1..] == a[1..] + b;
      assert NonWhitespace(a + b) == head + NonWhitespace(a[1..] + b);
      assert NonWhitespace(a) == head + NonWhitespace(a[1..]);
    }
  }

  lemma {:induction false} NonWhitespaceOfWord(t: string)
    requires forall i :: 0 <= i < |t| ==> !IsWhitespace(t[i])
    ensures NonWhitespace(t) == t
  {
    if t != [] { NonWhitespaceOfWord(t[1..]); }
  }

  /** The words hold every non-whitespace character of `s`, in order, and nothing else. */
  lemma {:induction false} WordsCoverNonWhitespace(s: string)
    ensures Concat(Words(s)) == NonWhitespace(s)
    decreases |s|
  {
    if s != [] {
      if IsWhitespace(s[0]) {
        WordsCoverNonWhitespace(s[1..]);
      } else {
        var n := WordLength(s);
        WordsCoverNonWhitespace(s[n..]);
        NonWhitespaceOfWord(s[..n]);
        NonWhitespaceAppend(s[..n], s[n..]);
        assert s == s[..n] + s[n..];
        assert ([s[..n]] + Words(s[n..]))[1..] == Words(s[n..]);
      }
    }
  }

  lemma {:induction false} WordLengthStopsAtWhitespace(a: string, w: char, b: string)
    requires IsWhitespace(w)
    ensures WordLength(a + [w] + b) == WordLength(a)
  {
    if a == [] {
      assert (a + [w] + b)[0] == w;
    } else if !IsWhitespace(a[0]) {
      WordLengthStopsAtWhitespace(a[1..], w, b);
      assert (a + [w] + b)[1..] == a[1..] + [w] + b;
    }
  }

  /** A whitespace character separates the words before it from the words after it. */
  lemma {:induction false} WordsSplitAtWhitespace(a: string, w: char, b: string)
    requires IsWhitespace(w)
    ensures Words(a + [w] + b) == Words(a) + Words(b)
    decreases |a|
  {
    var s := a + [w] + b;
    if a == [] {
      assert s[0] == w && s[1..] == b;
    } else if IsWhitespace(a[0]) {
      assert s[0] == a[0] && s[1..] == a[1..] + [w] + b;
      WordsSplitAtWhitespace(a[1..], w, b);
    } else {
      var n := WordLength(a);
      WordsAfterFirstWord(a, w, b);
      WordsSplitAtWhitespace(a[n..], w, b);
    }
  }

  /** When `a` starts with a word, that word is also the first word of `a + [w] + b`. */
  lemma WordsAfterFirstWord(a: string, w: char, b: string)
    requires IsWhitespace(w) && a != [] && !IsWhitespace(a[0])
    ensures 0 < WordLength(a) <= |a|
    ensures Words(a + [w] + b) == [a[..WordLength(a)]] + Words(a[WordLength(a)..] + [w] + b)
    ensures Words(a) == [a[..WordLength(a)]] + Words(a[WordLength(a)..])
  {
    var s, n := a + [w] + b, WordLength(a);
    WordLengthStopsAtWhitespace(a, w, b);
    assert s[0] == a[0] && s[..n] == a[..n] && s[n..] == a[n..] + [w] + b;
  }

  /** Whitespace alone holds no words. */
  lemma {:induction false} WordsOfWhitespace(s: string)
    requires AllWhitespace(s)
    ensures Words(s) == []
  {
    if s != [] { WordsOfWhitespace(s[1..]); }
  }

  lemma {:induction false} WordsIgnoreLeadingWhitespace(before: string, s: string)
    requires AllWhitespace(before)
    ensures Words(before + s) == Words(s)
  {
    if before != [] {
      assert (before + s)[0] == before[0] && (before + s)[1..] == before[1..] + s;
      WordsIgnoreLeadingWhitespace(before[1..], s);
    } else {
      assert before + s == s;
    }
  }

  lemma {:induction false} WordsIgnoreTrailingWhitespace(s: string, after: string)
    requires AllWhitespace(after)
    ensures Words(s + after) == Words(s)
  {
    if after == [] {
      assert s + after == s;
    } else {
      var init, last := after[..|after| - 1], after[|after| - 1];
      WordsIgnoreTrailingWhitespace(s, init);
      WordsSplitAtWhitespace(s + init, last, []);
      assert s + after == (s + init) + [last] + [];
      assert Words(s + init) + Words([]) == Words(s + init);
    }
  }

  /** Whitespace before and after a string adds no words. */
  lemma WordsIgnoreSurroundingWhitespace(before: string, s: string, after: string)
    requires AllWhitespace(before) && AllWhitespace(after)
    ensures Words(before + s + after) == Words(s)
  {
    WordsIgnoreTrailingWhitespace(s, after);
    WordsIgnoreLeadingWhitespace(before, s + after);
    assert before + s + after == before + (s + after);
  }

  /** A single word splits into itself. */
  lemma {:induction false} WordsOfWord(t: string)
    requires IsWord(t)
    ensures Words(t) == [t]
  {
    assert WordLength(t) == |t|;
    assert t[..|t|] == t && t[|t|..] == [];
  }

  /** Splitting words joined by single spaces gives back the words. */
  lemma {:induction false} WordsOfJoin(ws: seq<string>)
    requires AllWords(ws)
    ensures Words(JoinWithSpaces(ws)) == ws
  {
    if |ws| == 1 {
      WordsOfWord(ws[0]);
    } else if |ws| > 1 {
      WordsOfJoin(ws[1..]);
      WordsOfWord(ws[0]);
      WordsSplitAtWhitespace(ws[0], ' ', JoinWithSpaces(ws[1..]));
      assert ws[0] + " " + JoinWithSpaces(ws[1..]) == ws[0] + [' '] + JoinWithSpaces(ws[1..]);
      assert [ws[0]] + ws[1..] == ws;
    }
  }
}
