/** The three tokenisations of the summariser: the word pattern
    `[A-Za-z0-9']+`, the chunker's token stream `[A-Za-z0-9']+|\s+|\S`, and
    the sentence splitter `(?<=[.!?])\s+(?=[A-Z0-9])|\n+`. Regular
    expressions are encoded directly as scans over the string. */
module Tokenizer {
  import opened Text

  // ---------------------------------------------------------------------
  // Words: re.findall(r"[A-Za-z0-9']+", s)
  // ---------------------------------------------------------------------

  /** Length of the run of word characters at the start of `s`. */
  function WordRun(s: string): (n: nat)
    ensures n <= |s|
    ensures forall i :: 0 <= i < n ==> IsWordChar(s[i])
    ensures n < |s| ==> !IsWordChar(s[n])
  {
    if s == [] || !IsWordChar(s[0]) then 0 else 1 + WordRun(s[1..])
  }

  /** A non-empty string of word characters. */
  predicate IsWord(w: string) {
    w != [] && forall i :: 0 <= i < |w| ==> IsWordChar(w[i])
  }

  /** `re.findall(r"[A-Za-z0-9']+", s)`: the maximal runs of word
      characters, left to right. */
  function WordTokens(s: string): (words: seq<string>)
    ensures forall k :: 0 <= k < |words| ==> IsWord(words[k])
    decreases |s|
  {
    if s == [] then []
    else if IsWordChar(s[0]) then
      var n := WordRun(s);
      [s[..n]] + WordTokens(s[n..])
    else WordTokens(s[1..])
  }

  /** A prefix without word characters contributes no word. */
  lemma {:induction false} WordTokensSkip(s: string, n: nat)
    requires n <= |s|
    requires forall i :: 0 <= i < n ==> !IsWordChar(s[i])
    ensures WordTokens(s) == WordTokens(s[n..])
    decreases n
  {
    if n > 0 {
      WordTokensSkip(s[1..], n - 1);
      assert s[1..][n - 1..] == s[n..];
    }
  }

  /** The word pattern finds every word character, in order, with one
      token for each maximal run of them. */
  lemma {:induction false} WordTokensAreRuns(s: string)
    ensures Concat(WordTokens(s)) == Keep(s, IsWordChar)
    ensures |WordTokens(s)| == Runs(s, IsWordChar, false)
    decreases |s|
  {
    if s != [] {
      if IsWordChar(s[0]) {
        var n := WordRun(s);
        var rest := WordTokens(s[n..]);
        WordTokensAreRuns(s[n..]);
        assert WordTokens(s) == [s[..n]] + rest;
        assert ([s[..n]] + rest)[0] == s[..n] && ([s[..n]] + rest)[1..] == rest;
        KeepRun(s, IsWordChar, n);
        assert Runs(s, IsWordChar, false) == 1 + Runs(s[n..], IsWordChar, true) by {
          RunsWithin(s[1..], IsWordChar, n - 1);
          assert s[1..][n - 1..] == s[n..];
        }
      } else {
        WordTokensAreRuns(s[1..]);
      }
    }
  }

  // ---------------------------------------------------------------------
  // Token stream: re.findall(r"[A-Za-z0-9']+|\s+|\S", s)
  // ---------------------------------------------------------------------

  /** Length of the token that starts `s`: a word run, a whitespace run, or
      one other character (the alternatives in the order the pattern tries
      them). */
  function TokenLength(s: string): (n: nat)
    requires s != []
    ensures 1 <= n <= |s|
  {
    if IsWordChar(s[0]) then WordRun(s)
    else if IsSpace(s[0]) then LeadingSpaces(s)
    else 1
  }

  /** `re.findall(r"[A-Za-z0-9']+|\s+|\S", s)`. */
  function TokenStream(s: string): (tokens: seq<string>)
    ensures forall k :: 0 <= k < |tokens| ==> tokens[k] != []
    decreases |s|
  {
    if s == [] then []
    else
      var n := TokenLength(s);
      [s[..n]] + TokenStream(s[n..])
  }

  /** Every character is matched by one of the alternatives, so the
      concatenation of the tokens is exactly `s`. */
  lemma {:induction false} TokenStreamLossless(s: string)
    ensures Concat(TokenStream(s)) == s
    decreases |s|
  {
    if s != [] {
      var n := TokenLength(s);
      var rest := TokenStream(s[n..]);
      TokenStreamLossless(s[n..]);
      assert TokenStream(s) == [s[..n]] + rest;
      assert Concat([s[..n]] + rest) == s[..n] + Concat(rest) by {
        assert ([s[..n]] + rest)[0] == s[..n] && ([s[..n]] + rest)[1..] == rest;
      }
      assert s == s[..n] + s[n..];
    }
  }

  /** The last token starts a word exactly when the text ends with a word
      character: a token is a word run, a whitespace run or one other
      character. */
  lemma {:induction false} TokenStreamEnd(s: string)
    requires s != []
    ensures TokenStream(s) != []
    ensures StartsWord(TokenStream(s)[|TokenStream(s)| - 1]) <==> IsWordChar(s[|s| - 1])
    decreases |s|
  {
    var n := TokenLength(s);
    var rest := TokenStream(s[n..]);
    assert TokenStream(s) == [s[..n]] + rest;
    if n == |s| {
      assert rest == [];
      assert StartsWord(s[..n]) == IsWordChar(s[0]);
      if IsWordChar(s[0]) {
        assert IsWordChar(s[n - 1]);
      } else if IsSpace(s[0]) {
        assert IsSpace(s[n - 1]);
        WordCharIsNotSpace(s[n - 1]);
      } else {
        assert n == 1;
      }
    } else {
      TokenStreamEnd(s[n..]);
      assert s[n..][|s[n..]| - 1] == s[|s| - 1];
    }
  }

  /** `re.match(r"[A-Za-z0-9']+", token)`: the token starts with a word
      character. */
  predicate StartsWord(token: string) {
    token != [] && IsWordChar(token[0])
  }

  /** The tokens of `tokens` that `StartsWord` accepts, in order. */
  function WordsOf(tokens: seq<string>): (words: seq<string>)
    ensures |words| <= |tokens|
  {
    if tokens == [] then []
    else (if StartsWord(tokens[0]) then [tokens[0]] else []) + WordsOf(tokens[1..])
  }

  /** The chunker counts exactly the words the word pattern finds: the
      word-like tokens of the stream are the word tokens. */
  lemma {:induction false} StreamWordsAreWordTokens(s: string)
    ensures WordsOf(TokenStream(s)) == WordTokens(s)
    decreases |s|
  {
    if s != [] {
      var n := TokenLength(s);
      var ts := TokenStream(s);
      assert ts == [s[..n]] + TokenStream(s[n..]);
      assert ts[0] == s[..n] && ts[1..] == TokenStream(s[n..]);
      StreamWordsAreWordTokens(s[n..]);
      if !IsWordChar(s[0]) {
        forall i | 0 <= i < n ensures !IsWordChar(s[i]) {
          if IsWordChar(s[i]) {
            WordCharIsNotSpace(s[i]);
          }
        }
        WordTokensSkip(s, n);
      }
    }
  }

  // ---------------------------------------------------------------------
  // Sentence boundaries: re.split(r"(?<=[.!?])\s+(?=[A-Z0-9])|\n+", s)
  // ---------------------------------------------------------------------

  predicate IsSentenceEnd(c: char) { c == '.' || c == '!' || c == '?' }

  /** The class `[A-Z0-9]` of the look-ahead. */
  predicate IsSentenceStart(c: char) { IsUpper(c) || IsDigit(c) }

  /** Length of a match of the first alternative `(?<=[.!?])\s+(?=[A-Z0-9])`
      at index `i`, or 0. A shorter whitespace run than the maximal one is
      followed by whitespace, so only the maximal run can satisfy the
      look-ahead. */
  function BreakAt(s: string, i: nat): (n: nat)
    requires i < |s|
    ensures i + n <= |s|
  {
    if 0 < i && IsSentenceEnd(s[i - 1]) && IsSpace(s[i]) then
      var n := LeadingSpaces(s[i..]);
      if i + n < |s| && IsSentenceStart(s[i + n]) then n else 0
    else 0
  }

  /** Length of the run of `'\n'` at the start of `s`. */
  function NewlineRun(s: string): (n: nat)
    ensures n <= |s|
    ensures n > 0 ==> s[0] == '\n'
  {
    if s == [] || s[0] != '\n' then 0 else 1 + NewlineRun(s[1..])
  }

  /** Length of a match of the split pattern at index `i` (0: no match);
      the first alternative is tried before `\n+`. */
  function MatchAt(s: string, i: nat): (n: nat)
    requires i < |s|
    ensures i + n <= |s|
  {
    var b := BreakAt(s, i);
    if b > 0 then b else NewlineRun(s[i..])
  }

  /** The pieces of `s[start..]`, scanning for matches from index `i`. */
  function SplitFrom(s: string, start: nat, i: nat): (parts: seq<string>)
    requires start <= i <= |s|
    ensures |parts| >= 1
    decreases |s| - i
  {
    if i == |s| then [s[start..]]
    else
      var m := MatchAt(s, i);
      if m > 0 then [s[start..i]] + SplitFrom(s, i + m, i + m)
      else SplitFrom(s, start, i + 1)
  }

  /** `re.split(r"(?<=[.!?])\s+(?=[A-Z0-9])|\n+", s)`. */
  function SplitParts(s: string): (parts: seq<string>)
    ensures |parts| >= 1
  {
    SplitFrom(s, 0, 0)
  }

  /** On text that `Collapse` produced, the `\n+` alternative never fires:
      a match is exactly one space between a sentence end and a sentence
      start. */
  lemma CollapsedMatch(s: string, i: nat)
    requires i < |s| && SingleSpaced(s)
    ensures MatchAt(s, i) ==
      if 0 < i && i + 1 < |s| && IsSentenceEnd(s[i - 1]) && s[i] == ' ' && IsSentenceStart(s[i + 1])
      then 1 else 0
  {
    assert s[i] != '\n' by {
      if s[i] == '\n' {
        assert IsSpace(s[i]);
      }
    }
    assert NewlineRun(s[i..]) == 0;
    if 0 < i && IsSentenceEnd(s[i - 1]) && IsSpace(s[i]) {
      assert s[i] == ' ';
      var t := s[i..];
      if i + 1 < |s| {
        assert s[i + 1] != ' ';
        assert !IsSpace(s[i + 1]);
        assert t[1] == s[i + 1];
        assert LeadingSpaces(t) == 1;
      } else {
        assert LeadingSpaces(t) == 1;
      }
    }
  }

  /** Every piece of the split is a slice of the input, so the pieces of a
      single-spaced text are single-spaced. */
  lemma {:induction false} SplitFromSingleSpaced(s: string, start: nat, i: nat)
    requires start <= i <= |s| && SingleSpaced(s)
    ensures forall k :: 0 <= k < |SplitFrom(s, start, i)| ==> SingleSpaced(SplitFrom(s, start, i)[k])
    decreases |s| - i
  {
    if i == |s| {
      SingleSpacedSlice(s, start, |s|);
    } else {
      var m := MatchAt(s, i);
      if m > 0 {
        SingleSpacedSlice(s, start, i);
        SplitFromSingleSpaced(s, i + m, i + m);
      } else {
        SplitFromSingleSpaced(s, start, i + 1);
      }
    }
  }

  /** Nothing of a single-spaced text is lost by the split: its pieces,
      rejoined by the one space each match consumed, give the text back. */
  lemma {:induction false} SplitFromJoin(s: string, start: nat, i: nat)
    requires start <= i <= |s| && SingleSpaced(s)
    ensures Join(" ", SplitFrom(s, start, i)) == s[start..]
    decreases |s| - i
  {
    if i < |s| {
      CollapsedMatch(s, i);
      if MatchAt(s, i) > 0 {
        var rest := SplitFrom(s, i + 1, i + 1);
        SplitFromJoin(s, i + 1, i + 1);
        JoinCons(" ", s[start..i], rest);
        assert s[start..i] + " " + s[i + 1..] == s[start..];
      } else {
        SplitFromJoin(s, start, i + 1);
      }
    }
  }

  // ---------------------------------------------------------------------
  // SummarizerService._to_sentences
  // ---------------------------------------------------------------------

  /** `[p.strip() for p in parts if p and len(p.strip()) > 1]`. */
  function KeepSentences(parts: seq<string>): (sentences: seq<string>)
    ensures |sentences| <= |parts|
  {
    if parts == [] then [] else Kept(parts[0]) + KeepSentences(parts[1..])
  }

  /** The sentence one piece contributes: its stripped form, if longer
      than one character. */
  function Kept(p: string): seq<string>
  {
    if p != [] && |Strip(p)| > 1 then [Strip(p)] else []
  }

  /** `_to_sentences`: collapse whitespace runs to one space, strip, split
      at the boundary pattern, keep the stripped pieces longer than one
      character. */
  function ToSentences(text: string): (sentences: seq<string>)
    ensures IsBlank(text) ==> sentences == []
    ensures forall k :: 0 <= k < |sentences| ==> |sentences[k]| > 1
  {
    CollapseOfBlank(text);
    KeepSentencesLonger(SplitParts(Strip(Collapse(text))));
    var t := Strip(Collapse(text));
    if t == [] then [] else KeepSentences(SplitParts(t))
  }

  lemma KeepSentencesCons(p: string, rest: seq<string>)
    ensures KeepSentences([p] + rest) == Kept(p) + KeepSentences(rest)
  {
    assert ([p] + rest)[0] == p && ([p] + rest)[1..] == rest;
  }

  /** The filter works piece by piece, so it keeps the order of the pieces. */
  lemma {:induction false} KeepSentencesAppend(a: seq<string>, b: seq<string>)
    ensures KeepSentences(a + b) == KeepSentences(a) + KeepSentences(b)
    decreases |a|
  {
    if a == [] {
      assert a + b == b;
    } else {
      var p, rest := a[0], a[1..];
      calc {
        KeepSentences(a + b);
        { assert a + b == [p] + (rest + b); }
        KeepSentences([p] + (rest + b));
        { KeepSentencesCons(p, rest + b); }
        Kept(p) + KeepSentences(rest + b);
        { KeepSentencesAppend(rest, b); }
        Kept(p) + (KeepSentences(rest) + KeepSentences(b));
        { SeqAssoc(Kept(p), KeepSentences(rest), KeepSentences(b)); }
        (Kept(p) + KeepSentences(rest)) + KeepSentences(b);
        { assert a == [p] + rest; KeepSentencesCons(p, rest); }
        KeepSentences(a) + KeepSentences(b);
      }
    }
  }

  lemma SeqAssoc(x: seq<string>, y: seq<string>, z: seq<string>)
    ensures x + (y + z) == (x + y) + z
  {
  }

  /** A sentence is kept exactly when it is the stripped form, longer than
      one character, of some piece. */
  lemma {:induction false} KeepSentencesMembers(parts: seq<string>)
    ensures forall p :: p in parts && |Strip(p)| > 1 ==> Strip(p) in KeepSentences(parts)
    ensures forall x :: x in KeepSentences(parts) ==> exists p :: p in parts && |Strip(p)| > 1 && x == Strip(p)
  {
    if parts != [] {
      KeepSentencesMembers(parts[1..]);
      forall x | x in KeepSentences(parts)
        ensures exists p :: p in parts && |Strip(p)| > 1 && x == Strip(p)
      {
        if x !in KeepSentences(parts[1..]) {
          assert x == Strip(parts[0]) && parts[0] in parts;
        } else {
          var p :| p in parts[1..] && |Strip(p)| > 1 && x == Strip(p);
          assert p in parts;
        }
      }
    }
  }

  /** `_to_sentences` in terms of the text: the collapsed, stripped text `t`
      is split into pieces that rejoin to `t`, and the sentences are, in
      piece order, the stripped pieces longer than one character, each of
      which is one. */
  lemma ToSentencesSpec(text: string)
    ensures var t := Strip(Collapse(text));
      && Join(" ", SplitParts(t)) == t
      && ToSentences(text) == KeepSentences(SplitParts(t))
      && (forall p :: p in SplitParts(t) && |Strip(p)| > 1 ==> Strip(p) in ToSentences(text))
      && (forall x :: x in ToSentences(text) ==>
            exists p :: p in SplitParts(t) && |Strip(p)| > 1 && x == Strip(p))
  {
    var c := Collapse(text);
    var t := Strip(c);
    if t == [] {
      assert SplitParts(t) == [[]];
    } else {
      var a, b := StripSlice(c);
      SingleSpacedSlice(c, a, b);
      SplitFromJoin(t, 0, 0);
    }
    KeepSentencesMembers(SplitParts(t));
  }

  lemma {:induction false} KeepSentencesLonger(parts: seq<string>)
    ensures forall k :: 0 <= k < |KeepSentences(parts)| ==> |KeepSentences(parts)[k]| > 1
  {
    if parts != [] {
      KeepSentencesLonger(parts[1..]);
    }
  }

  /** What every sentence of the splitter looks like. */
  ghost predicate IsSentence(s: string) {
    |s| > 1 && !IsSpace(s[0]) && !IsSpace(s[|s| - 1]) && SingleSpaced(s)
  }

  lemma {:induction false} KeepSentencesWellFormed(parts: seq<string>)
    requires forall k :: 0 <= k < |parts| ==> SingleSpaced(parts[k])
    ensures forall k :: 0 <= k < |KeepSentences(parts)| ==> IsSentence(KeepSentences(parts)[k])
  {
    if parts != [] {
      KeepSentencesWellFormed(parts[1..]);
      var p := parts[0];
      if p != [] && |Strip(p)| > 1 {
        var a, b := StripSlice(p);
        SingleSpacedSlice(p, a, b);
      }
    }
  }

  /** Every sentence `_to_sentences` returns is stripped, longer than one
      character, and holds no newline and no whitespace but single
      spaces. */
  lemma ToSentencesWellFormed(text: string)
    ensures forall k :: 0 <= k < |ToSentences(text)| ==> IsSentence(ToSentences(text)[k])
  {
    var c := Collapse(text);
    var t := Strip(c);
    if t != [] {
      var a, b := StripSlice(c);
      SingleSpacedSlice(c, a, b);
      SplitFromSingleSpaced(t, 0, 0);
      KeepSentencesWellFormed(SplitParts(t));
    }
  }
}
