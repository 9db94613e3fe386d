/** `SummarizerService._chunk`: cut the text into pieces of `max_words` words
    along its token stream, and strip each piece. */
module Chunking {
  import opened Text
  import opened Tokenizer

  /** The token groups the loop of `_chunk` closes, given the tokens still
      to read, the open group `current` and its word count `count`. A group
      closes as soon as its word count reaches `maxWords`; a non-empty open
      group left at the end is closed too. */
  function Groups(tokens: seq<string>, maxWords: int, current: seq<string>, count: int): (groups: seq<seq<string>>)
    ensures forall g :: g in groups ==> g != []
    decreases |tokens|
  {
    if tokens == [] then (if current != [] then [current] else [])
    else
      var open := current + [tokens[0]];
      var words := count + (if StartsWord(tokens[0]) then 1 else 0);
      if words >= maxWords then [open] + Groups(tokens[1..], maxWords, [], 0)
      else Groups(tokens[1..], maxWords, open, words)
  }

  /** `"".join(group).strip()` for every group. */
  function Pieces(groups: seq<seq<string>>): (chunks: seq<string>)
    ensures |chunks| == |groups|
    ensures forall i :: 0 <= i < |groups| ==> chunks[i] == Strip(Concat(groups[i]))
  {
    seq(|groups|, i requires 0 <= i < |groups| => Strip(Concat(groups[i])))
  }

  /** The text of every group. */
  function GroupTexts(groups: seq<seq<string>>): (texts: seq<string>)
    ensures |texts| == |groups|
    ensures forall i :: 0 <= i < |groups| ==> texts[i] == Concat(groups[i])
  {
    seq(|groups|, i requires 0 <= i < |groups| => Concat(groups[i]))
  }

  /** What `_chunk(text, max_words)` returns. */
  function Chunks(text: string, maxWords: int): seq<string>
  {
    Pieces(Groups(TokenStream(text), maxWords, [], 0))
  }

  /** `_chunk`: one pass over the token stream with an open group and its
      word count. */
  method Chunk(text: string, maxWords: int) returns (chunks: seq<string>)
    ensures chunks == Chunks(text, maxWords)
  {
    var tokens := TokenStream(text);
    chunks := [];
    var current: seq<string> := [];
    var count := 0;
    var i := 0;
    while i < |tokens|
      invariant 0 <= i <= |tokens|
      invariant chunks + Pieces(Groups(tokens[i..], maxWords, current, count)) == Chunks(text, maxWords)
    {
      var token := tokens[i];
      GroupsStep(tokens, i, maxWords, current, count);
      current := current + [token];
      if StartsWord(token) {
        count := count + 1;
      }
      if count >= maxWords {
        assert (chunks + [Strip(Concat(current))]) + Pieces(Groups(tokens[i + 1..], maxWords, [], 0)) == chunks + ([Strip(Concat(current))] + Pieces(Groups(tokens[i + 1..], maxWords, [], 0)));
        chunks := chunks + [Strip(Concat(current))];
        current := [];
        count := 0;
      }
      i := i + 1;
    }
    assert tokens[i..] == [];
    if current != [] {
      chunks := chunks + [Strip(Concat(current))];
    }
  }

  /** One step of `_chunk`'s loop: token `i` joins the open group, which
      closes when its word count reaches `maxWords`. */
  lemma GroupsStep(tokens: seq<string>, i: nat, maxWords: int, current: seq<string>, count: int)
    requires i < |tokens|
    ensures var open := current + [tokens[i]];
      var words := count + (if StartsWord(tokens[i]) then 1 else 0);
      Pieces(Groups(tokens[i..], maxWords, current, count)) ==
        if words >= maxWords then [Strip(Concat(open))] + Pieces(Groups(tokens[i + 1..], maxWords, [], 0))
        else Pieces(Groups(tokens[i + 1..], maxWords, open, words))
  {
    assert tokens[i..][0] == tokens[i] && tokens[i..][1..] == tokens[i + 1..];
    var open := current + [tokens[i]];
    var words := count + (if StartsWord(tokens[i]) then 1 else 0);
    if words >= maxWords {
      var rest := Groups(tokens[i + 1..], maxWords, [], 0);
      assert Pieces([open] + rest) == [Strip(Concat(open))] + Pieces(rest);
    }
  }

  // ---------------------------------------------------------------------
  // Properties
  // ---------------------------------------------------------------------

  function WordCount(tokens: seq<string>): nat
  {
    |WordsOf(tokens)|
  }

  lemma {:induction false} WordsOfAppend(a: seq<string>, b: seq<string>)
    ensures WordsOf(a + b) == WordsOf(a) + WordsOf(b)
  {
    if a == [] {
      assert a + b == b;
    } else {
      var head := if StartsWord(a[0]) then [a[0]] else [];
      assert (a + b)[0] == a[0];
      assert (a + b)[1..] == a[1..] + b;
      assert WordsOf(a + b) == head + WordsOf(a[1..] + b);
      WordsOfAppend(a[1..], b);
      assert WordsOf(a) == head + WordsOf(a[1..]);
    }
  }

  lemma GroupTextsCons(g: seq<string>, rest: seq<seq<string>>)
    ensures Concat(GroupTexts([g] + rest)) == Concat(g) + Concat(GroupTexts(rest))
  {
    var texts := GroupTexts([g] + rest);
    assert texts == [Concat(g)] + GroupTexts(rest);
    assert texts[0] == Concat(g) && texts[1..] == GroupTexts(rest);
  }

  /** Nothing is lost or reordered: the texts of the groups, put back
      together, are the open group's text followed by the unread text. */
  lemma {:induction false} GroupsLossless(tokens: seq<string>, maxWords: int, current: seq<string>, count: int)
    ensures Concat(GroupTexts(Groups(tokens, maxWords, current, count))) == Concat(current) + Concat(tokens)
    decreases |tokens|
  {
    var groups := Groups(tokens, maxWords, current, count);
    if tokens == [] {
      if current != [] {
        assert GroupTexts(groups) == [Concat(current)];
      }
    } else {
      var open := current + [tokens[0]];
      var words := count + (if StartsWord(tokens[0]) then 1 else 0);
      assert Concat(open) == Concat(current) + tokens[0] by {
        ConcatAppend(current, [tokens[0]]);
        assert Concat([tokens[0]]) == tokens[0];
      }
      assert Concat(tokens) == tokens[0] + Concat(tokens[1..]);
      var unread := Concat(tokens[1..]);
      if words >= maxWords {
        var rest := Groups(tokens[1..], maxWords, [], 0);
        assert Concat(GroupTexts(rest)) == unread by {
          GroupsLossless(tokens[1..], maxWords, [], 0);
        }
        assert groups == [open] + rest;
        GroupTextsCons(open, rest);
      } else {
        assert groups == Groups(tokens[1..], maxWords, open, words);
        GroupsLossless(tokens[1..], maxWords, open, words);
      }
      assert (Concat(current) + tokens[0]) + unread == Concat(current) + (tokens[0] + unread);
    }
  }

  /** The word count of an open group grown by one token. */
  lemma WordCountStep(current: seq<string>, tokens: seq<string>)
    requires tokens != []
    ensures WordCount(current + [tokens[0]]) == WordCount(current) + (if StartsWord(tokens[0]) then 1 else 0)
    ensures WordCount(tokens) == (if StartsWord(tokens[0]) then 1 else 0) + WordCount(tokens[1..])
  {
    WordsOfAppend(current, [tokens[0]]);
    WordsOfAppend([tokens[0]], tokens[1..]);
    assert [tokens[0]] + tokens[1..] == tokens;
  }

  /** For a positive limit, every group but the last holds exactly
      `maxWords` words and the last at most that many. */
  lemma {:induction false} GroupsAreFull(tokens: seq<string>, maxWords: int, current: seq<string>, count: int)
    requires maxWords >= 1
    requires count == WordCount(current) < maxWords
    ensures var groups := Groups(tokens, maxWords, current, count);
      && (forall i :: 0 <= i < |groups| - 1 ==> WordCount(groups[i]) == maxWords)
      && (groups != [] ==> WordCount(groups[|groups| - 1]) <= maxWords)
    decreases |tokens|
  {
    var groups := Groups(tokens, maxWords, current, count);
    if tokens != [] {
      var open := current + [tokens[0]];
      var words := count + (if StartsWord(tokens[0]) then 1 else 0);
      assert WordCount(open) == words by {
        WordCountStep(current, tokens);
      }
      if words >= maxWords {
        var rest := Groups(tokens[1..], maxWords, [], 0);
        GroupsAreFull(tokens[1..], maxWords, [], 0);
        assert groups == [open] + rest;
        forall i | 0 <= i < |groups| - 1 ensures WordCount(groups[i]) == maxWords {
          if i > 0 {
            assert groups[i] == rest[i - 1];
          }
        }
        if rest != [] {
          assert groups[|groups| - 1] == rest[|rest| - 1];
        }
      } else {
        assert groups == Groups(tokens[1..], maxWords, open, words);
        GroupsAreFull(tokens[1..], maxWords, open, words);
      }
    }
  }

  lemma MulSucc(a: int, m: int)
    ensures (a + 1) * m == a * m + m
  {
  }

  /** For a positive limit, the total number of words `W` (those already in
      the open group plus those still unread) fixes the number of groups
      between `W / maxWords` rounded up and `W / maxWords + 1`. */
  lemma {:induction false} GroupsCount(tokens: seq<string>, maxWords: int, current: seq<string>, count: int)
    requires maxWords >= 1
    requires count == WordCount(current) < maxWords
    ensures var n := |Groups(tokens, maxWords, current, count)|;
      (n - 1) * maxWords <= count + WordCount(tokens) <= n * maxWords
    decreases |tokens|
  {
    if tokens != [] {
      var open := current + [tokens[0]];
      var words := count + (if StartsWord(tokens[0]) then 1 else 0);
      WordCountStep(current, tokens);
      if words >= maxWords {
        var rest := Groups(tokens[1..], maxWords, [], 0);
        GroupsCount(tokens[1..], maxWords, [], 0);
        assert |Groups(tokens, maxWords, current, count)| == |rest| + 1;
        MulSucc(|rest|, maxWords);
        MulSucc(|rest| - 1, maxWords);
      } else {
        GroupsCount(tokens[1..], maxWords, open, words);
      }
    }
  }

  /** `_chunk` loses nothing but the whitespace `strip` removes: the text is
      the concatenation of consecutive pieces, and chunk `i` is piece `i`
      stripped. */
  lemma ChunksCoverText(text: string, maxWords: int)
    ensures var groups := Groups(TokenStream(text), maxWords, [], 0);
      && Concat(GroupTexts(groups)) == text
      && |Chunks(text, maxWords)| == |groups|
      && forall i :: 0 <= i < |groups| ==> Chunks(text, maxWords)[i] == Strip(GroupTexts(groups)[i])
  {
    GroupsLossless(TokenStream(text), maxWords, [], 0);
    TokenStreamLossless(text);
  }

  /** A chunk is empty exactly when its piece of the text is whitespace
      only. */
  lemma EmptyChunks(text: string, maxWords: int)
    ensures var groups := Groups(TokenStream(text), maxWords, [], 0);
      forall i :: 0 <= i < |groups| ==> (Chunks(text, maxWords)[i] == [] <==> IsBlank(GroupTexts(groups)[i]))
  {
  }

  /** The whitespace after the last full chunk becomes an empty final
      chunk: a text such as "a b " cut at two words gives "a b" and "". */
  lemma TrailingSpaceChunk(x: char, c: char, y: char, d: char)
    requires IsWordChar(x) && IsWordChar(y) && IsSpace(c) && IsSpace(d)
    ensures Chunks([x, c, y, d], 2) == [[x, c, y], []]
  {
    var tokens := TokenStream([x, c, y, d]);
    assert tokens == [[x], [c], [y], [d]] by {
      ExampleTokens(x, c, y, d);
    }
    var first, last := tokens[..3], tokens[3..];
    assert Groups(tokens, 2, [], 0) == [first, last] by {
      WordCharIsNotSpace(c);
      WordCharIsNotSpace(d);
      ExampleGroups(tokens, first, last);
    }
    assert first == [[x], [c], [y]] && last == [[d]];
    ExamplePieces(x, c, y, d);
    assert Pieces([first, last]) == [Strip(Concat(first)), Strip(Concat(last))];
  }

  /** The two groups of the example, concatenated and stripped. */
  lemma ExamplePieces(x: char, c: char, y: char, d: char)
    requires IsWordChar(x) && IsWordChar(y) && IsSpace(c) && IsSpace(d)
    ensures Strip(Concat([[x], [c], [y]])) == [x, c, y]
    ensures Strip(Concat([[d]])) == []
  {
    var none: seq<string> := [];
    assert [[y]][1..] == none;
    assert Concat([[y]]) == [y] + Concat(none);
    assert [[c], [y]][1..] == [[y]];
    assert Concat([[c], [y]]) == [c] + [y];
    assert [[x], [c], [y]][1..] == [[c], [y]];
    assert Concat([[x], [c], [y]]) == [x] + [c, y];
    WordCharIsNotSpace(x);
    WordCharIsNotSpace(y);
    StripOfStripped([x, c, y]);
    assert [[d]][1..] == none;
    assert Concat([[d]]) == [d];
    assert IsBlank([d]);
  }

  lemma ExampleTokens(x: char, c: char, y: char, d: char)
    requires IsWordChar(x) && IsWordChar(y) && IsSpace(c) && IsSpace(d)
    ensures TokenStream([x, c, y, d]) == [[x], [c], [y], [d]]
  {
    WordCharIsNotSpace(x);
    WordCharIsNotSpace(y);
    WordCharIsNotSpace(c);
    WordCharIsNotSpace(d);
    var s3: string := [d];
    var s2 := [y] + s3;
    var s1 := [c] + s2;
    var t3 := TokenStream(s3);
    assert t3 == [[d]] by { LoneToken(d); }
    var t2 := TokenStream(s2);
    assert t2 == [[y]] + t3 by { ConsToken(y, s3); }
    var t1 := TokenStream(s1);
    assert t1 == [[c]] + t2 by { ConsToken(c, s2); }
    assert TokenStream([x] + s1) == [[x]] + t1 by { ConsToken(x, s1); }
    assert [x] + s1 == [x, c, y, d];
    assert [[x]] + ([[c]] + ([[y]] + [[d]])) == [[x], [c], [y], [d]];
  }

  /** A lone word or whitespace character is one token. */
  lemma LoneToken(d: char)
    requires IsWordChar(d) || IsSpace(d)
    ensures TokenStream([d]) == [[d]]
  {
    ConsToken(d, []);
    assert [d] + [] == [d];
    assert [[d]] + TokenStream([]) == [[d]];
  }

  /** A word or whitespace character not followed by one of its kind is a
      token of its own. */
  lemma ConsToken(x: char, rest: string)
    requires IsWordChar(x) || IsSpace(x)
    requires rest != [] ==> (IsWordChar(x) ==> !IsWordChar(rest[0])) && (IsSpace(x) ==> !IsSpace(rest[0]))
    ensures TokenStream([x] + rest) == [[x]] + TokenStream(rest)
  {
    var s := [x] + rest;
    TokenStreamStep(s, 1);
    assert s[..1] == [x] && s[1..] == rest;
  }

  lemma ExampleGroups(tokens: seq<string>, first: seq<string>, last: seq<string>)
    requires |tokens| == 4 && StartsWord(tokens[0]) && StartsWord(tokens[2])
    requires !StartsWord(tokens[1]) && !StartsWord(tokens[3])
    requires first == tokens[..3] && last == tokens[3..]
    ensures Groups(tokens, 2, [], 0) == [first, last]
  {
    var t1, t2, t3 := tokens[1..], tokens[2..], tokens[3..];
    assert t1[1..] == t2 && t2[1..] == t3 && t3[1..] == [];
    var none: seq<string> := [];
    assert Groups(t3, 2, [], 0) == Groups(none, 2, none + [t3[0]], 0);
    assert none + [t3[0]] == last;
    var two := tokens[..2];
    assert two + [t2[0]] == first;
    assert Groups(t2, 2, two, 1) == [first] + Groups(t3, 2, [], 0);
    var one := tokens[..1];
    assert one + [t1[0]] == two;
    assert Groups(t1, 2, one, 1) == Groups(t2, 2, two, 1);
    assert none + [tokens[0]] == one;
  }

  /** The token stream of `s` starts with a token of length `n`. */
  lemma TokenStreamStep(s: string, n: nat)
    requires s != [] && n <= |s|
    requires IsWordChar(s[0]) || IsSpace(s[0])
    requires forall i :: 0 <= i < n ==> (IsWordChar(s[0]) ==> IsWordChar(s[i])) && (IsSpace(s[0]) ==> IsSpace(s[i]))
    requires n < |s| ==> (IsWordChar(s[0]) ==> !IsWordChar(s[n])) && (IsSpace(s[0]) ==> !IsSpace(s[n]))
    ensures TokenStream(s) == [s[..n]] + TokenStream(s[n..])
  {
    if IsWordChar(s[0]) {
      WordRunLength(s, n);
    } else {
      LeadingSpacesLength(s, n);
    }
  }

  lemma {:induction false} WordRunLength(s: string, n: nat)
    requires n <= |s|
    requires forall i :: 0 <= i < n ==> IsWordChar(s[i])
    requires n < |s| ==> !IsWordChar(s[n])
    ensures WordRun(s) == n
  {
    if n > 0 {
      WordRunLength(s[1..], n - 1);
    }
  }

  lemma LeadingSpacesLength(s: string, n: nat)
    requires n <= |s|
    requires forall i :: 0 <= i < n ==> IsSpace(s[i])
    requires n < |s| ==> !IsSpace(s[n])
    ensures LeadingSpaces(s) == n
  {
  }

  /** For a positive limit, a text of `W` words gives between
      `ceil(W / maxWords)` and `W / maxWords + 1` chunks, and every chunk
      but the last was cut at exactly `maxWords` words. */
  lemma ChunkCount(text: string, maxWords: int)
    requires maxWords >= 1
    ensures var groups := Groups(TokenStream(text), maxWords, [], 0);
      && (|Chunks(text, maxWords)| - 1) * maxWords <= |WordTokens(text)| <= |Chunks(text, maxWords)| * maxWords
      && forall i :: 0 <= i < |groups| - 1 ==> WordCount(groups[i]) == maxWords
  {
    StreamWordsAreWordTokens(text);
    GroupsAreFull(TokenStream(text), maxWords, [], 0);
    GroupsCount(TokenStream(text), maxWords, [], 0);
  }

  /** The tokens end with whitespace or punctuation after the last word. */
  predicate EndsOutsideWord(tokens: seq<string>) {
    tokens != [] && !StartsWord(tokens[|tokens| - 1])
  }

  /** Tokens without a word end outside a word. */
  lemma NoWordsEndOutside(tokens: seq<string>)
    requires tokens != [] && WordCount(tokens) == 0
    ensures EndsOutsideWord(tokens)
  {
    var n := |tokens|;
    WordsOfAppend(tokens[..n - 1], [tokens[n - 1]]);
    assert tokens[..n - 1] + [tokens[n - 1]] == tokens;
  }

  /** Quotient and remainder are determined by `a == q * m + r`. */
  lemma DivUnique(a: int, m: int, q: int, r: int)
    requires m >= 1 && 0 <= r < m && a == q * m + r
    ensures a / m == q && a % m == r
  {
    var q0, r0 := a / m, a % m;
    var d := q - q0;
    assert d * m == r0 - r by {
      assert q0 * m + r0 == q * m + r;
      assert d * m == q * m - q0 * m;
    }
  }

  lemma DivStep(w: nat, m: int)
    requires m >= 1
    ensures (m + w) / m == w / m + 1 && (m + w) % m == w % m
  {
    var q, r := w / m, w % m;
    MulSucc(q, m);
    DivUnique(m + w, m, q + 1, r);
  }

  /** The number of groups `total` words make, counted a group at a time:
      one per `m` words, and a last one for a remainder or, when `ends`
      holds, for what follows the last word. */
  function Tally(total: nat, m: int, ends: bool): (n: nat)
    requires m >= 1
    ensures total <= n * m
    decreases total
  {
    if total < m then (if total != 0 || ends then 1 else 0)
    else 1 + Tally(total - m, m, ends)
  }

  /** `Tally` is the quotient, plus one for a remainder or a trailing group. */
  lemma {:induction false} TallyIsQuotient(total: nat, m: int, ends: bool)
    requires m >= 1
    ensures Tally(total, m, ends) == total / m + (if total % m != 0 || ends then 1 else 0)
    decreases total
  {
    if total < m {
      DivUnique(total, m, 0, total);
    } else {
      TallyIsQuotient(total - m, m, ends);
      DivStep(total - m, m);
    }
  }

  /** The number of groups, counted a group at a time. */
  lemma {:induction false} GroupsTally(tokens: seq<string>, maxWords: int, current: seq<string>, count: int)
    requires maxWords >= 1
    requires count == WordCount(current) < maxWords
    ensures |Groups(tokens, maxWords, current, count)| ==
      Tally(count + WordCount(tokens), maxWords, EndsOutsideWord(current + tokens))
    decreases |tokens|
  {
    if tokens == [] {
      GroupsTallyEnd(maxWords, current, count);
    } else if count + (if StartsWord(tokens[0]) then 1 else 0) >= maxWords {
      var rest := tokens[1..];
      GroupsTally(rest, maxWords, [], 0);
      assert [] + rest == rest;
      FlushStep(tokens, maxWords, current, count);
      TallyStep(WordCount(rest), maxWords, EndsOutsideWord(rest));
    } else {
      var words := count + (if StartsWord(tokens[0]) then 1 else 0);
      WordCountStep(current, tokens);
      GroupsTally(tokens[1..], maxWords, current + [tokens[0]], words);
      CarryStep(tokens, maxWords, current, count);
    }
  }

  /** With no tokens left, the open group is the last one, if it is non-empty. */
  lemma GroupsTallyEnd(maxWords: int, current: seq<string>, count: int)
    requires maxWords >= 1
    requires count == WordCount(current) < maxWords
    ensures |Groups([], maxWords, current, count)| == Tally(count, maxWords, EndsOutsideWord(current + []))
  {
    assert current + [] == current;
    if current != [] && count == 0 {
      NoWordsEndOutside(current);
    }
  }

  /** One more full group adds one to the tally. */
  lemma TallyStep(total: nat, m: int, ends: bool)
    requires m >= 1
    ensures Tally(total + m, m, ends) == 1 + Tally(total, m, ends)
  {
  }

  /** The exact number of groups: one for every `maxWords` words, plus one
      for a remainder of fewer words or for tokens after the last word. */
  lemma GroupsExactCount(tokens: seq<string>, maxWords: int, current: seq<string>, count: int)
    requires maxWords >= 1
    requires count == WordCount(current) < maxWords
    ensures var total := count + WordCount(tokens);
      |Groups(tokens, maxWords, current, count)| ==
        total / maxWords + (if total % maxWords != 0 || EndsOutsideWord(current + tokens) then 1 else 0)
  {
    GroupsTally(tokens, maxWords, current, count);
    TallyIsQuotient(count + WordCount(tokens), maxWords, EndsOutsideWord(current + tokens));
  }

  /** When the first token fills the open group, that group is emitted whole
      and counting starts afresh on the rest. */
  lemma FlushStep(tokens: seq<string>, maxWords: int, current: seq<string>, count: int)
    requires maxWords >= 1 && tokens != []
    requires count == WordCount(current) < maxWords
    requires count + (if StartsWord(tokens[0]) then 1 else 0) >= maxWords
    ensures count + WordCount(tokens) == maxWords + WordCount(tokens[1..])
    ensures EndsOutsideWord(current + tokens) == EndsOutsideWord(tokens[1..])
    ensures |Groups(tokens, maxWords, current, count)| == 1 + |Groups(tokens[1..], maxWords, [], 0)|
  {
    WordCountStep(current, tokens);
    EndsOutsideAfterFlush(current, tokens);
  }

  /** When the first token does not fill the open group, it joins it. */
  lemma CarryStep(tokens: seq<string>, maxWords: int, current: seq<string>, count: int)
    requires maxWords >= 1 && tokens != []
    requires count + (if StartsWord(tokens[0]) then 1 else 0) < maxWords
    ensures var words := count + (if StartsWord(tokens[0]) then 1 else 0);
      && words + WordCount(tokens[1..]) == count + WordCount(tokens)
      && current + [tokens[0]] + tokens[1..] == current + tokens
      && |Groups(tokens, maxWords, current, count)| == |Groups(tokens[1..], maxWords, current + [tokens[0]], words)|
  {
    WordCountStep(current, tokens);
    assert current + [tokens[0]] + tokens[1..] == current + tokens;
  }

  /** Whether a group sequence ends outside a word is decided by its last token. */
  lemma EndsOutsideAfterFlush(current: seq<string>, tokens: seq<string>)
    requires tokens != []
    ensures EndsOutsideWord(current + tokens) ==
      (EndsOutsideWord(tokens[1..]) || (tokens[1..] == [] && !StartsWord(tokens[0])))
  {
    var all := current + tokens;
    assert all[|all| - 1] == tokens[|tokens| - 1];
    if tokens[1..] != [] {
      assert tokens[1..][|tokens[1..]| - 1] == tokens[|tokens| - 1];
    }
  }

  /** The exact number of chunks of a text of `W` words: `W / maxWords`,
      plus one when the division leaves a remainder or when the text ends
      with whitespace or punctuation (which then forms a last chunk of its
      own, possibly empty once stripped). */
  lemma ChunkCountExact(text: string, maxWords: int)
    requires maxWords >= 1
    ensures var w := |WordTokens(text)|;
      |Chunks(text, maxWords)| ==
        w / maxWords + (if w % maxWords != 0 || (text != [] && !IsWordChar(text[|text| - 1])) then 1 else 0)
  {
    var tokens := TokenStream(text);
    StreamWordsAreWordTokens(text);
    GroupsExactCount(tokens, maxWords, [], 0);
    assert [] + tokens == tokens;
    if text != [] {
      TokenStreamEnd(text);
    }
  }

  /** A text of more than 2000 words is cut into at least two chunks of
      1800 words. */
  lemma LongTextHasSeveralChunks(text: string)
    requires |WordTokens(text)| > 2000
    ensures |Chunks(text, 1800)| >= 2
  {
    ChunkCount(text, 1800);
  }
}
