/** `SummarizerService._summarize_sentences`: score every sentence against
    the frequency table of all its words, keep the `target_count` best, and
    return them in their original order.

    Python's `sorted(..., key=score, reverse=True)` is stable and runs over a
    list in index order, so it orders by key, highest first, and equal keys
    by index, lowest first. The second `sorted(..., key=index)` orders by
    index. Both are insertion sorts here, over one strict order each. */
module Selection {
  import opened Text
  import opened Tokenizer
  import opened Frequency
  import opened Scoring

  /** One `(i, score)` pair of `scored`. */
  datatype Ranked = Ranked(index: nat, key: real)

  /** The two orders the selector sorts by. */
  datatype Order = ByScore | ByPosition

  /** `a` comes strictly before `b` in the given order. */
  predicate Precedes(o: Order, a: Ranked, b: Ranked) {
    match o
    case ByScore => a.key > b.key || (a.key == b.key && a.index < b.index)
    case ByPosition => a.index < b.index
  }

  lemma PrecedesTransitive(o: Order, a: Ranked, b: Ranked, c: Ranked)
    requires Precedes(o, a, b) && Precedes(o, b, c)
    ensures Precedes(o, a, c)
  {
  }

  /** On entries with different indices both orders are total. */
  lemma PrecedesTotal(o: Order, a: Ranked, b: Ranked)
    requires a.index != b.index
    ensures Precedes(o, a, b) || Precedes(o, b, a)
  {
  }

  predicate SortedBy(o: Order, s: seq<Ranked>) {
    forall i, j :: 0 <= i < j < |s| ==> Precedes(o, s[i], s[j])
  }

  predicate DistinctIndices(s: seq<Ranked>) {
    forall i, j :: 0 <= i < j < |s| ==> s[i].index != s[j].index
  }

  /** Insert `x` before the first entry it precedes. */
  function InsertBy(o: Order, x: Ranked, s: seq<Ranked>): (r: seq<Ranked>)
    ensures multiset(r) == multiset(s) + multiset{x}
  {
    if s == [] || Precedes(o, x, s[0]) then [x] + s
    else
      assert s == [s[0]] + s[1..];
      [s[0]] + InsertBy(o, x, s[1..])
  }

  /** Insertion sort: the model of Python's `sorted` on a list whose
      entries have distinct indices. */
  function SortBy(o: Order, s: seq<Ranked>): (r: seq<Ranked>)
    ensures multiset(r) == multiset(s)
  {
    if s == [] then []
    else
      assert s == [s[0]] + s[1..];
      InsertBy(o, s[0], SortBy(o, s[1..]))
  }

  lemma {:induction false} InsertBySorted(o: Order, x: Ranked, s: seq<Ranked>)
    requires SortedBy(o, s)
    requires forall y :: y in s ==> y.index != x.index
    ensures SortedBy(o, InsertBy(o, x, s))
  {
    if s == [] || Precedes(o, x, s[0]) {
      var r := [x] + s;
      forall i, j | 0 <= i < j < |r| ensures Precedes(o, r[i], r[j]) {
        if i == 0 && j > 1 {
          PrecedesTransitive(o, x, s[0], s[j - 1]);
        }
      }
    } else {
      PrecedesTotal(o, x, s[0]);
      InsertBySorted(o, x, s[1..]);
      var tail := InsertBy(o, x, s[1..]);
      var r := [s[0]] + tail;
      forall j | 0 <= j < |tail| ensures Precedes(o, s[0], tail[j]) {
        assert tail[j] in multiset(tail);
        assert tail[j] in s[1..] || tail[j] == x;
        if tail[j] in s[1..] {
          var m :| 0 <= m < |s[1..]| && s[1..][m] == tail[j];
          assert s[m + 1] == tail[j];
        }
      }
      forall i, j | 0 <= i < j < |r| ensures Precedes(o, r[i], r[j]) {
        if i == 0 {
          assert r[j] == tail[j - 1];
        } else {
          assert r[i] == tail[i - 1] && r[j] == tail[j - 1];
        }
      }
    }
  }

  lemma {:induction false} SortBySorted(o: Order, s: seq<Ranked>)
    requires DistinctIndices(s)
    ensures SortedBy(o, SortBy(o, s))
  {
    if s != [] {
      var rest := SortBy(o, s[1..]);
      SortBySorted(o, s[1..]);
      forall y | y in rest ensures y.index != s[0].index {
        assert y in multiset(rest);
        var m :| 0 <= m < |s[1..]| && s[1..][m] == y;
        assert s[m + 1] == y;
      }
      InsertBySorted(o, s[0], rest);
    }
  }

  lemma SortByLength(o: Order, s: seq<Ranked>)
    ensures |SortBy(o, s)| == |s|
  {
    assert |multiset(SortBy(o, s))| == |multiset(s)|;
  }

  lemma SortByMember(o: Order, s: seq<Ranked>, y: Ranked)
    ensures y in SortBy(o, s) <==> y in s
  {
    assert y in SortBy(o, s) <==> y in multiset(SortBy(o, s));
    assert y in s <==> y in multiset(s);
  }

  /** A strictly sorted list of entries of one ranking has no index twice. */
  lemma SortedDistinct(o: Order, s: seq<Ranked>, keys: seq<real>)
    requires SortedBy(o, s)
    requires forall y :: y in s ==> y.index < |keys| && y == Ranked(y.index, keys[y.index])
    ensures DistinctIndices(s)
  {
    forall i, j | 0 <= i < j < |s| ensures s[i].index != s[j].index {
      assert s[i] in s && s[j] in s;
      assert Precedes(o, s[i], s[j]);
    }
  }

  /** `scored`: each key paired with its position. */
  function Ranking(keys: seq<real>): (r: seq<Ranked>)
    ensures |r| == |keys|
    ensures forall i :: 0 <= i < |r| ==> r[i] == Ranked(i, keys[i])
  {
    seq(|keys|, i requires 0 <= i < |keys| => Ranked(i, keys[i]))
  }

  lemma RankingMember(keys: seq<real>, y: Ranked)
    requires y in Ranking(keys)
    ensures y.index < |keys| && y == Ranked(y.index, keys[y.index])
  {
    var m :| 0 <= m < |keys| && Ranking(keys)[m] == y;
  }

  function Indices(s: seq<Ranked>): (r: seq<nat>)
    ensures |r| == |s|
    ensures forall i :: 0 <= i < |s| ==> r[i] == s[i].index
  {
    seq(|s|, i requires 0 <= i < |s| => s[i].index)
  }

  function Min(a: int, b: int): int { if a <= b then a else b }

  /** `sorted(scored, key=score, reverse=True)`. */
  function Best(keys: seq<real>): seq<Ranked>
  {
    SortBy(ByScore, Ranking(keys))
  }

  /** `sorted(...)[:k]`. */
  function Kept(keys: seq<real>, k: nat): seq<Ranked>
  {
    var best := Best(keys);
    best[..Min(k, |best|)]
  }

  /** `top_idx`: the positions of the first `k` entries in descending score
      order, put back in ascending position order. */
  function TopIndices(keys: seq<real>, k: nat): seq<nat>
  {
    Indices(SortBy(ByPosition, Kept(keys, k)))
  }

  /** A position `i` that outranks position `j`. */
  predicate Outranks(keys: seq<real>, i: nat, j: nat)
    requires i < |keys| && j < |keys|
  {
    keys[i] > keys[j] || (keys[i] == keys[j] && i < j)
  }

  lemma BestSpec(keys: seq<real>)
    ensures |Best(keys)| == |keys|
    ensures SortedBy(ByScore, Best(keys))
    ensures forall y :: y in Best(keys) <==> y in Ranking(keys)
  {
    SortByLength(ByScore, Ranking(keys));
    SortBySorted(ByScore, Ranking(keys));
    forall y ensures y in Best(keys) <==> y in Ranking(keys) {
      SortByMember(ByScore, Ranking(keys), y);
    }
  }

  /** The kept entries are distinct entries of the ranking. */
  lemma KeptSpec(keys: seq<real>, k: nat)
    ensures |Kept(keys, k)| == Min(k, |keys|)
    ensures DistinctIndices(Kept(keys, k))
    ensures forall y :: y in Kept(keys, k) ==> y.index < |keys| && y == Ranked(y.index, keys[y.index])
  {
    BestSpec(keys);
    forall y | y in Best(keys) ensures y.index < |keys| && y == Ranked(y.index, keys[y.index]) {
      RankingMember(keys, y);
    }
    SortedDistinct(ByScore, Best(keys), keys);
  }

  /** The positions kept: `min(k, n)` of them, valid, strictly increasing. */
  lemma {:induction false} TopIndicesShape(keys: seq<real>, k: nat)
    ensures |TopIndices(keys, k)| == Min(k, |keys|)
    ensures forall t :: 0 <= t < |TopIndices(keys, k)| ==> TopIndices(keys, k)[t] < |keys|
    ensures forall s, t :: 0 <= s < t < |TopIndices(keys, k)| ==> TopIndices(keys, k)[s] < TopIndices(keys, k)[t]
  {
    var kept := Kept(keys, k);
    var ordered := SortBy(ByPosition, kept);
    KeptSpec(keys, k);
    SortByLength(ByPosition, kept);
    SortBySorted(ByPosition, kept);
    forall t | 0 <= t < |ordered| ensures ordered[t].index < |keys| {
      SortByMember(ByPosition, kept, ordered[t]);
    }
  }

  /** The positions kept are those of the kept entries. */
  lemma TopIndicesMembers(keys: seq<real>, k: nat)
    ensures forall i :: i in TopIndices(keys, k) <==> exists y :: y in Kept(keys, k) && y.index == i
  {
    var kept := Kept(keys, k);
    var ordered := SortBy(ByPosition, kept);
    SortByLength(ByPosition, kept);
    forall i ensures i in TopIndices(keys, k) <==> exists y :: y in kept && y.index == i {
      if i in TopIndices(keys, k) {
        var t :| 0 <= t < |ordered| && ordered[t].index == i;
        SortByMember(ByPosition, kept, ordered[t]);
      }
      if exists y :: y in kept && y.index == i {
        var y :| y in kept && y.index == i;
        SortByMember(ByPosition, kept, y);
        var t :| 0 <= t < |ordered| && ordered[t] == y;
        assert TopIndices(keys, k)[t] == i;
      }
    }
  }

  /** Every kept position outranks every dropped one. */
  lemma {:induction false} TopIndicesOutrank(keys: seq<real>, k: nat, i: nat, j: nat)
    requires i in TopIndices(keys, k) && j < |keys| && j !in TopIndices(keys, k)
    ensures i < |keys| && Outranks(keys, i, j)
  {
    var best := Best(keys);
    var n := Min(k, |best|);
    BestSpec(keys);
    KeptSpec(keys, k);
    TopIndicesMembers(keys, k);
    var x :| x in Kept(keys, k) && x.index == i;
    var p :| 0 <= p < n && best[p] == x;
    var y := Ranked(j, keys[j]);
    assert Ranking(keys)[j] == y;
    assert y in Ranking(keys);
    assert y in best;
    var q :| 0 <= q < |best| && best[q] == y;
    if q < n {
      assert false;
    }
    assert Precedes(ByScore, best[p], best[q]);
  }

  /** What the selector keeps: `min(k, n)` positions, in strictly increasing
      order, each a valid position, and every kept position outranks every
      dropped one. */
  lemma TopIndicesSpec(keys: seq<real>, k: nat)
    ensures |TopIndices(keys, k)| == Min(k, |keys|)
    ensures forall t :: 0 <= t < |TopIndices(keys, k)| ==> TopIndices(keys, k)[t] < |keys|
    ensures forall s, t :: 0 <= s < t < |TopIndices(keys, k)| ==> TopIndices(keys, k)[s] < TopIndices(keys, k)[t]
    ensures forall i, j :: i in TopIndices(keys, k) && 0 <= j < |keys| && j !in TopIndices(keys, k) ==> Outranks(keys, i, j)
  {
    TopIndicesShape(keys, k);
    forall i, j | i in TopIndices(keys, k) && 0 <= j < |keys| && j !in TopIndices(keys, k)
      ensures Outranks(keys, i, j)
    {
      TopIndicesOutrank(keys, k, i, j);
    }
  }

  /** `all_words`: the word tokens of every sentence, in order. */
  function AllWords(sentences: seq<string>): seq<string>
  {
    if sentences == [] then []
    else AllWords(sentences[..|sentences| - 1]) + WordTokens(sentences[|sentences| - 1])
  }

  /** The ranking keys of the sentences against one frequency table. */
  function Keys(sentences: seq<string>, freq: map<string, real>): (keys: seq<real>)
    ensures |keys| == |sentences|
    ensures forall i :: 0 <= i < |sentences| ==> keys[i] == RankKey(sentences[i], freq)
  {
    seq(|sentences|, i requires 0 <= i < |sentences| => RankKey(sentences[i], freq))
  }

  /** The sentences at the given positions, in that order. */
  function Pick(sentences: seq<string>, idx: seq<nat>): (r: seq<string>)
    requires forall t :: 0 <= t < |idx| ==> idx[t] < |sentences|
    ensures |r| == |idx|
    ensures forall t :: 0 <= t < |idx| ==> r[t] == sentences[idx[t]]
  {
    seq(|idx|, t requires 0 <= t < |idx| => sentences[idx[t]])
  }

  /** The keys `_summarize_sentences` ranks `sentences` by. */
  function SentenceKeys(sentences: seq<string>): seq<real>
  {
    Keys(sentences, Weights(AllWords(sentences)))
  }

  /** What `_summarize_sentences(sentences, k)` returns. */
  function Select(sentences: seq<string>, k: int): seq<string>
  {
    if k <= 0 then []
    else if |sentences| <= k then sentences
    else
      var idx := TopIndices(SentenceKeys(sentences), k);
      TopIndicesSpec(SentenceKeys(sentences), k);
      Pick(sentences, idx)
  }

  /** `_summarize_sentences`: the early returns, the `all_words` loop, the
      scoring comprehension, then the two sorts. */
  method SummarizeSentences(sentences: seq<string>, k: int) returns (r: seq<string>)
    ensures r == Select(sentences, k)
  {
    if k <= 0 {
      return [];
    }
    if |sentences| <= k {
      return sentences;
    }
    var allWords: seq<string> := [];
    var i := 0;
    while i < |sentences|
      invariant 0 <= i <= |sentences|
      invariant allWords == AllWords(sentences[..i])
    {
      AllWordsStep(sentences, i);
      allWords := allWords + WordTokens(sentences[i]);
      i := i + 1;
    }
    assert sentences[..i] == sentences;
    var freq := WordFreq(allWords);
    var keys: seq<real> := [];
    i := 0;
    while i < |sentences|
      invariant 0 <= i <= |sentences|
      invariant keys == Keys(sentences[..i], freq)
    {
      var key := ScoreSentence(sentences[i], freq);
      KeysStep(sentences, freq, i);
      keys := keys + [key];
      i := i + 1;
    }
    assert sentences[..i] == sentences;
    assert keys == SentenceKeys(sentences);
    var idx := TopIndices(keys, k);
    TopIndicesSpec(keys, k);
    r := Pick(sentences, idx);
  }

  lemma AllWordsStep(sentences: seq<string>, i: nat)
    requires i < |sentences|
    ensures AllWords(sentences[..i + 1]) == AllWords(sentences[..i]) + WordTokens(sentences[i])
  {
    assert sentences[..i + 1][..i] == sentences[..i];
  }

  lemma KeysStep(sentences: seq<string>, freq: map<string, real>, i: nat)
    requires i < |sentences|
    ensures Keys(sentences[..i + 1], freq) == Keys(sentences[..i], freq) + [RankKey(sentences[i], freq)]
  {
    var a := Keys(sentences[..i + 1], freq);
    var b := Keys(sentences[..i], freq) + [RankKey(sentences[i], freq)];
    forall t | 0 <= t < |a| ensures a[t] == b[t] {
      assert sentences[..i + 1][t] == sentences[t];
      if t < i {
        assert sentences[..i][t] == sentences[t];
      }
    }
  }

  // ---------------------------------------------------------------------
  // Properties of the selection
  // ---------------------------------------------------------------------

  /** A non-positive target selects nothing; a target at least the number
      of sentences returns them all unchanged; otherwise exactly `k`
      sentences are kept. */
  lemma SelectCount(sentences: seq<string>, k: int)
    ensures k <= 0 ==> Select(sentences, k) == []
    ensures 0 < k && |sentences| <= k ==> Select(sentences, k) == sentences
    ensures |Select(sentences, k)| == if k <= 0 then 0 else Min(k, |sentences|)
  {
    if 0 < k && k < |sentences| {
      TopIndicesSpec(SentenceKeys(sentences), k);
    }
  }

  /** When sentences are dropped, the kept ones are the sentences at
      strictly increasing positions, and each kept position outranks every
      dropped position under the keys `_score_sentence` gives. */
  lemma SelectKeepsBest(sentences: seq<string>, k: int)
    requires 0 < k < |sentences|
    ensures var idx := TopIndices(SentenceKeys(sentences), k);
      && |idx| == k
      && (forall t :: 0 <= t < k ==> idx[t] < |sentences| && Select(sentences, k)[t] == sentences[idx[t]])
      && (forall s, t :: 0 <= s < t < k ==> idx[s] < idx[t])
      && (forall i, j :: i in idx && 0 <= j < |sentences| && j !in idx ==> Outranks(SentenceKeys(sentences), i, j))
  {
    TopIndicesSpec(SentenceKeys(sentences), k);
  }

  // ---------------------------------------------------------------------
  // Keys ordered like the source's scores choose the same positions
  // ---------------------------------------------------------------------

  /** Two key sequences compare every pair of positions alike. */
  predicate SameOrder(keys: seq<real>, keys2: seq<real>) {
    && |keys| == |keys2|
    && (forall i, j :: 0 <= i < |keys| && 0 <= j < |keys| ==> (keys[i] < keys[j] <==> keys2[i] < keys2[j]))
    && (forall i, j :: 0 <= i < |keys| && 0 <= j < |keys| ==> (keys[i] == keys[j] <==> keys2[i] == keys2[j]))
  }

  /** Every entry of `s` is a position of `keys` paired with its key. */
  predicate Over(s: seq<Ranked>, keys: seq<real>) {
    forall t :: 0 <= t < |s| ==> s[t].index < |keys| && s[t] == Ranked(s[t].index, keys[s[t].index])
  }

  /** The same positions paired with the keys of `keys2`. */
  function Relabel(s: seq<Ranked>, keys2: seq<real>): (r: seq<Ranked>)
    requires forall t :: 0 <= t < |s| ==> s[t].index < |keys2|
    ensures |r| == |s|
  {
    if s == [] then []
    else [Ranked(s[0].index, keys2[s[0].index])] + Relabel(s[1..], keys2)
  }

  lemma {:induction false} RelabelAt(s: seq<Ranked>, keys2: seq<real>)
    requires forall t :: 0 <= t < |s| ==> s[t].index < |keys2|
    ensures forall t :: 0 <= t < |s| ==> Relabel(s, keys2)[t] == Ranked(s[t].index, keys2[s[t].index])
  {
    if s != [] {
      RelabelAt(s[1..], keys2);
    }
  }

  lemma {:induction false} RelabelPrefix(s: seq<Ranked>, keys2: seq<real>, m: nat)
    requires m <= |s|
    requires forall t :: 0 <= t < |s| ==> s[t].index < |keys2|
    ensures Relabel(s, keys2)[..m] == Relabel(s[..m], keys2)
  {
    RelabelAt(s, keys2);
    RelabelAt(s[..m], keys2);
  }

  lemma RelabelIndices(s: seq<Ranked>, keys2: seq<real>)
    requires forall t :: 0 <= t < |s| ==> s[t].index < |keys2|
    ensures Indices(Relabel(s, keys2)) == Indices(s)
  {
    RelabelAt(s, keys2);
  }

  lemma PrecedesRelabel(o: Order, a: Ranked, b: Ranked, keys: seq<real>, keys2: seq<real>)
    requires SameOrder(keys, keys2)
    requires a.index < |keys| && a == Ranked(a.index, keys[a.index])
    requires b.index < |keys| && b == Ranked(b.index, keys[b.index])
    ensures Precedes(o, Ranked(a.index, keys2[a.index]), Ranked(b.index, keys2[b.index])) <==> Precedes(o, a, b)
  {
    assert keys[b.index] < keys[a.index] <==> keys2[b.index] < keys2[a.index];
    assert keys[a.index] == keys[b.index] <==> keys2[a.index] == keys2[b.index];
  }

  lemma {:induction false} InsertByOver(o: Order, x: Ranked, s: seq<Ranked>, keys: seq<real>)
    requires Over(s, keys)
    requires x.index < |keys| && x == Ranked(x.index, keys[x.index])
    ensures Over(InsertBy(o, x, s), keys)
  {
    if s != [] && !Precedes(o, x, s[0]) {
      InsertByOver(o, x, s[1..], keys);
      var tail := InsertBy(o, x, s[1..]);
      assert InsertBy(o, x, s) == [s[0]] + tail;
    }
  }

  lemma {:induction false} InsertByRelabel(o: Order, x: Ranked, s: seq<Ranked>, keys: seq<real>, keys2: seq<real>)
    requires SameOrder(keys, keys2) && Over(s, keys)
    requires x.index < |keys| && x == Ranked(x.index, keys[x.index])
    ensures Over(InsertBy(o, x, s), keys)
    ensures Relabel(InsertBy(o, x, s), keys2) == InsertBy(o, Ranked(x.index, keys2[x.index]), Relabel(s, keys2))
  {
    InsertByOver(o, x, s, keys);
    if s != [] {
      PrecedesRelabel(o, x, s[0], keys, keys2);
      if !Precedes(o, x, s[0]) {
        InsertByRelabel(o, x, s[1..], keys, keys2);
        InsertByRelabelStep(o, x, s, keys2);
      }
    }
  }

  /** One step of the insertion past a head that stays in front. */
  lemma InsertByRelabelStep(o: Order, x: Ranked, s: seq<Ranked>, keys2: seq<real>)
    requires s != [] && x.index < |keys2|
    requires forall t :: 0 <= t < |s| ==> s[t].index < |keys2|
    requires forall t :: 0 <= t < |InsertBy(o, x, s[1..])| ==> InsertBy(o, x, s[1..])[t].index < |keys2|
    requires !Precedes(o, x, s[0])
    requires !Precedes(o, Ranked(x.index, keys2[x.index]), Relabel(s, keys2)[0])
    requires Relabel(InsertBy(o, x, s[1..]), keys2) == InsertBy(o, Ranked(x.index, keys2[x.index]), Relabel(s[1..], keys2))
    ensures forall t :: 0 <= t < |InsertBy(o, x, s)| ==> InsertBy(o, x, s)[t].index < |keys2|
    ensures Relabel(InsertBy(o, x, s), keys2) == InsertBy(o, Ranked(x.index, keys2[x.index]), Relabel(s, keys2))
  {
    var tail := InsertBy(o, x, s[1..]);
    assert InsertBy(o, x, s) == [s[0]] + tail;
    assert ([s[0]] + tail)[1..] == tail;
    assert Relabel(s, keys2)[1..] == Relabel(s[1..], keys2);
  }

  lemma {:induction false} SortByRelabel(o: Order, s: seq<Ranked>, keys: seq<real>, keys2: seq<real>)
    requires SameOrder(keys, keys2) && Over(s, keys)
    ensures Over(SortBy(o, s), keys)
    ensures Relabel(SortBy(o, s), keys2) == SortBy(o, Relabel(s, keys2))
  {
    if s != [] {
      var s2 := Relabel(s, keys2);
      SortByRelabel(o, s[1..], keys, keys2);
      assert s2[1..] == Relabel(s[1..], keys2);
      InsertByRelabel(o, s[0], SortBy(o, s[1..]), keys, keys2);
    }
  }

  /** The selector only compares keys: any keys that order and tie every
      pair of positions alike keep the same positions. */
  lemma TopIndicesSameOrder(keys: seq<real>, keys2: seq<real>, k: nat)
    requires SameOrder(keys, keys2)
    ensures TopIndices(keys, k) == TopIndices(keys2, k)
  {
    var ranking := Ranking(keys);
    assert Ranking(keys2) == Relabel(ranking, keys2) by {
      RelabelAt(ranking, keys2);
    }
    SortByRelabel(ByScore, ranking, keys, keys2);
    var best := Best(keys);
    var m := Min(k, |best|);
    assert Kept(keys2, k) == Relabel(best[..m], keys2) by {
      RelabelPrefix(best, keys2, m);
    }
    var kept := best[..m];
    assert Over(kept, keys);
    SortByRelabel(ByPosition, kept, keys, keys2);
    RelabelIndices(SortBy(ByPosition, kept), keys2);
  }

  /** `roots[i]` is the square root of the word count of sentence `i`. */
  predicate AreRoots(sentences: seq<string>, roots: seq<real>) {
    && |roots| == |sentences|
    && forall i :: 0 <= i < |sentences| ==>
         0.0 <= roots[i] && roots[i] * roots[i] == |WordTokens(sentences[i])| as real
  }

  /** The source's score `(base + bonus) / sqrt(n)`, with `root` for
      `sqrt(n)`, and 0.0 for a sentence without words. */
  function SourceScore(sentence: string, freq: map<string, real>, root: real): real
    requires 0.0 <= root && root * root == |WordTokens(sentence)| as real
  {
    if |WordTokens(sentence)| == 0 then 0.0 else Numerator(sentence, freq) / root
  }

  function SourceScores(sentences: seq<string>, freq: map<string, real>, roots: seq<real>): (scores: seq<real>)
    requires AreRoots(sentences, roots)
    ensures |scores| == |sentences|
    ensures forall i :: 0 <= i < |sentences| ==> scores[i] == SourceScore(sentences[i], freq, roots[i])
  {
    seq(|sentences|, i requires 0 <= i < |sentences| => SourceScore(sentences[i], freq, roots[i]))
  }

  /** Both the key and the source's score of a sentence, written as
      `SignedSquare(x) / n` and `x / r` with `r * r == n`. */
  lemma ScoreForm(sentence: string, freq: map<string, real>, root: real) returns (x: real, n: real, r: real)
    requires 0.0 <= root && root * root == |WordTokens(sentence)| as real
    ensures n > 0.0 && r > 0.0 && r * r == n
    ensures RankKey(sentence, freq) == SignedSquare(x) / n
    ensures SourceScore(sentence, freq, root) == x / r
  {
    if |WordTokens(sentence)| == 0 {
      x, n, r := 0.0, 1.0, 1.0;
    } else {
      x, n, r := Numerator(sentence, freq), |WordTokens(sentence)| as real, root;
    }
  }

  /** The model's keys order and tie every pair of sentences as the
      source's scores do. */
  lemma KeysOrderedLikeScores(sentences: seq<string>, freq: map<string, real>, roots: seq<real>)
    requires AreRoots(sentences, roots)
    ensures SameOrder(Keys(sentences, freq), SourceScores(sentences, freq, roots))
  {
    var keys := Keys(sentences, freq);
    var scores := SourceScores(sentences, freq, roots);
    forall i, j | 0 <= i < |keys| && 0 <= j < |keys|
      ensures (keys[i] < keys[j] <==> scores[i] < scores[j])
      ensures (keys[i] == keys[j] <==> scores[i] == scores[j])
    {
      var xi, ni, ri := ScoreForm(sentences[i], freq, roots[i]);
      var xj, nj, rj := ScoreForm(sentences[j], freq, roots[j]);
      RankKeyAgreesWithScore(xi, ni, ri, xj, nj, rj);
    }
  }

  /** Ranking by the source's score `(base + bonus) / sqrt(n)` keeps the
      same positions as ranking by the model's key. */
  lemma SelectionMatchesSourceScores(sentences: seq<string>, roots: seq<real>, k: nat)
    requires AreRoots(sentences, roots)
    ensures TopIndices(SentenceKeys(sentences), k)
         == TopIndices(SourceScores(sentences, Weights(AllWords(sentences)), roots), k)
  {
    KeysOrderedLikeScores(sentences, Weights(AllWords(sentences)), roots);
    TopIndicesSameOrder(SentenceKeys(sentences), SourceScores(sentences, Weights(AllWords(sentences)), roots), k);
  }
}
