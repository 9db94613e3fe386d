/** `SummarizerService._score_sentence`: frequency weight of the words plus
    small structural bonuses, normalised by the square root of the word
    count.

    The square root is not computed. The model returns the ranking key
    `x * |x| / n` for the source's score `x / sqrt(n)`: the key is the
    source's score times its own absolute value, and `t -> t * |t|` is
    strictly increasing, so the two order every pair of sentences the same
    way and tie on exactly the same pairs (`RankKeyAgreesWithScore`). The
    selector only compares scores, so it keeps the same sentences. */
module Scoring {
  import opened Text
  import opened Tokenizer
  import opened Frequency

  const DigitBonus: real := 0.05
  const CapitalBonus: real := 0.03
  const StructureBonus: real := 0.06

  /** `freq.get(self._normalize(w), 0.0)`. */
  function WeightOf(freq: map<string, real>, word: string): real
  {
    var t := Normalize(word);
    if t in freq then freq[t] else 0.0
  }

  /** `sum(freq.get(self._normalize(w), 0.0) for w in words)`. */
  function BaseScore(words: seq<string>, freq: map<string, real>): real
  {
    if words == [] then 0.0
    else BaseScore(words[..|words| - 1], freq) + WeightOf(freq, words[|words| - 1])
  }

  /** The bonus one word earns: `^[0-9]` earns the digit bonus, otherwise
      `^[A-Z][a-zA-Z0-9]*` (true exactly when the word starts with a capital)
      earns the capital bonus; the `elif` makes them exclusive. */
  function WordBonus(word: string): (b: real)
    ensures b == DigitBonus <==> word != [] && IsDigit(word[0])
    ensures b == CapitalBonus <==> word != [] && IsUpper(word[0])
    ensures b == 0.0 <==> word == [] || !(IsDigit(word[0]) || IsUpper(word[0]))
  {
    if word != [] && IsDigit(word[0]) then DigitBonus
    else if word != [] && IsUpper(word[0]) then CapitalBonus
    else 0.0
  }

  /** The per-word bonuses of `words`, added in order. */
  function WordBonuses(words: seq<string>): real
  {
    if words == [] then 0.0
    else WordBonuses(words[..|words| - 1]) + WordBonus(words[|words| - 1])
  }

  /** `re.search(r"(^[-*•]\s)|(:)", sentence)`: a bullet and whitespace at
      the very start, or a colon anywhere. */
  predicate IsStructured(sentence: string) {
    || (|sentence| >= 2 && (sentence[0] == '-' || sentence[0] == '*' || sentence[0] == '•') && IsSpace(sentence[1]))
    || ':' in sentence
  }

  /** `base + bonus` for the sentence. */
  function Numerator(sentence: string, freq: map<string, real>): real
  {
    var words := WordTokens(sentence);
    BaseScore(words, freq) + WordBonuses(words) + (if IsStructured(sentence) then StructureBonus else 0.0)
  }

  function Abs(x: real): real { if x < 0.0 then -x else x }

  /** `t * |t|`: the square of `t` carrying the sign of `t`. */
  function SignedSquare(t: real): real { t * Abs(t) }

  /** The ranking key of the sentence: 0 without words, otherwise the
      source's score `(base + bonus) / sqrt(n)` times its absolute value. */
  function RankKey(sentence: string, freq: map<string, real>): real
  {
    var n := |WordTokens(sentence)|;
    if n == 0 then 0.0 else SignedSquare(Numerator(sentence, freq)) / n as real
  }

  /** `_score_sentence`: the base weight as a sum, the word bonuses
      accumulated in a loop, then the structure bonus once. */
  method ScoreSentence(sentence: string, freq: map<string, real>) returns (key: real)
    ensures key == RankKey(sentence, freq)
  {
    var words := WordTokens(sentence);
    if |words| == 0 {
      return 0.0;
    }
    var base := BaseScore(words, freq);
    var bonus := 0.0;
    var i := 0;
    while i < |words|
      invariant 0 <= i <= |words|
      invariant bonus == WordBonuses(words[..i])
    {
      var w := words[i];
      assert words[..i + 1][..i] == words[..i];
      if IsDigit(w[0]) {
        bonus := bonus + DigitBonus;
      } else if IsUpper(w[0]) {
        bonus := bonus + CapitalBonus;
      }
      i := i + 1;
    }
    assert words[..i] == words;
    if IsStructured(sentence) {
      bonus := bonus + StructureBonus;
    }
    key := SignedSquare(base + bonus) / |words| as real;
  }

  // ---------------------------------------------------------------------
  // Properties
  // ---------------------------------------------------------------------

  /** Every weight of the table lies in [0, 1] (true of `Weights`). */
  ghost predicate UnitWeights(freq: map<string, real>) {
    forall t :: t in freq ==> 0.0 <= freq[t] <= 1.0
  }

  lemma {:induction false} BaseScoreBounds(words: seq<string>, freq: map<string, real>)
    requires UnitWeights(freq)
    ensures 0.0 <= BaseScore(words, freq) <= |words| as real
  {
    if words != [] {
      BaseScoreBounds(words[..|words| - 1], freq);
    }
  }

  lemma {:induction false} WordBonusesBounds(words: seq<string>)
    ensures 0.0 <= WordBonuses(words) <= DigitBonus * |words| as real
  {
    if words != [] {
      WordBonusesBounds(words[..|words| - 1]);
    }
  }

  /** With weights in [0, 1], `base + bonus` is at least 0 and at most
      1.05 per word plus one structure bonus: each word adds at most its
      weight and one of the two word bonuses, and the structure bonus is
      added at most once. */
  lemma NumeratorBounds(sentence: string, freq: map<string, real>)
    requires UnitWeights(freq)
    ensures 0.0 <= Numerator(sentence, freq)
    ensures Numerator(sentence, freq) <= (1.0 + DigitBonus) * |WordTokens(sentence)| as real + StructureBonus
  {
    var words := WordTokens(sentence);
    BaseScoreBounds(words, freq);
    WordBonusesBounds(words);
  }

  /** The table `_word_freq` builds has unit weights. */
  lemma WeightsAreUnit(words: seq<string>)
    ensures UnitWeights(Weights(words))
  {
    WeightsWellFormed(words);
  }

  /** The key is 0 for a sentence without words and never negative for a
      table with weights in [0, 1]. */
  lemma RankKeyNonNegative(sentence: string, freq: map<string, real>)
    requires UnitWeights(freq)
    ensures WordTokens(sentence) == [] ==> RankKey(sentence, freq) == 0.0
    ensures RankKey(sentence, freq) >= 0.0
  {
    var n := |WordTokens(sentence)|;
    if n > 0 {
      var x := Numerator(sentence, freq);
      NumeratorBounds(sentence, freq);
      SignedSquareSign(x);
    }
  }

  // ---------------------------------------------------------------------
  // The key orders sentences as the source's score does
  // ---------------------------------------------------------------------

  lemma MulStrict(c: real, p: real, q: real)
    requires c > 0.0 && p < q
    ensures c * p < c * q
  {
  }

  lemma MulStrictRight(c: real, p: real, q: real)
    requires c > 0.0 && p < q
    ensures p * c < q * c
  {
  }

  lemma LessTrans(a: real, b: real, c: real)
    requires a < b && b < c
    ensures a < c
  {
  }

  lemma SquareStrict(p: real, q: real)
    requires 0.0 < p < q
    ensures p * p < q * q
  {
    MulStrictRight(q, p, q);
    MulStrict(p, p, q);
    LessTrans(p * p, p * q, q * q);
  }

  lemma SignedSquareSign(t: real)
    ensures t > 0.0 ==> SignedSquare(t) > 0.0
    ensures t < 0.0 ==> SignedSquare(t) < 0.0
    ensures SignedSquare(0.0) == 0.0
  {
    if t > 0.0 {
      MulStrict(t, 0.0, t);
    } else if t < 0.0 {
      MulStrictRight(-t, t, 0.0);
    }
  }

  lemma SignedSquareOdd(t: real)
    ensures SignedSquare(-t) == -SignedSquare(t)
  {
  }

  /** `t -> t * |t|` is strictly increasing. */
  lemma SignedSquareLess(a: real, b: real)
    requires a < b
    ensures SignedSquare(a) < SignedSquare(b)
  {
    SignedSquareSign(a);
    SignedSquareSign(b);
    if 0.0 < a {
      SquareStrict(a, b);
    } else if b < 0.0 {
      SquareStrict(-b, -a);
      SignedSquareOdd(a);
      SignedSquareOdd(b);
    }
  }

  lemma QuotientTimes(x: real, r: real)
    requires r > 0.0
    ensures (x / r) * r == x
  {
  }

  lemma AbsOfProduct(q: real, r: real)
    requires r > 0.0
    ensures Abs(q * r) == Abs(q) * r
  {
    if q < 0.0 {
      MulStrictRight(r, q, 0.0);
    } else if q > 0.0 {
      MulStrictRight(r, 0.0, q);
    }
  }

  lemma Rearrange(a: real, b: real, r: real)
    ensures (a * r) * (b * r) == (a * b) * (r * r)
  {
  }

  lemma DivOfProduct(b: real, c: real)
    requires c != 0.0
    ensures (b * c) / c == b
  {
  }

  /** Dividing by `r` divides the signed square by `r * r`. */
  lemma SignedSquareOfQuotient(x: real, r: real)
    requires r > 0.0
    ensures SignedSquare(x / r) == SignedSquare(x) / (r * r)
  {
    var q := x / r;
    QuotientTimes(x, r);
    AbsOfProduct(q, r);
    Rearrange(q, Abs(q), r);
    assert SignedSquare(x) == SignedSquare(q) * (r * r);
    SignedSquareSign(r);
    DivOfProduct(SignedSquare(q), r * r);
  }

  /** For any positive square roots `rn`, `rm` of the word counts `n`, `m`,
      the source's scores `x / rn` and `y / rm` compare exactly as the keys
      `SignedSquare(x) / n` and `SignedSquare(y) / m` do, ties included. */
  lemma RankKeyAgreesWithScore(x: real, n: real, rn: real, y: real, m: real, rm: real)
    requires n > 0.0 && rn > 0.0 && rn * rn == n
    requires m > 0.0 && rm > 0.0 && rm * rm == m
    ensures x / rn < y / rm <==> SignedSquare(x) / n < SignedSquare(y) / m
    ensures x / rn == y / rm <==> SignedSquare(x) / n == SignedSquare(y) / m
  {
    SignedSquareOfQuotient(x, rn);
    SignedSquareOfQuotient(y, rm);
    var a := x / rn;
    var b := y / rm;
    if a < b {
      SignedSquareLess(a, b);
    } else if b < a {
      SignedSquareLess(b, a);
    }
  }
}
