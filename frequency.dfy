/** The term-frequency table of `SummarizerService._word_freq`: normalise
    each word, drop empty terms and stopwords, count, and scale by the
    largest count. */
module Frequency {
  import opened Text

  /** `SummarizerService.STOPWORDS`. */
  const Stopwords: set<string> := {
    "a", "an", "the", "and", "or", "but", "if", "while", "with", "without",
    "of", "to", "in", "on", "for", "from", "by", "as", "at", "that", "this",
    "these", "those", "it", "its", "is", "are", "was", "were", "be", "been",
    "being", "has", "have", "had", "do", "does", "did", "can", "could",
    "should", "would", "may", "might", "must", "will", "just", "also",
    "not", "no", "nor", "so", "than", "then", "too", "very"
  }

  /** The class `[a-z0-9]`. */
  predicate IsTermChar(c: char) { IsLower(c) || IsDigit(c) }

  /** A normalised term: lower-case ASCII letters and digits only. */
  predicate IsTerm(t: string) {
    forall i :: 0 <= i < |t| ==> IsTermChar(t[i])
  }

  /** `re.sub(r"[^a-z0-9]", "", s)`. */
  function KeepTermChars(s: string): (r: string)
    ensures IsTerm(r)
    ensures |r| <= |s|
  {
    if s == [] then []
    else (if IsTermChar(s[0]) then [s[0]] else []) + KeepTermChars(s[1..])
  }

  /** `_normalize`: lower-case, then drop every character outside `[a-z0-9]`. */
  function Normalize(word: string): (t: string)
    ensures IsTerm(t)
  {
    KeepTermChars(Lower(word))
  }

  lemma {:induction false} KeepTermCharsOfTerm(s: string)
    requires IsTerm(s)
    ensures KeepTermChars(s) == s
  {
    if s != [] {
      KeepTermCharsOfTerm(s[1..]);
    }
  }

  /** Normalising twice changes nothing. */
  lemma NormalizeIdempotent(word: string)
    ensures Normalize(Normalize(word)) == Normalize(word)
  {
    var t := Normalize(word);
    assert Lower(t) == t;
    KeepTermCharsOfTerm(t);
  }

  /** The filter keeps exactly the characters of `[a-z0-9]`, in order. */
  lemma {:induction false} KeepTermCharsIsKeep(s: string)
    ensures KeepTermChars(s) == Keep(s, IsTermChar)
  {
    if s != [] {
      KeepTermCharsIsKeep(s[1..]);
    }
  }

  /** The filter works character by character: it distributes over
      concatenation. */
  lemma {:induction false} KeepTermCharsAppend(a: string, b: string)
    ensures KeepTermChars(a + b) == KeepTermChars(a) + KeepTermChars(b)
  {
    if a == [] {
      assert a + b == b;
    } else {
      var head := if IsTermChar(a[0]) then [a[0]] else [];
      KeepTermCharsAppend(a[1..], b);
      assert (a + b)[0] == a[0] && (a + b)[1..] == a[1..] + b;
      assert KeepTermChars(a + b) == head + KeepTermChars(a[1..] + b);
      assert KeepTermChars(a) == head + KeepTermChars(a[1..]);
      assert head + (KeepTermChars(a[1..]) + KeepTermChars(b)) == (head + KeepTermChars(a[1..])) + KeepTermChars(b);
    }
  }

  /** `_normalize` of one character: its lower-case form when that is a
      letter or a digit, otherwise nothing. */
  lemma NormalizeChar(c: char)
    ensures Normalize([c]) == if IsTermChar(LowerChar(c)) then [LowerChar(c)] else []
  {
    assert Lower([c]) == [LowerChar(c)];
    assert [LowerChar(c)][1..] == [];
  }

  /** `_normalize` distributes over concatenation, so together with
      `NormalizeChar` it is determined on every string. */
  lemma NormalizeAppend(a: string, b: string)
    ensures Normalize(a + b) == Normalize(a) + Normalize(b)
  {
    assert Lower(a + b) == Lower(a) + Lower(b);
    KeepTermCharsAppend(Lower(a), Lower(b));
  }

  /** A word contributes a term to `_word_freq` when its normal form is
      non-empty and not a stopword. */
  predicate Qualifies(word: string) {
    Normalize(word) != [] && Normalize(word) !in Stopwords
  }

  /** `words_filt`: the normalised words that are non-empty and not
      stopwords, in order. */
  function Surviving(words: seq<string>): (terms: seq<string>)
    ensures |terms| <= |words|
    ensures forall k :: 0 <= k < |terms| ==> terms[k] != [] && IsTerm(terms[k]) && terms[k] !in Stopwords
  {
    if words == [] then []
    else
      var t := Normalize(words[0]);
      (if t != [] && t !in Stopwords then [t] else []) + Surviving(words[1..])
  }

  /** Filtering works word by word: it distributes over concatenation,
      so the terms keep the order of their words. */
  lemma {:induction false} SurvivingAppend(a: seq<string>, b: seq<string>)
    ensures Surviving(a + b) == Surviving(a) + Surviving(b)
  {
    if a == [] {
      assert a + b == b;
    } else {
      SurvivingAppend(a[1..], b);
      assert (a + b)[1..] == a[1..] + b;
    }
  }

  /** The terms are exactly the normal forms of the qualifying words. */
  lemma {:induction false} SurvivingMembers(words: seq<string>)
    ensures forall w :: w in words && Qualifies(w) ==> Normalize(w) in Surviving(words)
    ensures forall t :: t in Surviving(words) ==> exists w :: w in words && Qualifies(w) && t == Normalize(w)
  {
    if words != [] {
      SurvivingMembers(words[1..]);
      var head := if Qualifies(words[0]) then [Normalize(words[0])] else [];
      assert Surviving(words) == head + Surviving(words[1..]);
      forall w | w in words && Qualifies(w)
        ensures Normalize(w) in Surviving(words)
      {
        if w != words[0] {
          assert w in words[1..];
        }
      }
      forall t | t in Surviving(words)
        ensures exists w :: w in words && Qualifies(w) && t == Normalize(w)
      {
        if t in head {
          assert words[0] in words;
        } else {
          var w :| w in words[1..] && Qualifies(w) && t == Normalize(w);
          assert w in words;
        }
      }
    }
  }

  /** The largest number of occurrences in `terms` of an element of
      `candidates`. */
  function MaxOver(terms: seq<string>, candidates: seq<string>): (m: nat)
    ensures forall x :: x in candidates ==> multiset(terms)[x] <= m
    ensures candidates != [] ==> exists x :: x in candidates && multiset(terms)[x] == m
  {
    if candidates == [] then 0
    else
      var rest := MaxOver(terms, candidates[1..]);
      var here := multiset(terms)[candidates[0]];
      if candidates[1..] == [] || here >= rest then here else rest
  }

  /** `max(Counter(terms).values())`. */
  function MaxCount(terms: seq<string>): (m: nat)
    ensures forall x :: x in terms ==> 1 <= multiset(terms)[x] <= m
    ensures terms != [] ==> exists x :: x in terms && multiset(terms)[x] == m
  {
    MaxOver(terms, terms)
  }

  /** Each term of `terms` weighted by its count over the largest count. */
  function Scaled(terms: seq<string>): map<string, real>
  {
    var m := MaxCount(terms);
    map t | t in terms :: multiset(terms)[t] as real / m as real
  }

  /** The table `_word_freq(words)` returns. */
  function Weights(words: seq<string>): map<string, real>
  {
    Scaled(Surviving(words))
  }

  /** `_word_freq`: count the surviving terms, then rescale the counter in
      place, one key at a time. */
  method WordFreq(words: seq<string>) returns (freq: map<string, real>)
    ensures freq == Weights(words)
  {
    var terms := Surviving(words);
    freq := ScaleCounts(terms);
  }

  /** The counting and in-place rescaling part of `_word_freq`. */
  method ScaleCounts(terms: seq<string>) returns (freq: map<string, real>)
    ensures freq == Scaled(terms)
  {
    var counts := map t | t in terms :: multiset(terms)[t] as real;
    freq := counts;
    assert terms != [] ==> terms[0] in counts;
    if |counts| == 0 {
      return;
    }
    var maxF := MaxCount(terms);
    var pending := counts.Keys;
    while pending != {}
      invariant pending <= counts.Keys
      invariant freq.Keys == counts.Keys
      invariant forall t :: t in counts ==> freq[t] == if t in pending then counts[t] else counts[t] / maxF as real
      decreases pending
    {
      var t :| t in pending;
      freq := freq[t := freq[t] / maxF as real];
      pending := pending - {t};
    }
  }

  lemma RatioInUnit(c: real, m: real)
    requires 0.0 < c <= m
    ensures 0.0 < c / m <= 1.0
  {
    assert c / m * m == c;
  }

  lemma RatioOfEqual(c: real, m: real)
    requires c == m && m > 0.0
    ensures c / m == 1.0
  {
  }

  lemma DivisionKeepsOrder(a: real, b: real, m: real)
    requires m > 0.0
    ensures a / m <= b / m <==> a <= b
  {
    assert a / m * m == a && b / m * m == b;
  }

  /** The scaled table of any term sequence: its keys are exactly the
      terms, every weight lies in (0, 1], and a most frequent term weighs
      exactly 1. */
  lemma ScaledWellFormed(terms: seq<string>)
    ensures forall t :: t in Scaled(terms) <==> t in terms
    ensures forall t :: t in Scaled(terms) ==> 0.0 < Scaled(terms)[t] <= 1.0
    ensures terms != [] ==> exists t :: t in Scaled(terms) && Scaled(terms)[t] == 1.0
  {
    var w := Scaled(terms);
    var m := MaxCount(terms);
    forall t | t in w
      ensures 0.0 < w[t] <= 1.0
    {
      var c := multiset(terms)[t];
      assert 1 <= c <= m;
      assert w[t] == c as real / m as real;
      RatioInUnit(c as real, m as real);
    }
    if terms != [] {
      ScaledHasOne(terms);
    }
  }

  lemma ScaledHasOne(terms: seq<string>)
    requires terms != []
    ensures exists t :: t in Scaled(terms) && Scaled(terms)[t] == 1.0
  {
    var m := MaxCount(terms);
    var x :| x in terms && multiset(terms)[x] == m;
    assert x in Scaled(terms);
    assert Scaled(terms)[x] == multiset(terms)[x] as real / MaxCount(terms) as real;
    RatioOfEqual(multiset(terms)[x] as real, MaxCount(terms) as real);
  }

  /** What `_word_freq` returns: its keys are exactly the surviving terms,
      each a non-empty lower-case alphanumeric non-stopword; every weight
      lies in (0, 1]; the most frequent term weighs exactly 1; and the
      table is empty exactly when no word survives filtering. */
  lemma WeightsWellFormed(words: seq<string>)
    ensures forall t :: t in Weights(words) <==> t in Surviving(words)
    ensures forall t :: t in Weights(words) ==> t != [] && IsTerm(t) && t !in Stopwords
    ensures forall t :: t in Weights(words) ==> 0.0 < Weights(words)[t] <= 1.0
    ensures Weights(words) == map[] <==> Surviving(words) == []
    ensures Weights(words) == map[] <==> forall w :: w in words ==> !Qualifies(w)
    ensures Surviving(words) != [] ==> exists t :: t in Weights(words) && Weights(words)[t] == 1.0
  {
    var terms := Surviving(words);
    ScaledWellFormed(terms);
    SurvivingMembers(words);
    if terms != [] {
      assert terms[0] in Weights(words);
      var w :| w in words && Qualifies(w) && terms[0] == Normalize(w);
    }
  }

  /** Scaling keeps the order of the counts: a more frequent term never
      weighs less. */
  lemma ScaledFollowsCounts(terms: seq<string>, a: string, b: string)
    requires a in terms && b in terms
    ensures a in Scaled(terms) && b in Scaled(terms)
    ensures Scaled(terms)[a] <= Scaled(terms)[b] <==> multiset(terms)[a] <= multiset(terms)[b]
  {
    var m := MaxCount(terms) as real;
    var ca := multiset(terms)[a] as real;
    var cb := multiset(terms)[b] as real;
    assert Scaled(terms)[a] == ca / m && Scaled(terms)[b] == cb / m;
    DivisionKeepsOrder(ca, cb, m);
  }
}
