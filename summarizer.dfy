/** `SummarizerService.summarize_text` and its two small helpers: the
    automatic target size `_auto_target` and the paragraph builder
    `_to_paragraphs`. */
module Summarizer {
  import opened Wrappers
  import opened Text
  import opened Tokenizer
  import opened Selection
  import opened Chunking

  // ---------------------------------------------------------------------
  // _auto_target
  // ---------------------------------------------------------------------

  /** `_auto_target`: the target sentence count for a text of `words`
      words. */
  function AutoTarget(words: int): (t: int)
    ensures t == 6 || t == 12 || t == 18 || t == 24 || t == 32
  {
    if words <= 180 then 6
    else if words <= 600 then 12
    else if words <= 1500 then 18
    else if words <= 3000 then 24
    else 32
  }

  /** A longer text never gets a smaller target, and the target grows
      exactly at the thresholds 180, 600, 1500 and 3000. */
  lemma AutoTargetMonotone(a: int, b: int)
    requires a <= b
    ensures AutoTarget(a) <= AutoTarget(b)
    ensures AutoTarget(a) < AutoTarget(b) <==>
      exists limit :: limit in [180, 600, 1500, 3000] && a <= limit < b
  {
    if AutoTarget(a) < AutoTarget(b) {
      if a <= 180 < b {
        assert 180 in [180, 600, 1500, 3000];
      } else if a <= 600 < b {
        assert 600 in [180, 600, 1500, 3000];
      } else if a <= 1500 < b {
        assert 1500 in [180, 600, 1500, 3000];
      } else {
        assert 3000 in [180, 600, 1500, 3000];
      }
    }
  }

  // ---------------------------------------------------------------------
  // _to_paragraphs
  // ---------------------------------------------------------------------

  /** Sentences per paragraph (`max_per_para`). */
  const PerParagraph: nat := 4

  /** The groups `sentences[i:i + 4]` for `i` in `range(0, n, 4)`. */
  function Grouped(sentences: seq<string>): seq<seq<string>>
  {
    if sentences == [] then []
    else
      var m := Min(PerParagraph, |sentences|);
      [sentences[..m]] + Grouped(sentences[m..])
  }

  /** `" ".join(group)` for every group. */
  function ParagraphTexts(groups: seq<seq<string>>): (paras: seq<string>)
    ensures |paras| == |groups|
    ensures forall i :: 0 <= i < |groups| ==> paras[i] == Join(" ", groups[i])
  {
    seq(|groups|, i requires 0 <= i < |groups| => Join(" ", groups[i]))
  }

  /** What `_to_paragraphs(sentences)` returns. */
  function Paragraphs(sentences: seq<string>): string
  {
    Join("\n\n", ParagraphTexts(Grouped(sentences)))
  }

  /** `_to_paragraphs`: a loop over the group starts 0, 4, 8, ... */
  method ToParagraphs(sentences: seq<string>) returns (summary: string)
    ensures summary == Paragraphs(sentences)
  {
    var n := |sentences|;
    var paras: seq<string> := [];
    var i := 0;
    assert sentences[Min(i, n)..] == sentences;
    while i < n
      invariant 0 <= i
      invariant paras + ParagraphTexts(Grouped(sentences[Min(i, n)..])) == ParagraphTexts(Grouped(sentences))
      decreases n - i
    {
      var end := Min(i + PerParagraph, n);
      ParagraphStep(sentences, i);
      assert (paras + [Join(" ", sentences[i..end])]) + ParagraphTexts(Grouped(sentences[end..])) == paras + ([Join(" ", sentences[i..end])] + ParagraphTexts(Grouped(sentences[end..])));
      paras := paras + [Join(" ", sentences[i..end])];
      i := i + PerParagraph;
      assert Min(i, n) == end;
    }
    assert Grouped(sentences[Min(i, n)..]) == [];
    assert paras + ParagraphTexts([]) == paras;
    summary := Join("\n\n", paras);
  }

  /** One step of `_to_paragraphs`' loop: the group starting at `i` and the
      groups after it. */
  lemma ParagraphStep(sentences: seq<string>, i: nat)
    requires i < |sentences|
    ensures var end := Min(i + PerParagraph, |sentences|);
      ParagraphTexts(Grouped(sentences[i..]))
        == [Join(" ", sentences[i..end])] + ParagraphTexts(Grouped(sentences[end..]))
  {
    var end := Min(i + PerParagraph, |sentences|);
    var rest := sentences[i..];
    assert rest[..end - i] == sentences[i..end];
    assert rest[end - i..] == sentences[end..];
    assert Grouped(rest) == [sentences[i..end]] + Grouped(sentences[end..]);
  }

  /** The sentences of all groups, in order. */
  function Flatten(groups: seq<seq<string>>): seq<string>
  {
    if groups == [] then [] else groups[0] + Flatten(groups[1..])
  }

  /** The paragraphs hold the sentences in order, each paragraph from one
      to four of them, every paragraph but the last exactly four, and there
      are `ceil(n / 4)` paragraphs. */
  lemma {:induction false} GroupedSpec(sentences: seq<string>)
    ensures Flatten(Grouped(sentences)) == sentences
    ensures |Grouped(sentences)| == (|sentences| + 3) / 4
    ensures forall i :: 0 <= i < |Grouped(sentences)| ==> 1 <= |Grouped(sentences)[i]| <= 4
    ensures forall i :: 0 <= i < |Grouped(sentences)| - 1 ==> |Grouped(sentences)[i]| == 4
    decreases |sentences|
  {
    if sentences != [] {
      var m := Min(PerParagraph, |sentences|);
      var rest := Grouped(sentences[m..]);
      GroupedSpec(sentences[m..]);
      var g := Grouped(sentences);
      assert g == [sentences[..m]] + rest;
      assert g[1..] == rest;
      assert sentences[..m] + sentences[m..] == sentences;
      forall i | 0 < i < |g| ensures g[i] == rest[i - 1] {
      }
    }
  }

  /** No sentences give the empty string, and up to four sentences give
      one paragraph: the sentences joined by single spaces. */
  lemma ParagraphsOfFew(sentences: seq<string>)
    requires |sentences| <= PerParagraph
    ensures sentences == [] ==> Paragraphs(sentences) == ""
    ensures sentences != [] ==> Paragraphs(sentences) == Join(" ", sentences)
  {
    if sentences != [] {
      var n := |sentences|;
      assert sentences[..n] == sentences && sentences[n..] == [];
      assert Grouped(sentences) == [sentences];
    }
  }

  // ---------------------------------------------------------------------
  // summarize_text
  // ---------------------------------------------------------------------

  /** The metadata dictionary: `words_total`, `chunks`, `target_sentences`. */
  datatype Meta = Meta(wordsTotal: nat, chunks: nat, targetSentences: int)

  /** The pair `summarize_text` returns. */
  datatype Outcome = Outcome(summary: string, meta: Meta)

  /** Texts of at most this many words are summarised in one pass. */
  const ShortTextWords: nat := 2000

  /** Words per chunk of a long text. */
  const ChunkWords: nat := 1800

  function Max(a: int, b: int): int { if a >= b then a else b }

  /** `max(8, target_sentences // 2)`: how many sentences each chunk keeps.
      Dafny's `/` rounds toward negative infinity for a positive divisor,
      as Python's `//` does. */
  function ChunkQuota(target: int): int
  {
    Max(8, target / 2)
  }

  /** The summary of one chunk: its best sentences joined by spaces. */
  function ChunkSummary(chunk: string, target: int): string
  {
    Join(" ", Select(ToSentences(chunk), ChunkQuota(target)))
  }

  /** The per-chunk summaries of a long text, in chunk order. */
  function ChunkSummaries(chunks: seq<string>, target: int): seq<string>
  {
    if chunks == [] then []
    else ChunkSummaries(chunks[..|chunks| - 1], target) + [ChunkSummary(chunks[|chunks| - 1], target)]
  }

  /** `combined`: the chunk summaries of a long text, one paragraph each. */
  function Combined(text: string, target: int): string
  {
    Join("\n\n", ChunkSummaries(Chunks(text, ChunkWords), target))
  }

  /** The sentences the final selection of `summarize_text` chooses from. */
  function Candidates(text: string, target: int): seq<string>
  {
    if |WordTokens(text)| <= ShortTextWords then ToSentences(text)
    else ToSentences(Combined(text, target))
  }

  /** The target after `None` was replaced by the automatic size. */
  function EffectiveTarget(text: string, target: Option<int>): int
  {
    if target.None? then AutoTarget(|WordTokens(text)|) else target.value
  }

  /** What `summarize_text(text, target_sentences)` returns. */
  function Summarize(text: string, target: Option<int>): Outcome
  {
    var words := |WordTokens(text)|;
    if words == 0 then Outcome("", Meta(0, 0, target.GetOr(0)))
    else
      var t := EffectiveTarget(text, target);
      var chunks := if words <= ShortTextWords then 1 else |Chunks(text, ChunkWords)|;
      Outcome(Paragraphs(Select(Candidates(text, t), t)), Meta(words, chunks, t))
  }

  /** `summarize_text`: count the words, size the target, then summarise
      the text in one pass or chunk by chunk. */
  method SummarizeText(text: string, target: Option<int> := Some(16)) returns (summary: string, meta: Meta)
    ensures Outcome(summary, meta) == Summarize(text, target)
  {
    var wordsTotal := |WordTokens(text)|;
    if wordsTotal == 0 {
      return "", Meta(0, 0, target.GetOr(0));
    }
    var t := if target.None? then AutoTarget(wordsTotal) else target.value;
    if wordsTotal <= ShortTextWords {
      var chosen := SummarizeSentences(ToSentences(text), t);
      summary := ToParagraphs(chosen);
      return summary, Meta(wordsTotal, 1, t);
    }
    var combined, chunkCount := SummarizeChunks(text, t);
    var chosen := SummarizeSentences(ToSentences(combined), t);
    summary := ToParagraphs(chosen);
    meta := Meta(wordsTotal, chunkCount, t);
  }

  /** The hierarchical pass of `summarize_text`: chunk the text and
      summarise every chunk with the per-chunk quota. */
  method SummarizeChunks(text: string, t: int) returns (combined: string, chunkCount: nat)
    ensures combined == Combined(text, t)
    ensures chunkCount == |Chunks(text, ChunkWords)|
  {
    var rawChunks := Chunk(text, ChunkWords);
    var chunkSummaries: seq<string> := [];
    var i := 0;
    while i < |rawChunks|
      invariant 0 <= i <= |rawChunks|
      invariant chunkSummaries == ChunkSummaries(rawChunks[..i], t)
    {
      var chosen := SummarizeSentences(ToSentences(rawChunks[i]), ChunkQuota(t));
      ChunkSummariesStep(rawChunks, t, i);
      chunkSummaries := chunkSummaries + [Join(" ", chosen)];
      i := i + 1;
    }
    assert rawChunks[..i] == rawChunks;
    combined := Join("\n\n", chunkSummaries);
    chunkCount := |rawChunks|;
  }

  lemma ChunkSummariesStep(chunks: seq<string>, t: int, i: nat)
    requires i < |chunks|
    ensures ChunkSummaries(chunks[..i + 1], t) == ChunkSummaries(chunks[..i], t) + [ChunkSummary(chunks[i], t)]
  {
    assert chunks[..i + 1][..i] == chunks[..i];
  }

  // ---------------------------------------------------------------------
  // Properties
  // ---------------------------------------------------------------------

  /** A text without words gives an empty summary, no chunks, and the
      requested target or 0. */
  lemma SummarizeWithoutWords(text: string, target: Option<int>)
    requires WordTokens(text) == []
    ensures Summarize(text, target).summary == []
    ensures Summarize(text, target).meta == Meta(0, 0, if target == None || target == Some(0) then 0 else target.value)
  {
  }

  /** The metadata of a text with words: its word count; the requested
      target, or the automatic one when none was given; one chunk up to
      2000 words, and otherwise between `ceil(W / 1800)` and `W / 1800 + 1`
      chunks, at least two. */
  lemma SummarizeMeta(text: string, target: Option<int>)
    requires WordTokens(text) != []
    ensures var meta := Summarize(text, target).meta;
      && meta.wordsTotal == |WordTokens(text)|
      && meta.targetSentences == (if target.Some? then target.value else AutoTarget(|WordTokens(text)|))
      && (meta.chunks == 1 <==> |WordTokens(text)| <= 2000)
      && (|WordTokens(text)| > 2000 ==>
            && meta.chunks >= 2 && (meta.chunks - 1) * 1800 <= |WordTokens(text)| <= meta.chunks * 1800
            && meta.chunks == |WordTokens(text)| / 1800 +
                 (if |WordTokens(text)| % 1800 != 0 || !IsWordChar(text[|text| - 1]) then 1 else 0))
  {
    if |WordTokens(text)| > ShortTextWords {
      LongTextHasSeveralChunks(text);
      ChunkCount(text, ChunkWords);
      ChunkCountExact(text, ChunkWords);
    }
  }

  /** The summary of a text with words is the paragraphs of at most
      `target` sentences of the final split, kept in their order there and
      chosen by score; when that split has no more than `target`
      sentences, all of them are kept. */
  lemma SummaryIsSelection(text: string, target: Option<int>)
    requires WordTokens(text) != []
    ensures var t := EffectiveTarget(text, target);
      var candidates := Candidates(text, t);
      var chosen := Select(candidates, t);
      && Summarize(text, target).summary == Paragraphs(chosen)
      && |chosen| == (if t <= 0 then 0 else Min(t, |candidates|))
      && (0 < t && |candidates| <= t ==> chosen == candidates)
      && (0 < t < |candidates| ==>
            var idx := TopIndices(SentenceKeys(candidates), t);
            (forall s, u :: 0 <= s < u < t ==> idx[s] < idx[u])
            && (forall u :: 0 <= u < t ==> idx[u] < |candidates| && chosen[u] == candidates[idx[u]]))
  {
    var t := EffectiveTarget(text, target);
    var candidates := Candidates(text, t);
    SelectCount(candidates, t);
    if 0 < t < |candidates| {
      SelectKeepsBest(candidates, t);
    }
  }
}
