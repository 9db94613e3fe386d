/** The request handlers of the API blueprint without Flask: the guard chain
    of `POST /api/summarize` and the text statistics of `POST /api/stats`,
    as total functions from the decoded JSON body to the response. */
module ApiRoutes {
  import opened Wrappers
  import opened Text
  import opened Tokenizer
  import opened Summarizer

  // ---------------------------------------------------------------------
  // Requests and responses
  // ---------------------------------------------------------------------

  /** A JSON value as `json.loads` decodes it. Of an array or an object
      only the number of its elements matters here (its truth value). */
  datatype Value =
    | Null
    | Bool(b: bool)
    | Int(i: int)
    | Real(r: real)
    | Str(s: string)
    | Array(length: nat)
    | Object(size: nat)

  /** What `request.get_json()` returned: no body, or a JSON object. */
  datatype Request = NoBody | Body(fields: map<string, Value>)

  /** Python's truth value of a decoded JSON value. */
  predicate Truthy(v: Value) {
    match v
    case Null => false
    case Bool(b) => b
    case Int(i) => i != 0
    case Real(r) => r != 0.0
    case Str(s) => s != []
    case Array(n) => n != 0
    case Object(n) => n != 0
  }

  /** The integer `isinstance(v, int)` sees in `v`: `bool` is a subclass of
      `int`, with `True == 1` and `False == 0`. */
  function AsInt(v: Value): Option<int>
  {
    match v
    case Int(i) => Some(i)
    case Bool(b) => Some(if b then 1 else 0)
    case _ => None
  }

  datatype ErrorCode = MissingText | EmptyText | InvalidTargetSentences | InternalError

  /** The `code` field of an error response. */
  function CodeName(e: ErrorCode): string
  {
    match e
    case MissingText => "MISSING_TEXT"
    case EmptyText => "EMPTY_TEXT"
    case InvalidTargetSentences => "INVALID_TARGET_SENTENCES"
    case InternalError => "INTERNAL_ERROR"
  }

  /** The `error` field of an error response; for an internal error only
      the fixed prefix in front of the exception's text. */
  function ErrorMessage(e: ErrorCode): string
  {
    match e
    case MissingText => "Text is required"
    case EmptyText => "Text cannot be empty"
    case InvalidTargetSentences => "Target sentences must be an integer between 4 and 80"
    case InternalError => "Internal server error: "
  }

  /** The statistics `stats()` reports. */
  datatype TextStats = TextStats(wordsTotal: nat, sentencesTotal: nat, paragraphsTotal: nat, recommendedTarget: int)

  /** A handler's answer: an error, the summary and its metadata, or the
      statistics; both successful answers also carry `status: 'success'`. */
  datatype Response =
    | Error(code: ErrorCode)
    | Summary(summary: string, meta: Meta)
    | Statistics(stats: TextStats)

  /** The HTTP status of a response. */
  function HttpStatus(r: Response): int
  {
    match r
    case Error(InternalError) => 500
    case Error(_) => 400
    case _ => 200
  }

  // ---------------------------------------------------------------------
  // The shared text guard
  // ---------------------------------------------------------------------

  /** The outcome of the text guard both handlers start with. */
  datatype Checked = Rejected(code: ErrorCode) | Accepted(text: string)

  /** The guard: a body holding `text`, a truthy value there, and a string
      with something besides whitespace. A truthy value that is not a
      string makes `.strip()` raise, which the handlers' `except` turns
      into an internal error. */
  function CheckText(req: Request): (c: Checked)
    ensures c.Accepted? ==> req.Body? && "text" in req.fields && req.fields["text"] == Str(c.text) && !IsBlank(c.text)
    ensures req.Body? && "text" in req.fields && req.fields["text"].Str? && !IsBlank(req.fields["text"].s) ==> c.Accepted?
  {
    if req.NoBody? || "text" !in req.fields then Rejected(MissingText)
    else
      var text := req.fields["text"];
      if !Truthy(text) then Rejected(EmptyText)
      else if !text.Str? then Rejected(InternalError)
      else if IsBlank(text.s) then Rejected(EmptyText)
      else Accepted(text.s)
  }

  // ---------------------------------------------------------------------
  // summarize()
  // ---------------------------------------------------------------------

  /** `data.get('target_sentences')`: `None` when the key is absent. */
  function TargetField(fields: map<string, Value>): Value
  {
    if "target_sentences" in fields then fields["target_sentences"] else Null
  }

  /** The target guard: `None`, or an `int` (a `bool` included) from 4 to 80. */
  predicate TargetAccepted(v: Value) {
    v.Null? || (AsInt(v).Some? && 4 <= AsInt(v).value <= 80)
  }

  /** The target handed to `summarize_text`. */
  function ServiceTarget(v: Value): Option<int>
  {
    if v.Null? then None else AsInt(v)
  }

  /** `summarize()`: the text guard, then the target guard, then the
      service's `(summary, meta)` unchanged. It answers with a summary
      exactly when both guards accept, and that summary counts the words
      of the accepted text. */
  function HandleSummarize(req: Request): (r: Response)
    ensures !r.Statistics?
    ensures r.Summary? <==> CheckText(req).Accepted? && TargetAccepted(TargetField(req.fields))
    ensures r.Error? && r.code == InternalError <==>
      req.Body? && "text" in req.fields && Truthy(req.fields["text"]) && !req.fields["text"].Str?
    ensures r.Summary? ==> r.meta.wordsTotal == |WordTokens(CheckText(req).text)|
  {
    match CheckText(req)
    case Rejected(e) => Error(e)
    case Accepted(text) =>
      var target := TargetField(req.fields);
      if !TargetAccepted(target) then Error(InvalidTargetSentences)
      else
        var out := Summarize(text, ServiceTarget(target));
        ServiceCountsWords(text, ServiceTarget(target));
        Summary(out.summary, out.meta)
  }

  /** The service's metadata counts the words of the text it was given. */
  lemma ServiceCountsWords(text: string, target: Option<int>)
    ensures Summarize(text, target).meta.wordsTotal == |WordTokens(text)|
  {
    if WordTokens(text) == [] {
      SummarizeWithoutWords(text, target);
    } else {
      SummarizeMeta(text, target);
    }
  }

  // ---------------------------------------------------------------------
  // stats()
  // ---------------------------------------------------------------------

  /** `len([p for p in parts if p.strip()])`. */
  function CountNonBlank(parts: seq<string>): (n: nat)
    ensures n <= |parts|
    ensures n == 0 <==> forall k :: 0 <= k < |parts| ==> IsBlank(parts[k])
  {
    if parts == [] then 0
    else (if IsBlank(parts[0]) then 0 else 1) + CountNonBlank(parts[1..])
  }

  /** The positions of the non-blank pieces. */
  ghost function NonBlankAt(parts: seq<string>): set<nat>
  {
    set k: nat | k < |parts| && !IsBlank(parts[k])
  }

  /** `CountNonBlank` counts exactly the positions of non-blank pieces. */
  lemma {:induction false} CountNonBlankIsCount(parts: seq<string>)
    ensures CountNonBlank(parts) == |NonBlankAt(parts)|
    decreases |parts|
  {
    if parts != [] {
      var n := |parts| - 1;
      var init := parts[..n];
      CountNonBlankIsCount(init);
      CountNonBlankAppend(init, [parts[n]]);
      assert init + [parts[n]] == parts;
      assert forall k: nat :: k < n ==> init[k] == parts[k];
      if IsBlank(parts[n]) {
        assert NonBlankAt(parts) == NonBlankAt(init);
      } else {
        assert NonBlankAt(parts) == NonBlankAt(init) + {n};
      }
    }
  }

  lemma {:induction false} CountNonBlankAppend(a: seq<string>, b: seq<string>)
    ensures CountNonBlank(a + b) == CountNonBlank(a) + CountNonBlank(b)
    decreases |a|
  {
    if a == [] {
      assert a + b == b;
    } else {
      CountNonBlankAppend(a[1..], b);
      assert (a + b)[0] == a[0] && (a + b)[1..] == a[1..] + b;
    }
  }

  /** The handler's own copy of the automatic sizing step table. */
  function RecommendedTarget(words: int): (t: int)
    ensures t == AutoTarget(words)
  {
    if words <= 180 then 6
    else if words <= 600 then 12
    else if words <= 1500 then 18
    else if words <= 3000 then 24
    else 32
  }

  /** The statistics of a text: its words under the service's word pattern,
      the non-blank pieces of the sentence split of the stripped (not
      collapsed) text, the non-blank blocks between blank lines, and the
      recommended target. */
  function TextStatistics(text: string): (st: TextStats)
    ensures st.wordsTotal == |WordTokens(text)|
    ensures st.recommendedTarget == AutoTarget(st.wordsTotal)
    ensures st.sentencesTotal == |NonBlankAt(SplitParts(Strip(text)))| <= |SplitParts(Strip(text))|
    ensures st.paragraphsTotal == |NonBlankAt(SplitOn(text, "\n\n"))| <= |SplitOn(text, "\n\n")|
  {
    CountNonBlankIsCount(SplitParts(Strip(text)));
    CountNonBlankIsCount(SplitOn(text, "\n\n"));
    var words := |WordTokens(text)|;
    TextStats(
      words,
      CountNonBlank(SplitParts(Strip(text))),
      CountNonBlank(SplitOn(text, "\n\n")),
      RecommendedTarget(words))
  }

  /** `stats()`: the text guard, then the statistics. It fails exactly
      when the guard rejects, with the guard's error, and otherwise reports
      the accepted text's word count and the service's automatic size. */
  function HandleStats(req: Request): (r: Response)
    ensures !r.Summary?
    ensures r.Error? <==> CheckText(req).Rejected?
    ensures r.Error? ==> r.code == CheckText(req).code
    ensures r.Statistics? ==>
      && r.stats.wordsTotal == |WordTokens(CheckText(req).text)|
      && r.stats.recommendedTarget == AutoTarget(r.stats.wordsTotal)
  {
    match CheckText(req)
    case Rejected(e) => Error(e)
    case Accepted(text) => Statistics(TextStatistics(text))
  }

  // ---------------------------------------------------------------------
  // Properties of summarize()
  // ---------------------------------------------------------------------

  /** The guards in order: a missing body or `text` key wins over
      everything, an empty or blank text over the target, an invalid target
      over the service; a request that passes them all gets the service's
      result. */
  lemma SummarizeGuardOrder(req: Request)
    ensures req.NoBody? || "text" !in req.fields ==> HandleSummarize(req) == Error(MissingText)
    ensures req.Body? && "text" in req.fields && !Truthy(req.fields["text"]) ==>
      HandleSummarize(req) == Error(EmptyText)
    ensures req.Body? && "text" in req.fields && req.fields["text"].Str? && IsBlank(req.fields["text"].s) ==>
      HandleSummarize(req) == Error(EmptyText)
    ensures CheckText(req).Accepted? && !TargetAccepted(TargetField(req.fields)) ==>
      HandleSummarize(req) == Error(InvalidTargetSentences)
    ensures CheckText(req).Accepted? && TargetAccepted(TargetField(req.fields)) ==>
      var out := Summarize(CheckText(req).text, ServiceTarget(TargetField(req.fields)));
      HandleSummarize(req) == Summary(out.summary, out.meta)
  {
  }

  /** Only the three validation errors are answered with 400, and a
      request with a non-blank string under `text` and an acceptable target
      is always answered with 200. */
  lemma SummarizeStatus(req: Request)
    ensures HttpStatus(HandleSummarize(req)) == 400 <==>
      HandleSummarize(req) in {Error(MissingText), Error(EmptyText), Error(InvalidTargetSentences)}
    ensures CheckText(req).Accepted? && TargetAccepted(TargetField(req.fields)) ==>
      HttpStatus(HandleSummarize(req)) == 200
  {
  }

  /** An absent `target_sentences` and an explicit `null` mean the same:
      automatic sizing. */
  lemma AbsentTargetIsNull(fields: map<string, Value>)
    ensures HandleSummarize(Body(fields - {"target_sentences"}))
         == HandleSummarize(Body(fields["target_sentences" := Null]))
  {
    var absent := fields - {"target_sentences"};
    var nulled := fields["target_sentences" := Null];
    assert "text" in absent <==> "text" in nulled;
    if "text" in absent {
      assert absent["text"] == nulled["text"];
    }
  }

  /** A boolean or a non-integral number is never an acceptable target:
      `True` and `False` pass the `isinstance` test as 1 and 0, below 4. */
  lemma NonIntegerTargetRejected(fields: map<string, Value>)
    requires CheckText(Body(fields)).Accepted?
    requires "target_sentences" in fields
    requires fields["target_sentences"].Bool? || fields["target_sentences"].Real?
      || fields["target_sentences"].Str? || fields["target_sentences"].Array?
      || fields["target_sentences"].Object?
    ensures HandleSummarize(Body(fields)) == Error(InvalidTargetSentences)
  {
  }

  /** A successful summary reports the word count of the text under the
      service's word pattern, and its target is the requested one (from 4
      to 80), the automatic one, or 0 for a text without words sized
      automatically. */
  lemma SummaryMeta(req: Request)
    requires HandleSummarize(req).Summary?
    ensures var text := CheckText(req).text;
      var target := TargetField(req.fields);
      var meta := HandleSummarize(req).meta;
      && meta.wordsTotal == |WordTokens(text)|
      && (target.Null? && |WordTokens(text)| > 0 ==> meta.targetSentences == AutoTarget(|WordTokens(text)|))
      && (!target.Null? ==> meta.targetSentences == AsInt(target).value)
      && (meta.targetSentences == 0 <==> target.Null? && WordTokens(text) == [])
      && (meta.targetSentences != 0 ==> 4 <= meta.targetSentences <= 80)
  {
    var text := CheckText(req).text;
    var target := ServiceTarget(TargetField(req.fields));
    if WordTokens(text) == [] {
      SummarizeWithoutWords(text, target);
    } else {
      SummarizeMeta(text, target);
    }
  }

  // ---------------------------------------------------------------------
  // Properties of stats()
  // ---------------------------------------------------------------------

  /** Both handlers guard the text in the same way: `stats()` fails exactly
      when the text guard does, with the error `summarize()` gives, and
      `summarize()` fails with any other error than an invalid target only
      where `stats()` fails with the same one. */
  lemma HandlersShareTextGuard(req: Request)
    ensures HandleStats(req).Error? <==> CheckText(req).Rejected?
    ensures HandleStats(req).Error? ==> HandleSummarize(req) == HandleStats(req)
    ensures HandleSummarize(req).Error? && HandleSummarize(req).code != InvalidTargetSentences ==>
      HandleStats(req) == HandleSummarize(req)
  {
  }

  /** The statistics agree with the service: the same word count as the
      summary's metadata, and the recommended target is the target the
      service picks for a text left to automatic sizing. */
  lemma StatsAgreeWithService(text: string, target: Option<int>)
    ensures TextStatistics(text).wordsTotal == Summarize(text, target).meta.wordsTotal
    ensures WordTokens(text) != [] ==>
      TextStatistics(text).recommendedTarget == Summarize(text, None).meta.targetSentences
  {
    if WordTokens(text) == [] {
      SummarizeWithoutWords(text, target);
    } else {
      SummarizeMeta(text, target);
      SummarizeMeta(text, None);
    }
  }

  /** The first piece of the split, scanning from `i`, ends at or after `i`. */
  lemma {:induction false} FirstPiece(s: string, start: nat, i: nat) returns (j: nat)
    requires start <= i <= |s|
    ensures i <= j <= |s| && SplitFrom(s, start, i)[0] == s[start..j]
    decreases |s| - i
  {
    if i == |s| {
      j := |s|;
    } else if MatchAt(s, i) > 0 {
      j := i;
    } else {
      j := FirstPiece(s, start, i + 1);
    }
  }

  /** A stripped text that is not empty starts with a piece holding its
      first character, so it has a non-blank piece. */
  lemma StrippedTextHasSentence(t: string)
    requires t != [] && !IsSpace(t[0])
    ensures CountNonBlank(SplitParts(t)) >= 1
  {
    assert BreakAt(t, 0) == 0;
    assert t[0..][0] == t[0];
    assert NewlineRun(t[0..]) == 0 by {
      assert t[0] != '\n';
    }
    assert SplitParts(t) == SplitFrom(t, 0, 1);
    var j := FirstPiece(t, 0, 1);
    var first := SplitParts(t)[0];
    assert first[0] == t[0];
    assert !IsBlank(first);
  }

  /** Joining blank pieces with a blank separator gives a blank string. */
  lemma {:induction false} JoinOfBlank(sep: string, parts: seq<string>)
    requires IsBlank(sep)
    ensures (forall k :: 0 <= k < |parts| ==> IsBlank(parts[k])) ==> IsBlank(Join(sep, parts))
    decreases |parts|
  {
    if |parts| > 1 && forall k :: 0 <= k < |parts| ==> IsBlank(parts[k]) {
      JoinOfBlank(sep, parts[1..]);
      var rest := Join(sep, parts[1..]);
      assert IsBlank(rest) by {
        forall k | 0 <= k < |parts[1..]| ensures IsBlank(parts[1..][k]) {
          assert parts[1..][k] == parts[k + 1];
        }
      }
      var whole := parts[0] + sep + rest;
      forall k | 0 <= k < |whole| ensures IsSpace(whole[k]) {
        if k < |parts[0]| {
          assert whole[k] == parts[0][k];
        } else if k < |parts[0]| + |sep| {
          assert whole[k] == sep[k - |parts[0]|];
        } else {
          assert whole[k] == rest[k - |parts[0]| - |sep|];
        }
      }
    }
  }

  /** A text with something besides whitespace, which the guard lets
      through, has at least one sentence and one paragraph; neither count
      exceeds the number of pieces of its split. */
  lemma StatsOfNonBlankText(text: string)
    requires !IsBlank(text)
    ensures var st := TextStatistics(text);
      && 1 <= st.sentencesTotal <= |SplitParts(Strip(text))|
      && 1 <= st.paragraphsTotal <= |SplitOn(text, "\n\n")|
  {
    StrippedTextHasSentence(Strip(text));
    NonBlankTextHasParagraph(text);
    var st := TextStatistics(text);
    assert st.sentencesTotal == CountNonBlank(SplitParts(Strip(text)));
    assert st.paragraphsTotal == CountNonBlank(SplitOn(text, "\n\n"));
  }

  /** Blank blocks would rejoin to a blank text, so a text with something
      besides whitespace has a non-blank block. */
  lemma NonBlankTextHasParagraph(text: string)
    requires !IsBlank(text)
    ensures CountNonBlank(SplitOn(text, "\n\n")) >= 1
  {
    var blocks := SplitOn(text, "\n\n");
    SplitOnJoin(text, "\n\n");
    assert IsBlank("\n\n") by {
      assert forall k :: 0 <= k < |"\n\n"| ==> "\n\n"[k] == '\n';
    }
    JoinOfBlank("\n\n", blocks);
  }

  /** Positions without a match do not end the current piece. */
  lemma {:induction false} SplitSkips(s: string, start: nat, i: nat, j: nat)
    requires start <= i <= j <= |s|
    requires forall k :: i <= k < j ==> MatchAt(s, k) == 0
    ensures SplitFrom(s, start, i) == SplitFrom(s, start, j)
    decreases j - i
  {
    if i < j {
      SplitSkips(s, start, i + 1, j);
    }
  }

  /** `strip` leaves a text alone that starts and ends with a character
      other than whitespace. */
  lemma StripKeeps(s: string)
    requires s != [] && !IsSpace(s[0]) && !IsSpace(s[|s| - 1])
    ensures Strip(s) == s
  {
    assert LeadingSpaces(s) == 0;
    assert TrailingSpaces(s) == 0;
  }

  /** The only match of the sentence split in "One\nTwo" is its line break. */
  lemma LineBreakMatches(s: string)
    requires s == "One\nTwo"
    ensures forall k :: 0 <= k < |s| && k != 3 ==> MatchAt(s, k) == 0
    ensures MatchAt(s, 3) == 1
  {
    forall k | 0 <= k < |s| ensures MatchAt(s, k) == (if k == 3 then 1 else 0) {
      if k == 3 {
        assert s[3..] == "\nTwo";
        assert NewlineRun("Two") == 0;
      } else {
        assert s[k] != '\n';
        assert !IsSentenceEnd(s[k]);
      }
    }
  }

  /** The sentence split cuts "One\nTwo" at its line break. */
  lemma LineBreakSplit(s: string)
    requires s == "One\nTwo"
    ensures SplitParts(s) == ["One", "Two"]
  {
    LineBreakMatches(s);
    SplitSkips(s, 4, 4, 7);
    SplitSkips(s, 0, 0, 3);
    assert s[..3] == "One" && s[4..] == "Two";
    assert SplitFrom(s, 0, 3) == [s[..3]] + SplitFrom(s, 4, 4);
  }

  /** The statistics split the text at line breaks: two lines without a
      full stop, "One" and "Two", count as two sentences. */
  lemma StatsSplitAtNewlines(s: string)
    requires s == "One\nTwo"
    ensures TextStatistics(s).sentencesTotal == 2
  {
    StripKeeps(s);
    LineBreakSplit(s);
    var parts := ["One", "Two"];
    assert !IsBlank(parts[0]) && !IsBlank(parts[1]) by {
      assert !IsSpace(parts[0][0]) && !IsSpace(parts[1][0]);
    }
    assert parts[1..] == [parts[1]] && parts[1..][1..] == [];
  }

  /** `Collapse` leaves a text without whitespace as it is. */
  lemma {:induction false} CollapseWithoutSpace(s: string)
    requires forall k :: 0 <= k < |s| ==> !IsSpace(s[k])
    ensures Collapse(s) == s
    decreases |s|
  {
    if s != [] {
      CollapseWithoutSpace(s[1..]);
    }
  }

  /** One whitespace character before a word becomes a space. */
  lemma CollapseLeadingSpace(c: char, b: string)
    requires forall k :: 0 <= k < |b| ==> !IsSpace(b[k])
    requires IsSpace(c)
    ensures Collapse([c] + b) == " " + b
  {
    var s := [c] + b;
    assert s[0] == c && s[1..] == b;
    assert LeadingSpaces(s) == 1;
    CollapseWithoutSpace(b);
  }

  /** `Collapse` turns one whitespace character between two words into a
      space. */
  lemma {:induction false} CollapseOneSpace(a: string, c: char, b: string)
    requires forall k :: 0 <= k < |a| ==> !IsSpace(a[k])
    requires forall k :: 0 <= k < |b| ==> !IsSpace(b[k])
    requires IsSpace(c)
    ensures Collapse(a + [c] + b) == a + " " + b
    decreases |a|
  {
    var s := a + [c] + b;
    if a == [] {
      assert s == [c] + b;
      CollapseLeadingSpace(c, b);
    } else {
      var t := a[1..] + [c] + b;
      assert s[0] == a[0] && s[1..] == t;
      CollapseOneSpace(a[1..], c, b);
      assert Collapse(s) == [a[0]] + (a[1..] + " " + b);
      assert [a[0]] + (a[1..] + " " + b) == a + " " + b;
    }
  }

  /** A text without line breaks and sentence ends has no match of the
      sentence split. */
  lemma NoBreakMatches(t: string)
    requires forall k :: 0 <= k < |t| ==> t[k] != '\n' && !IsSentenceEnd(t[k])
    ensures forall k :: 0 <= k < |t| ==> MatchAt(t, k) == 0
  {
    forall k | 0 <= k < |t| ensures MatchAt(t, k) == 0 {
      assert t[k..][0] == t[k];
    }
  }

  /** `Collapse` turns the line break of "One\nTwo" into a space. */
  lemma CollapseLineBreak(s: string)
    requires s == "One\nTwo"
    ensures Collapse(s) == "One Two"
  {
    assert s == "One" + ['\n'] + "Two";
    assert forall k :: 0 <= k < 3 ==> !IsSpace("One"[k]) && !IsSpace("Two"[k]);
    CollapseOneSpace("One", '\n', "Two");
  }

  /** "One Two" is not cut by the sentence split. */
  lemma UnbrokenSplit(t: string)
    requires t == "One Two"
    ensures SplitParts(t) == [t]
  {
    NoBreakMatches(t);
    SplitSkips(t, 0, 0, 7);
    assert t[0..] == t;
  }

  /** The summariser collapses the line break of the same text before it
      splits, and sees one sentence, "One Two". */
  lemma SummariserJoinsLines(s: string)
    requires s == "One\nTwo"
    ensures ToSentences(s) == ["One Two"]
  {
    var t := "One Two";
    CollapseLineBreak(s);
    StripKeeps(t);
    UnbrokenSplit(t);
    assert KeepSentences([t]) == [t];
  }
}
