/** Character classes and string helpers shared by the summariser, the file
    helpers and the request handlers: Python's `\s`, `str.strip`, `str.lower`
    on ASCII, `re.sub(r"\s+", " ", ...)`, `sep.join(...)` and `str.split(sep)`. */
module Text {

  // ---------------------------------------------------------------------
  // Character classes
  // ---------------------------------------------------------------------

  /** Python's `\s` in a `str` pattern and the characters `str.strip()`
      removes: the code points CPython's `str.isspace` accepts. */
  predicate IsSpace(c: char) {
    ('\t' <= c <= '\r') || ('\U{1C}' <= c <= ' ') || c == '\U{85}' || c == '\U{A0}'
    || c == '\U{1680}' || ('\U{2000}' <= c <= '\U{200A}') || c == '\U{2028}' || c == '\U{2029}'
    || c == '\U{202F}' || c == '\U{205F}' || c == '\U{3000}'
  }

  predicate IsDigit(c: char) { '0' <= c <= '9' }
  predicate IsUpper(c: char) { 'A' <= c <= 'Z' }
  predicate IsLower(c: char) { 'a' <= c <= 'z' }
  predicate IsLetter(c: char) { IsUpper(c) || IsLower(c) }

  /** The character class `[A-Za-z0-9']` of the word pattern. */
  predicate IsWordChar(c: char) { IsLetter(c) || IsDigit(c) || c == '\'' }

  /** The word and whitespace classes do not overlap. */
  lemma WordCharIsNotSpace(c: char)
    ensures IsWordChar(c) ==> !IsSpace(c)
  {
  }

  /** Every character of `s` is whitespace (Python: `not s.strip()`). */
  predicate IsBlank(s: string) {
    forall i :: 0 <= i < |s| ==> IsSpace(s[i])
  }

  // ---------------------------------------------------------------------
  // str.strip
  // ---------------------------------------------------------------------

  /** Length of the whitespace run at the start of `s`. */
  function LeadingSpaces(s: string): (n: nat)
    ensures n <= |s|
    ensures forall i :: 0 <= i < n ==> IsSpace(s[i])
    ensures n < |s| ==> !IsSpace(s[n])
  {
    if s == [] || !IsSpace(s[0]) then 0 else 1 + LeadingSpaces(s[1..])
  }

  /** Length of the whitespace run at the end of `s`. */
  function TrailingSpaces(s: string): (n: nat)
    ensures n <= |s|
    ensures forall i :: |s| - n <= i < |s| ==> IsSpace(s[i])
    ensures n < |s| ==> !IsSpace(s[|s| - 1 - n])
  {
    if s == [] || !IsSpace(s[|s| - 1]) then 0 else 1 + TrailingSpaces(s[..|s| - 1])
  }

  /** Python's `s.strip()`. */
  function Strip(s: string): (r: string)
    ensures |r| <= |s|
    ensures r != [] ==> !IsSpace(r[0]) && !IsSpace(r[|r| - 1])
    ensures r == [] <==> IsBlank(s)
  {
    var rest := s[LeadingSpaces(s)..];
    rest[..|rest| - TrailingSpaces(rest)]
  }

  /** `strip` removes whitespace at both ends and nothing else. */
  lemma StripSlice(s: string) returns (a: nat, b: nat)
    ensures a <= b <= |s| && Strip(s) == s[a..b]
    ensures IsBlank(s[..a]) && IsBlank(s[b..])
  {
    a := LeadingSpaces(s);
    b := |s| - TrailingSpaces(s[a..]);
  }

  lemma StripOfStripped(s: string)
    requires s == [] || (!IsSpace(s[0]) && !IsSpace(s[|s| - 1]))
    ensures Strip(s) == s
  {
  }

  // ---------------------------------------------------------------------
  // Whitespace collapsing: re.sub(r"\s+", " ", s)
  // ---------------------------------------------------------------------

  /** No whitespace except the plain space, and never two spaces in a row. */
  ghost predicate SingleSpaced(s: string) {
    && (forall i :: 0 <= i < |s| && IsSpace(s[i]) ==> s[i] == ' ')
    && (forall i, j :: 0 <= i < j < |s| && j == i + 1 && s[i] == ' ' ==> s[j] != ' ')
  }

  lemma SingleSpacedSlice(s: string, a: nat, b: nat)
    requires a <= b <= |s| && SingleSpaced(s)
    ensures SingleSpaced(s[a..b])
  {
    var t := s[a..b];
    forall i, j | 0 <= i < j < |t| && j == i + 1 && t[i] == ' '
      ensures t[j] != ' '
    {
      assert t[i] == s[a + i] && t[j] == s[a + j];
    }
  }

  /** Python's `re.sub(r"\s+", " ", s)`: every maximal whitespace run
      becomes one space. */
  function Collapse(s: string): (r: string)
    ensures SingleSpaced(r)
    ensures r == [] <==> s == []
    ensures s != [] && !IsSpace(s[0]) ==> r[0] == s[0]
    ensures s != [] && IsSpace(s[0]) ==> r[0] == ' '
    decreases |s|
  {
    if s == [] then []
    else if IsSpace(s[0]) then " " + Collapse(s[LeadingSpaces(s)..])
    else [s[0]] + Collapse(s[1..])
  }

  /** A blank text collapses to at most one space. */
  lemma CollapseOfBlank(s: string)
    ensures IsBlank(s) ==> IsBlank(Collapse(s))
  {
    if s != [] && IsBlank(s) {
      var n := LeadingSpaces(s);
      assert n == |s|;
      assert s[n..] == [];
      assert Collapse(s) == " ";
    }
  }

  // ---------------------------------------------------------------------
  // The characters of a class, and its maximal runs
  // ---------------------------------------------------------------------

  predicate NotSpace(c: char) { !IsSpace(c) }

  /** The characters of `s` in the class, in order. */
  function Keep(s: string, inClass: char -> bool): (r: string)
    ensures |r| <= |s|
    ensures forall i :: 0 <= i < |r| ==> inClass(r[i])
  {
    if s == [] then []
    else (if inClass(s[0]) then [s[0]] else []) + Keep(s[1..], inClass)
  }

  /** The number of maximal runs of the class in `s`, where `inRun` says
      whether the character just before `s` belongs to the class. */
  function Runs(s: string, inClass: char -> bool, inRun: bool): nat
  {
    if s == [] then 0
    else (if inClass(s[0]) && !inRun then 1 else 0) + Runs(s[1..], inClass, inClass(s[0]))
  }

  lemma {:induction false} KeepSkip(s: string, inClass: char -> bool, n: nat)
    requires n <= |s|
    requires forall i :: 0 <= i < n ==> !inClass(s[i])
    ensures Keep(s, inClass) == Keep(s[n..], inClass)
    decreases n
  {
    if n > 0 {
      KeepSkip(s[1..], inClass, n - 1);
      assert s[1..][n - 1..] == s[n..];
    }
  }

  lemma {:induction false} KeepRun(s: string, inClass: char -> bool, n: nat)
    requires n <= |s|
    requires forall i :: 0 <= i < n ==> inClass(s[i])
    ensures Keep(s, inClass) == s[..n] + Keep(s[n..], inClass)
    decreases n
  {
    if n > 0 {
      KeepRun(s[1..], inClass, n - 1);
      assert s[1..][n - 1..] == s[n..];
      assert s[..n] == [s[0]] + s[1..][..n - 1];
    }
  }

  /** Inside a run no new run starts. */
  lemma {:induction false} RunsWithin(s: string, inClass: char -> bool, n: nat)
    requires n <= |s|
    requires forall i :: 0 <= i < n ==> inClass(s[i])
    ensures Runs(s, inClass, true) == Runs(s[n..], inClass, true)
    decreases n
  {
    if n > 0 {
      RunsWithin(s[1..], inClass, n - 1);
      assert s[1..][n - 1..] == s[n..];
    }
  }

  /** `re.sub(r"\s+", " ", s)` keeps every other character, in order, and
      leaves exactly one space for every whitespace run. */
  lemma {:induction false} CollapseKeepsText(s: string)
    ensures Keep(Collapse(s), NotSpace) == Keep(s, NotSpace)
    ensures Runs(Collapse(s), IsSpace, false) == Runs(s, IsSpace, false)
    decreases |s|
  {
    if s != [] {
      if IsSpace(s[0]) {
        var n := LeadingSpaces(s);
        var rest := Collapse(s[n..]);
        CollapseKeepsText(s[n..]);
        assert Collapse(s) == " " + rest;
        assert (" " + rest)[0] == ' ' && (" " + rest)[1..] == rest;
        KeepSkip(s, NotSpace, n);
        assert Runs(s, IsSpace, false) == 1 + Runs(s[n..], IsSpace, true) by {
          RunsWithin(s[1..], IsSpace, n - 1);
          assert s[1..][n - 1..] == s[n..];
        }
      } else {
        CollapseKeepsText(s[1..]);
        assert Collapse(s) == [s[0]] + Collapse(s[1..]);
        assert ([s[0]] + Collapse(s[1..]))[0] == s[0];
        assert ([s[0]] + Collapse(s[1..]))[1..] == Collapse(s[1..]);
      }
    }
  }

  // ---------------------------------------------------------------------
  // Lower-casing (ASCII)
  // ---------------------------------------------------------------------

  function LowerChar(c: char): (d: char)
    ensures !IsUpper(d)
    ensures IsLetter(c) <==> IsLetter(d)
  {
    if IsUpper(c) then (c as int - 'A' as int + 'a' as int) as char else c
  }

  /** `str.lower()` restricted to ASCII letters. */
  function Lower(s: string): (r: string)
    ensures |r| == |s|
    ensures forall i :: 0 <= i < |s| ==> r[i] == LowerChar(s[i])
  {
    seq(|s|, i requires 0 <= i < |s| => LowerChar(s[i]))
  }

  // ---------------------------------------------------------------------
  // sep.join(parts) and "".join(parts)
  // ---------------------------------------------------------------------

  /** Python's `sep.join(parts)`. */
  function Join(sep: string, parts: seq<string>): string
  {
    if parts == [] then []
    else if |parts| == 1 then parts[0]
    else parts[0] + sep + Join(sep, parts[1..])
  }

  /** Python's `"".join(parts)`. */
  function Concat(parts: seq<string>): string
  {
    if parts == [] then [] else parts[0] + Concat(parts[1..])
  }

  lemma {:induction false} ConcatAppend(a: seq<string>, b: seq<string>)
    ensures Concat(a + b) == Concat(a) + Concat(b)
  {
    if a == [] {
      assert a + b == b;
    } else {
      assert (a + b)[0] == a[0];
      assert (a + b)[1..] == a[1..] + b;
      assert Concat(a + b) == a[0] + Concat(a[1..] + b);
      ConcatAppend(a[1..], b);
    }
  }

  // ---------------------------------------------------------------------
  // str.split(sep) for a non-empty separator
  // ---------------------------------------------------------------------

  /** `sep` occurs in `s` starting at index `j`. */
  predicate OccursAt(s: string, sep: string, j: nat) {
    j + |sep| <= |s| && s[j..j + |sep|] == sep
  }

  /** Index of the leftmost occurrence of `sep` in `s` at or after `from`,
      or -1 when there is none. */
  function FindFrom(s: string, sep: string, from: nat): (r: int)
    requires |sep| > 0 && from <= |s|
    ensures r == -1 || from <= r <= |s| - |sep|
    ensures r >= 0 ==> OccursAt(s, sep, r)
    ensures r >= 0 ==> forall j :: from <= j < r ==> !OccursAt(s, sep, j)
    ensures r < 0 ==> forall j :: from <= j <= |s| ==> !OccursAt(s, sep, j)
    decreases |s| - from
  {
    if from + |sep| > |s| then -1
    else if s[from..from + |sep|] == sep then from
    else FindFrom(s, sep, from + 1)
  }

  /** Python's `s.split(sep)`: cut at each leftmost non-overlapping
      occurrence of `sep`. */
  function SplitOn(s: string, sep: string): (parts: seq<string>)
    requires |sep| > 0
    ensures |parts| >= 1
    decreases |s|
  {
    var i := FindFrom(s, sep, 0);
    if i < 0 then [s] else [s[..i]] + SplitOn(s[i + |sep|..], sep)
  }

  lemma JoinCons(sep: string, first: string, rest: seq<string>)
    requires rest != []
    ensures Join(sep, [first] + rest) == first + sep + Join(sep, rest)
  {
    assert ([first] + rest)[1..] == rest;
  }

  /** Splitting loses nothing: joining the pieces with the separator gives
      back the input. */
  lemma {:induction false} SplitOnJoin(s: string, sep: string)
    requires |sep| > 0
    ensures Join(sep, SplitOn(s, sep)) == s
    decreases |s|
  {
    var i := FindFrom(s, sep, 0);
    if i >= 0 {
      var rest := s[i + |sep|..];
      var tail := SplitOn(rest, sep);
      assert SplitOn(s, sep) == [s[..i]] + tail;
      SplitOnJoin(rest, sep);
      JoinCons(sep, s[..i], tail);
      assert s[i..i + |sep|] == sep;
      calc {
        Join(sep, SplitOn(s, sep));
        s[..i] + sep + Join(sep, tail);
        s[..i] + s[i..i + |sep|] + rest;
        s;
      }
    }
  }
}
