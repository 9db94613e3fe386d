/** The file-path helpers of the summariser: filtering the path matches
    found in a text, checking and classifying a path by its extension, and
    rendering the detected files as a listing and as follow-up steps. */
module FileUtils {
  import opened Text
  import opened Ordering

  // ---------------------------------------------------------------------
  // extract_file_paths: deduplicate, sort, drop false positives
  // ---------------------------------------------------------------------

  /** Python's `s.startswith(prefix)`. */
  predicate StartsWith(s: string, prefix: string) {
    |prefix| <= |s| && s[..|prefix|] == prefix
  }

  /** The filter of `extract_file_paths`: longer than three characters and
      not starting with `http` or `www` (case-sensitive). */
  predicate LooksLikePath(p: string) {
    |p| > 3 && !StartsWith(p, "http") && !StartsWith(p, "www")
  }

  /** The paths of `ps` that `LooksLikePath` accepts, in order. */
  function KeepPaths(ps: seq<string>): (kept: seq<string>)
    ensures forall x :: x in kept ==> x in ps && LooksLikePath(x)
    ensures forall x :: x in ps && LooksLikePath(x) ==> x in kept
  {
    if ps == [] then []
    else
      var prefix := ps[..|ps| - 1];
      var last := ps[|ps| - 1];
      assert forall x :: x in ps <==> x in prefix || x == last;
      KeepPaths(prefix) + (if LooksLikePath(last) then [last] else [])
  }

  /** What `extract_file_paths` returns for the regex matches `matches`. */
  function FilePaths(matches: seq<string>): seq<string>
  {
    KeepPaths(SortedSet(matches))
  }

  /** The filtering loop of `extract_file_paths`, run over
      `sorted(set(matches))`. */
  method ExtractFilePaths(matches: seq<string>) returns (files: seq<string>)
    ensures files == FilePaths(matches)
  {
    var unique := SortedSet(matches);
    files := [];
    var i := 0;
    while i < |unique|
      invariant 0 <= i <= |unique|
      invariant files == KeepPaths(unique[..i])
    {
      assert unique[..i + 1][..i] == unique[..i];
      if LooksLikePath(unique[i]) {
        files := files + [unique[i]];
      }
      i := i + 1;
    }
    assert unique[..i] == unique;
  }

  lemma {:induction false} KeepPathsSorted(ps: seq<string>)
    requires StrictlySorted(ps)
    ensures StrictlySorted(KeepPaths(ps))
  {
    if ps != [] {
      var prefix := ps[..|ps| - 1];
      var last := ps[|ps| - 1];
      KeepPathsSorted(prefix);
      var kept := KeepPaths(prefix);
      forall k | 0 <= k < |kept| ensures Less(kept[k], last) {
        assert kept[k] in prefix;
      }
    }
  }

  /** `extract_file_paths` returns, in strictly increasing order and so
      without repetition, exactly the matches that pass the filter. */
  lemma FilePathsSpec(matches: seq<string>)
    ensures StrictlySorted(FilePaths(matches))
    ensures forall p :: p in FilePaths(matches) ==> p in matches && |p| > 3 && !StartsWith(p, "http") && !StartsWith(p, "www")
    ensures forall p :: p in matches && LooksLikePath(p) ==> p in FilePaths(matches)
  {
    SortedSetSpec(matches);
    KeepPathsSorted(SortedSet(matches));
  }

  // ---------------------------------------------------------------------
  // pathlib: Path.name and Path.suffix
  // ---------------------------------------------------------------------

  /** The components `Path(p)` keeps: the pieces between slashes, without
      empty pieces and without `.`. */
  function Components(pieces: seq<string>): seq<string>
  {
    if pieces == [] then []
    else
      var rest := Components(pieces[1..]);
      if pieces[0] == [] || pieces[0] == "." then rest else [pieces[0]] + rest
  }

  /** `Path(p).name`: the last component, or `""`. */
  function Name(p: string): string
  {
    var parts := Components(SplitOn(p, "/"));
    if parts == [] then [] else parts[|parts| - 1]
  }

  /** `s.rfind(c)`: the last index of `c` in `s`, or -1. */
  function LastIndex(s: string, c: char): int
  {
    if s == [] then -1
    else if s[|s| - 1] == c then |s| - 1
    else LastIndex(s[..|s| - 1], c)
  }

  lemma {:induction false} LastIndexSpec(s: string, c: char)
    ensures var i := LastIndex(s, c);
      && -1 <= i < |s|
      && (i >= 0 ==> s[i] == c)
      && (forall j :: i < j < |s| ==> s[j] != c)
  {
    if s != [] && s[|s| - 1] != c {
      LastIndexSpec(s[..|s| - 1], c);
    }
  }

  /** `Path(p).suffix`: from the last dot of the name, when that dot is
      neither its first nor its last character. */
  function Suffix(p: string): string
  {
    var name := Name(p);
    var i := LastIndex(name, '.');
    if 0 < i < |name| - 1 then name[i..] else []
  }

  /** A suffix is a dot followed by at least one character and no other
      dot, and it ends a name that has something before it. */
  lemma SuffixSpec(p: string)
    ensures var suffix := Suffix(p);
      suffix != [] ==>
        && |suffix| >= 2 && suffix[0] == '.'
        && (forall k :: 0 < k < |suffix| ==> suffix[k] != '.')
        && |suffix| < |Name(p)|
        && Name(p)[|Name(p)| - |suffix|..] == suffix
  {
    LastIndexSpec(Name(p), '.');
  }

  // ---------------------------------------------------------------------
  // validate_file_path
  // ---------------------------------------------------------------------

  const InvalidChars: string := "<>|\"?*"

  predicate HasInvalidChar(p: string) {
    exists c :: c in InvalidChars && c in p
  }

  /** `validate_file_path`: no suffix, a name shorter than three
      characters, or one of `< > | " ? *` anywhere in the path makes it
      invalid. */
  function ValidateFilePath(p: string): (valid: bool)
    ensures valid ==> Suffix(p) != [] && |Name(p)| >= 3
    ensures valid ==> forall k :: 0 <= k < |p| ==> p[k] !in InvalidChars
  {
    if Suffix(p) == [] then false
    else if |Name(p)| < 3 then false
    else if HasInvalidChar(p) then false
    else true
  }

  /** Each of the three checks on its own rejects the path, and a path
      that passes all three is accepted. */
  lemma ValidateFilePathCases(p: string)
    ensures (exists k :: 0 <= k < |p| && p[k] in InvalidChars) ==> !ValidateFilePath(p)
    ensures Suffix(p) == [] ==> !ValidateFilePath(p)
    ensures |Name(p)| < 3 ==> !ValidateFilePath(p)
    ensures Suffix(p) != [] && |Name(p)| >= 3 && (forall k :: 0 <= k < |p| ==> p[k] !in InvalidChars) ==> ValidateFilePath(p)
  {
    if exists k :: 0 <= k < |p| && p[k] in InvalidChars {
      var k :| 0 <= k < |p| && p[k] in InvalidChars;
      assert p[k] in p;
    }
  }

  // ---------------------------------------------------------------------
  // get_file_type
  // ---------------------------------------------------------------------

  /** The keys of the `categories` table. */
  datatype FileType =
    Python | JavaScript | Web | Data | Documentation | Config | Database | Java | CCpp | Shell | Other

  /** The category name the source uses as the key. */
  function TypeName(t: FileType): string
  {
    match t
    case Python => "python"
    case JavaScript => "javascript"
    case Web => "web"
    case Data => "data"
    case Documentation => "documentation"
    case Config => "config"
    case Database => "database"
    case Java => "java"
    case CCpp => "c_cpp"
    case Shell => "shell"
    case Other => "other"
  }

  /** The extension list of each category. */
  function Extensions(t: FileType): seq<string>
  {
    match t
    case Python => [".py"]
    case JavaScript => [".js", ".jsx", ".ts", ".tsx"]
    case Web => [".html", ".css", ".scss", ".less", ".sass"]
    case Data => [".json", ".yaml", ".yml", ".xml", ".csv"]
    case Documentation => [".md", ".txt", ".rst"]
    case Config => [".ini", ".conf", ".cfg", ".toml"]
    case Database => [".sql", ".db", ".sqlite"]
    case Java => [".java", ".class", ".jar"]
    case CCpp => [".c", ".cpp", ".h", ".hpp"]
    case Shell => [".sh", ".bash", ".zsh", ".fish", ".bat", ".ps1"]
    case Other => []
  }

  /** The order in which the `categories` table is searched. */
  const TableOrder: seq<FileType> :=
    [Python, JavaScript, Web, Data, Documentation, Config, Database, Java, CCpp, Shell, Other]

  /** The first category of `table` whose list holds `ext`, or `Other`. */
  function FirstCategory(ext: string, table: seq<FileType>): FileType
  {
    if table == [] then Other
    else if ext in Extensions(table[0]) then table[0]
    else FirstCategory(ext, table[1..])
  }

  lemma {:induction false} FirstCategorySpec(ext: string, table: seq<FileType>)
    ensures var t := FirstCategory(ext, table);
      && (t == Other || (t in table && ext in Extensions(t)))
      && (t == Other ==> forall u :: u in table ==> ext !in Extensions(u))
  {
    if table != [] && ext !in Extensions(table[0]) {
      FirstCategorySpec(ext, table[1..]);
    }
  }

  /** The category the table gives an extension. */
  function Category(ext: string): FileType
  {
    FirstCategory(ext, TableOrder)
  }

  /** `get_file_type`: the category of the lower-cased suffix. */
  function GetFileType(p: string): FileType
  {
    Category(Lower(Suffix(p)))
  }

  /** A path's type is `Other` exactly when no list holds its lower-cased
      suffix, and otherwise the one category whose list holds it. */
  lemma GetFileTypeSpec(p: string)
    ensures GetFileType(p) == Other <==> forall u :: Lower(Suffix(p)) !in Extensions(u)
    ensures forall u :: Lower(Suffix(p)) in Extensions(u) ==> GetFileType(p) == u
  {
    CategorySpec(Lower(Suffix(p)));
  }

  /** The first half of the table, to split the disjointness proof. */
  predicate EarlyType(t: FileType) {
    t == Python || t == JavaScript || t == Web || t == Data || t == Documentation
  }

  lemma DisjointEarly(a: FileType, b: FileType, ext: string)
    requires a != b && EarlyType(a)
    ensures !(ext in Extensions(a) && ext in Extensions(b))
  {
  }

  lemma DisjointLate(a: FileType, b: FileType, ext: string)
    requires a != b && !EarlyType(a)
    ensures !(ext in Extensions(a) && ext in Extensions(b))
  {
  }

  /** No extension is listed under two categories, so the search order of
      the table does not matter. */
  lemma ExtensionsDisjoint(a: FileType, b: FileType, ext: string)
    requires a != b
    ensures !(ext in Extensions(a) && ext in Extensions(b))
  {
    if EarlyType(a) {
      DisjointEarly(a, b, ext);
    } else {
      DisjointLate(a, b, ext);
    }
  }

  lemma InTable(t: FileType)
    ensures t in TableOrder
  {
    match t
    case Python => assert TableOrder[0] == t;
    case JavaScript => assert TableOrder[1] == t;
    case Web => assert TableOrder[2] == t;
    case Data => assert TableOrder[3] == t;
    case Documentation => assert TableOrder[4] == t;
    case Config => assert TableOrder[5] == t;
    case Database => assert TableOrder[6] == t;
    case Java => assert TableOrder[7] == t;
    case CCpp => assert TableOrder[8] == t;
    case Shell => assert TableOrder[9] == t;
    case Other => assert TableOrder[10] == t;
  }

  /** An extension is `Other` exactly when no list holds it, and otherwise
      it belongs to the one category whose list holds it. */
  lemma CategorySpec(ext: string)
    ensures Category(ext) == Other <==> forall t :: ext !in Extensions(t)
    ensures forall t :: ext in Extensions(t) ==> Category(ext) == t
  {
    var c := Category(ext);
    FirstCategorySpec(ext, TableOrder);
    forall t | ext in Extensions(t) ensures c == t {
      InTable(t);
      if c != t {
        ExtensionsDisjoint(t, c, ext);
      }
    }
  }

  // ---------------------------------------------------------------------
  // get_file_type ignores case
  // ---------------------------------------------------------------------

  lemma LowerSlice(s: string, i: nat, j: nat)
    requires i <= j <= |s|
    ensures Lower(s[i..j]) == Lower(s)[i..j]
  {
  }

  lemma LowerKeepsChar(c: char, d: char)
    requires !IsLetter(d)
    ensures LowerChar(c) == d <==> c == d
  {
  }

  lemma LowerIdempotent(s: string)
    ensures Lower(Lower(s)) == Lower(s)
  {
  }

  lemma LowerOfSeparator(s: string)
    ensures Lower(s) == "/" <==> s == "/"
    ensures Lower(s) == "." <==> s == "."
    ensures Lower(s) == [] <==> s == []
  {
    if |s| == 1 {
      LowerKeepsChar(s[0], '/');
      LowerKeepsChar(s[0], '.');
    }
  }

  lemma {:induction false} FindSlashIgnoresCase(s: string, from: nat)
    requires from <= |s|
    ensures FindFrom(Lower(s), "/", from) == FindFrom(s, "/", from)
    decreases |s| - from
  {
    if from + 1 <= |s| {
      LowerSlice(s, from, from + 1);
      LowerOfSeparator(s[from..from + 1]);
      FindSlashIgnoresCase(s, from + 1);
    }
  }

  /** Lower-casing each piece. */
  function LowerAll(pieces: seq<string>): (r: seq<string>)
    ensures |r| == |pieces|
    ensures forall k :: 0 <= k < |pieces| ==> r[k] == Lower(pieces[k])
  {
    seq(|pieces|, k requires 0 <= k < |pieces| => Lower(pieces[k]))
  }

  lemma LowerAllCons(x: string, xs: seq<string>)
    ensures LowerAll([x] + xs) == [Lower(x)] + LowerAll(xs)
  {
  }

  lemma {:induction false} SplitSlashIgnoresCase(s: string)
    ensures SplitOn(Lower(s), "/") == LowerAll(SplitOn(s, "/"))
    decreases |s|
  {
    FindSlashIgnoresCase(s, 0);
    var i := FindFrom(s, "/", 0);
    var low := Lower(s);
    if i >= 0 {
      var head := s[..i];
      var tail := s[i + 1..];
      assert low[..i] == Lower(head);
      assert low[i + 1..] == Lower(tail);
      SplitSlashIgnoresCase(tail);
      LowerAllCons(head, SplitOn(tail, "/"));
    } else {
      LowerAllCons(s, []);
    }
  }

  lemma {:induction false} ComponentsIgnoreCase(pieces: seq<string>)
    ensures Components(LowerAll(pieces)) == LowerAll(Components(pieces))
  {
    if pieces != [] {
      assert LowerAll(pieces)[1..] == LowerAll(pieces[1..]);
      ComponentsIgnoreCase(pieces[1..]);
      LowerOfSeparator(pieces[0]);
      var rest := Components(pieces[1..]);
      assert LowerAll([pieces[0]] + rest) == [Lower(pieces[0])] + LowerAll(rest);
    }
  }

  lemma {:induction false} LastDotIgnoresCase(s: string)
    ensures LastIndex(Lower(s), '.') == LastIndex(s, '.')
  {
    if s != [] {
      LowerKeepsChar(s[|s| - 1], '.');
      LowerSlice(s, 0, |s| - 1);
      LastDotIgnoresCase(s[..|s| - 1]);
    }
  }

  /** `Path.suffix` commutes with lower-casing. */
  lemma SuffixIgnoresCase(p: string)
    ensures Suffix(Lower(p)) == Lower(Suffix(p))
  {
    SplitSlashIgnoresCase(p);
    ComponentsIgnoreCase(SplitOn(p, "/"));
    var name := Name(p);
    assert Name(Lower(p)) == Lower(name);
    LastDotIgnoresCase(name);
    var i := LastIndex(name, '.');
    if 0 < i < |name| - 1 {
      LowerSlice(name, i, |name|);
    }
  }

  /** `get_file_type` does not depend on the case of the path. */
  lemma GetFileTypeIgnoresCase(p: string)
    ensures GetFileType(Lower(p)) == GetFileType(p)
  {
    SuffixIgnoresCase(p);
    LowerIdempotent(Suffix(p));
  }

  // ---------------------------------------------------------------------
  // Grouping by type: the `by_type` dictionary
  // ---------------------------------------------------------------------

  /** A path together with the type `get_file_type` gives it. */
  datatype Entry = Entry(path: string, kind: FileType)

  /** Every path with the type `kind` gives it, in input order. */
  function Tagged(paths: seq<string>, kind: string -> FileType): seq<Entry>
  {
    seq(|paths|, i requires 0 <= i < |paths| => Entry(paths[i], kind(paths[i])))
  }

  /** Every path with its type, in input order. */
  function Classified(paths: seq<string>): seq<Entry>
  {
    Tagged(paths, GetFileType)
  }

  lemma TaggedStep(paths: seq<string>, kind: string -> FileType, i: nat)
    requires i < |paths|
    ensures Tagged(paths[..i + 1], kind) == Tagged(paths[..i], kind) + [Entry(paths[i], kind(paths[i]))]
  {
    var a := Tagged(paths[..i + 1], kind);
    var b := Tagged(paths[..i], kind) + [Entry(paths[i], kind(paths[i]))];
    forall k | 0 <= k < |a| ensures a[k] == b[k] {
      assert paths[..i + 1][k] == paths[k];
      if k < i {
        assert paths[..i][k] == paths[k];
      }
    }
  }

  /** `by_type[t]`: the paths of type `t`, in input order. */
  function FilesOf(entries: seq<Entry>, t: FileType): seq<string>
  {
    if entries == [] then []
    else
      var last := entries[|entries| - 1];
      FilesOf(entries[..|entries| - 1], t) + (if last.kind == t then [last.path] else [])
  }

  /** The keys of `by_type` in insertion order: each type at its first
      appearance. */
  function TypesInOrder(entries: seq<Entry>): seq<FileType>
  {
    if entries == [] then []
    else
      var seen := TypesInOrder(entries[..|entries| - 1]);
      var t := entries[|entries| - 1].kind;
      if t in seen then seen else seen + [t]
  }

  /** The index of the first entry of type `t`, or `|entries|`. */
  function FirstIndex(entries: seq<Entry>, t: FileType): (i: nat)
    ensures i <= |entries|
    ensures i < |entries| ==> entries[i].kind == t
    ensures forall j :: 0 <= j < i ==> entries[j].kind != t
  {
    if entries == [] then 0
    else
      var n := |entries| - 1;
      var f := FirstIndex(entries[..n], t);
      assert forall j :: 0 <= j < n ==> entries[..n][j] == entries[j];
      if f < n then f else if entries[n].kind == t then n else n + 1
  }

  /** The keys of `by_type` are the types of the entries, each once,
      ordered by first appearance; a type has files exactly when it is a
      key. */
  lemma {:induction false} TypesInOrderSpec(entries: seq<Entry>)
    ensures forall t :: t in TypesInOrder(entries) <==> FirstIndex(entries, t) < |entries|
    ensures forall t :: t in TypesInOrder(entries) <==> FilesOf(entries, t) != []
    ensures forall s, u :: 0 <= s < u < |TypesInOrder(entries)| ==>
      FirstIndex(entries, TypesInOrder(entries)[s]) < FirstIndex(entries, TypesInOrder(entries)[u])
  {
    if entries != [] {
      var n := |entries| - 1;
      var prefix := entries[..n];
      TypesInOrderSpec(prefix);
      var seen := TypesInOrder(prefix);
      var order := TypesInOrder(entries);
      forall s, u | 0 <= s < u < |order|
        ensures FirstIndex(entries, order[s]) < FirstIndex(entries, order[u])
      {
        assert order[s] == seen[s];
        if u < |seen| {
          assert order[u] == seen[u];
        }
      }
    }
  }

  lemma {:induction false} FilesOfMember(entries: seq<Entry>, i: nat)
    requires i < |entries|
    ensures entries[i].path in FilesOf(entries, entries[i].kind)
  {
    var n := |entries| - 1;
    if i < n {
      FilesOfMember(entries[..n], i);
      assert entries[..n][i] == entries[i];
    }
  }

  lemma UnseenHasNoFiles(entries: seq<Entry>, t: FileType)
    requires t !in TypesInOrder(entries)
    ensures FilesOf(entries, t) == []
  {
    TypesInOrderSpec(entries);
  }

  /** One turn of the `by_type` loop keeps the dictionary and its key
      order in step with the entries read so far. */
  lemma GroupStep(entries: seq<Entry>, e: Entry, order: seq<FileType>, byType: map<FileType, seq<string>>)
    requires Grouped(entries, order, byType)
    ensures var order' := if e.kind in byType then order else order + [e.kind];
      var byType' := byType[e.kind := (if e.kind in byType then byType[e.kind] else []) + [e.path]];
      Grouped(entries + [e], order', byType')
  {
    var next := entries + [e];
    assert next[..|entries|] == entries && next[|entries|] == e;
    if e.kind !in byType {
      UnseenHasNoFiles(entries, e.kind);
    }
    var order' := if e.kind in byType then order else order + [e.kind];
    var byType' := byType[e.kind := (if e.kind in byType then byType[e.kind] else []) + [e.path]];
    assert order' == TypesInOrder(next);
    assert forall t :: t in byType' ==> byType'[t] == FilesOf(next, t);
  }

  /** The `by_type` loop: the keys in insertion order and the dictionary. */
  method GroupByType(paths: seq<string>) returns (order: seq<FileType>, byType: map<FileType, seq<string>>)
    ensures order == TypesInOrder(Classified(paths))
    ensures forall t :: t in byType <==> t in order
    ensures forall t :: t in byType ==> byType[t] == FilesOf(Classified(paths), t)
  {
    order := [];
    byType := map[];
    var i := 0;
    assert Grouped(Classified(paths[..0]), order, byType);
    while i < |paths|
      invariant 0 <= i <= |paths|
      invariant Grouped(Classified(paths[..i]), order, byType)
    {
      var p := paths[i];
      var t := GetFileType(p);
      GroupPathStep(paths, GetFileType, i, order, byType);
      // A new key starts as `[]` and is appended to in the same update.
      var files := if t in byType then byType[t] else [];
      if t !in byType {
        order := order + [t];
      }
      byType := byType[t := files + [p]];
      i := i + 1;
    }
    assert paths[..i] == paths;
  }

  /** `order` and `byType` are the dictionary `entries` build. */
  ghost predicate Grouped(entries: seq<Entry>, order: seq<FileType>, byType: map<FileType, seq<string>>) {
    && order == TypesInOrder(entries)
    && (forall t :: t in byType <==> t in order)
    && (forall t :: t in byType ==> byType[t] == FilesOf(entries, t))
  }

  /** One turn of the grouping loop, for any classifier `kind`. */
  lemma GroupPathStep(paths: seq<string>, kind: string -> FileType, i: nat,
                      order: seq<FileType>, byType: map<FileType, seq<string>>)
    requires i < |paths|
    requires Grouped(Tagged(paths[..i], kind), order, byType)
    ensures var t := kind(paths[i]);
      var order' := if t in byType then order else order + [t];
      var byType' := byType[t := (if t in byType then byType[t] else []) + [paths[i]]];
      Grouped(Tagged(paths[..i + 1], kind), order', byType')
  {
    var e := Entry(paths[i], kind(paths[i]));
    TaggedStep(paths, kind, i);
    GroupStep(Tagged(paths[..i], kind), e, order, byType);
  }

  // ---------------------------------------------------------------------
  // format_file_list
  // ---------------------------------------------------------------------

  /** The category names in ascending string order: the order of
      `sorted(by_type.items())`. */
  const NameOrder: seq<FileType> :=
    [CCpp, Config, Data, Database, Documentation, Java, JavaScript, Other, Python, Shell, Web]

  lemma NameOrderSteps()
    ensures forall k :: 0 <= k < |NameOrder| - 1 ==> Less(TypeName(NameOrder[k]), TypeName(NameOrder[k + 1]))
  {
    assert Less("c_cpp", "config");
    assert Less("config", "data");
    assert Less("data", "database");
    assert Less("database", "documentation");
    assert Less("documentation", "java");
    assert Less("java", "javascript");
    assert Less("javascript", "other");
    assert Less("other", "python");
    assert Less("python", "shell");
    assert Less("shell", "web");
  }

  lemma {:induction false} ChainLess(s: nat, u: nat)
    requires s < u < |NameOrder|
    requires forall k :: 0 <= k < |NameOrder| - 1 ==> Less(TypeName(NameOrder[k]), TypeName(NameOrder[k + 1]))
    ensures Less(TypeName(NameOrder[s]), TypeName(NameOrder[u]))
    decreases u - s
  {
    if s + 1 < u {
      ChainLess(s + 1, u);
      LessTransitive(TypeName(NameOrder[s]), TypeName(NameOrder[s + 1]), TypeName(NameOrder[u]));
    }
  }

  lemma InNameOrder(t: FileType)
    ensures t in NameOrder
  {
    match t
    case CCpp => assert NameOrder[0] == t;
    case Config => assert NameOrder[1] == t;
    case Data => assert NameOrder[2] == t;
    case Database => assert NameOrder[3] == t;
    case Documentation => assert NameOrder[4] == t;
    case Java => assert NameOrder[5] == t;
    case JavaScript => assert NameOrder[6] == t;
    case Other => assert NameOrder[7] == t;
    case Python => assert NameOrder[8] == t;
    case Shell => assert NameOrder[9] == t;
    case Web => assert NameOrder[10] == t;
  }

  /** `NameOrder` lists every type, by strictly increasing name. */
  lemma NameOrderSorted()
    ensures forall t :: t in NameOrder
    ensures forall s, u :: 0 <= s < u < |NameOrder| ==> Less(TypeName(NameOrder[s]), TypeName(NameOrder[u]))
  {
    NameOrderSteps();
    forall t ensures t in NameOrder {
      InNameOrder(t);
    }
    forall s, u | 0 <= s < u < |NameOrder|
      ensures Less(TypeName(NameOrder[s]), TypeName(NameOrder[u]))
    {
      ChainLess(s, u);
    }
  }

  function UpperChar(c: char): char
  {
    if IsLower(c) then (c as int - 'a' as int + 'A' as int) as char else c
  }

  /** Python's `str.title()` on ASCII text: a letter is upper-cased when it
      starts the text or follows a non-letter, and lower-cased when it
      follows a letter. */
  function Title(s: string): (r: string)
    ensures |r| == |s|
  {
    seq(|s|, i requires 0 <= i < |s| =>
      if !IsLetter(s[i]) then s[i]
      else if i > 0 && IsLetter(s[i - 1]) then LowerChar(s[i])
      else UpperChar(s[i]))
  }

  /** The header line of a group. */
  function Header(t: FileType): string
  {
    if t != Other then Title(TypeName(t)) + " files:" else "Other files:"
  }

  /** The `other` branch prints what the general branch would, and
      `c_cpp` is titled at the underscore. */
  lemma HeaderExamples()
    ensures Header(Other) == Title(TypeName(Other)) + " files:"
    ensures Header(CCpp) == "C_Cpp files:"
    ensures Header(JavaScript) == "Javascript files:"
  {
    assert Title("other") == "Other";
    assert Title("c_cpp") == "C_Cpp";
    assert Title("javascript") == "Javascript";
  }

  /** `"  - " + path` for each path. */
  function Bullets(files: seq<string>): (lines: seq<string>)
    ensures |lines| == |files|
    ensures forall k :: 0 <= k < |files| ==> lines[k] == "  - " + files[k]
  {
    seq(|files|, k requires 0 <= k < |files| => "  - " + files[k])
  }

  /** The lines of one group: its header, then its files in sorted order. */
  function Section(entries: seq<Entry>, t: FileType): seq<string>
  {
    [Header(t)] + Bullets(Sort(FilesOf(entries, t)))
  }

  /** The types of `order` that have files. */
  function Present(entries: seq<Entry>, order: seq<FileType>): (present: seq<FileType>)
    ensures forall k :: 0 <= k < |present| ==> present[k] in order && FilesOf(entries, present[k]) != []
  {
    if order == [] then []
    else (if FilesOf(entries, order[0]) != [] then [order[0]] else []) + Present(entries, order[1..])
  }

  /** The sections of the given types, one after another. */
  function Sections(entries: seq<Entry>, types: seq<FileType>): seq<string>
  {
    if types == [] then [] else Section(entries, types[0]) + Sections(entries, types[1..])
  }

  /** What `format_file_list(paths)` returns. */
  function FileList(paths: seq<string>): string
  {
    if paths == [] then "No files detected"
    else
      var entries := Classified(paths);
      Join("\n", Sections(entries, Present(entries, NameOrder)))
  }

  lemma PresentStep(entries: seq<Entry>, order: seq<FileType>, k: nat)
    requires k < |order|
    ensures Sections(entries, Present(entries, order[k..])) ==
      (if FilesOf(entries, order[k]) != [] then Section(entries, order[k]) else []) + Sections(entries, Present(entries, order[k + 1..]))
  {
    assert order[k..][0] == order[k] && order[k..][1..] == order[k + 1..];
    var rest := Present(entries, order[k + 1..]);
    if FilesOf(entries, order[k]) != [] {
      assert ([order[k]] + rest)[1..] == rest;
    } else {
      assert [] + rest == rest;
    }
  }

  /** The lines `format_file_list` emits for one group. */
  method SectionLines(t: FileType, group: seq<string>) returns (lines: seq<string>)
    ensures lines == [Header(t)] + Bullets(Sort(group))
  {
    var files := Sort(group);
    var header := Header(t);
    lines := [header];
    var j := 0;
    while j < |files|
      invariant 0 <= j <= |files|
      invariant lines == [header] + Bullets(files[..j])
    {
      BulletsStep(files, j);
      assert ([header] + Bullets(files[..j])) + ["  - " + files[j]] == [header] + (Bullets(files[..j]) + ["  - " + files[j]]);
      lines := lines + ["  - " + files[j]];
      j := j + 1;
    }
    assert files[..j] == files;
  }

  lemma BulletsStep(files: seq<string>, j: nat)
    requires j < |files|
    ensures Bullets(files[..j + 1]) == Bullets(files[..j]) + ["  - " + files[j]]
  {
    var a := Bullets(files[..j + 1]);
    var b := Bullets(files[..j]) + ["  - " + files[j]];
    forall k | 0 <= k < |a| ensures a[k] == b[k] {
      assert files[..j + 1][k] == files[k];
      if k < j {
        assert files[..j][k] == files[k];
      }
    }
  }

  /** One turn of the loop of `format_file_list`: the lines of a type
      with files, or none. */
  lemma SectionsStep(entries: seq<Entry>, names: seq<FileType>, byType: map<FileType, seq<string>>, k: nat, result: seq<string>, lines: seq<string>)
    requires k < |names|
    requires forall t :: t in byType <==> FilesOf(entries, t) != []
    requires forall t :: t in byType ==> byType[t] == FilesOf(entries, t)
    requires result + Sections(entries, Present(entries, names[k..])) == Sections(entries, Present(entries, names))
    requires lines == if names[k] in byType then [Header(names[k])] + Bullets(Sort(byType[names[k]])) else []
    ensures (result + lines) + Sections(entries, Present(entries, names[k + 1..])) == Sections(entries, Present(entries, names))
  {
    PresentStep(entries, names, k);
    AppendAssoc(result, lines, Sections(entries, Present(entries, names[k + 1..])));
  }

  /** The loop of `format_file_list` over `sorted(by_type.items())`, given
      the types in ascending name order as `names`. */
  method ListSections(names: seq<FileType>, ghost entries: seq<Entry>, byType: map<FileType, seq<string>>) returns (result: seq<string>)
    requires forall t :: t in byType <==> FilesOf(entries, t) != []
    requires forall t :: t in byType ==> byType[t] == FilesOf(entries, t)
    ensures result == Sections(entries, Present(entries, names))
  {
    result := [];
    var k := 0;
    assert names[0..] == names;
    AppendEmpty(Sections(entries, Present(entries, names)));
    while k < |names|
      invariant 0 <= k <= |names|
      invariant result + Sections(entries, Present(entries, names[k..])) == Sections(entries, Present(entries, names))
    {
      var t := names[k];
      var lines: seq<string> := [];
      if t in byType {
        lines := SectionLines(t, byType[t]);
      }
      SectionsStep(entries, names, byType, k, result, lines);
      result := result + lines;
      k := k + 1;
    }
    assert names[k..] == [];
    AppendEmpty(result);
  }

  // The two sequence identities below, as lemmas: a call hands the
  // section proofs one fact instead of making the solver rediscover
  // sequence equality in their large context.

  lemma AppendEmpty(a: seq<string>)
    ensures [] + a == a && a + [] == a
  {
  }

  lemma AppendAssoc(a: seq<string>, b: seq<string>, c: seq<string>)
    ensures (a + b) + c == a + (b + c)
  {
  }

  /** `format_file_list`: group by type, then emit each group under its
      header in ascending name order. */
  method FormatFileList(paths: seq<string>) returns (listing: string)
    ensures listing == FileList(paths)
  {
    if paths == [] {
      return "No files detected";
    }
    var order, byType := GroupByType(paths);
    TypesInOrderSpec(Classified(paths));
    var lines := ListSections(NameOrder, Classified(paths), byType);
    listing := Join("\n", lines);
  }

  lemma BulletsHold(header: string, files: seq<string>, p: string)
    requires p in files
    ensures "  - " + p in [header] + Bullets(files)
  {
    var k :| 0 <= k < |files| && files[k] == p;
    assert ([header] + Bullets(files))[k + 1] == "  - " + p;
  }

  lemma SectionHoldsPath(entries: seq<Entry>, p: string, t: FileType)
    requires p in FilesOf(entries, t)
    ensures "  - " + p in Section(entries, t)
  {
    SortLengthAndMembers(FilesOf(entries, t));
    BulletsHold(Header(t), Sort(FilesOf(entries, t)), p);
  }

  lemma {:induction false} SectionsHoldPath(entries: seq<Entry>, types: seq<FileType>, p: string, t: FileType)
    requires t in types && p in FilesOf(entries, t)
    ensures "  - " + p in Sections(entries, types)
  {
    var here := Section(entries, types[0]);
    assert Sections(entries, types) == here + Sections(entries, types[1..]);
    if types[0] == t {
      SectionHoldsPath(entries, p, t);
    } else {
      assert t in types[1..];
      SectionsHoldPath(entries, types[1..], p, t);
    }
  }

  lemma {:induction false} PresentMember(entries: seq<Entry>, order: seq<FileType>, t: FileType)
    requires t in order && FilesOf(entries, t) != []
    ensures t in Present(entries, order)
  {
    if order[0] != t {
      assert t in order[1..];
      PresentMember(entries, order[1..], t);
    }
  }

  /** `Present` keeps a subsequence of `order`: the positions it keeps
      increase. */
  lemma {:induction false} PresentIndices(entries: seq<Entry>, order: seq<FileType>) returns (idx: seq<nat>)
    ensures var present := Present(entries, order);
      && |idx| == |present|
      && (forall k :: 0 <= k < |idx| ==> idx[k] < |order| && present[k] == order[idx[k]])
      && (forall s, u :: 0 <= s < u < |idx| ==> idx[s] < idx[u])
  {
    if order == [] {
      idx := [];
    } else {
      var rest := PresentIndices(entries, order[1..]);
      var shifted := seq(|rest|, k requires 0 <= k < |rest| => rest[k] + 1);
      if FilesOf(entries, order[0]) != [] {
        idx := [0] + shifted;
      } else {
        idx := shifted;
      }
    }
  }

  /** A non-empty listing is the sections of the present types, in
      strictly ascending order of type name (`other` among them, not last);
      each section is its header and its files sorted; and every input path
      is listed as a bullet line. */
  lemma FileListSpec(paths: seq<string>)
    ensures paths == [] ==> FileList(paths) == "No files detected"
    ensures var entries := Classified(paths);
      var present := Present(entries, NameOrder);
      && (paths != [] ==> FileList(paths) == Join("\n", Sections(entries, present)))
      && (forall s, u :: 0 <= s < u < |present| ==> Less(TypeName(present[s]), TypeName(present[u])))
      && (forall t :: t in present <==> FilesOf(entries, t) != [])
      && (forall t :: Sorted(Sort(FilesOf(entries, t))) && multiset(Sort(FilesOf(entries, t))) == multiset(FilesOf(entries, t)))
      && (forall p :: p in paths ==> "  - " + p in Sections(entries, present))
  {
    var entries := Classified(paths);
    var present := Present(entries, NameOrder);
    NameOrderSorted();
    var idx := PresentIndices(entries, NameOrder);
    forall s, u | 0 <= s < u < |present| ensures Less(TypeName(present[s]), TypeName(present[u])) {
      assert present[s] == NameOrder[idx[s]] && present[u] == NameOrder[idx[u]];
    }
    forall t ensures t in present <==> FilesOf(entries, t) != [] {
      if FilesOf(entries, t) != [] {
        PresentMember(entries, NameOrder, t);
      }
    }
    forall t ensures Sorted(Sort(FilesOf(entries, t))) {
      SortSorted(FilesOf(entries, t));
    }
    forall p | p in paths ensures "  - " + p in Sections(entries, present) {
      var i :| 0 <= i < |paths| && paths[i] == p;
      FilesOfMember(entries, i);
      var t := entries[i].kind;
      PresentMember(entries, NameOrder, t);
      SectionsHoldPath(entries, present, p, t);
    }
  }

  // ---------------------------------------------------------------------
  // create_continuation_steps
  // ---------------------------------------------------------------------

  /** The step for one group of files. */
  function StepFor(t: FileType, files: seq<string>): string
  {
    var listed := Join(", ", files);
    match t
    case Python => "Review and update Python files: " + listed
    case JavaScript => "Check JavaScript/TypeScript files: " + listed
    case Web => "Update web files: " + listed
    case Documentation => "Update documentation: " + listed
    case Config => "Review configuration files: " + listed
    case _ => "Review " + TypeName(t) + " files: " + listed
  }

  /** The three steps appended after the per-type steps. */
  const GeneralSteps: seq<string> := [
    "Paste this summary into your next agent to provide context",
    "If the next agent supports file uploads, attach the mentioned files",
    "Reference this summary when making changes to maintain consistency"
  ]

  /** One step per type, in the given order. */
  function TypeSteps(entries: seq<Entry>, order: seq<FileType>): (steps: seq<string>)
    ensures |steps| == |order|
    ensures forall k :: 0 <= k < |order| ==> steps[k] == StepFor(order[k], FilesOf(entries, order[k]))
  {
    seq(|order|, k requires 0 <= k < |order| => StepFor(order[k], FilesOf(entries, order[k])))
  }

  lemma TypeStepsSnoc(entries: seq<Entry>, order: seq<FileType>, k: nat)
    requires k < |order|
    ensures TypeSteps(entries, order[..k + 1])
         == TypeSteps(entries, order[..k]) + [StepFor(order[k], FilesOf(entries, order[k]))]
  {
  }

  /** What `create_continuation_steps(paths)` returns. */
  function ContinuationSteps(paths: seq<string>): seq<string>
  {
    if paths == [] then []
    else
      var entries := Classified(paths);
      TypeSteps(entries, TypesInOrder(entries)) + GeneralSteps
  }

  /** `create_continuation_steps`: group by type, one step per group in
      insertion order, then the general steps. */
  method CreateContinuationSteps(paths: seq<string>) returns (steps: seq<string>)
    ensures steps == ContinuationSteps(paths)
  {
    if paths == [] {
      return [];
    }
    ghost var entries := Classified(paths);
    var order, byType := GroupByType(paths);
    steps := [];
    var k := 0;
    while k < |order|
      invariant 0 <= k <= |order|
      invariant steps == TypeSteps(entries, order[..k])
    {
      var t := order[k];
      TypeStepsSnoc(entries, order, k);
      assert byType[t] == FilesOf(entries, t);
      steps := steps + [StepFor(t, byType[t])];
      k := k + 1;
    }
    assert order[..k] == order;
    steps := steps + GeneralSteps;
  }

  /** No paths, no steps; otherwise one step per key of `by_type`, in key
      order, each naming that type's files, followed by exactly the three
      general steps. */
  lemma ContinuationStepsSpec(paths: seq<string>)
    ensures paths == [] ==> ContinuationSteps(paths) == []
    ensures paths != [] ==> var entries := Classified(paths); var order := TypesInOrder(entries);
      && |ContinuationSteps(paths)| == |order| + 3
      && ContinuationSteps(paths)[|order|..] == GeneralSteps
      && (forall k :: 0 <= k < |order| ==> ContinuationSteps(paths)[k] == StepFor(order[k], FilesOf(entries, order[k])))
  {
  }

  /** The keys of `by_type` cover the type of every path, and each key is
      the type of the first path of that type, keys ordered by those first
      paths. */
  lemma GroupOrderSpec(paths: seq<string>)
    ensures var entries := Classified(paths); var order := TypesInOrder(entries);
      && (forall p :: p in paths ==> GetFileType(p) in order)
      && (forall s :: 0 <= s < |order| ==> FirstIndex(entries, order[s]) < |paths| && GetFileType(paths[FirstIndex(entries, order[s])]) == order[s])
      && (forall s, u :: 0 <= s < u < |order| ==> FirstIndex(entries, order[s]) < FirstIndex(entries, order[u]))
  {
    var entries := Classified(paths);
    TypesInOrderSpec(entries);
    forall p | p in paths ensures GetFileType(p) in TypesInOrder(entries) {
      var i :| 0 <= i < |paths| && paths[i] == p;
      assert entries[i] == Entry(p, GetFileType(p));
      FilesOfMember(entries, i);
    }
  }
}
