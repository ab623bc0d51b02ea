/**
 * Checkouts, and which of their files the graph indexes (backend/app/graph/languages.py:72-74,
 * backend/app/graph/ingest.py:994-1100).
 */
module SourceTree {
  import opened Wrappers
  import opened CodeGraph

  /** A file is the sequence of its bytes. */
  type Text = string
  type Tree = map<Path, Text>

  datatype Language = Python | Go | TypeScript | JavaScript

  // ---- Paths ----

  function LastIndexOf(s: string, c: char): (i: int)
    ensures -1 <= i < |s| && (i >= 0 ==> s[i] == c)
    ensures forall j :: i < j < |s| ==> s[j] != c
  {
    if s == "" then -1
    else if s[|s| - 1] == c then |s| - 1
    else LastIndexOf(s[..|s| - 1], c)
  }

  function BaseName(path: Path): string {
    path[LastIndexOf(path, '/') + 1..]
  }

  /** The directory, which for Go is the package; "." at the root. */
  function PackageKey(path: Path): string {
    var i := LastIndexOf(path, '/');
    if i <= 0 then "." else path[..i]
  }

  /** `Path.suffix`: from the last dot, unless that is the first or the last character. */
  function Suffix(path: Path): string {
    var name := BaseName(path);
    var i := LastIndexOf(name, '.');
    if 0 < i < |name| - 1 then name[i..] else ""
  }

  function LowerChar(c: char): char {
    if 'A' <= c <= 'Z' then c + 32 as char else c
  }

  function Lower(s: string): string {
    seq(|s|, i requires 0 <= i < |s| => LowerChar(s[i]))
  }

  function DetectLanguage(path: Path): Option<Language> {
    var suffix := Lower(Suffix(path));
    if suffix in {".py", ".pyi"} then Some(Python)
    else if suffix == ".go" then Some(Go)
    else if suffix in {".ts", ".tsx", ".mts", ".cts"} then Some(TypeScript)
    else if suffix in {".js", ".jsx", ".mjs", ".cjs"} then Some(JavaScript)
    else None
  }

  predicate IsGo(path: Path) {
    DetectLanguage(path) == Some(Go)
  }

  predicate IsJsTs(path: Path) {
    DetectLanguage(path) == Some(TypeScript) || DetectLanguage(path) == Some(JavaScript)
  }

  predicate IsPython(path: Path) {
    DetectLanguage(path) == Some(Python)
  }

  // ---- What the parts of a path are ----

  lemma LastIndexFrom(s: string, c: char, i: int)
    requires -1 <= i < |s| && (i >= 0 ==> s[i] == c) && forall k :: i < k < |s| ==> s[k] != c
    ensures LastIndexOf(s, c) == i
  {
    hide LastIndexOf;
  }

  /** The last `c` of a text is where the part begins that has none. */
  lemma LastIndexIs(head: string, c: char, tail: string)
    requires c !in tail && (head == "" || head[|head| - 1] == c)
    ensures LastIndexOf(head + tail, c) == |head| - 1
  {
    var s := head + tail;
    forall k | |head| - 1 < k < |s|
      ensures s[k] != c
    {
      assert s[k] == tail[k - |head|];
    }
    LastIndexFrom(s, c, |head| - 1);
  }

  lemma SuffixAfterStem(dir: string, stem: string, ext: string)
    requires dir == "" || dir[|dir| - 1] == '/'
    requires '/' !in stem + ext && stem != "" && |ext| > 1 && ext[0] == '.' && '.' !in ext[1..]
    ensures Suffix(dir + stem + ext) == ext
  {
    hide LastIndexOf;
    var path, name := dir + stem + ext, stem + ext;
    assert path == dir + name && path[|dir|..] == name;
    LastIndexIs(dir, '/', name);
    assert name == (stem + ".") + ext[1..];
    LastIndexIs(stem + ".", '.', ext[1..]);
  }

  /** A name alone: no directory. */
  lemma PlainName(name: string)
    requires '/' !in name
    ensures BaseName(name) == name && PackageKey(name) == "."
  {
    hide LastIndexOf;
    var head: string := "";
    assert head + name == name;
    LastIndexIs(head, '/', name);
  }

  /** A name in a directory. */
  lemma NameInDirectory(dir: string, name: string)
    requires '/' !in name && dir != ""
    ensures BaseName(dir + "/" + name) == name && PackageKey(dir + "/" + name) == dir
  {
    var head := dir + "/";
    LastIndexIs(head, '/', name);
    CutAt(head, name);
    assert head[..|dir|] == dir;
  }

  lemma CutAt(head: string, name: string)
    requires head != ""
    ensures (head + name)[|head|..] == name && (head + name)[..|head| - 1] == head[..|head| - 1]
  {
  }

  /** A dot at the start or at the end of a name begins no suffix. */
  lemma NoSuffix(dir: string, name: string)
    requires dir == "" || dir[|dir| - 1] == '/'
    requires '/' !in name && name != "" && ('.' !in name[1..] || name[|name| - 1] == '.')
    ensures Suffix(dir + name) == ""
  {
    hide LastIndexOf;
    var path := dir + name;
    assert path[|dir|..] == name;
    LastIndexIs(dir, '/', name);
    assert name == [name[0]] + name[1..] && "" + name == name && name + "" == name;
    if name[|name| - 1] == '.' {
      LastIndexIs(name, '.', "");
    } else if name[0] == '.' {
      LastIndexIs([name[0]], '.', name[1..]);
    } else {
      LastIndexIs("", '.', name);
    }
  }

  lemma LowerLetters()
    ensures Lower("AZaz@[") == "azaz@["
    ensures forall s :: |Lower(s)| == |s|
  {
  }

  /** The language goes by the suffix, in whatever case it is written. */
  lemma LanguageBySuffix(dir: string, stem: string, ext: string)
    requires dir == "" || dir[|dir| - 1] == '/'
    requires '/' !in stem + ext && stem != "" && |ext| > 1 && ext[0] == '.' && '.' !in ext[1..]
    ensures var found := DetectLanguage(dir + stem + ext);
            && (found == Some(Python) <==> Lower(ext) == ".py" || Lower(ext) == ".pyi")
            && (found == Some(Go) <==> Lower(ext) == ".go")
            && (found == Some(TypeScript) <==> Lower(ext) in {".ts", ".tsx", ".mts", ".cts"})
            && (found == Some(JavaScript) <==> Lower(ext) in {".js", ".jsx", ".mjs", ".cjs"})
  {
    hide Suffix, Lower;
    SuffixAfterStem(dir, stem, ext);
  }

  // ---- Generated and vendored JavaScript ----

  const SKIP_DIR_NAMES := {"node_modules", "dist", "build", ".next", ".nuxt", ".output", ".turbo", "coverage"}
  const MIN_SUFFIXES := {".min.js", ".min.mjs", ".min.cjs"}
  const MAX_FILE_BYTES := 1_048_576

  /** The directories on the way to a file. */
  function Directories(path: Path): set<string>
    decreases |path|
  {
    var i := LastIndexOf(path, '/');
    if i < 0 then {} else {BaseName(path[..i])} + Directories(path[..i])
  }

  /** From `b` to `e` the path has a segment, and it is not the last. */
  ghost predicate SegmentAt(path: Path, b: int, e: int) {
    && 0 <= b <= e < |path| && path[e] == '/' && (forall j :: b <= j < e ==> path[j] != '/')
    && (b == 0 || path[b - 1] == '/')
  }

  lemma SubRange(path: Path, i: nat, b: nat, e: nat)
    requires b <= e <= i <= |path|
    ensures path[..i][b..e] == path[b..e]
  {
  }

  /** The directories on the way are the segments but the last. */
  lemma {:induction false} DirectoriesAre(path: Path, d: string)
    ensures d in Directories(path) <==> exists b, e :: SegmentAt(path, b, e) && path[b..e] == d
    decreases |path|
  {
    hide BaseName;
    var i := LastIndexOf(path, '/');
    if i >= 0 {
      DirectoriesAre(path[..i], d);
      var b := LastSegment(path, i);
      forall b, e | SegmentAt(path[..i], b, e)
        ensures SegmentAt(path, b, e) && path[b..e] == path[..i][b..e]
      {
        SubRange(path, i, b, e);
      }
      forall b', e | SegmentAt(path, b', e)
        ensures (e == i && b' == b) || (SegmentAt(path[..i], b', e) && path[b'..e] == path[..i][b'..e])
      {
        OtherSegment(path, i, b, b', e);
      }
    }
  }

  lemma LastSegment(path: Path, i: nat) returns (b: nat)
    requires i < |path| && path[i] == '/'
    ensures SegmentAt(path, b, i) && BaseName(path[..i]) == path[b..i]
  {
    hide LastIndexOf;
    b := LastIndexOf(path[..i], '/') + 1;
    SubRange(path, i, b, i);
    assert path[..i][b..] == path[..i][b..i];
    assert forall j :: b <= j < i ==> path[..i][j] == path[j];
    assert b > 0 ==> path[..i][b - 1] == path[b - 1];
  }

  lemma OtherSegment(path: Path, i: nat, b: nat, b': int, e: int)
    requires i < |path| && i == LastIndexOf(path, '/') && SegmentAt(path, b, i) && SegmentAt(path, b', e)
    ensures (e == i && b' == b) || (SegmentAt(path[..i], b', e) && path[b'..e] == path[..i][b'..e])
  {
    hide LastIndexOf;
    if e != i {
      SubRange(path, i, b', e);
    }
  }

  predicate IsJsTsNoise(path: Path) {
    || Directories(path) * SKIP_DIR_NAMES != {}
    || exists m :: m in MIN_SUFFIXES && EndsWith(Lower(BaseName(path)), m)
  }

  /** A JS or TS file is noise for one of its directories, or as a minified file. */
  lemma NoiseMeans(path: Path)
    ensures IsJsTsNoise(path)
            <==> (exists b, e :: SegmentAt(path, b, e) && path[b..e] in SKIP_DIR_NAMES)
                 || EndsWith(Lower(BaseName(path)), ".min.js") || EndsWith(Lower(BaseName(path)), ".min.mjs")
                 || EndsWith(Lower(BaseName(path)), ".min.cjs")
  {
    hide Lower, BaseName, EndsWith;
    if IsJsTsNoise(path) && Directories(path) * SKIP_DIR_NAMES != {} {
      var d :| d in Directories(path) && d in SKIP_DIR_NAMES;
      DirectoriesAre(path, d);
    }
    if b, e :| SegmentAt(path, b, e) && path[b..e] in SKIP_DIR_NAMES {
      DirectoriesAre(path, path[b..e]);
      assert path[b..e] in Directories(path) * SKIP_DIR_NAMES;
    }
  }

  // ---- The exact index of a tree ----

  datatype Entry = Entry(hash: string, stamp: Option<string>)

  /** Path to content hash and extractor stamp, as the module rows record them. */
  type Index = map<Path, Entry>

  /** What an ingest run is given: the Go files its build profile selects, the hash, the current stamps. */
  datatype Settings = Settings(selects: (Path, Text) -> bool, hash: Text -> string, stamp: Path -> Option<string>)

  predicate Indexed(w: Settings, path: Path, text: Text) {
    match DetectLanguage(path)
    case None => false
    case Some(Go) => w.selects(path, text)
    case Some(Python) => true
    case Some(_) => !IsJsTsNoise(path) && |text| <= MAX_FILE_BYTES
  }

  function EntryOf(w: Settings, path: Path, text: Text): Entry {
    Entry(w.hash(text), w.stamp(path))
  }

  function Present(w: Settings, tree: Tree): set<Path> {
    set p | p in tree && Indexed(w, p, tree[p])
  }

  function IndexOf(w: Settings, tree: Tree): Index {
    map p | p in Present(w, tree) :: EntryOf(w, p, tree[p])
  }
}
