/** Naming and path derivation (pkg/markdown/utils.go): slugs, file names,
    output sub-directories, and the split of a location at its anchor. */
module Naming {
  import opened Strings
  import opened FilePaths

  // ---------------------------------------------------------------------------
  // Slugify

  /** A character regexp `\w` accepts other than '_': an ASCII letter or digit. */
  predicate IsAlnum(c: char) {
    ('a' <= c <= 'z') || ('A' <= c <= 'Z') || ('0' <= c <= '9')
  }

  /** The letters and digits of `s`, in order. */
  function Alnums(s: string): (r: string)
    ensures |r| <= |s|
  {
    if s == [] then []
    else if IsAlnum(s[0]) then [s[0]] + Alnums(s[1..])
    else Alnums(s[1..])
  }

  /** `s` without its leading run of characters that are not letters or digits. */
  function SkipRun(s: string): (r: string)
    ensures |r| <= |s|
    ensures r == [] || IsAlnum(r[0])
    ensures Alnums(r) == Alnums(s)
  {
    if s != [] && !IsAlnum(s[0]) then SkipRun(s[1..]) else s
  }

  /** The slug alphabet: letters, digits and '-'. */
  predicate SlugChars(s: string) {
    forall i :: 0 <= i < |s| ==> IsAlnum(s[i]) || s[i] == '-'
  }

  /** No two adjacent '-'. */
  predicate NoDoubleDash(s: string) {
    forall i :: 0 <= i < |s| - 1 ==> !(s[i] == '-' && s[i + 1] == '-')
  }

  /** `regexp.MustCompile("(\W|_)+").ReplaceAllString(s, "-")`: every maximal run of
      characters other than ASCII letters and digits becomes a single '-'. */
  function Collapse(s: string): (r: string)
    ensures SlugChars(r)
    ensures NoDoubleDash(r)
    ensures r != [] && r[0] == '-' ==> |r| == 1 || IsAlnum(r[1])
    ensures Alnums(r) == Alnums(s)
    ensures r == [] <==> s == []
    decreases |s|
  {
    if s == [] then []
    else if IsAlnum(s[0]) then
      var rest := Collapse(s[1..]);
      assert Alnums([s[0]] + rest) == [s[0]] + Alnums(rest);
      [s[0]] + rest
    else
      var rest := Collapse(SkipRun(s));
      assert SkipRun(s) == SkipRun(s[1..]);
      assert Alnums(['-'] + rest) == Alnums(rest);
      ['-'] + rest
  }

  /** What `Slugify` does after `strcase.ToKebab`: collapse the runs, then
      `strings.Trim(slug, "-")`. */
  function Tidy(k: string): (r: string)
    ensures SlugChars(r)
    ensures NoDoubleDash(r)
    ensures r == [] || (r[0] != '-' && r[|r| - 1] != '-')
    ensures Alnums(r) == Alnums(k)
    ensures r == [] <==> Alnums(k) == []
  {
    var c := Collapse(k);
    TrimDashes(c);
    TrimRight(TrimLeft(c, '-'), '-')
  }

  /** Trimming the dashes at both ends keeps a collapsed slug's shape and letters. */
  lemma TrimDashes(c: string)
    requires SlugChars(c) && NoDoubleDash(c)
    ensures var r := TrimRight(TrimLeft(c, '-'), '-');
            SlugChars(r) && NoDoubleDash(r) && Alnums(r) == Alnums(c)
  {
    var l := TrimLeft(c, '-');
    var r := TrimRight(l, '-');
    SuffixKeepsShape(c, l);
    PrefixKeepsShape(l, r);
    TrimLeftAlnums(c, l);
    TrimRightAlnums(l, r);
  }

  lemma TrimLeftAlnums(c: string, l: string)
    requires l == TrimLeft(c, '-')
    ensures Alnums(l) == Alnums(c)
  {
    assert c[|c| - |l|..] == l;
    DashesOnly(c, |c| - |l|);
  }

  lemma TrimRightAlnums(l: string, r: string)
    requires r == TrimRight(l, '-')
    ensures Alnums(r) == Alnums(l)
  {
    assert l[..|r|] == r;
    DashesOnlyTail(l, |r|);
  }

  /** A slug: the shape every result of `Slugify` has. */
  predicate IsSlug(s: string) {
    SlugChars(s) && NoDoubleDash(s) && (s == [] || (s[0] != '-' && s[|s| - 1] != '-'))
  }

  /** `Slugify`; `kebab` stands for `strcase.ToKebab`, whose result the model does not fix. */
  function Slugify(kebab: string -> string, s: string): (r: string)
    ensures IsSlug(r)
    ensures Alnums(r) == Alnums(kebab(s))
  {
    Tidy(kebab(s))
  }

  lemma SuffixKeepsShape(c: string, l: string)
    requires SlugChars(c) && NoDoubleDash(c)
    requires IsSuffix(l, c)
    ensures SlugChars(l) && NoDoubleDash(l)
  {
    var d := |c| - |l|;
    assert forall i :: 0 <= i < |l| ==> l[i] == c[d + i];
  }

  lemma PrefixKeepsShape(l: string, r: string)
    requires SlugChars(l) && NoDoubleDash(l)
    requires r <= l
    ensures SlugChars(r) && NoDoubleDash(r)
  {
    assert forall i :: 0 <= i < |r| ==> r[i] == l[i];
  }

  /** Dropping only dashes from the front keeps the letters and digits. */
  lemma {:induction false} DashesOnly(c: string, d: nat)
    requires d <= |c|
    requires forall k :: 0 <= k < d ==> c[k] == '-'
    ensures Alnums(c[d..]) == Alnums(c)
    decreases d
  {
    if d > 0 {
      assert c[0] == '-';
      assert c[1..][d - 1..] == c[d..];
      DashesOnly(c[1..], d - 1);
    }
  }

  /** Dropping only dashes from the back keeps the letters and digits. */
  lemma {:induction false} DashesOnlyTail(l: string, n: nat)
    requires n <= |l|
    requires forall k :: n <= k < |l| ==> l[k] == '-'
    ensures Alnums(l[..n]) == Alnums(l)
    decreases |l| - n
  {
    if n < |l| {
      var m := |l| - 1;
      assert l == l[..m] + [l[m]];
      assert l[m] == '-' && !IsAlnum(l[m]);
      AlnumsSnoc(l[..m], l[m]);
      assert Alnums(l) == Alnums(l[..m]);
      assert l[..m][..n] == l[..n];
      DashesOnlyTail(l[..m], n);
    } else {
      assert l[..n] == l;
    }
  }

  lemma {:induction false} AlnumsSnoc(s: string, c: char)
    ensures Alnums(s + [c]) == Alnums(s) + (if IsAlnum(c) then [c] else [])
  {
    if s != [] {
      assert (s + [c])[1..] == s[1..] + [c];
      AlnumsSnoc(s[1..], c);
    } else {
      assert s + [c] == [c];
    }
  }

  /** On a slug, collapsing the runs changes nothing. */
  lemma {:induction false} CollapseSlug(s: string)
    requires SlugChars(s) && NoDoubleDash(s)
    requires s == [] || s[0] != '-' || |s| == 1 || IsAlnum(s[1])
    ensures Collapse(s) == s
  {
    if s != [] {
      var t := s[1..];
      assert SlugChars(t) && NoDoubleDash(t) by {
        assert forall i :: 0 <= i < |t| ==> t[i] == s[i + 1];
      }
      if IsAlnum(s[0]) {
        CollapseSlug(t);
      } else {
        assert s[0] == '-';
        assert SkipRun(s) == SkipRun(t);
        assert t == [] || IsAlnum(t[0]);
        assert SkipRun(t) == t;
        CollapseSlug(t);
      }
    }
  }

  /** Slugifying a slug again changes nothing. */
  lemma TidyIdempotent(k: string)
    ensures Tidy(Tidy(k)) == Tidy(k)
  {
    var s := Tidy(k);
    CollapseSlug(s);
  }

  // ---------------------------------------------------------------------------
  // Locations and anchors

  /** `TrimAnchorPath`: the location before its first '#'. */
  function TrimAnchorPath(path: string): (r: string)
    ensures '#' !in r
    ensures '#' !in path ==> r == path
    ensures r <= path
  {
    var i := IndexOf(path, '#');
    if i < 0 then path else path[..i]
  }

  /** `AnchorPath`: the location after its first '#', or "" without one. */
  function AnchorPath(path: string): (r: string)
    ensures '#' !in path ==> r == ""
    ensures '#' in path ==> TrimAnchorPath(path) + "#" + r == path
  {
    var i := IndexOf(path, '#');
    if i < 0 then ""
    else
      assert path == path[..i] + "#" + path[i + 1..];
      path[i + 1..]
  }

  /** The two halves of a location put back together give the location. */
  lemma AnchorRoundTrip(path: string, file: string, anchor: string)
    requires '#' !in file
    requires path == file + "#" + anchor
    ensures TrimAnchorPath(path) == file && AnchorPath(path) == anchor
  {
    var i := IndexOf(path, '#');
    assert path[|file|] == '#';
    assert path[..|file|] == file;
    assert i == |file|;
    assert path[i + 1..] == anchor;
  }

  /** `FilenameWithoutExt`: `filepath.Base` with the `filepath.Ext` of the whole path trimmed. */
  function FilenameWithoutExt(path: string): (r: string)
    ensures '/' in r ==> r == "/"
  {
    TrimSuffix(Base(path), Ext(path))
  }

  /** For a path that is not all slashes, the stem followed by the extension is the
      base name; after a trailing '/' there is no extension and the stem is the base. */
  lemma StemThenExt(path: string)
    requires TrimRight(path, '/') != ""
    ensures FilenameWithoutExt(path) + Ext(path) == Base(path)
    ensures '/' !in FilenameWithoutExt(path)
  {
    if path[|path| - 1] != '/' {
      NameStem(path);
    } else {
      TrailingSlashStem(path);
    }
  }

  lemma NameStem(path: string)
    requires path != [] && path[|path| - 1] != '/'
    ensures FilenameWithoutExt(path) + Ext(path) == Base(path)
    ensures '/' !in FilenameWithoutExt(path)
  {
    BaseNoTrailingSlash(path);
    SuffixWithinLastElem(path, Ext(path));
    StemOfName(Base(path), Ext(path));
  }

  lemma TrailingSlashStem(path: string)
    requires TrimRight(path, '/') != "" && path[|path| - 1] == '/'
    ensures Ext(path) == ""
    ensures FilenameWithoutExt(path) == Base(path) && '/' !in Base(path)
  {
    var t := TrimRight(path, '/');
    var i := LastIndexOf(t, '/');
    assert Base(path) == t[i + 1..];
  }

  /** The cases of the repository's `FilenameWithoutExt` test, and the directory
      "test/" that its `FileName` test falls back on. */
  lemma FilenameWithoutExtFixtures()
    ensures FilenameWithoutExt("test/ref.schema.json#") == "ref.schema"
    ensures FilenameWithoutExt("/sample/file.ext") == "file"
    ensures FilenameWithoutExt("test/") == "test"
  {
    SchemaStem("test/ref.schema.json#");
    FileStem("/sample/file.ext");
    TestDirStem("test/");
  }

  lemma SchemaStem(p: string)
    requires p == "test/ref.schema.json#"
    ensures FilenameWithoutExt(p) == "ref.schema"
  {
    StemFixture(p, "ref.schema.json#", ".json#", "ref.schema");
  }

  lemma FileStem(p: string)
    requires p == "/sample/file.ext"
    ensures FilenameWithoutExt(p) == "file"
  {
    StemFixture(p, "file.ext", ".ext", "file");
  }

  /** A path ending in "/" + `b`, where `b` is `stem` followed by the extension `e`. */
  lemma StemFixture(path: string, b: string, e: string, stem: string)
    requires '/' !in b && b != "" && IsSuffix("/" + b, path)
    requires b == stem + e && e != "" && e[0] == '.' && '.' !in e[1..]
    ensures FilenameWithoutExt(path) == stem
  {
    BaseAfterSlash(path, b);
    assert IsSuffix(e, path) by {
      assert path[|path| - |e|..] == b[|b| - |e|..];
    }
    ExtIsLastDot(path, e);
    assert b[..|b| - |e|] == stem;
  }

  /** The base name is what follows the last '/'. */
  lemma BaseAfterSlash(path: string, b: string)
    requires '/' !in b && b != "" && IsSuffix("/" + b, path)
    ensures Base(path) == b
  {
    var n := |path| - |b| - 1;
    assert path[n] == '/';
    assert path[n + 1..] == b;
    assert TrimRight(path, '/') == path by {
      assert path[|path| - 1] == b[|b| - 1];
    }
  }

  /** A suffix that starts with the only '.' and holds no '/' is `filepath.Ext`. */
  lemma {:induction false} ExtIsLastDot(s: string, e: string)
    requires e != "" && e[0] == '.' && '.' !in e[1..] && '/' !in e && IsSuffix(e, s)
    ensures Ext(s) == e
    decreases |e|
  {
    var last := s[|s| - 1];
    assert last == e[|e| - 1];
    if |e| > 1 {
      var e' := e[..|e| - 1];
      assert e'[1..] == e[1..|e| - 1];
      assert last in e[1..];
      assert s[..|s| - 1][|s| - 1 - |e'|..] == e';
      ExtIsLastDot(s[..|s| - 1], e');
      assert e' + [last] == e;
    }
  }

  lemma TestDirStem(p: string)
    requires p == "test/"
    ensures FilenameWithoutExt(p) == "test"
  {
    assert TrimRight(p, '/') == "test";
    assert LastIndexOf("test", '/') == -1;
    assert Base(p) == "test";
  }

  lemma StemOfName(b: string, e: string)
    requires IsSuffix(e, b) && '/' !in b
    ensures TrimSuffix(b, e) + e == b
    ensures '/' !in TrimSuffix(b, e)
  {
    var r := TrimSuffix(b, e);
    assert forall k :: 0 <= k < |r| ==> r[k] == b[k];
  }

  lemma SuffixWithinLastElem(path: string, e: string)
    requires e == "" || (IsSuffix(e, path) && '/' !in e)
    ensures IsSuffix(e, path[LastIndexOf(path, '/') + 1..])
  {
    var i := LastIndexOf(path, '/');
    if e == "" {
    } else if i >= 0 {
      ExtWithinBase(path, e, i);
    } else {
      SuffixNoSlash(path, e);
    }
  }

  lemma SuffixNoSlash(path: string, e: string)
    requires '/' !in path
    requires IsSuffix(e, path)
    ensures IsSuffix(e, path[LastIndexOf(path, '/') + 1..])
  {
    assert path[0..] == path;
  }

  lemma BaseNoTrailingSlash(path: string)
    requires path != [] && path[|path| - 1] != '/'
    ensures Base(path) == path[LastIndexOf(path, '/') + 1..]
    ensures '/' !in Base(path)
    ensures '/' !in path ==> Base(path) == path
  {
    assert TrimRight(path, '/') == path;
    if '/' !in path {
      assert path[0..] == path;
    }
  }

  lemma ExtWithinBase(path: string, e: string, i: int)
    requires 0 <= i < |path| && path[i] == '/'
    requires e != "" && IsSuffix(e, path) && '/' !in e
    ensures IsSuffix(e, path[i + 1..])
  {
    var b := path[i + 1..];
    assert b[|b| - |e|..] == path[|path| - |e|..];
  }

  /** `IsInternalRef`: `ref` points into the document `location`. */
  function IsInternalRef(location: string, ref: string): (r: bool)
    ensures r ==> '#' !in location && location <= ref
    ensures '#' !in location && ref == location ==> r
  {
    location == TrimAnchorPath(ref)
  }

  /** A reference is internal exactly when it is the location itself or the location
      followed by an anchor. */
  lemma InternalRefMeaning(location: string, ref: string)
    ensures IsInternalRef(location, ref) <==>
      '#' !in location && (ref == location || location + "#" <= ref)
  {
    if '#' !in location && location + "#" <= ref {
      AnchorRoundTrip(ref, location, ref[|location| + 1..]);
      assert ref == location + "#" + ref[|location| + 1..];
    }
    if IsInternalRef(location, ref) && '#' in ref {
      assert ref == location + "#" + AnchorPath(ref);
    }
  }

  /** A line of `s` starts with "http://" or "https://". */
  predicate StartsRemote(s: string) {
    "http://" <= s || "https://" <= s
  }

  /** Position `k` starts a line: regexp `^` under the `(?m)` flag. */
  predicate LineStart(s: string, k: int) {
    0 <= k <= |s| && (k == 0 || s[k - 1] == '\n')
  }

  /** Some line of `s` starts with the scheme: what `(?m)^http(s)?:\/\/` matches. */
  predicate RemoteLine(s: string) {
    exists k :: 0 <= k <= |s| && LineStart(s, k) && StartsRemote(s[k..])
  }

  /** `IsRemoteRef`: regexp `(?m)^http(s)?:\/\/`. With `(?m)`, `^` also matches right
      after a newline, so the scheme may open any line of the string. */
  function IsRemoteRef(s: string): (r: bool)
    ensures StartsRemote(s) ==> r
    ensures '\n' !in s ==> (r <==> StartsRemote(s))
    decreases |s|
  {
    if StartsRemote(s) then true
    else
      var i := IndexOf(s, '\n');
      if i < 0 then false else IsRemoteRef(s[i + 1..])
  }

  /** The line starts of `s` after its first newline are those of the text behind it. */
  lemma LineStartsAfter(s: string, i: int, rest: string)
    requires i == IndexOf(s, '\n') && i >= 0 && rest == s[i + 1..]
    ensures forall k :: LineStart(s, k) && k != 0 ==> k > i
    ensures forall k :: LineStart(rest, k) ==> LineStart(s, k + i + 1)
    ensures forall k :: i < k <= |s| && LineStart(s, k) ==> LineStart(rest, k - i - 1)
  {
    assert forall j :: 0 <= j < i ==> s[..i][j] == s[j];
  }

  /** `IsRemoteRef` matches the scheme at the start of some line of the string. */
  lemma {:induction false} IsRemoteRefMeaning(s: string)
    ensures IsRemoteRef(s) <==> RemoteLine(s)
    decreases |s|
  {
    assert s[0..] == s;
    assert LineStart(s, 0);
    if !StartsRemote(s) {
      var i := IndexOf(s, '\n');
      if i < 0 {
        assert forall k :: LineStart(s, k) ==> k == 0;
      } else {
        var rest := s[i + 1..];
        IsRemoteRefMeaning(rest);
        LineStartsAfter(s, i, rest);
        if RemoteLine(rest) {
          var k :| LineStart(rest, k) && StartsRemote(rest[k..]);
          assert s[k + i + 1..] == rest[k..];
          assert LineStart(s, k + i + 1);
        }
        if RemoteLine(s) {
          var k :| LineStart(s, k) && StartsRemote(s[k..]);
          assert k > i;
          assert rest[k - i - 1..] == s[k..];
          assert LineStart(rest, k - i - 1);
        }
      }
    }
  }

  /** For a single-line string, a reference is remote exactly when it starts with the scheme. */
  lemma RemoteRefSingleLine(s: string)
    requires '\n' !in s
    ensures IsRemoteRef(s) <==> StartsRemote(s)
    ensures RemoteLine(s) <==> StartsRemote(s)
  {
    IsRemoteRefMeaning(s);
    assert s[0..] == s;
    assert forall k :: LineStart(s, k) ==> k == 0;
  }

  // ---------------------------------------------------------------------------
  // File names and output directories

  /** `FileName`: the slug of the title, or, when that is empty, the slug of the
      location's file stem. */
  function FileName(kebab: string -> string, title: string, location: string): (r: string)
    ensures IsSlug(r)
    ensures Alnums(kebab(title)) != [] ==> r == Slugify(kebab, title)
    ensures Alnums(kebab(title)) == [] ==> r == Slugify(kebab, FilenameWithoutExt(location))
  {
    var fileName := Slugify(kebab, title);
    if |fileName| == 0 then Slugify(kebab, FilenameWithoutExt(location)) else fileName
  }

  /** A title with a letter or digit decides the file name alone. */
  lemma FileNameIgnoresLocation(kebab: string -> string, title: string, loc1: string, loc2: string)
    requires Alnums(kebab(title)) != []
    ensures FileName(kebab, title, loc1) == FileName(kebab, title, loc2) != ""
  {
  }

  /** The prefix of an anchor that places a page under the `definitions` directory. */
  const DefinitionsAnchor: string := "#/definitions"

  /** `FilePath`: "" without a '#'; otherwise the slug of the file stem before the
      last '#', followed by "definitions" when the anchor starts with "/definitions". */
  function FilePath(kebab: string -> string, location: string): (r: string)
    ensures '#' !in location ==> r == ""
  {
    var i := LastIndexOf(location, '#');
    if i < 0 then ""
    else
      var root := Slugify(kebab, FilenameWithoutExt(location[..i]));
      if DefinitionsAnchor <= location[i..] then JoinPath([root, DefinitionsDir]) else root
  }

  /** The stem slug `FilePath` starts from. */
  function FileStemSlug(kebab: string -> string, location: string): string
    requires '#' in location
  {
    Slugify(kebab, FilenameWithoutExt(location[..LastIndexOf(location, '#')]))
  }

  /** A non-empty slug is a plain path element. */
  lemma SlugIsName(s: string)
    requires IsSlug(s) && s != ""
    ensures IsName(s)
  {
  }

  /** The directory name definitions are written to. */
  const DefinitionsDir: string := "definitions"

  lemma DefinitionsDirIsName()
    ensures IsName(DefinitionsDir) && Split(DefinitionsDir, '/') == [DefinitionsDir]
  {
    NameFact(DefinitionsDir);
  }

  lemma NameFact(d: string)
    requires d == "definitions"
    ensures IsName(d) && Split(d, '/') == [d]
  {
    assert forall k :: 0 <= k < |d| ==> d[k] != '/';
  }

  /** `filepath.Join(root, "definitions")` for a slug `root`. */
  lemma DefinitionsUnder(root: string)
    requires IsSlug(root)
    ensures root != "" ==> JoinPath([root, DefinitionsDir]) == root + "/" + DefinitionsDir
    ensures root == "" ==> JoinPath([root, DefinitionsDir]) == DefinitionsDir
  {
    if root == "" {
      DefinitionsAlone(root);
    } else {
      DefinitionsAfter(root);
    }
  }

  lemma DefinitionsAlone(root: string)
    requires root == ""
    ensures JoinPath([root, DefinitionsDir]) == DefinitionsDir
  {
    DefinitionsDirIsName();
    OneName(root, DefinitionsDir);
  }

  /** Joining a single name after an empty element gives the name back. */
  lemma OneName(root: string, n: string)
    requires root == "" && IsName(n) && Split(n, '/') == [n]
    ensures JoinPath([root, n]) == n
  {
    assert [root, n][1..] == [n];
    assert JoinPath([root, n]) == JoinPath([n]);
    assert Join([n], '/') == n;
    assert CleanElems(false, [] + [n]);
    ResolveClean([], false, [n]);
    assert Parse(n) == Path(false, [n]);
  }

  lemma DefinitionsAfter(root: string)
    requires IsSlug(root) && root != ""
    ensures JoinPath([root, DefinitionsDir]) == root + "/" + DefinitionsDir
  {
    DefinitionsDirIsName();
    SlugIsName(root);
    JoinTwo(root, DefinitionsDir);
    ParseTwoNames(root, DefinitionsDir);
  }

  lemma JoinTwo(a: string, b: string)
    ensures Join([a, b], '/') == a + "/" + b
  {
    assert [a, b][1..] == [b];
  }

  lemma ParseTwoNames(a: string, b: string)
    requires IsName(a) && IsName(b)
    ensures Parse(a + "/" + b) == Path(false, [a, b])
  {
    var x := a + "/" + b;
    assert x[0] == a[0];
    SplitCons(a, '/', b);
    assert Split(b, '/') == [b];
    ResolveClean([], false, [a, b]);
  }

  /** `FilePath`'s shape: the stem slug, then "definitions" for an anchor under
      "#/definitions"; every element is a plain name. */
  lemma {:induction false} FilePathShape(kebab: string -> string, location: string)
    requires '#' in location
    ensures var root := FileStemSlug(kebab, location);
            var i := LastIndexOf(location, '#');
            var r := FilePath(kebab, location);
            && (DefinitionsAnchor <= location[i..] && root != "" ==> r == root + "/" + DefinitionsDir)
            && (DefinitionsAnchor <= location[i..] && root == "" ==> r == DefinitionsDir)
            && (!(DefinitionsAnchor <= location[i..]) ==> r == root)
  {
    var root := FileStemSlug(kebab, location);
    DefinitionsUnder(root);
  }

  // ---------------------------------------------------------------------------
  // The repository's test cases

  /** The remote references of the repository's `IsRemoteRef` test. */
  lemma RemoteRefFixtures()
    ensures IsRemoteRef("https://spandigital.com")
    ensures IsRemoteRef("http://ref.schema.json#")
    ensures IsRemoteRef("http://json-schema.org/draft-06/schema#")
  {
    RemoteFixture("https://spandigital.com");
    RemoteFixture("http://ref.schema.json#");
    RemoteFixture("http://json-schema.org/draft-06/schema#");
  }

  lemma RemoteFixture(s: string)
    requires "http://" <= s || "https://" <= s
    ensures IsRemoteRef(s)
  {
  }

  /** The references of the same test that are not remote: a wrong scheme, a
      missing slash, a missing colon. */
  lemma LocalRefFixtures()
    ensures !IsRemoteRef("file://json-schema.org/draft-06/schema#")
    ensures !IsRemoteRef("http:/json-schema.org/draft-06/schema#")
    ensures !IsRemoteRef("https//json-schema.org/draft-06/schema#")
  {
    FileScheme("file://json-schema.org/draft-06/schema#");
    HttpOneSlash("http:/json-schema.org/draft-06/schema#");
    HttpsNoColon("https//json-schema.org/draft-06/schema#");
  }

  /** A one-line reference that does not start with the scheme is not remote. */
  lemma NotRemoteLine(s: string)
    requires '\n' !in s && !StartsRemote(s)
    ensures !IsRemoteRef(s)
  {
    RemoteRefSingleLine(s);
  }

  lemma FileScheme(s: string)
    requires s == "file://json-schema.org/draft-06/schema#"
    ensures !IsRemoteRef(s)
  {
    assert s[0] == 'f';
    assert '\n' !in s;
    NotRemoteLine(s);
  }

  lemma HttpOneSlash(s: string)
    requires s == "http:/json-schema.org/draft-06/schema#"
    ensures !IsRemoteRef(s)
  {
    assert s[5] == '/' && s[6] == 'j';
    assert '\n' !in s;
    NotRemoteLine(s);
  }

  lemma HttpsNoColon(s: string)
    requires s == "https//json-schema.org/draft-06/schema#"
    ensures !IsRemoteRef(s)
  {
    assert s[4] == 's' && s[5] == '/';
    assert '\n' !in s;
    NotRemoteLine(s);
  }

  /** The repository's `IsInternalRef` test, against "http://ref.schema.json". */
  lemma InternalRefFixtures()
    ensures !IsInternalRef("http://ref.schema.json", "https://spandigital.com")
    ensures IsInternalRef("http://ref.schema.json", "http://ref.schema.json#")
    ensures IsInternalRef("http://ref.schema.json", "http://ref.schema.json#/properties/attributes")
    ensures IsInternalRef("http://ref.schema.json", "http://ref.schema.json")
  {
    OtherSite("http://ref.schema.json", "https://spandigital.com");
    EmptyAnchor("http://ref.schema.json", "http://ref.schema.json#");
    PropertiesAnchor("http://ref.schema.json", "http://ref.schema.json#/properties/attributes");
    SameDocument("http://ref.schema.json");
  }

  lemma OtherSite(location: string, ref: string)
    requires location == "http://ref.schema.json" && ref == "https://spandigital.com"
    ensures !IsInternalRef(location, ref)
  {
    assert location[4] == ':' && ref[4] == 's';
    assert !(location + "#" <= ref) && ref != location;
    InternalRefMeaning(location, ref);
  }

  lemma SameDocument(location: string)
    requires location == "http://ref.schema.json"
    ensures IsInternalRef(location, location)
  {
    assert '#' !in location;
    InternalRefMeaning(location, location);
  }

  lemma EmptyAnchor(location: string, ref: string)
    requires location == "http://ref.schema.json" && ref == "http://ref.schema.json#"
    ensures IsInternalRef(location, ref)
  {
    assert '#' !in location;
    assert ref[..|location|] == location && ref[|location|] == '#';
    AnchoredRef(location, ref);
  }

  lemma PropertiesAnchor(location: string, ref: string)
    requires location == "http://ref.schema.json" && ref == "http://ref.schema.json#/properties/attributes"
    ensures IsInternalRef(location, ref)
  {
    assert '#' !in location;
    assert ref[..|location|] == location && ref[|location|] == '#';
    AnchoredRef(location, ref);
  }

  /** A reference that continues the location with '#' is internal. */
  lemma AnchoredRef(location: string, ref: string)
    requires '#' !in location && |location| < |ref|
    requires ref[..|location|] == location && ref[|location|] == '#'
    ensures IsInternalRef(location, ref)
  {
    assert ref[..|location| + 1] == location + "#";
    InternalRefMeaning(location, ref);
  }

  /** A slug is its own `Slugify` residue: tidying it changes nothing. */
  lemma TidySlug(s: string)
    requires IsSlug(s)
    ensures Tidy(s) == s
  {
    CollapseSlug(s);
    assert TrimLeft(s, '-') == s;
    assert TrimRight(s, '-') == s;
  }

  /** The last '#' of `file + "#" + anchor` when the anchor has none. */
  lemma LastHash(location: string, file: string, anchor: string)
    requires location == file + "#" + anchor && '#' !in anchor
    ensures LastIndexOf(location, '#') == |file|
    ensures location[..|file|] == file && location[|file|..] == "#" + anchor
  {
    assert location[|file|] == '#';
    assert location[|file| + 1..] == anchor;
  }

  /** `FilePath` of `file#anchor`, where the file's stem is `stem` and `ToKebab` turns it
      into the slug `slug`. */
  lemma FilePathFixture(kebab: string -> string, location: string, file: string, anchor: string, stem: string, slug: string)
    requires location == file + "#" + anchor && '#' !in anchor
    requires FilenameWithoutExt(file) == stem && kebab(stem) == slug && IsSlug(slug) && slug != ""
    ensures DefinitionsAnchor <= "#" + anchor ==> FilePath(kebab, location) == slug + "/" + DefinitionsDir
    ensures !(DefinitionsAnchor <= "#" + anchor) ==> FilePath(kebab, location) == slug
  {
    LastHash(location, file, anchor);
    TidySlug(slug);
    assert FileStemSlug(kebab, location) == slug;
    FilePathShape(kebab, location);
  }

  /** A stem fixture for a path with no '/'. */
  lemma NoSlashStem(b: string, e: string, stem: string)
    requires '/' !in b && b != "" && b == stem + e && e != "" && e[0] == '.' && '.' !in e[1..]
    ensures FilenameWithoutExt(b) == stem
  {
    assert b[|b| - 1] == e[|e| - 1];
    BaseNoTrailingSlash(b);
    assert b[|b| - |e|..] == e;
    ExtIsLastDot(b, e);
    assert b[..|b| - |e|] == stem;
  }

  /** The stem of "ref.schema.json", alone or in "test/". */
  lemma RefSchemaStem(file: string)
    requires file in {"ref.schema.json", "test/ref.schema.json"}
    ensures FilenameWithoutExt(file) == "ref.schema"
  {
    if file == "ref.schema.json" {
      TopStem(file);
    } else {
      TestStem(file);
    }
  }

  lemma TopStem(file: string)
    requires file == "ref.schema.json"
    ensures FilenameWithoutExt(file) == "ref.schema"
  {
    NoSlashStem(file, ".json", "ref.schema");
  }

  lemma TestStem(file: string)
    requires file == "test/ref.schema.json"
    ensures FilenameWithoutExt(file) == "ref.schema"
  {
    StemFixture(file, "ref.schema.json", ".json", "ref.schema");
  }

  lemma RefSchemaSlug(s: string)
    requires s == "ref-schema"
    ensures IsSlug(s) && s != "" && s + "/" + DefinitionsDir == "ref-schema/definitions"
  {
  }

  /** An anchor under "/definitions" selects the definitions directory. */
  lemma DefinitionsPrefix(tail: string)
    ensures DefinitionsAnchor <= "#" + ("/definitions" + tail)
  {
    assert ("#" + ("/definitions" + tail))[..|DefinitionsAnchor|] == DefinitionsAnchor;
  }

  /** An anchor "/definitions" + tail selects the definitions directory. */
  lemma DefinitionsTail(tail: string)
    requires '#' !in tail
    ensures DefinitionsAnchor <= "#" + ("/definitions" + tail) && '#' !in "/definitions" + tail
  {
    DefinitionsPrefix(tail);
  }

  lemma OtherAnchors(anchor: string)
    requires anchor in {"", "/attributes", "/attributes/dimensions"}
    ensures !(DefinitionsAnchor <= "#" + anchor) && '#' !in anchor
  {
    if anchor != "" {
      assert ("#" + anchor)[2] == 'a' && DefinitionsAnchor[2] == 'd';
    }
  }

  /** One case of the `FilePath` test: `location` is `file#anchor`. */
  lemma FilePathCase(kebab: string -> string, location: string, file: string, anchor: string)
    requires kebab("ref.schema") == "ref-schema"
    requires location == file + "#" + anchor && '#' !in anchor
    requires file in {"ref.schema.json", "test/ref.schema.json"}
    ensures DefinitionsAnchor <= "#" + anchor ==> FilePath(kebab, location) == "ref-schema/definitions"
    ensures !(DefinitionsAnchor <= "#" + anchor) ==> FilePath(kebab, location) == "ref-schema"
  {
    RefSchemaStem(file);
    RefSchemaSlug("ref-schema");
    FilePathFixture(kebab, location, file, anchor, "ref.schema", "ref-schema");
  }

  /** The repository's `FilePath` test, with `ToKebab` turning "ref.schema" into
      "ref-schema" as `strcase` does: "#/definitions" anchors go to
      "ref-schema/definitions", all others to "ref-schema". */
  lemma SchemaFilePathFixtures(kebab: string -> string)
    requires kebab("ref.schema") == "ref-schema"
    ensures FilePath(kebab, "ref.schema.json" + "#" + "/definitions" + "/pagination/properties/first") == "ref-schema/definitions"
    ensures FilePath(kebab, "test/ref.schema.json" + "#" + "/attributes") == "ref-schema"
    ensures FilePath(kebab, "test/ref.schema.json" + "#" + "/definitions" + "/attributes/dimensions") == "ref-schema/definitions"
    ensures FilePath(kebab, "test/ref.schema.json" + "#" + "/attributes/dimensions") == "ref-schema"
    ensures FilePath(kebab, "ref.schema.json" + "#") == "ref-schema"
  {
    DefinitionsCase1(kebab, "ref.schema.json", "/pagination/properties/first");
    OtherCase2(kebab, "test/ref.schema.json", "/attributes");
    DefinitionsCase3(kebab, "test/ref.schema.json", "/attributes/dimensions");
    OtherCase4(kebab, "test/ref.schema.json", "/attributes/dimensions");
    OtherCase5(kebab, "ref.schema.json");
  }

  lemma DefinitionsCase1(kebab: string -> string, file: string, tail: string)
    requires kebab("ref.schema") == "ref-schema"
    requires file == "ref.schema.json" && tail == "/pagination/properties/first"
    ensures FilePath(kebab, file + "#" + "/definitions" + tail) == "ref-schema/definitions"
  {
    assert '#' !in tail;
    DefinitionsTail(tail);
    FilePathCase(kebab, file + "#" + ("/definitions" + tail), file, "/definitions" + tail);
    AppendAssoc(file + "#", "/definitions", tail);
  }

  lemma OtherCase2(kebab: string -> string, file: string, anchor: string)
    requires kebab("ref.schema") == "ref-schema"
    requires file == "test/ref.schema.json" && anchor == "/attributes"
    ensures FilePath(kebab, file + "#" + anchor) == "ref-schema"
  {
    OtherAnchors(anchor);
    FilePathCase(kebab, file + "#" + anchor, file, anchor);
  }

  lemma DefinitionsCase3(kebab: string -> string, file: string, tail: string)
    requires kebab("ref.schema") == "ref-schema"
    requires file == "test/ref.schema.json" && tail == "/attributes/dimensions"
    ensures FilePath(kebab, file + "#" + "/definitions" + tail) == "ref-schema/definitions"
  {
    assert '#' !in tail;
    DefinitionsTail(tail);
    FilePathCase(kebab, file + "#" + ("/definitions" + tail), file, "/definitions" + tail);
    AppendAssoc(file + "#", "/definitions", tail);
  }

  lemma OtherCase4(kebab: string -> string, file: string, anchor: string)
    requires kebab("ref.schema") == "ref-schema"
    requires file == "test/ref.schema.json" && anchor == "/attributes/dimensions"
    ensures FilePath(kebab, file + "#" + anchor) == "ref-schema"
  {
    OtherAnchors(anchor);
    FilePathCase(kebab, file + "#" + anchor, file, anchor);
  }

  lemma OtherCase5(kebab: string -> string, file: string)
    requires kebab("ref.schema") == "ref-schema"
    requires file == "ref.schema.json"
    ensures FilePath(kebab, file + "#") == "ref-schema"
  {
    OtherAnchors("");
    FilePathCase(kebab, file + "#" + "", file, "");
    assert file + "#" + "" == file + "#";
  }

  lemma AppendAssoc(a: string, b: string, c: string)
    ensures a + b + c == a + (b + c)
  {
  }
}
