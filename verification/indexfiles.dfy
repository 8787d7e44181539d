/** `createIndex` (pkg/markdown/converter.go): the `_index.md` front-matter files that
    make every output directory a page section.

    The filesystem is kept as the set of directories and the contents of the files,
    both keyed by cleaned path. `createIndex` cleans its argument first, so the model
    works on `Path` values; `IndexStepPaths` shows that the string operations of the
    source (`filepath.Join`, `filepath.Base`, `filepath.Dir`) are the `Path`
    operations used here. */
module IndexFiles {
  import opened Strings
  import opened FilePaths

  /** Directories and file contents, by cleaned path. */
  datatype Fs = Fs(dirs: set<Path>, files: map<Path, string>)

  /** `Stat` finds something at `p`. */
  predicate Exists(fs: Fs, p: Path) {
    p in fs.dirs || p in fs.files
  }

  /** The name of the section file. */
  const IndexName: string := "_index.md"

  /** The section file of directory `p`. */
  function IndexFile(p: Path): Path {
    Child(p, IndexName)
  }

  /** The front matter written into a section file. */
  function FrontMatter(title: string): string {
    "---\ntitle: " + title + "\n---"
  }

  /** The first `k` elements of `p`: `p` itself and its ancestors. */
  function Prefix(p: Path, k: nat): Path
    requires k <= |p.elems|
  {
    Path(p.rooted, p.elems[..k])
  }

  /** `MkdirAll`: `p` and all its ancestors become directories. */
  function MkdirAll(fs: Fs, p: Path): (r: Fs)
    ensures r.files == fs.files
    ensures forall k :: 0 <= k <= |p.elems| ==> Prefix(p, k) in r.dirs
    ensures forall q :: q in r.dirs ==> q in fs.dirs || exists k :: 0 <= k <= |p.elems| && q == Prefix(p, k)
  {
    fs.(dirs := fs.dirs + set k | 0 <= k <= |p.elems| :: Prefix(p, k))
  }

  /** `WriteFile`. */
  function WriteFile(fs: Fs, p: Path, content: string): Fs {
    fs.(files := fs.files[p := content])
  }

  /** One step of `createIndex`: make the directory and write its section file, titled
      with the directory's last element. */
  function Section(fs: Fs, p: Path): Fs {
    WriteFile(MkdirAll(fs, p), IndexFile(p), FrontMatter(LastName(p)))
  }

  /** The file was written by `createIndex`: a section file whose front matter names
      its directory. */
  predicate IsIndexOf(q: Path, content: string) {
    q.elems != [] && q.elems[|q.elems| - 1] == IndexName && content == FrontMatter(LastName(Parent(q)))
  }

  /** `createIndex` on a cleaned path: stop at the destination (`atDest`) or at an
      existing section file; otherwise create the directory, write its section file
      titled with its last element, and go on with the parent. */
  function CreateIndexFrom(fs: Fs, atDest: Path -> bool, p: Path): (r: Fs)
    ensures fs.dirs <= r.dirs
    ensures forall q :: q in fs.files ==> q in r.files && r.files[q] == fs.files[q]
    ensures atDest(p) || Exists(r, IndexFile(p))
    decreases |p.elems|, if Exists(fs, IndexFile(p)) then 0 else 1
  {
    if atDest(p) then fs
    else if Exists(fs, IndexFile(p)) then fs
    else
      var fs1 := Section(fs, p);
      assert Parent(IndexFile(p)) == p;
      CreateIndexFrom(fs1, atDest, Parent(p))
  }

  /** `createIndex` as written: the cleaned path is compared with `Destination` as
      given, which is not cleaned. */
  function CreateIndex(fs: Fs, destination: string, path: string): (r: Fs)
    ensures fs.dirs <= r.dirs
    ensures forall q :: q in fs.files ==> q in r.files && r.files[q] == fs.files[q]
    ensures Render(Parse(path)) == destination || Exists(r, IndexFile(Parse(path)))
  {
    CreateIndexFrom(fs, RendersAs(destination), Parse(path))
  }

  /** The stopping test as written: the cleaned path, as a string, equals `destination`. */
  function RendersAs(destination: string): Path -> bool {
    q => Render(q) == destination
  }

  /** The stopping test between cleaned paths. */
  function CleansTo(destination: string): Path -> bool {
    q => q == Parse(destination)
  }

  /** `createIndex` with the comparison made between cleaned paths. */
  function CreateIndexFixed(fs: Fs, destination: string, path: string): (r: Fs)
    ensures fs.dirs <= r.dirs
    ensures forall q :: q in fs.files ==> q in r.files && r.files[q] == fs.files[q]
    ensures Parse(path) == Parse(destination) || Exists(r, IndexFile(Parse(path)))
  {
    CreateIndexFrom(fs, CleansTo(destination), Parse(path))
  }

  // ---------------------------------------------------------------------------
  // From strings to paths

  lemma IndexNameIsName()
    ensures IsName(IndexName) && Split(IndexName, '/') == [IndexName]
  {
    IndexNameFact(IndexName);
  }

  lemma IndexNameFact(n: string)
    requires n == "_index.md"
    ensures IsName(n) && Split(n, '/') == [n]
  {
    assert forall k :: 0 <= k < |n| ==> n[k] != '/';
  }

  /** The string steps of `createIndex` on a path `s`: after `filepath.Clean`, the
      section file is `filepath.Join(path, "_index.md")`, the title is
      `filepath.Base(path)`, and the next call gets `filepath.Dir(path)`. */
  lemma IndexStepPaths(s: string)
    ensures Parse(Clean(s)) == Parse(s)
    ensures Parse(JoinPath([Clean(s), IndexName])) == IndexFile(Parse(s))
    ensures Base(Clean(s)) == LastName(Parse(s))
    ensures Parse(Dir(Clean(s))) == Parent(Parse(s))
  {
    var p := Parse(s);
    ParseRender(p);
    IndexNameIsName();
    JoinNames(Clean(s), IndexName);
    BaseOfRender(p);
    DirIsParent(p);
  }

  // ---------------------------------------------------------------------------
  // What createIndex writes

  /** When the path is the destination nothing is written. */
  lemma AtDestination(fs: Fs, atDest: Path -> bool, p: Path)
    requires atDest(p)
    ensures CreateIndexFrom(fs, atDest, p) == fs
  {
  }

  /** An existing section file stops the climb: nothing is written, not even above. */
  lemma ExistingIndex(fs: Fs, atDest: Path -> bool, p: Path)
    requires Exists(fs, IndexFile(p))
    ensures CreateIndexFrom(fs, atDest, p) == fs
  {
  }

  /** A second call on the same path changes nothing. */
  lemma CreateIndexIdempotent(fs: Fs, atDest: Path -> bool, p: Path)
    ensures CreateIndexFrom(CreateIndexFrom(fs, atDest, p), atDest, p) == CreateIndexFrom(fs, atDest, p)
  {
    var r := CreateIndexFrom(fs, atDest, p);
    if !atDest(p) {
      ExistingIndex(r, atDest, p);
    }
  }

  /** `names` below `d`: the first `k` of them appended to `d`. */
  function Under(d: Path, names: seq<string>, k: nat): Path
    requires k <= |names|
  {
    Path(d.rooted, d.elems + names[..k])
  }

  /** The section files of the directories between `d` (excluded) and `d` + `names`. */
  function IndexSet(d: Path, names: seq<string>): set<Path> {
    set k | 1 <= k <= |names| :: IndexFile(Under(d, names, k))
  }

  /** Names that are plain path elements and not the section file's own name. */
  predicate DirNames(names: seq<string>) {
    forall i :: 0 <= i < |names| ==> IsName(names[i]) && names[i] != IndexName
  }

  /** The directories below `d` have no section file, nor anything else at its path. */
  predicate Fresh(fs: Fs, d: Path, names: seq<string>) {
    forall k :: 1 <= k <= |names| ==> !Exists(fs, IndexFile(Under(d, names, k)))
  }

  /** None of the directories below `d` is the destination. */
  predicate NoDestBelow(atDest: Path -> bool, d: Path, names: seq<string>) {
    forall k :: 1 <= k <= |names| ==> !atDest(Under(d, names, k))
  }

  lemma UnderShorter(d: Path, names: seq<string>, k: nat)
    requires k < |names|
    ensures Under(d, names[..|names| - 1], k) == Under(d, names, k)
  {
    assert names[..|names| - 1][..k] == names[..k];
  }

  lemma UnderParent(d: Path, names: seq<string>)
    requires names != []
    ensures Parent(Under(d, names, |names|)) == Under(d, names, |names| - 1)
    ensures LastName(Under(d, names, |names|)) == names[|names| - 1]
  {
    var n := |names|;
    assert (d.elems + names[..n])[..|d.elems| + n - 1] == d.elems + names[..n - 1];
  }

  /** The directories `MkdirAll` creates for a deeper path are never a section file of
      a shallower one, as no name is the section file's name. */
  lemma MkdirMissesIndex(fs: Fs, d: Path, names: seq<string>, k: nat)
    requires DirNames(names) && 1 <= k < |names|
    requires !Exists(fs, IndexFile(Under(d, names, k)))
    ensures !Exists(MkdirAll(fs, Under(d, names, |names|)), IndexFile(Under(d, names, k)))
  {
    var p := Under(d, names, |names|);
    forall j | 0 <= j <= |p.elems|
      ensures Prefix(p, j) != IndexFile(Under(d, names, k))
    {
      PrefixNotIndex(d, names, k, j);
    }
  }

  lemma PrefixNotIndex(d: Path, names: seq<string>, k: nat, j: nat)
    requires DirNames(names) && 1 <= k < |names| && j <= |d.elems| + |names|
    ensures Prefix(Under(d, names, |names|), j) != IndexFile(Under(d, names, k))
  {
    var p := Under(d, names, |names|);
    var q := IndexFile(Under(d, names, k));
    if j == |q.elems| {
      assert p.elems[j - 1] == names[k];
      assert q.elems[j - 1] == IndexName;
    }
  }

  /** One step of the climb. */
  lemma ClimbStep(fs: Fs, atDest: Path -> bool, p: Path)
    requires !atDest(p) && !Exists(fs, IndexFile(p))
    ensures CreateIndexFrom(fs, atDest, p) == CreateIndexFrom(Section(fs, p), atDest, Parent(p))
  {
  }

  lemma IndexSetSnoc(d: Path, names: seq<string>)
    requires names != []
    ensures IndexSet(d, names) == IndexSet(d, names[..|names| - 1]) + {IndexFile(Under(d, names, |names|))}
  {
    var n := |names|;
    var front := names[..n - 1];
    forall q | q in IndexSet(d, names) ensures q in IndexSet(d, front) + {IndexFile(Under(d, names, n))} {
      var k :| 1 <= k <= n && q == IndexFile(Under(d, names, k));
      if k < n {
        UnderShorter(d, names, k);
      }
    }
    forall q | q in IndexSet(d, front) ensures q in IndexSet(d, names) {
      var k :| 1 <= k <= n - 1 && q == IndexFile(Under(d, front, k));
      UnderShorter(d, names, k);
    }
  }

  /** After the deepest directory is sectioned, the ones above it are still fresh. */
  lemma FreshAbove(fs: Fs, atDest: Path -> bool, d: Path, names: seq<string>)
    requires names != [] && DirNames(names) && Fresh(fs, d, names) && NoDestBelow(atDest, d, names)
    ensures Fresh(Section(fs, Under(d, names, |names|)), d, names[..|names| - 1])
    ensures NoDestBelow(atDest, d, names[..|names| - 1])
  {
    var n := |names|;
    var p := Under(d, names, n);
    var fs1 := Section(fs, p);
    var front := names[..n - 1];
    forall k | 1 <= k <= n - 1
      ensures !Exists(fs1, IndexFile(Under(d, front, k))) && !atDest(Under(d, front, k))
    {
      UnderShorter(d, names, k);
      MkdirMissesIndex(fs, d, names, k);
      assert |IndexFile(Under(d, names, k)).elems| < |IndexFile(p).elems|;
    }
  }

  /** The section files of the directories below `d` hold their front matter. */
  predicate Wrote(fs: Fs, d: Path, names: seq<string>) {
    forall k :: 1 <= k <= |names| ==>
      IndexFile(Under(d, names, k)) in fs.files && fs.files[IndexFile(Under(d, names, k))] == FrontMatter(names[k - 1])
  }

  lemma WroteSnoc(fs: Fs, d: Path, names: seq<string>)
    requires names != [] && Wrote(fs, d, names[..|names| - 1])
    requires IndexFile(Under(d, names, |names|)) in fs.files
    requires fs.files[IndexFile(Under(d, names, |names|))] == FrontMatter(names[|names| - 1])
    ensures Wrote(fs, d, names)
  {
    var n := |names|;
    forall k | 1 <= k < n
      ensures IndexFile(Under(d, names, k)) in fs.files
      ensures fs.files[IndexFile(Under(d, names, k))] == FrontMatter(names[k - 1])
    {
      UnderShorter(d, names, k);
      assert names[k - 1] == names[..n - 1][k - 1];
    }
  }

  /** A step writes the directory's section file. */
  lemma SectionWrites(fs: Fs, p: Path, title: string)
    requires LastName(p) == title
    ensures IndexFile(p) in Section(fs, p).files && Section(fs, p).files[IndexFile(p)] == FrontMatter(title)
  {
  }

  /** Files are kept by the rest of the climb. */
  lemma Keeps(fs: Fs, atDest: Path -> bool, p: Path, q: Path)
    requires q in fs.files
    ensures q in CreateIndexFrom(fs, atDest, p).files
    ensures CreateIndexFrom(fs, atDest, p).files[q] == fs.files[q]
  {
  }

  /** Every file `createIndex` adds is a section file whose front matter names its
      directory. */
  lemma {:induction false} OnlySections(fs: Fs, atDest: Path -> bool, p: Path)
    ensures forall q :: q in CreateIndexFrom(fs, atDest, p).files && q !in fs.files ==>
              IsIndexOf(q, CreateIndexFrom(fs, atDest, p).files[q])
    decreases |p.elems|, if Exists(fs, IndexFile(p)) then 0 else 1
  {
    if !atDest(p) && !Exists(fs, IndexFile(p)) {
      var fs1 := Section(fs, p);
      assert Parent(IndexFile(p)) == p;
      OnlySections(fs1, atDest, Parent(p));
    }
  }

  /** `q` is `d` or lies below it. */
  predicate Below(d: Path, q: Path) {
    q.rooted == d.rooted && d.elems <= q.elems
  }

  /** Climbing from at or below the destination writes only below it. */
  lemma {:induction false} SectionsBelow(fs: Fs, atDest: Path -> bool, d: Path, p: Path)
    requires atDest(d) && Below(d, p)
    ensures forall q :: q in CreateIndexFrom(fs, atDest, p).files && q !in fs.files ==> Below(d, q)
    decreases |p.elems|, if Exists(fs, IndexFile(p)) then 0 else 1
  {
    if !atDest(p) && !Exists(fs, IndexFile(p)) {
      var fs1 := Section(fs, p);
      assert p != d;
      assert |p.elems| > |d.elems| by {
        assert p.elems[..|d.elems|] == d.elems;
      }
      assert Parent(p).elems == p.elems[..|p.elems| - 1];
      assert Below(d, Parent(p));
      assert Below(d, IndexFile(p));
      assert Parent(IndexFile(p)) == p;
      SectionsBelow(fs1, atDest, d, Parent(p));
    }
  }

  /** With cleaned paths compared, a path at or below the destination gets section
      files only below the destination, and nothing else. */
  lemma CreateIndexFixedBelow(fs: Fs, destination: string, path: string)
    requires Below(Parse(destination), Parse(path))
    ensures var r := CreateIndexFixed(fs, destination, path);
            forall q :: q in r.files && q !in fs.files ==> Below(Parse(destination), q) && IsIndexOf(q, r.files[q])
  {
    SectionsBelow(fs, CleansTo(destination), Parse(destination), Parse(path));
    OnlySections(fs, CleansTo(destination), Parse(path));
  }

  /** Climbing from `d` + `names` through directories that are neither the destination
      nor sectioned writes one section file per directory, titled with the directory's
      own name, and leaves every existing file alone. When `d` is the destination
      nothing else is written. */
  lemma {:induction false} FreshChain(fs: Fs, atDest: Path -> bool, d: Path, names: seq<string>)
    requires DirNames(names) && Fresh(fs, d, names) && NoDestBelow(atDest, d, names)
    ensures Wrote(CreateIndexFrom(fs, atDest, Under(d, names, |names|)), d, names)
    ensures atDest(d) ==>
              CreateIndexFrom(fs, atDest, Under(d, names, |names|)).files.Keys == fs.files.Keys + IndexSet(d, names)
    decreases |names|
  {
    var n := |names|;
    if n == 0 {
      assert Under(d, names, n) == d;
      assert IndexSet(d, names) == {};
    } else {
      var p := Under(d, names, n);
      FreshAbove(fs, atDest, d, names);
      FreshChain(Section(fs, p), atDest, d, names[..n - 1]);
      FreshChainStep(fs, atDest, d, names);
    }
  }

  /** The last step of `FreshChain`: sectioning the deepest directory, then the climb
      above it. */
  lemma FreshChainStep(fs: Fs, atDest: Path -> bool, d: Path, names: seq<string>)
    requires names != [] && DirNames(names) && Fresh(fs, d, names) && NoDestBelow(atDest, d, names)
    requires var p, front := Under(d, names, |names|), names[..|names| - 1];
             var r := CreateIndexFrom(Section(fs, p), atDest, Under(d, front, |front|));
             && Wrote(r, d, front)
             && (atDest(d) ==> r.files.Keys == Section(fs, p).files.Keys + IndexSet(d, front))
    ensures Wrote(CreateIndexFrom(fs, atDest, Under(d, names, |names|)), d, names)
    ensures atDest(d) ==>
              CreateIndexFrom(fs, atDest, Under(d, names, |names|)).files.Keys == fs.files.Keys + IndexSet(d, names)
  {
    var n := |names|;
    var p := Under(d, names, n);
    var front := names[..n - 1];
    var above := Under(d, names, n - 1);
    UnderParent(d, names);
    var fs1 := Section(fs, p);
    var r := CreateIndexFrom(fs1, atDest, above);
    ClimbStep(fs, atDest, p);
    UnderShorter(d, names, n - 1);
    assert Under(d, front, |front|) == above;
    SectionWrites(fs, p, names[n - 1]);
    Keeps(fs1, atDest, above, IndexFile(p));
    WroteSnoc(r, d, names);
    IndexSetSnoc(d, names);
  }

  // ---------------------------------------------------------------------------
  // The destination comparison

  /** A rendered clean path is its own cleaning, so it never equals a destination
      that is not clean. */
  lemma RenderNeverUnclean(p: Path, destination: string)
    requires IsClean(p) && destination != Clean(destination)
    ensures Render(p) != destination
  {
    ParseRender(p);
  }

  lemma UnderClean(d: Path, names: seq<string>, k: nat)
    requires IsClean(d) && DirNames(names) && k <= |names|
    ensures IsClean(Under(d, names, k))
  {
    CleanNames(d.rooted, d.elems, names[..k]);
  }

  lemma UnderShift(d: Path, last: string, names: seq<string>, k: nat)
    requires d.elems != [] && last == d.elems[|d.elems| - 1] && 1 <= k <= |names| + 1
    ensures Under(Parent(d), [last] + names, k) == Under(d, names, k - 1)
  {
    assert ([last] + names)[..k] == [last] + names[..k - 1];
    assert Parent(d).elems + [last] == d.elems;
  }

  /** No directory at or below a clean `d` renders as an unclean destination. */
  lemma NeverUncleanBelow(d: Path, names: seq<string>, destination: string)
    requires IsClean(d) && DirNames(names) && destination != Clean(destination)
    ensures forall k :: 0 <= k <= |names| ==> Render(Under(d, names, k)) != destination
  {
    forall k | 0 <= k <= |names| ensures Render(Under(d, names, k)) != destination {
      UnderClean(d, names, k);
      RenderNeverUnclean(Under(d, names, k), destination);
    }
  }

  /** Seen from the parent of `d`, the chain below `d` starts one step higher. */
  lemma ShiftedChain(fs: Fs, d: Path, names: seq<string>, destination: string)
    requires IsClean(d) && d.elems != [] && destination != Clean(destination)
    requires DirNames([d.elems[|d.elems| - 1]] + names)
    ensures DirNames(names)
    ensures NoDestBelow(RendersAs(destination), Parent(d), [d.elems[|d.elems| - 1]] + names)
    ensures Under(Parent(d), [d.elems[|d.elems| - 1]] + names, |names| + 1) == Under(d, names, |names|)
    ensures Under(Parent(d), [d.elems[|d.elems| - 1]] + names, 1) == d
  {
    var last := d.elems[|d.elems| - 1];
    var all := [last] + names;
    assert DirNames(names) by {
      forall i | 0 <= i < |names| ensures IsName(names[i]) && names[i] != IndexName {
        assert names[i] == all[i + 1];
      }
    }
    NeverUncleanBelow(d, names, destination);
    forall k | 1 <= k <= |all| ensures Render(Under(Parent(d), all, k)) != destination {
      UnderShift(d, last, names, k);
    }
    UnderShift(d, last, names, |all|);
    UnderShift(d, last, names, 1);
    assert Under(d, names, 0) == d;
  }

  /** As written, a destination that is not already clean (such as
      "./content/reference") is never recognised: the climb from a fresh directory
      below it goes on past it and writes a section file in the destination itself. */
  lemma OvershootAsWritten(fs: Fs, destination: string, names: seq<string>)
    requires destination != Clean(destination)
    requires Parse(destination).elems != []
    requires DirNames([Parse(destination).elems[|Parse(destination).elems| - 1]] + names)
    requires Fresh(fs, Parent(Parse(destination)), [Parse(destination).elems[|Parse(destination).elems| - 1]] + names)
    ensures IndexFile(Parse(destination)) in
              CreateIndex(fs, destination, Render(Under(Parse(destination), names, |names|))).files
  {
    var d := Parse(destination);
    var all := [d.elems[|d.elems| - 1]] + names;
    ShiftedChain(fs, d, names, destination);
    UnderClean(d, names, |names|);
    ParseRender(Under(d, names, |names|));
    FreshChain(fs, RendersAs(destination), Parent(d), all);
  }

  /** With cleaned paths compared, the climb from a fresh directory below the
      destination writes exactly one section file per directory strictly below the
      destination, each titled with its directory's name. */
  lemma FixedStopsAtDestination(fs: Fs, destination: string, names: seq<string>)
    requires DirNames(names) && Fresh(fs, Parse(destination), names)
    ensures var r := CreateIndexFixed(fs, destination, Render(Under(Parse(destination), names, |names|)));
            && Wrote(r, Parse(destination), names)
            && r.files.Keys == fs.files.Keys + IndexSet(Parse(destination), names)
            && (IndexFile(Parse(destination)) in r.files <==> IndexFile(Parse(destination)) in fs.files)
  {
    var d := Parse(destination);
    var atDest := CleansTo(destination);
    forall k | 1 <= k <= |names| ensures !atDest(Under(d, names, k)) {
      assert |Under(d, names, k).elems| > |d.elems|;
    }
    UnderClean(d, names, |names|);
    ParseRender(Under(d, names, |names|));
    FreshChain(fs, atDest, d, names);
    assert IndexFile(d) !in IndexSet(d, names) by {
      forall k | 1 <= k <= |names| ensures IndexFile(Under(d, names, k)) != IndexFile(d) {
        assert |Under(d, names, k).elems| > |d.elems|;
      }
    }
  }

  /** For a clean destination the comparison as written gives the same climb. */
  lemma CleanDestinationStops(fs: Fs, d: Path, names: seq<string>)
    requires IsClean(d) && DirNames(names) && Fresh(fs, d, names)
    ensures var r := CreateIndex(fs, Render(d), Render(Under(d, names, |names|)));
            && Wrote(r, d, names)
            && r.files.Keys == fs.files.Keys + IndexSet(d, names)
  {
    var atDest := RendersAs(Render(d));
    forall k | 1 <= k <= |names| ensures !atDest(Under(d, names, k)) {
      UnderClean(d, names, k);
      RenderInjective(Under(d, names, k), d);
      assert |Under(d, names, k).elems| > |d.elems|;
    }
    assert Under(d, names, 0) == d;
    UnderClean(d, names, |names|);
    ParseRender(Under(d, names, |names|));
    FreshChain(fs, atDest, d, names);
  }

  /** Dropping the last element keeps a path clean. */
  lemma ParentClean(p: Path)
    requires IsClean(p)
    ensures IsClean(Parent(p))
  {
    var q := Parent(p);
    assert forall i :: 0 <= i < |q.elems| ==> q.elems[i] == p.elems[i];
  }

  /** Two stopping tests that agree on every clean path give the same climb from a
      clean path. */
  lemma {:induction false} SameStop(fs: Fs, a: Path -> bool, b: Path -> bool, p: Path)
    requires IsClean(p)
    requires forall q :: IsClean(q) ==> a(q) == b(q)
    ensures CreateIndexFrom(fs, a, p) == CreateIndexFrom(fs, b, p)
    decreases |p.elems|, if Exists(fs, IndexFile(p)) then 0 else 1
  {
    if !a(p) && !Exists(fs, IndexFile(p)) {
      var fs1 := Section(fs, p);
      assert Parent(IndexFile(p)) == p;
      ParentClean(p);
      SameStop(fs1, a, b, Parent(p));
      assert CreateIndexFrom(fs, a, p) == CreateIndexFrom(fs1, a, Parent(p));
      assert CreateIndexFrom(fs, b, p) == CreateIndexFrom(fs1, b, Parent(p));
    }
  }

  /** With a destination that is already clean (".", "out", "/a/b", but not "./out"
      or "out/"), `createIndex` as written climbs exactly as the corrected one, on
      every path. */
  lemma CleanDestinationAgrees(fs: Fs, destination: string, path: string)
    requires Clean(destination) == destination
    ensures CreateIndex(fs, destination, path) == CreateIndexFixed(fs, destination, path)
  {
    forall q | IsClean(q) ensures RendersAs(destination)(q) == CleansTo(destination)(q) {
      RenderInjective(q, Parse(destination));
    }
    SameStop(fs, RendersAs(destination), CleansTo(destination), Parse(path));
  }

  // ---------------------------------------------------------------------------
  // Examples

  /** A relative path of names parses to those names. */
  lemma ParseNames(names: seq<string>)
    requires names != [] && AllNames(names)
    ensures Parse(Join(names, '/')) == Path(false, names)
    ensures Render(Path(false, names)) == Join(names, '/')
  {
    SplitJoin(names, '/');
    JoinHead(names);
    ResolveClean([], false, names);
  }

  /** A leading "./" is dropped. */
  lemma ParseDotNames(names: seq<string>)
    requires names != [] && AllNames(names)
    ensures Parse(Join(["."] + names, '/')) == Path(false, names)
  {
    var raw := ["."] + names;
    SplitJoin(raw, '/');
    JoinHead(raw);
    assert raw[1..] == names;
    assert Resolve([], false, raw) == Resolve([], false, names);
    ResolveClean([], false, names);
  }

  lemma Join3(a: string, b: string, c: string)
    ensures Join([a, b], '/') == a + ['/'] + b
    ensures Join([a, b, c], '/') == a + ['/'] + b + ['/'] + c
  {
    assert [a, b, c][1..] == [b, c];
    assert [b, c][1..] == [c];
    assert [a, b][1..] == [b];
    assert Join([b, c], '/') == b + ['/'] + c;
    assert Join([a, b, c], '/') == a + ['/'] + Join([b, c], '/');
  }

  /** "./a/b" is not clean, and cleans to a/b. */
  lemma DotDestination(a: string, b: string)
    requires IsName(a) && IsName(b)
    ensures Parse("./" + a + "/" + b) == Path(false, [a, b])
    ensures Clean("./" + a + "/" + b) != "./" + a + "/" + b
  {
    Join3(".", a, b);
    Join3(a, b, b);
    assert "./" + a + "/" + b == Join([".", a, b], '/');
    ParseDotNames([a, b]);
    ParseNames([a, b]);
  }

  lemma ThreeNames(a: string, b: string, c: string)
    requires IsName(a) && IsName(b) && IsName(c)
    ensures a + "/" + b + "/" + c == Render(Under(Path(false, [a, b]), [c], 1))
  {
    Join3(a, b, c);
    assert Under(Path(false, [a, b]), [c], 1) == Path(false, [a, b, c]);
    ParseNames([a, b, c]);
  }

  /** The climb from "a/b/c" with destination "./a/b" writes a section file in a/b. */
  lemma OvershootExample(a: string, b: string, c: string)
    requires DirNames([a, b, c])
    ensures IndexFile(Path(false, [a, b])) in
              CreateIndex(Fs({}, map[]), "./" + a + "/" + b, a + "/" + b + "/" + c).files
  {
    assert [a, b, c][0] == a && [a, b, c][1] == b && [a, b, c][2] == c;
    DotDestination(a, b);
    ThreeNames(a, b, c);
    assert DirNames([b, c]) by { assert [b, c][0] == b && [b, c][1] == c; }
    OvershootAsWritten(Fs({}, map[]), "./" + a + "/" + b, [c]);
  }

  /** The finding on a destination of the shape the configuration examples use. */
  lemma OvershootContentReference(destination: string, path: string)
    requires destination == "./content/reference" && path == "content/reference/x"
    ensures IndexFile(Path(false, ["content", "reference"])) in CreateIndex(Fs({}, map[]), destination, path).files
  {
    var a, b, c := "content", "reference", "x";
    ContentReferenceNames(a, b, c);
    assert destination == "./" + a + "/" + b;
    assert path == a + "/" + b + "/" + c;
    OvershootExample(a, b, c);
  }

  lemma ContentReferenceNames(a: string, b: string, c: string)
    requires a == "content" && b == "reference" && c == "x"
    ensures DirNames([a, b, c])
  {
    assert IsName(a) && a != IndexName;
    assert IsName(b) && b != IndexName;
    assert IsName(c) && c != IndexName;
    assert [a, b, c][0] == a && [a, b, c][1] == b && [a, b, c][2] == c;
  }

  lemma NestedPaths(a: string, b: string, c: string, e: string)
    ensures var d, names := Path(true, [a]), [b, c, e];
            && Render(d) == "/" + a
            && Render(Under(d, names, 3)) == "/" + a + "/" + b + "/" + c + "/" + e
            && IndexSet(d, names) == {IndexFile(Path(true, [a, b])), IndexFile(Path(true, [a, b, c])), IndexFile(Path(true, [a, b, c, e]))}
  {
    NestedRender(a, b, c, e);
    NestedIndexSet(a, b, c, e);
  }

  lemma NestedRender(a: string, b: string, c: string, e: string)
    ensures Render(Path(true, [a])) == "/" + a
    ensures Render(Under(Path(true, [a]), [b, c, e], 3)) == "/" + a + "/" + b + "/" + c + "/" + e
  {
    assert Under(Path(true, [a]), [b, c, e], 3) == Path(true, [a, b, c, e]);
    assert [a, b, c, e][1..] == [b, c, e];
    assert Join([a, b, c, e], '/') == a + ['/'] + Join([b, c, e], '/');
    Join3(b, c, e);
  }

  lemma NestedIndexSet(a: string, b: string, c: string, e: string)
    ensures IndexSet(Path(true, [a]), [b, c, e]) ==
              {IndexFile(Path(true, [a, b])), IndexFile(Path(true, [a, b, c])), IndexFile(Path(true, [a, b, c, e]))}
  {
    var d, names := Path(true, [a]), [b, c, e];
    assert Under(d, names, 1) == Path(true, [a, b]);
    assert Under(d, names, 2) == Path(true, [a, b, c]);
    assert Under(d, names, 3) == Path(true, [a, b, c, e]);
  }

  /** The converter's test: with destination "/a", the path "/a/b/c/d" gets section
      files in /a/b/c/d, /a/b/c and /a/b, and in nothing else. */
  lemma CreateIndexNested(a: string, b: string, c: string, e: string)
    requires DirNames([b, c, e]) && IsName(a)
    ensures var r := CreateIndex(Fs({}, map[]), "/" + a, "/" + a + "/" + b + "/" + c + "/" + e);
            && r.files.Keys == {IndexFile(Path(true, [a, b])), IndexFile(Path(true, [a, b, c])), IndexFile(Path(true, [a, b, c, e]))}
            && r.files[IndexFile(Path(true, [a, b]))] == FrontMatter(b)
            && r.files[IndexFile(Path(true, [a, b, c]))] == FrontMatter(c)
            && r.files[IndexFile(Path(true, [a, b, c, e]))] == FrontMatter(e)
  {
    var d := Path(true, [a]);
    var names := [b, c, e];
    assert IsClean(d);
    NestedPaths(a, b, c, e);
    CleanDestinationStops(Fs({}, map[]), d, names);
    assert Under(d, names, 1) == Path(true, [a, b]);
    assert Under(d, names, 2) == Path(true, [a, b, c]);
    assert Under(d, names, 3) == Path(true, [a, b, c, e]);
  }
}
