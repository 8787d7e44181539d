/** The conversion driver (pkg/markdown/converter.go): `Convert` and
    `convertToMarkdown`, over compiled schemas, with the filesystem of `createIndex`.

    Compiling, template execution and the filesystem calls other than those of
    `createIndex` are outside the model: the compiled schemas arrive as a graph and
    a list of roots, and rendering is a parameter that yields a page's text or fails. */
module Converter {
  import opened Wrappers
  import opened Strings
  import opened FilePaths
  import opened SchemaGraph
  import opened Naming
  import opened IndexFiles

  /** What a conversion run works with: the compiled schemas, the `Destination`
      option, `strcase.ToKebab`, and the template, which renders a schema's page or
      fails. */
  datatype Setup = Setup(
    graph: Graph,
    destination: string,
    kebab: string -> string,
    render: Schema -> Option<string>)

  /** A page written: the schema and the name it was written under, which fix its
      file. */
  datatype Page = Page(schema: Schema, name: string)

  /** The filesystem, the `converted` set, and the pages written so far, in order. */
  datatype State = State(fs: Fs, converted: set<string>, pages: seq<Page>)

  /** The name of a root schema's page, which makes it its directory's section page. */
  const RootName: string := "_index"

  /** The extension of every page. */
  const PageExt: string := ".md"

  /** `filepath.Join(Destination, FilePath(location))`. */
  function PageDirString(su: Setup, location: string): string {
    JoinPath([su.destination, FilePath(su.kebab, location)])
  }

  /** The directory a schema's page goes to. */
  function PageDir(su: Setup, location: string): Path {
    Parse(PageDirString(su, location))
  }

  /** The file a page named `name` for `location` is written to. */
  function PageFile(su: Setup, name: string, location: string): Path {
    Child(PageDir(su, location), name + PageExt)
  }

  /** The `Title` of the schema at `location`; a missing schema has none. */
  function TitleOf(g: Graph, location: string): string {
    if location in g then g[location].title else ""
  }

  /** A destination `os.RemoveAll` leaves alone: "" is skipped without an error, and
      "." or a path ending in "/." is refused with `EINVAL` (`rmdir` cannot remove
      "."). `Clean` returns that error and `Convert` ignores it. */
  predicate KeptByRemoveAll(destination: string) {
    || destination == ""
    || destination == "."
    || (|destination| >= 2 && destination[|destination| - 1] == '.' && destination[|destination| - 2] == '/')
  }

  /** `Clean`: everything at or below the destination is removed, unless `os.RemoveAll`
      refuses the destination as spelled, in which case nothing changes. */
  function RemoveDestination(fs: Fs, destination: string): (r: Fs)
    ensures KeptByRemoveAll(destination) ==> r == fs
    ensures !KeptByRemoveAll(destination) ==>
              && (forall q :: q in r.files <==> q in fs.files && !Below(Parse(destination), q))
              && (forall q :: q in r.files ==> r.files[q] == fs.files[q])
              && (forall q :: q in r.dirs <==> q in fs.dirs && !Below(Parse(destination), q))
  {
    if KeptByRemoveAll(destination) then fs
    else
      var d := Parse(destination);
      Fs(set q | q in fs.dirs && !Below(d, q), map q | q in fs.files && !Below(d, q) :: fs.files[q])
  }

  /** `convertToMarkdown`: make the sections down to the page's directory, write the
      page there as `name`.md, and mark the schema converted. A template error ends
      the run with the schema it failed on. */
  function ConvertToMarkdown(su: Setup, st: State, name: string, s: Schema): (r: Result<State, Schema>)
    ensures r.Failure? <==> su.render(s).None?
    ensures r.Failure? ==> r.error == s
    ensures r.Success? ==>
              && r.value.converted == st.converted + {s.location}
              && r.value.pages == st.pages + [Page(s, name)]
  {
    var dir := PageDirString(su, s.location);
    var fs1 := CreateIndexFixed(st.fs, su.destination, dir);
    match su.render(s)
    case None => Failure(s)
    case Some(text) =>
      var file := PageFile(su, name, s.location);
      Success(State(WriteFile(fs1, file, text), st.converted + {s.location}, st.pages + [Page(s, name)]))
  }

  /** The page is written with the template's text, in a directory that is a section
      (or the destination itself); nothing already there disappears. */
  lemma ConvertToMarkdownWrites(su: Setup, st: State, name: string, s: Schema)
    ensures var r := ConvertToMarkdown(su, st, name, s);
            r.Success? ==>
              && PageFile(su, name, s.location) in r.value.fs.files
              && r.value.fs.files[PageFile(su, name, s.location)] == su.render(s).value
              && IndexReady(su, r.value.fs, s.location)
              && st.fs.dirs <= r.value.fs.dirs && st.fs.files.Keys <= r.value.fs.files.Keys
  {
  }

  /** With a destination that is already clean (the default "." among them), each
      step is the step of the source as written, whose `createIndex` compares the
      cleaned path with `Destination` as given; so is then every run built from them. */
  lemma AsWrittenWhenClean(su: Setup, st: State, name: string, s: Schema)
    requires Clean(su.destination) == su.destination
    ensures var r := ConvertToMarkdown(su, st, name, s);
            r.Success? ==>
              r.value.fs == WriteFile(CreateIndex(st.fs, su.destination, PageDirString(su, s.location)),
                                      PageFile(su, name, s.location), su.render(s).value)
  {
    CleanDestinationAgrees(st.fs, su.destination, PageDirString(su, s.location));
  }

  /** The command line's default destination "." is already clean, and
      `os.RemoveAll` refuses it. */
  lemma DefaultDestination()
    ensures Clean(".") == "." && KeptByRemoveAll(".")
  {
    var d := ".";
    assert Split(d, '/') == [d];
    assert Parse(d) == Path(false, []);
  }

  /** The loop over one root's definitions: a location already converted is skipped;
      any other is written under its `FileName`. */
  function ConvertDefinitions(su: Setup, st: State, defs: seq<Schema>): (r: Result<State, Schema>)
    ensures r.Failure? ==> su.render(r.error).None? && r.error in defs
    decreases |defs|
  {
    if defs == [] then Success(st)
    else
      var d := defs[0];
      if d.location in st.converted then ConvertDefinitions(su, st, defs[1..])
      else
        var name := FileName(su.kebab, TitleOf(su.graph, d.location), d.location);
        var st1 :- ConvertToMarkdown(su, st, name, d);
        ConvertDefinitions(su, st1, defs[1..])
  }

  /** A slug is never the root page's name, which has a '_'. */
  lemma NotRootName(name: string)
    requires IsSlug(name)
    ensures name != RootName
  {
    assert !SlugChars(RootName) by {
      assert RootName[0] == '_';
    }
  }

  /** The schemas of the root pages, in order. */
  function RootPages(pages: seq<Page>): seq<Schema> {
    if pages == [] then []
    else (if pages[0].name == RootName then [pages[0].schema] else []) + RootPages(pages[1..])
  }

  lemma {:induction false} RootPagesAppend(a: seq<Page>, b: seq<Page>)
    ensures RootPages(a + b) == RootPages(a) + RootPages(b)
  {
    if a == [] {
      assert a + b == b;
    } else {
      var head := if a[0].name == RootName then [a[0].schema] else [];
      assert (a + b)[0] == a[0];
      assert (a + b)[1..] == a[1..] + b;
      assert RootPages(a + b) == head + RootPages(a[1..] + b);
      assert RootPages(a) == head + RootPages(a[1..]);
      RootPagesAppend(a[1..], b);
    }
  }

  lemma {:induction false} NoRootPages(pages: seq<Page>)
    requires NoRootPage(pages)
    ensures RootPages(pages) == []
  {
    if pages != [] {
      assert forall i :: 0 <= i < |pages[1..]| ==> pages[1..][i] == pages[i + 1];
      NoRootPages(pages[1..]);
    }
  }

  /** The loop over the root schemas: the root's page, then its definitions. */
  function ConvertRoots(su: Setup, st: State, roots: seq<Schema>): (r: Result<State, Schema>)
    ensures r.Failure? ==> su.render(r.error).None?
    decreases |roots|
  {
    if roots == [] then Success(st)
    else
      var st1 :- ConvertRound(su, st, roots[0]);
      ConvertRoots(su, st1, roots[1..])
  }

  /** One round of the roots loop: the root's definitions are collected, then the
      root's page is written, then the definitions loop runs. */
  function ConvertRound(su: Setup, st: State, root: Schema): (r: Result<State, Schema>)
    ensures r.Failure? ==> su.render(r.error).None?
  {
    var defs := Definitions(su.graph, root);
    var st1 :- ConvertToMarkdown(su, st, RootName, root);
    ConvertDefinitions(su, st1, defs)
  }

  /** None of `pages` is a root page. */
  predicate NoRootPage(pages: seq<Page>) {
    forall i :: 0 <= i < |pages| ==> pages[i].name != RootName
  }

  lemma NoRootPageCons(all: seq<Page>, n: nat, p: Page)
    requires n < |all| && all[n] == p && p.name != RootName && NoRootPage(all[n + 1..])
    ensures NoRootPage(all[n..])
  {
    forall i | 0 <= i < |all[n..]| ensures all[n..][i].name != RootName {
      if i > 0 {
        assert all[n..][i] == all[n + 1..][i - 1];
      }
    }
  }

  /** A definition page followed by definition pages only. */
  lemma SnocNoRoot(pages: seq<Page>, p: Page, all: seq<Page>)
    requires p.name != RootName
    requires pages + [p] <= all && NoRootPage(all[|pages| + 1..])
    ensures pages <= all && NoRootPage(all[|pages|..])
  {
    NoRootPageCons(all, |pages|, p);
  }

  /** The definitions loop appends only definition pages. */
  lemma {:induction false} DefinitionsPages(su: Setup, st: State, defs: seq<Schema>)
    ensures var r := ConvertDefinitions(su, st, defs);
            r.Success? ==> st.pages <= r.value.pages && NoRootPage(r.value.pages[|st.pages|..])
    decreases |defs|
  {
    var r := ConvertDefinitions(su, st, defs);
    if defs == [] {
      assert r.value.pages[|st.pages|..] == [];
    } else {
      var d := defs[0];
      if d.location in st.converted {
        assert r == ConvertDefinitions(su, st, defs[1..]);
        DefinitionsPages(su, st, defs[1..]);
      } else {
        var name := FileName(su.kebab, TitleOf(su.graph, d.location), d.location);
        NotRootName(name);
        var r1 := ConvertToMarkdown(su, st, name, d);
        if r1.Success? {
          assert r == ConvertDefinitions(su, r1.value, defs[1..]);
          DefinitionsPages(su, r1.value, defs[1..]);
          if r.Success? {
            SnocNoRoot(st.pages, Page(d, name), r.value.pages);
          }
        } else {
          assert r.Failure?;
        }
      }
    }
  }

  /** After the definitions loop every one of `defs` is converted, and nothing
      converted before has been forgotten. */
  lemma {:induction false} DefinitionsConverted(su: Setup, st: State, defs: seq<Schema>)
    ensures var r := ConvertDefinitions(su, st, defs);
            r.Success? ==>
              && st.converted <= r.value.converted
              && (forall x :: x in defs ==> x.location in r.value.converted)
    decreases |defs|
  {
    if defs != [] {
      var d := defs[0];
      assert forall x :: x in defs ==> x == d || x in defs[1..];
      if d.location in st.converted {
        assert ConvertDefinitions(su, st, defs) == ConvertDefinitions(su, st, defs[1..]);
        DefinitionsConverted(su, st, defs[1..]);
      } else {
        var name := FileName(su.kebab, TitleOf(su.graph, d.location), d.location);
        var r1 := ConvertToMarkdown(su, st, name, d);
        if r1.Success? {
          assert ConvertDefinitions(su, st, defs) == ConvertDefinitions(su, r1.value, defs[1..]);
          DefinitionsConverted(su, r1.value, defs[1..]);
        }
      }
    }
  }

  /** The roots loop writes the roots' pages in order, each followed by definition
      pages only. */
  lemma {:induction false} RootsPages(su: Setup, st: State, roots: seq<Schema>)
    ensures var r := ConvertRoots(su, st, roots);
            r.Success? ==> st.pages <= r.value.pages && RootPages(r.value.pages[|st.pages|..]) == roots
    decreases |roots|
  {
    var r := ConvertRoots(su, st, roots);
    if roots == [] {
      assert r.value.pages[|st.pages|..] == [];
      assert RootPages([]) == [];
    } else {
      var r1 := ConvertRound(su, st, roots[0]);
      RoundPagesAppended(su, st, roots[0]);
      if r1.Success? {
        assert r == ConvertRoots(su, r1.value, roots[1..]);
        RootsPages(su, r1.value, roots[1..]);
        if r.Success? {
          RoundStep(st.pages, r1.value.pages, r.value.pages, roots);
        }
      } else {
        assert r.Failure?;
      }
    }
  }

  /** A round appends the root's page and then definition pages only. */
  lemma RoundPagesAppended(su: Setup, st: State, root: Schema)
    ensures var r := ConvertRound(su, st, root);
            r.Success? ==> st.pages + [Page(root, RootName)] <= r.value.pages && NoRootPage(r.value.pages[|st.pages| + 1..])
  {
    var r1 := ConvertToMarkdown(su, st, RootName, root);
    if r1.Success? {
      DefinitionsPages(su, r1.value, Definitions(su.graph, root));
    }
  }

  /** After the roots loop every definition of every root is converted, and nothing
      converted before has been forgotten. */
  lemma {:induction false} RootsConverted(su: Setup, st: State, roots: seq<Schema>)
    ensures var r := ConvertRoots(su, st, roots);
            r.Success? ==>
              && st.converted <= r.value.converted
              && (forall x :: x in roots ==> Covered(su.graph, x, r.value.converted))
    decreases |roots|
  {
    if roots != [] {
      var r := ConvertRoots(su, st, roots);
      var r1 := ConvertRound(su, st, roots[0]);
      RoundConverts(su, st, roots[0]);
      if r1.Success? {
        assert r == ConvertRoots(su, r1.value, roots[1..]);
        RootsConverted(su, r1.value, roots[1..]);
        if r.Success? {
          CoveredMono(su.graph, roots[0], r1.value.converted, r.value.converted);
          assert forall x :: x in roots ==> x == roots[0] || x in roots[1..];
        }
      }
    }
  }

  /** Every definition of `root` has its location in `converted`. */
  predicate Covered(g: Graph, root: Schema, converted: set<string>) {
    forall x :: x in Definitions(g, root) ==> x.location in converted
  }

  lemma CoveredMono(g: Graph, root: Schema, c1: set<string>, c: set<string>)
    requires c1 <= c && Covered(g, root, c1)
    ensures Covered(g, root, c)
  {
    forall x | x in Definitions(g, root) ensures x.location in c {
      assert x.location in c1;
    }
  }

  /** A round converts the root's definitions and forgets nothing. */
  lemma RoundConverts(su: Setup, st: State, root: Schema)
    ensures var r := ConvertRound(su, st, root);
            r.Success? ==>
              && st.converted <= r.value.converted
              && Covered(su.graph, root, r.value.converted)
  {
    var r1 := ConvertToMarkdown(su, st, RootName, root);
    if r1.Success? {
      DefinitionsConverted(su, r1.value, Definitions(su.graph, root));
    }
  }

  /** A round appends the root's page and then definition pages only, so the
      roots of everything appended are the root and then those of later rounds. */
  lemma RoundStep(pages: seq<Page>, pages2: seq<Page>, all: seq<Page>, roots: seq<Schema>)
    requires roots != []
    requires pages + [Page(roots[0], RootName)] <= pages2
    requires NoRootPage(pages2[|pages| + 1..])
    requires pages2 <= all && RootPages(all[|pages2|..]) == roots[1..]
    ensures pages <= all && RootPages(all[|pages|..]) == roots
  {
    assert all[|pages| + 1..|pages2|] == pages2[|pages| + 1..];
    RoundPages(all, |pages|, |pages2|, roots[0], roots[1..]);
    assert [roots[0]] + roots[1..] == roots;
  }

  /** One round's pages: the root's page, then pages that are not root pages, then
      the later rounds. */
  lemma RoundPages(all: seq<Page>, n0: nat, n2: nat, root: Schema, rest: seq<Schema>)
    requires n0 < n2 <= |all|
    requires all[n0].name == RootName && all[n0].schema == root
    requires NoRootPage(all[n0 + 1..n2])
    requires RootPages(all[n2..]) == rest
    ensures RootPages(all[n0..]) == [root] + rest
  {
    assert all[n0..] == [all[n0]] + all[n0 + 1..n2] + all[n2..];
    RootPagesAppend([all[n0]] + all[n0 + 1..n2], all[n2..]);
    RootPagesAppend([all[n0]], all[n0 + 1..n2]);
    NoRootPages(all[n0 + 1..n2]);
    assert [all[n0]][1..] == [];
  }

  /** The locations of the roots. */
  function RootLocations(roots: seq<Schema>): set<string> {
    set r | r in roots :: r.location
  }

  /** `Convert` from the compiled schemas on: clear the destination, mark every root
      converted, then convert each root and its definitions. */
  function Convert(su: Setup, fs: Fs, roots: seq<Schema>): (r: Result<State, Schema>)
    ensures r.Failure? ==> su.render(r.error).None?
  {
    var start := State(RemoveDestination(fs, su.destination), RootLocations(roots), []);
    ConvertRoots(su, start, roots)
  }

  // ---------------------------------------------------------------------------
  // Where pages go

  /** `filepath.Join(a, "")` cleans `a`. */
  lemma JoinEmpty(a: string)
    ensures Parse(JoinPath([a, ""])) == Parse(a)
  {
    if a == "" {
      assert JoinPath([a, ""]) == JoinPath([""]) == JoinPath([]);
    } else {
      assert Join([a, ""], '/') == a + ['/'];
      ParseRender(Parse(a + ['/']));
      ParseTrailingSlash(a);
    }
  }

  /** A string without '/' splits into itself. */
  lemma SplitWhole(s: string)
    requires '/' !in s
    ensures Split(s, '/') == [s]
  {
  }

  /** `FilePath` is empty or a relative path of plain names. */
  lemma FilePathNames(kebab: string -> string, location: string)
    ensures var b := FilePath(kebab, location);
            b == "" || AllNames(Split(b, '/'))
  {
    if '#' in location {
      FilePathShape(kebab, location);
      ShapeNames(FileStemSlug(kebab, location), FilePath(kebab, location));
    }
  }

  lemma ShapeNames(root: string, b: string)
    requires IsSlug(root)
    requires (root != "" && b == root + "/" + DefinitionsDir) || b == DefinitionsDir || b == root
    ensures b == "" || AllNames(Split(b, '/'))
  {
    DefinitionsDirIsName();
    if root != "" {
      SlugIsName(root);
    }
    TwoNames(root, DefinitionsDir, b);
  }

  lemma TwoNames(a: string, c: string, b: string)
    requires IsName(c) && Split(c, '/') == [c]
    requires a == "" || IsName(a)
    requires (a != "" && b == a + "/" + c) || b == c || b == a
    ensures b == "" || AllNames(Split(b, '/'))
  {
    if a != "" {
      SplitWhole(a);
      if b == a + "/" + c {
        assert b == a + ['/'] + c;
        SplitCons(a, '/', c);
      }
    }
  }

  /** Every page directory is the destination or lies below it. */
  lemma PageDirBelow(su: Setup, location: string)
    ensures Below(Parse(su.destination), PageDir(su, location))
  {
    var b := FilePath(su.kebab, location);
    FilePathNames(su.kebab, location);
    if b == "" {
      JoinEmpty(su.destination);
    } else {
      JoinNames(su.destination, b);
    }
  }

  /** The page's file is `filepath.Join` of its directory and `name`.md. */
  lemma PageFileJoin(su: Setup, name: string, location: string)
    requires '/' !in name
    ensures Parse(JoinPath([PageDirString(su, location), name + PageExt])) == PageFile(su, name, location)
  {
    var f := name + PageExt;
    assert f[|f| - 1] == 'd';
    assert '/' !in f;
    SplitWhole(f);
    JoinNames(PageDirString(su, location), f);
  }

  // ---------------------------------------------------------------------------
  // What a run keeps true

  function PageLocations(pages: seq<Page>): set<string> {
    set p | p in pages :: p.schema.location
  }

  function PageFiles(su: Setup, pages: seq<Page>): set<Path> {
    set p | p in pages :: PageFile(su, p.name, p.schema.location)
  }

  /** The `converted` set is the roots and the pages written; a root's page is for a
      root, and a definition's page is for a location that is neither a root nor any
      earlier page. */
  predicate Bookkept(rootLocs: set<string>, st: State) {
    && st.converted == rootLocs + PageLocations(st.pages)
    && RootPagesForRoots(rootLocs, st.pages)
    && DefinitionPagesFresh(rootLocs, st.pages)
  }

  predicate RootPagesForRoots(rootLocs: set<string>, pages: seq<Page>) {
    forall i :: 0 <= i < |pages| && pages[i].name == RootName ==> pages[i].schema.location in rootLocs
  }

  predicate DefinitionPagesFresh(rootLocs: set<string>, pages: seq<Page>) {
    forall i :: 0 <= i < |pages| && pages[i].name != RootName ==>
      && pages[i].schema.location !in rootLocs
      && forall j :: 0 <= j < i ==> pages[j].schema.location != pages[i].schema.location
  }

  /** The section file of a page's directory exists, unless that directory is the
      destination. */
  predicate IndexReady(su: Setup, fs: Fs, location: string) {
    PageDir(su, location) == Parse(su.destination) || Exists(fs, IndexFile(PageDir(su, location)))
  }

  /** Every page is in its file, in its directory, and that directory is a section. */
  predicate Placed(su: Setup, st: State) {
    forall i :: 0 <= i < |st.pages| ==>
      && PageFile(su, st.pages[i].name, st.pages[i].schema.location) in st.fs.files
      && IndexReady(su, st.fs, st.pages[i].schema.location)
  }

  /** Below the destination there are only pages and section files. */
  predicate OnlyOutput(su: Setup, st: State) {
    forall q :: q in st.fs.files && Below(Parse(su.destination), q) ==>
      q in PageFiles(su, st.pages) || IsIndexOf(q, st.fs.files[q])
  }

  /** Outside `d`, `fs` has the files of `fs0`, with their contents. */
  ghost predicate Outside(d: Path, fs0: Fs, fs: Fs) {
    forall q :: (q in fs.files || q in fs0.files) && !Below(d, q) ==>
      q in fs.files && q in fs0.files && fs.files[q] == fs0.files[q]
  }

  ghost predicate Inv(su: Setup, rootLocs: set<string>, fs0: Fs, st: State) {
    && Bookkept(rootLocs, st)
    && Placed(su, st)
    && (!KeptByRemoveAll(su.destination) ==> OnlyOutput(su, st))
    && Outside(Parse(su.destination), fs0, st.fs)
  }

  lemma LocationsSnoc(pages: seq<Page>, p: Page)
    ensures PageLocations(pages + [p]) == PageLocations(pages) + {p.schema.location}
  {
    assert forall x :: x in pages + [p] <==> x in pages || x == p;
  }

  lemma PagesSnoc(su: Setup, pages: seq<Page>, p: Page)
    ensures PageLocations(pages + [p]) == PageLocations(pages) + {p.schema.location}
    ensures PageFiles(su, pages + [p]) == PageFiles(su, pages) + {PageFile(su, p.name, p.schema.location)}
  {
    assert forall x :: x in pages + [p] <==> x in pages || x == p;
  }

  lemma RootPagesSnoc(rootLocs: set<string>, pages: seq<Page>, p: Page)
    requires RootPagesForRoots(rootLocs, pages)
    requires p.name == RootName ==> p.schema.location in rootLocs
    ensures RootPagesForRoots(rootLocs, pages + [p])
  {
    assert forall i :: 0 <= i < |pages| ==> (pages + [p])[i] == pages[i];
  }

  lemma FreshSnoc(rootLocs: set<string>, pages: seq<Page>, p: Page)
    requires DefinitionPagesFresh(rootLocs, pages)
    requires p.name != RootName ==> p.schema.location !in rootLocs + PageLocations(pages)
    ensures DefinitionPagesFresh(rootLocs, pages + [p])
  {
    var all := pages + [p];
    forall i | 0 <= i < |all| && all[i].name != RootName
      ensures all[i].schema.location !in rootLocs
      ensures forall j :: 0 <= j < i ==> all[j].schema.location != all[i].schema.location
    {
      if i == |pages| {
        forall j | 0 <= j < i ensures all[j].schema.location != all[i].schema.location {
          assert all[j] == pages[j] && pages[j] in pages;
        }
      } else {
        assert all[i] == pages[i];
        assert forall j :: 0 <= j < i ==> all[j] == pages[j];
      }
    }
  }

  lemma BookkeptSnoc(rootLocs: set<string>, st: State, fs: Fs, p: Page)
    requires Bookkept(rootLocs, st)
    requires p.name == RootName ==> p.schema.location in rootLocs
    requires p.name != RootName ==> p.schema.location !in st.converted
    ensures Bookkept(rootLocs, State(fs, st.converted + {p.schema.location}, st.pages + [p]))
  {
    LocationsSnoc(st.pages, p);
    RootPagesSnoc(rootLocs, st.pages, p);
    FreshSnoc(rootLocs, st.pages, p);
  }

  lemma StepBookkept(su: Setup, rootLocs: set<string>, st: State, name: string, s: Schema)
    requires Bookkept(rootLocs, st)
    requires name == RootName ==> s.location in rootLocs
    requires name != RootName ==> s.location !in st.converted
    ensures var r := ConvertToMarkdown(su, st, name, s);
            r.Success? ==> Bookkept(rootLocs, r.value)
  {
    var r := ConvertToMarkdown(su, st, name, s);
    if r.Success? {
      BookkeptSnoc(rootLocs, st, r.value.fs, Page(s, name));
    }
  }

  /** Existence only grows with the filesystem. */
  lemma ReadyKept(su: Setup, fs: Fs, fs1: Fs, location: string)
    requires IndexReady(su, fs, location)
    requires fs.dirs <= fs1.dirs && fs.files.Keys <= fs1.files.Keys
    ensures IndexReady(su, fs1, location)
  {
  }

  lemma PlacedSnoc(su: Setup, st: State, fs: Fs, converted: set<string>, p: Page)
    requires Placed(su, st)
    requires st.fs.dirs <= fs.dirs && st.fs.files.Keys <= fs.files.Keys
    requires PageFile(su, p.name, p.schema.location) in fs.files
    requires IndexReady(su, fs, p.schema.location)
    ensures Placed(su, State(fs, converted, st.pages + [p]))
  {
    var pages := st.pages + [p];
    forall i | 0 <= i < |st.pages|
      ensures PageFile(su, pages[i].name, pages[i].schema.location) in fs.files && IndexReady(su, fs, pages[i].schema.location)
    {
      assert pages[i] == st.pages[i];
      ReadyKept(su, st.fs, fs, st.pages[i].schema.location);
    }
  }

  lemma StepPlaced(su: Setup, st: State, name: string, s: Schema)
    requires Placed(su, st)
    ensures var r := ConvertToMarkdown(su, st, name, s);
            r.Success? ==> Placed(su, r.value)
  {
    var r := ConvertToMarkdown(su, st, name, s);
    ConvertToMarkdownWrites(su, st, name, s);
    if r.Success? {
      PlacedSnoc(su, st, r.value.fs, r.value.converted, Page(s, name));
    }
  }

  lemma StepOutput(su: Setup, fs0: Fs, st: State, name: string, s: Schema)
    requires Outside(Parse(su.destination), fs0, st.fs)
    ensures var r := ConvertToMarkdown(su, st, name, s);
            r.Success? ==>
              && (OnlyOutput(su, st) ==> OnlyOutput(su, r.value))
              && Outside(Parse(su.destination), fs0, r.value.fs)
  {
    var r := ConvertToMarkdown(su, st, name, s);
    if r.Success? {
      var d := Parse(su.destination);
      var dir := PageDirString(su, s.location);
      var fs1 := CreateIndexFixed(st.fs, su.destination, dir);
      var file := PageFile(su, name, s.location);
      PageDirBelow(su, s.location);
      CreateIndexFixedBelow(st.fs, su.destination, dir);
      assert Below(d, file);
      assert r.value.fs.files == fs1.files[file := su.render(s).value];
      PagesSnoc(su, st.pages, Page(s, name));
    }
  }

  lemma StepInv(su: Setup, rootLocs: set<string>, fs0: Fs, st: State, name: string, s: Schema)
    requires Inv(su, rootLocs, fs0, st)
    requires name == RootName ==> s.location in rootLocs
    requires name != RootName ==> s.location !in st.converted
    ensures var r := ConvertToMarkdown(su, st, name, s);
            r.Success? ==> Inv(su, rootLocs, fs0, r.value)
  {
    StepBookkept(su, rootLocs, st, name, s);
    StepPlaced(su, st, name, s);
    StepOutput(su, fs0, st, name, s);
  }

  /** The definitions loop keeps the invariant: each page it writes is for a
      location not yet converted, and never a root page. */
  lemma {:induction false} DefinitionsInv(su: Setup, rootLocs: set<string>, fs0: Fs, st: State, defs: seq<Schema>)
    requires Inv(su, rootLocs, fs0, st)
    ensures var r := ConvertDefinitions(su, st, defs);
            r.Success? ==> Inv(su, rootLocs, fs0, r.value)
    decreases |defs|
  {
    if defs != [] {
      var d := defs[0];
      if d.location in st.converted {
        assert ConvertDefinitions(su, st, defs) == ConvertDefinitions(su, st, defs[1..]);
        DefinitionsInv(su, rootLocs, fs0, st, defs[1..]);
      } else {
        var name := FileName(su.kebab, TitleOf(su.graph, d.location), d.location);
        NotRootName(name);
        StepInv(su, rootLocs, fs0, st, name, d);
        var r1 := ConvertToMarkdown(su, st, name, d);
        if r1.Success? {
          assert ConvertDefinitions(su, st, defs) == ConvertDefinitions(su, r1.value, defs[1..]);
          DefinitionsInv(su, rootLocs, fs0, r1.value, defs[1..]);
        }
      }
    }
  }

  /** The roots loop keeps the invariant, as long as every root it is given is one
      of the roots marked converted at the start. */
  lemma {:induction false} RootsInv(su: Setup, rootLocs: set<string>, fs0: Fs, st: State, roots: seq<Schema>)
    requires Inv(su, rootLocs, fs0, st)
    requires forall x :: x in roots ==> x.location in rootLocs
    ensures var r := ConvertRoots(su, st, roots);
            r.Success? ==> Inv(su, rootLocs, fs0, r.value)
    decreases |roots|
  {
    if roots != [] {
      var r1 := ConvertRound(su, st, roots[0]);
      RoundInv(su, rootLocs, fs0, st, roots[0]);
      if r1.Success? {
        assert ConvertRoots(su, st, roots) == ConvertRoots(su, r1.value, roots[1..]);
        assert forall x :: x in roots[1..] ==> x in roots;
        RootsInv(su, rootLocs, fs0, r1.value, roots[1..]);
      }
    }
  }

  /** A round for one of the roots keeps the invariant. */
  lemma RoundInv(su: Setup, rootLocs: set<string>, fs0: Fs, st: State, root: Schema)
    requires Inv(su, rootLocs, fs0, st)
    requires root.location in rootLocs
    ensures var r := ConvertRound(su, st, root);
            r.Success? ==> Inv(su, rootLocs, fs0, r.value)
  {
    StepInv(su, rootLocs, fs0, st, RootName, root);
    var r1 := ConvertToMarkdown(su, st, RootName, root);
    if r1.Success? {
      DefinitionsInv(su, rootLocs, fs0, r1.value, Definitions(su.graph, root));
    }
  }

  /** After `Clean` and marking the roots, the invariant holds with no page written. */
  lemma StartInv(su: Setup, fs: Fs, roots: seq<Schema>)
    ensures Inv(su, RootLocations(roots), fs, State(RemoveDestination(fs, su.destination), RootLocations(roots), []))
  {
  }

  /** What a successful run leaves behind:
      - every page's file exists, in a section directory (`Placed`);
      - unless `os.RemoveAll` refused the destination (`KeptByRemoveAll`, which
        includes the command line's default "."), below the destination there is
        nothing else (`OnlyOutput`); after a refusal, earlier output stays;
      - outside the destination every file is as it was (`Outside`);
      - a definition page is never for a root, nor for a location an earlier page
        had (`Bookkept`);
      - the root pages are the roots, in order, and every definition of every root
        has been converted. */
  lemma ConvertSound(su: Setup, fs: Fs, roots: seq<Schema>)
    ensures var r := Convert(su, fs, roots);
            r.Success? ==>
              && Inv(su, RootLocations(roots), fs, r.value)
              && RootPages(r.value.pages) == roots
              && (forall x :: x in roots ==> Covered(su.graph, x, r.value.converted))
  {
    var rootLocs := RootLocations(roots);
    var start := State(RemoveDestination(fs, su.destination), rootLocs, []);
    StartInv(su, fs, roots);
    RootsInv(su, rootLocs, fs, start, roots);
    RootsPages(su, start, roots);
    RootsConverted(su, start, roots);
    var r := Convert(su, fs, roots);
    if r.Success? {
      assert r.value.pages[0..] == r.value.pages;
    }
  }

  // ---------------------------------------------------------------------------
  // At most once per location

  /** No two of `ss` share a location. */
  predicate DistinctLocations(ss: seq<Schema>) {
    forall a, b :: 0 <= a < b < |ss| ==> ss[a].location != ss[b].location
  }

  /** A root page's schema is among the root pages' schemas. */
  lemma {:induction false} RootPageListed(pages: seq<Page>, j: nat)
    requires j < |pages| && pages[j].name == RootName
    ensures pages[j].schema in RootPages(pages)
  {
    if j > 0 {
      RootPageListed(pages[1..], j - 1);
    }
  }

  /** Two root pages for one location make the root pages' locations repeat. */
  lemma {:induction false} RootPagesRepeat(pages: seq<Page>, i: nat, j: nat)
    requires i < j < |pages|
    requires pages[i].name == RootName && pages[j].name == RootName
    requires pages[i].schema.location == pages[j].schema.location
    ensures !DistinctLocations(RootPages(pages))
  {
    var head := if pages[0].name == RootName then [pages[0].schema] else [];
    var tail := RootPages(pages[1..]);
    assert RootPages(pages) == head + tail;
    if i == 0 {
      RootPageListed(pages[1..], j - 1);
      var b :| 0 <= b < |tail| && tail[b] == pages[j].schema;
      assert RootPages(pages)[0] == pages[0].schema;
      assert RootPages(pages)[1 + b] == tail[b];
    } else {
      RootPagesRepeat(pages[1..], i - 1, j - 1);
      var a, b :| 0 <= a < b < |tail| && tail[a].location == tail[b].location;
      assert RootPages(pages)[|head| + a] == tail[a];
      assert RootPages(pages)[|head| + b] == tail[b];
    }
  }

  /** No location is rendered twice: with the roots at distinct locations, the
      pages of a successful run are for pairwise distinct locations. */
  lemma ConvertOnce(su: Setup, fs: Fs, roots: seq<Schema>)
    requires DistinctLocations(roots)
    ensures var r := Convert(su, fs, roots);
            r.Success? ==>
              forall i, j :: 0 <= i < j < |r.value.pages| ==>
                r.value.pages[i].schema.location != r.value.pages[j].schema.location
  {
    ConvertSound(su, fs, roots);
    var r := Convert(su, fs, roots);
    if r.Success? {
      var pages := r.value.pages;
      var rootLocs := RootLocations(roots);
      forall i, j | 0 <= i < j < |pages|
        ensures pages[i].schema.location != pages[j].schema.location
      {
        if pages[i].name == RootName && pages[j].name == RootName {
          if pages[i].schema.location == pages[j].schema.location {
            RootPagesRepeat(pages, i, j);
          }
        }
      }
    }
  }

  // ---------------------------------------------------------------------------
  // Failure

  lemma {:induction false} DefinitionsTotal(su: Setup, st: State, defs: seq<Schema>)
    requires forall s :: su.render(s).Some?
    ensures ConvertDefinitions(su, st, defs).Success?
    decreases |defs|
  {
    if defs != [] {
      var d := defs[0];
      if d.location in st.converted {
        assert ConvertDefinitions(su, st, defs) == ConvertDefinitions(su, st, defs[1..]);
        DefinitionsTotal(su, st, defs[1..]);
      } else {
        var name := FileName(su.kebab, TitleOf(su.graph, d.location), d.location);
        var st1 := ConvertToMarkdown(su, st, name, d).value;
        assert ConvertDefinitions(su, st, defs) == ConvertDefinitions(su, st1, defs[1..]);
        DefinitionsTotal(su, st1, defs[1..]);
      }
    }
  }

  lemma {:induction false} RootsTotal(su: Setup, st: State, roots: seq<Schema>)
    requires forall s :: su.render(s).Some?
    ensures ConvertRoots(su, st, roots).Success?
    decreases |roots|
  {
    if roots != [] {
      var st1 := ConvertToMarkdown(su, st, RootName, roots[0]).value;
      DefinitionsTotal(su, st1, Definitions(su.graph, roots[0]));
      var st2 := ConvertRound(su, st, roots[0]).value;
      assert ConvertRoots(su, st, roots) == ConvertRoots(su, st2, roots[1..]);
      RootsTotal(su, st2, roots[1..]);
    }
  }

  /** A run fails only on a schema the template fails on: with a template that
      never fails, the run succeeds. */
  lemma ConvertTotal(su: Setup, fs: Fs, roots: seq<Schema>)
    requires forall s :: su.render(s).Some?
    ensures Convert(su, fs, roots).Success?
  {
    RootsTotal(su, State(RemoveDestination(fs, su.destination), RootLocations(roots), []), roots);
  }
}
