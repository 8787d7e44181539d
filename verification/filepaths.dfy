/** The parts of Go's `path/filepath` (Unix flavour) the converter uses.

    A path string is cut at '/' into elements (`Strings.Split`); `Clean`
    resolves "", "." and ".." elements. A cleaned path is kept as a `Path`:
    whether it starts at the root, and its remaining elements. `Render`
    turns it back into the string Go's `filepath.Clean` would return. */
module FilePaths {
  import opened Strings

  datatype Path = Path(rooted: bool, elems: seq<string>)

  /** An element that `Clean` keeps as it is. */
  predicate IsName(e: string) {
    e != "" && e != "." && e != ".." && '/' !in e
  }

  /** What `Clean` can produce: names, and ".." only as a leading run of a relative path. */
  predicate CleanElems(rooted: bool, elems: seq<string>) {
    && (forall i :: 0 <= i < |elems| ==> elems[i] == ".." || IsName(elems[i]))
    && (forall i, j :: 0 <= i < j < |elems| && elems[j] == ".." ==> elems[i] == "..")
    && (rooted ==> forall i :: 0 <= i < |elems| ==> elems[i] != "..")
  }

  predicate IsClean(p: Path) {
    CleanElems(p.rooted, p.elems)
  }

  predicate AllNames(elems: seq<string>) {
    forall i :: 0 <= i < |elems| ==> IsName(elems[i])
  }

  /** One step of `filepath.Clean` over the elements already kept. */
  function Step(stack: seq<string>, rooted: bool, e: string): seq<string> {
    if e == "" || e == "." then stack
    else if e == ".." then
      if |stack| > 0 && stack[|stack| - 1] != ".." then stack[..|stack| - 1]
      else if rooted then stack
      else stack + [".."]
    else stack + [e]
  }

  /** `filepath.Clean`'s element processing, left to right. */
  function Resolve(stack: seq<string>, rooted: bool, raw: seq<string>): seq<string>
    decreases |raw|
  {
    if raw == [] then stack
    else Resolve(Step(stack, rooted, raw[0]), rooted, raw[1..])
  }

  /** `filepath.Clean`, with its result kept as a `Path`. */
  function Parse(s: string): (p: Path)
    ensures IsClean(p)
    ensures p.rooted <==> (s != [] && s[0] == '/')
  {
    var rooted := s != [] && s[0] == '/';
    ResolveKeepsClean([], rooted, Split(s, '/'));
    Path(rooted, Resolve([], rooted, Split(s, '/')))
  }

  /** The string `filepath.Clean` returns for a cleaned path. */
  function Render(p: Path): string {
    if p.rooted then "/" + Join(p.elems, '/')
    else if p.elems == [] then "."
    else Join(p.elems, '/')
  }

  /** `filepath.Clean`. */
  function Clean(s: string): string {
    Render(Parse(s))
  }

  /** `filepath.Join`: the elements from the first non-empty one, joined by '/' and cleaned;
      "" when every element is empty. */
  function JoinPath(elems: seq<string>): (r: string)
    ensures (forall i :: 0 <= i < |elems| ==> elems[i] == "") ==> r == ""
    decreases |elems|
  {
    if elems == [] then ""
    else if elems[0] != "" then Clean(Join(elems, '/'))
    else JoinPath(elems[1..])
  }

  /** `filepath.Dir`: everything before the last '/', cleaned. */
  function Dir(s: string): string {
    Clean(s[..LastIndexOf(s, '/') + 1])
  }

  /** `filepath.Dir` of a cleaned path, as a `Path`: its last element dropped. */
  function Parent(p: Path): (q: Path)
    ensures q.rooted == p.rooted
    ensures q.elems <= p.elems
    ensures p.elems != [] ==> |q.elems| == |p.elems| - 1
    ensures p.elems == [] ==> q == p
  {
    if p.elems == [] then p else Path(p.rooted, p.elems[..|p.elems| - 1])
  }

  /** `filepath.Join(p, name)` for a single plain element `name`, as a `Path`. */
  function Child(p: Path, name: string): (q: Path)
    ensures Parent(q) == p
  {
    Path(p.rooted, p.elems + [name])
  }

  /** `filepath.Base`: the last element after trailing slashes are removed;
      "." for the empty string and "/" for a string of slashes. */
  function Base(s: string): (r: string)
    ensures r != ""
    ensures '/' in r ==> r == "/"
  {
    if s == "" then "."
    else
      var t := TrimRight(s, '/');
      if t == "" then "/"
      else t[LastIndexOf(t, '/') + 1..]
  }

  /** `filepath.Ext`: the suffix from the last '.' of the last element, or "". */
  function Ext(s: string): (r: string)
    ensures r == "" || (r[0] == '.' && IsSuffix(r, s) && '/' !in r && '.' !in r[1..])
  {
    if s == [] || s[|s| - 1] == '/' then ""
    else if s[|s| - 1] == '.' then "."
    else
      var e := Ext(s[..|s| - 1]);
      if e == "" then "" else e + [s[|s| - 1]]
  }

  // ---------------------------------------------------------------------------
  // Facts about cleaning

  lemma {:induction false} ResolveAppend(stack: seq<string>, rooted: bool, a: seq<string>, b: seq<string>)
    ensures Resolve(stack, rooted, a + b) == Resolve(Resolve(stack, rooted, a), rooted, b)
    decreases |a|
  {
    if a != [] {
      assert a + b == [a[0]] + (a[1..] + b);
      assert (a + b)[0] == a[0];
      assert (a + b)[1..] == a[1..] + b;
      ResolveAppend(Step(stack, rooted, a[0]), rooted, a[1..], b);
    } else {
      assert a + b == b;
    }
  }

  lemma {:induction false} ResolveKeepsClean(stack: seq<string>, rooted: bool, raw: seq<string>)
    requires CleanElems(rooted, stack)
    requires forall i :: 0 <= i < |raw| ==> '/' !in raw[i]
    ensures CleanElems(rooted, Resolve(stack, rooted, raw))
    decreases |raw|
  {
    if raw != [] {
      var next := Step(stack, rooted, raw[0]);
      StepKeepsClean(stack, rooted, raw[0]);
      ResolveKeepsClean(next, rooted, raw[1..]);
    }
  }

  lemma StepKeepsClean(stack: seq<string>, rooted: bool, e: string)
    requires CleanElems(rooted, stack)
    requires '/' !in e
    ensures CleanElems(rooted, Step(stack, rooted, e))
  {
    var next := Step(stack, rooted, e);
    if e == "" || e == "." {
    } else if e == ".." {
      if |stack| > 0 && stack[|stack| - 1] != ".." {
        CleanPrefix(rooted, stack, |stack| - 1);
      } else if !rooted {
        assert forall i :: 0 <= i < |stack| ==> stack[i] == "..";
      }
    }
  }

  /** Resolving elements that are already clean after a clean stack keeps them all. */
  lemma {:induction false} ResolveClean(stack: seq<string>, rooted: bool, raw: seq<string>)
    requires CleanElems(rooted, stack + raw)
    ensures Resolve(stack, rooted, raw) == stack + raw
    decreases |raw|
  {
    if raw != [] {
      var all := stack + raw;
      assert all[|stack|] == raw[0];
      if raw[0] == ".." {
        assert forall i :: 0 <= i < |stack| ==> stack[i] == all[i];
        assert Step(stack, rooted, raw[0]) == stack + [raw[0]];
      } else {
        assert Step(stack, rooted, raw[0]) == stack + [raw[0]];
      }
      assert stack + [raw[0]] + raw[1..] == all;
      ResolveClean(stack + [raw[0]], rooted, raw[1..]);
    }
  }

  lemma ResolveEmptyElems(stack: seq<string>, rooted: bool)
    ensures Resolve(stack, rooted, [""]) == stack
  {
  }

  lemma CleanNames(rooted: bool, stack: seq<string>, names: seq<string>)
    requires CleanElems(rooted, stack)
    requires AllNames(names)
    ensures CleanElems(rooted, stack + names)
  {
  }

  /** A leading '/' does not hide inside a rendered relative path. */
  lemma RenderRooted(p: Path)
    requires IsClean(p)
    ensures Render(p) != [] && (Render(p)[0] == '/' <==> p.rooted)
  {
    if !p.rooted && p.elems != [] {
      JoinHead(p.elems);
    }
  }

  lemma {:induction false} JoinHead(elems: seq<string>)
    requires elems != [] && elems[0] != ""
    ensures Join(elems, '/') != [] && Join(elems, '/')[0] == elems[0][0]
  {
  }

  /** `Clean` is the identity on its own results: parsing a rendered clean path gives it back. */
  lemma ParseRender(p: Path)
    requires IsClean(p)
    ensures Parse(Render(p)) == p
  {
    if p.rooted {
      ParseRenderRooted(p.elems);
    } else if p.elems == [] {
      assert Split(".", '/') == ["."];
    } else {
      ParseRenderRelative(p.elems);
    }
  }

  lemma {:induction false} ParseRenderRooted(elems: seq<string>)
    requires CleanElems(true, elems)
    ensures Parse("/" + Join(elems, '/')) == Path(true, elems)
  {
    var s := "/" + Join(elems, '/');
    assert s == [] + ['/'] + Join(elems, '/');
    SplitAppend([], '/', Join(elems, '/'));
    assert Split([], '/') == [""];
    if elems == [] {
      assert Split(s, '/') == ["", ""];
      assert Resolve([], true, ["", ""]) == [];
    } else {
      SplitJoin(elems, '/');
      assert Split(s, '/') == [""] + elems;
      ResolveAppend([], true, [""], elems);
      ResolveClean([], true, elems);
    }
  }

  lemma {:induction false} ParseRenderRelative(elems: seq<string>)
    requires elems != [] && CleanElems(false, elems)
    ensures Parse(Join(elems, '/')) == Path(false, elems)
  {
    JoinHead(elems);
    SplitJoin(elems, '/');
    ResolveClean([], false, elems);
  }

  /** Two clean paths with the same rendering are the same path. */
  lemma RenderInjective(p: Path, q: Path)
    requires IsClean(p) && IsClean(q)
    ensures Render(p) == Render(q) <==> p == q
  {
    if Render(p) == Render(q) {
      ParseRender(p);
      ParseRender(q);
    }
  }

  /** What precedes the last '/' of a rendered path whose parent is `q`. */
  function DirPrefix(q: Path): string {
    if q.rooted && q.elems == [] then "" else Render(q)
  }

  lemma {:induction false} RenderSnoc(q: Path, last: string)
    requires q.rooted || q.elems != []
    ensures Render(Child(q, last)) == DirPrefix(q) + ['/'] + last
  {
    JoinSnoc(q.elems, last);
  }

  lemma {:induction false} ParseTrailingSlash(s: string)
    requires s != []
    ensures Parse(s + ['/']) == Parse(s)
  {
    SplitAppend(s, '/', []);
    assert s + ['/'] == s + ['/'] + [];
    assert Split([], '/') == [""];
    assert (s + ['/'])[0] == s[0];
    var rooted := s[0] == '/';
    ResolveAppend([], rooted, Split(s, '/'), [""]);
  }

  lemma ParseRoot()
    ensures Parse("/") == Path(true, [])
  {
    assert "/" == [] + ['/'] + [];
    SplitAppend([], '/', []);
    assert Split([], '/') == [""];
    assert Resolve([], true, ["", ""]) == [];
  }

  lemma ParseEmpty()
    ensures Parse("") == Path(false, [])
  {
    assert Split("", '/') == [""];
  }

  /** `filepath.Dir` of a rendered clean path renders its parent: `Parent` is `filepath.Dir`. */
  lemma DirIsParent(p: Path)
    requires IsClean(p)
    ensures Parse(Dir(Render(p))) == Parent(p)
  {
    if p.elems == [] {
      if p.rooted {
        assert Render(p) == "/";
        DirOfRoot();
      } else {
        assert Render(p) == ".";
        DirOfDot();
      }
    } else {
      var q := Parent(p);
      var last := p.elems[|p.elems| - 1];
      assert p == Child(q, last);
      assert last != "" && '/' !in last;
      CleanPrefix(p.rooted, p.elems, |p.elems| - 1);
      DirOfChild(q, last);
    }
  }

  lemma DirOfRoot()
    ensures Parse(Dir("/")) == Path(true, [])
  {
    var s := "/";
    assert s[..LastIndexOf(s, '/') + 1] == "/";
    ParseRoot();
  }

  lemma DirOfDot()
    ensures Parse(Dir(".")) == Path(false, [])
  {
    var s := ".";
    assert s[..LastIndexOf(s, '/') + 1] == "";
    ParseEmpty();
  }

  /** `filepath.Dir` drops the last name of a clean path. */
  lemma DirOfChild(q: Path, last: string)
    requires IsClean(q) && last != "" && '/' !in last
    ensures Parse(Dir(Render(Child(q, last)))) == q
  {
    var s := Render(Child(q, last));
    if !q.rooted && q.elems == [] {
      assert s == last;
      DirOfName(last);
      ParseEmpty();
    } else {
      RenderSnoc(q, last);
      DirOfSnoc(DirPrefix(q), last);
      if q.rooted && q.elems == [] {
        assert DirPrefix(q) + ['/'] == "/";
        ParseRoot();
      } else {
        RenderRooted(q);
        ParseTrailingSlash(Render(q));
        ParseRender(q);
      }
    }
  }

  lemma DirOfName(last: string)
    requires '/' !in last
    ensures last[..LastIndexOf(last, '/') + 1] == ""
  {
  }

  lemma DirOfSnoc(head: string, last: string)
    requires '/' !in last
    ensures var s := head + ['/'] + last; s[..LastIndexOf(s, '/') + 1] == head + ['/']
  {
    LastIndexAfter(head, last);
    var s := head + ['/'] + last;
    assert s[..|head| + 1] == head + ['/'];
  }

  lemma RootedHead(head: string)
    requires head != [] && head[0] == '/'
    ensures (head + ['/'])[0] == '/'
  {
  }

  lemma CleanPrefix(rooted: bool, elems: seq<string>, k: nat)
    requires CleanElems(rooted, elems)
    requires k <= |elems|
    ensures CleanElems(rooted, elems[..k])
  {
    assert forall i :: 0 <= i < k ==> elems[..k][i] == elems[i];
  }

  lemma {:induction false} JoinSnoc(front: seq<string>, last: string)
    ensures front != [] ==> Join(front + [last], '/') == Join(front, '/') + ['/'] + last
    ensures front == [] ==> Join(front + [last], '/') == last
    decreases |front|
  {
    if |front| > 1 {
      assert (front + [last])[1..] == front[1..] + [last];
      JoinSnoc(front[1..], last);
    } else if |front| == 1 {
      assert front + [last] == [front[0], last];
    }
  }

  lemma {:induction false} LastIndexAfter(head: string, last: string)
    requires '/' !in last
    ensures LastIndexOf(head + ['/'] + last, '/') == |head|
    decreases |last|
  {
    var s := head + ['/'] + last;
    if last == [] {
      assert s[|s| - 1] == '/';
    } else {
      var n := |last|;
      assert s[|s| - 1] == last[n - 1];
      assert s[..|s| - 1] == head + ['/'] + last[..n - 1];
      LastIndexAfter(head, last[..n - 1]);
    }
  }

  /** `filepath.Join(a, b)` for a relative `b` made of plain names appends those names to `Clean(a)`. */
  lemma {:induction false} JoinNames(a: string, b: string)
    requires AllNames(Split(b, '/'))
    ensures Parse(JoinPath([a, b])) == Path(Parse(a).rooted, Parse(a).elems + Split(b, '/'))
  {
    var names := Split(b, '/');
    assert IsName(names[0]);
    assert b != [] && b[0] != '/';
    CleanNames(Parse(a).rooted, Parse(a).elems, names);
    if a == "" {
      assert JoinPath([a, b]) == JoinPath([b]);
      assert Join([b], '/') == b;
      var q := Parse(b);
      assert q == Path(false, Resolve([], false, names));
      ResolveClean([], false, names);
      ParseRender(q);
    } else {
      var s := a + ['/'] + b;
      assert Join([a, b], '/') == s;
      SplitAppend(a, '/', b);
      var rooted := a[0] == '/';
      assert s[0] == a[0];
      ResolveAppend([], rooted, Split(a, '/'), names);
      ResolveClean(Parse(a).elems, rooted, names);
      ParseRender(Parse(s));
    }
  }

  /** `filepath.Base` of a rendered clean path is its last element ("." or "/" when it has none). */
  lemma BaseOfRender(p: Path)
    requires IsClean(p)
    ensures Base(Render(p)) == LastName(p)
  {
    var s := Render(p);
    if p.elems == [] {
      if p.rooted {
        assert s == "/";
        assert TrimRight("/", '/') == TrimRight("", '/');
      } else {
        assert s == ".";
        assert TrimRight(".", '/') == ".";
        assert LastIndexOf(".", '/') == -1;
      }
    } else {
      var q := Parent(p);
      var last := p.elems[|p.elems| - 1];
      assert p == Child(q, last);
      assert last != "" && '/' !in last;
      if !q.rooted && q.elems == [] {
        assert s == last;
        BaseOfName(last);
      } else {
        RenderSnoc(q, last);
        BaseOfSnoc(DirPrefix(q), last);
      }
    }
  }

  lemma BaseOfName(last: string)
    requires last != "" && '/' !in last
    ensures Base(last) == last
  {
    assert TrimRight(last, '/') == last;
    assert last[0..] == last;
  }

  lemma BaseOfSnoc(head: string, last: string)
    requires last != "" && '/' !in last
    ensures Base(head + ['/'] + last) == last
  {
    var s := head + ['/'] + last;
    assert s[|s| - 1] == last[|last| - 1];
    assert TrimRight(s, '/') == s;
    LastIndexAfter(head, last);
    assert s[|head| + 1..] == last;
  }

  /** The name `filepath.Base` gives a cleaned path. */
  function LastName(p: Path): string {
    if p.elems != [] then p.elems[|p.elems| - 1]
    else if p.rooted then "/"
    else "."
  }
}
