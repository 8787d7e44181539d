/** The compiled schema graph and its walk (pkg/markdown/schema.go): `walkSchema`,
    `WalkSchema`, `Definitions`, `ToSchema`, and `FindTypeOfs` of pkg/markdown/utils.go,
    which is built on the walk. */
module SchemaGraph {
  import opened Wrappers

  /** The `Items` field: absent, one schema, or a list of schemas. */
  datatype Items = NoItems | SingleItem(loc: string) | ItemList(locs: seq<string>)

  /** One compiled schema. A child slot holds the child's location; `None` is a nil
      pointer. Children that come from Go maps (`Properties`, `DependentSchemas`,
      `PatternProperties`) are listed in this run's iteration order. `ifSchema` is
      kept because the compiler fills it in, though the walk never follows it. */
  datatype Node = Node(
    title: string,
    dynamicRef: Option<string>,
    ref: Option<string>,
    recursiveRef: Option<string>,
    anyOf: seq<string>,
    allOf: seq<string>,
    oneOf: seq<string>,
    prefixItems: seq<string>,
    ifSchema: Option<string>,
    notSchema: Option<string>,
    elseSchema: Option<string>,
    thenSchema: Option<string>,
    contains: Option<string>,
    propertyNames: Option<string>,
    unevaluatedItems: Option<string>,
    unevaluatedProperties: Option<string>,
    items2020: Option<string>,
    properties: seq<string>,
    dependentSchemas: seq<string>,
    patternProperties: seq<string>,
    items: Items)

  /** Every schema of a compilation, by `Location`. A location that is not a key
      behaves like a nil pointer. */
  type Graph = map<string, Node>

  /** `Schema`: a compiled schema tagged with the path of the file it came from. */
  datatype Schema = Schema(path: string, location: string)

  /** `ToSchema`: nil stays nil, anything else is tagged with `path`. */
  function ToSchema(s: Option<string>, path: string): (r: Option<Schema>)
    ensures r.None? <==> s.None?
    ensures r.Some? ==> r.value == Schema(path, s.value)
  {
    match s
    case None => None
    case Some(loc) => Some(Schema(path, loc))
  }

  function OptList(o: Option<string>): (r: seq<string>)
    ensures o.None? ==> r == []
    ensures o.Some? ==> r == [o.value]
  {
    match o
    case None => []
    case Some(x) => [x]
  }

  function ItemsList(items: Items): seq<string> {
    match items
    case NoItems => []
    case SingleItem(l) => [l]
    case ItemList(ls) => ls
  }

  /** The three reference slots, in the order the walk takes them. */
  function RefEdges(n: Node): seq<string> {
    OptList(n.dynamicRef) + OptList(n.ref) + OptList(n.recursiveRef)
  }

  /** The slots' children one slot after another. */
  function Flatten(slots: seq<seq<string>>): seq<string> {
    if slots == [] then [] else slots[0] + Flatten(slots[1..])
  }

  /** The child slots after `anyOf`, `allOf` and `oneOf`, in the walk's order. */
  function OtherEdges(n: Node): seq<string> {
    Flatten([n.prefixItems,
             OptList(n.notSchema), OptList(n.elseSchema), OptList(n.thenSchema), OptList(n.contains),
             OptList(n.propertyNames), OptList(n.unevaluatedItems),
             OptList(n.unevaluatedProperties), OptList(n.items2020),
             n.properties, n.dependentSchemas, n.patternProperties,
             ItemsList(n.items)])
  }

  /** Every child slot the walk takes besides the references, in its order. */
  function PlainEdges(n: Node): seq<string> {
    n.anyOf + n.allOf + n.oneOf + OtherEdges(n)
  }

  /** The children the walk visits after `n`, in the order it visits them. */
  function Edges(n: Node, followRef: bool): seq<string> {
    (if followRef then RefEdges(n) else []) + PlainEdges(n)
  }

  /** `Edges` with the choice of following references made: the child order the walk
      of `WalkSchema` takes. */
  function EdgesOf(followRef: bool): Node -> seq<string> {
    n => Edges(n, followRef)
  }

  /** What a walk leaves behind: the marked locations and the callback's arguments,
      in call order. */
  datatype Trace = Trace(visited: set<string>, calls: seq<string>)

  /** The trace's call list has no repeats except of locations whose callback failed. */
  predicate RepeatsFail(calls: seq<string>, fails: string -> bool) {
    forall i, j :: 0 <= i < j < |calls| && calls[i] == calls[j] ==> fails(calls[i])
  }

  /** The locations marked during a walk are exactly the called ones whose callback
      succeeded; every call is to a schema that was not marked before. */
  predicate Accounts(g: Graph, fails: string -> bool, before: set<string>, r: Trace) {
    && before <= r.visited
    && (forall l :: l in r.visited && l !in before ==> l in r.calls && !fails(l))
    && (forall i :: 0 <= i < |r.calls| ==> r.calls[i] in g && r.calls[i] !in before)
    && (forall i :: 0 <= i < |r.calls| && !fails(r.calls[i]) ==> r.calls[i] in r.visited)
  }

  /** `walkSchema`: a nil or already marked schema ends the walk; otherwise the callback
      runs, and only when it succeeds is the location marked and the walk continued
      over the children, in the order `edges` lists them. `fails(l)` says whether the
      callback returns an error on `l`. */
  function Walk(g: Graph, edges: Node -> seq<string>, fails: string -> bool, loc: string, visited: set<string>): (r: Trace)
    ensures Accounts(g, fails, visited, r)
    ensures RepeatsFail(r.calls, fails)
    ensures loc !in g || loc in visited ==> r == Trace(visited, [])
    ensures loc in g && loc !in visited ==> r.calls != [] && r.calls[0] == loc
    ensures loc in g && loc !in visited && fails(loc) ==> r == Trace(visited, [loc])
    decreases |g.Keys - visited|, 0
  {
    if loc !in g || loc in visited then Trace(visited, [])
    else if fails(loc) then Trace(visited, [loc])
    else
      Shrinks(g.Keys, visited, loc);
      var rest := WalkEach(g, edges, fails, edges(g[loc]), visited + {loc});
      MarkThenWalk(g, fails, visited, loc, rest);
      Trace(rest.visited, [loc] + rest.calls)
  }

  /** `walkEach`, and the loops over the map-valued slots: walk each child in turn,
      threading the marks. */
  function WalkEach(g: Graph, edges: Node -> seq<string>, fails: string -> bool, locs: seq<string>, visited: set<string>): (r: Trace)
    ensures Accounts(g, fails, visited, r)
    ensures RepeatsFail(r.calls, fails)
    decreases |g.Keys - visited|, 1, |locs|
  {
    if locs == [] then Trace(visited, [])
    else
      var first := Walk(g, edges, fails, locs[0], visited);
      NoGrowth(g.Keys, visited, first.visited);
      var rest := WalkEach(g, edges, fails, locs[1..], first.visited);
      Sequence(g, fails, visited, first, rest);
      Trace(rest.visited, first.calls + rest.calls)
  }

  lemma Shrinks(keys: set<string>, visited: set<string>, loc: string)
    requires loc in keys && loc !in visited
    ensures |keys - (visited + {loc})| < |keys - visited|
  {
    var a := keys - (visited + {loc});
    var b := keys - visited;
    assert b == a + {loc};
  }

  lemma NoGrowth(keys: set<string>, visited: set<string>, more: set<string>)
    requires visited <= more
    ensures |keys - more| <= |keys - visited|
  {
    var a := keys - more;
    var b := keys - visited;
    assert b == a + (b - a);
  }

  /** Marking `loc` and then walking its children accounts for the call to `loc`. */
  lemma MarkThenWalk(g: Graph, fails: string -> bool, visited: set<string>, loc: string, rest: Trace)
    requires loc in g && loc !in visited && !fails(loc)
    requires Accounts(g, fails, visited + {loc}, rest) && RepeatsFail(rest.calls, fails)
    ensures Accounts(g, fails, visited, Trace(rest.visited, [loc] + rest.calls))
    ensures RepeatsFail([loc] + rest.calls, fails)
  {
    var calls := [loc] + rest.calls;
    assert forall i :: 1 <= i < |calls| ==> calls[i] == rest.calls[i - 1];
  }

  /** Two walks one after the other account for their joined calls. */
  lemma Sequence(g: Graph, fails: string -> bool, visited: set<string>, first: Trace, rest: Trace)
    requires Accounts(g, fails, visited, first) && RepeatsFail(first.calls, fails)
    requires Accounts(g, fails, first.visited, rest) && RepeatsFail(rest.calls, fails)
    ensures Accounts(g, fails, visited, Trace(rest.visited, first.calls + rest.calls))
    ensures RepeatsFail(first.calls + rest.calls, fails)
  {
    var calls := first.calls + rest.calls;
    var n := |first.calls|;
    assert forall i :: 0 <= i < n ==> calls[i] == first.calls[i];
    assert forall i :: n <= i < |calls| ==> calls[i] == rest.calls[i - n];
    forall l | l in rest.visited && l !in visited ensures l in calls && !fails(l) {
      if l in first.visited {
        assert l in first.calls;
      } else {
        assert l in rest.calls;
      }
    }
  }

  /** `WalkSchema`: the walk from `root` with nothing marked yet. */
  function WalkSchema(g: Graph, followRef: bool, fails: string -> bool, root: string): (r: Trace)
    ensures root in g ==> r.calls != [] && r.calls[0] == root
    ensures forall l :: l in r.visited ==> l in r.calls && !fails(l)
    ensures forall i :: 0 <= i < |r.calls| && !fails(r.calls[i]) ==> r.calls[i] in r.visited
    ensures RepeatsFail(r.calls, fails)
  {
    Walk(g, EdgesOf(followRef), fails, root, {})
  }

  // ---------------------------------------------------------------------------
  // What the walk reaches

  /** `e` is a nil child, marked, or one whose callback fails. */
  predicate Covered(g: Graph, fails: string -> bool, marked: set<string>, e: string) {
    e !in g || e in marked || fails(e)
  }

  /** Every location marked since `before` has all its children covered. */
  ghost predicate ClosedSince(g: Graph, edges: Node -> seq<string>, fails: string -> bool, before: set<string>, marked: set<string>) {
    forall l :: l in marked && l !in before ==>
      l in g && forall k :: 0 <= k < |edges(g[l])| ==> Covered(g, fails, marked, edges(g[l])[k])
  }

  /** The walk is complete: every child of a location it marked was walked too, unless
      it is nil or its callback failed. */
  lemma {:induction false} WalkCloses(g: Graph, edges: Node -> seq<string>, fails: string -> bool, loc: string, visited: set<string>)
    ensures Covered(g, fails, Walk(g, edges, fails, loc, visited).visited, loc)
    ensures ClosedSince(g, edges, fails, visited, Walk(g, edges, fails, loc, visited).visited)
    decreases |g.Keys - visited|, 0
  {
    if loc in g && loc !in visited && !fails(loc) {
      Shrinks(g.Keys, visited, loc);
      var kids := edges(g[loc]);
      WalkEachCloses(g, edges, fails, kids, visited + {loc});
    }
  }

  lemma {:induction false} WalkEachCloses(g: Graph, edges: Node -> seq<string>, fails: string -> bool, locs: seq<string>, visited: set<string>)
    ensures forall k :: 0 <= k < |locs| ==> Covered(g, fails, WalkEach(g, edges, fails, locs, visited).visited, locs[k])
    ensures ClosedSince(g, edges, fails, visited, WalkEach(g, edges, fails, locs, visited).visited)
    decreases |g.Keys - visited|, 1, |locs|
  {
    if locs != [] {
      var first := Walk(g, edges, fails, locs[0], visited);
      WalkCloses(g, edges, fails, locs[0], visited);
      NoGrowth(g.Keys, visited, first.visited);
      var r := WalkEach(g, edges, fails, locs[1..], first.visited);
      WalkEachCloses(g, edges, fails, locs[1..], first.visited);
      assert forall k :: 1 <= k < |locs| ==> locs[k] == locs[1..][k - 1];
    }
  }

  /** A set of locations that holds the children of each of its schemas. */
  ghost predicate Closed(g: Graph, edges: Node -> seq<string>, s: set<string>) {
    forall l :: l in s && l in g ==> forall k :: 0 <= k < |edges(g[l])| ==> edges(g[l])[k] in s
  }

  /** The walk is sound: it calls the callback only on locations that a closed set
      around the start holds. */
  lemma {:induction false} WalkWithin(g: Graph, edges: Node -> seq<string>, fails: string -> bool, loc: string, visited: set<string>, s: set<string>)
    requires Closed(g, edges, s) && loc in s
    ensures forall i :: 0 <= i < |Walk(g, edges, fails, loc, visited).calls| ==>
              Walk(g, edges, fails, loc, visited).calls[i] in s
    decreases |g.Keys - visited|, 0
  {
    if loc in g && loc !in visited && !fails(loc) {
      Shrinks(g.Keys, visited, loc);
      var kids := edges(g[loc]);
      WalkEachWithin(g, edges, fails, kids, visited + {loc}, s);
    }
  }

  lemma {:induction false} WalkEachWithin(g: Graph, edges: Node -> seq<string>, fails: string -> bool, locs: seq<string>, visited: set<string>, s: set<string>)
    requires Closed(g, edges, s) && forall k :: 0 <= k < |locs| ==> locs[k] in s
    ensures forall i :: 0 <= i < |WalkEach(g, edges, fails, locs, visited).calls| ==>
              WalkEach(g, edges, fails, locs, visited).calls[i] in s
    decreases |g.Keys - visited|, 1, |locs|
  {
    if locs != [] {
      var first := Walk(g, edges, fails, locs[0], visited);
      WalkWithin(g, edges, fails, locs[0], visited, s);
      NoGrowth(g.Keys, visited, first.visited);
      WalkEachWithin(g, edges, fails, locs[1..], first.visited, s);
      var calls := WalkEach(g, edges, fails, locs, visited).calls;
      var rest := WalkEach(g, edges, fails, locs[1..], first.visited).calls;
      assert calls == first.calls + rest;
    }
  }

  // ---------------------------------------------------------------------------
  // References

  /** The graph with every reference slot cleared. */
  function StripRefs(g: Graph): (r: Graph)
    ensures r.Keys == g.Keys
    ensures forall l :: l in g ==> RefEdges(r[l]) == [] && PlainEdges(r[l]) == PlainEdges(g[l])
  {
    map l | l in g :: g[l].(dynamicRef := None, ref := None, recursiveRef := None)
  }

  /** Without `followRef` the walk never takes a reference edge: it is the walk of the
      graph with the references removed. */
  lemma {:induction false} NoRefWalk(g: Graph, fails: string -> bool, loc: string, visited: set<string>)
    ensures Walk(g, EdgesOf(false), fails, loc, visited) == Walk(StripRefs(g), EdgesOf(true), fails, loc, visited)
    decreases |g.Keys - visited|, 0
  {
    if loc in g && loc !in visited && !fails(loc) {
      Shrinks(g.Keys, visited, loc);
      assert EdgesOf(false)(g[loc]) == EdgesOf(true)(StripRefs(g)[loc]);
      NoRefWalkEach(g, fails, EdgesOf(false)(g[loc]), visited + {loc});
    }
  }

  lemma {:induction false} NoRefWalkEach(g: Graph, fails: string -> bool, locs: seq<string>, visited: set<string>)
    ensures WalkEach(g, EdgesOf(false), fails, locs, visited) == WalkEach(StripRefs(g), EdgesOf(true), fails, locs, visited)
    decreases |g.Keys - visited|, 1, |locs|
  {
    if locs != [] {
      var first := Walk(g, EdgesOf(false), fails, locs[0], visited);
      NoRefWalk(g, fails, locs[0], visited);
      NoGrowth(g.Keys, visited, first.visited);
      NoRefWalkEach(g, fails, locs[1..], first.visited);
    }
  }

  /** Children are walked in `edges` order: the first child, when it is new, is the
      second call; under `WalkSchema` with `followRef` that is the first reference present. */
  lemma FirstEdgeSecond(g: Graph, edges: Node -> seq<string>, fails: string -> bool, loc: string, visited: set<string>)
    requires loc in g && loc !in visited && !fails(loc)
    requires edges(g[loc]) != []
    requires edges(g[loc])[0] in g && edges(g[loc])[0] !in visited + {loc}
    ensures |Walk(g, edges, fails, loc, visited).calls| >= 2
    ensures Walk(g, edges, fails, loc, visited).calls[1] == edges(g[loc])[0]
  {
  }

  // ---------------------------------------------------------------------------
  // Definitions and FindTypeOfs

  /** The callback of `Definitions` and `FindTypeOfs`, which never returns an error. */
  function NeverFails(l: string): bool { false }

  /** The `Ref` targets of the called schemas other than `root`, in call order, tagged
      with `path`. */
  function RefTargets(g: Graph, calls: seq<string>, root: string, path: string): (r: seq<Schema>)
    ensures forall x :: x in r ==> x.path == path
    ensures forall x :: x in r ==> exists i :: 0 <= i < |calls| && calls[i] in g && calls[i] != root
                                              && g[calls[i]].ref == Some(x.location)
    ensures forall i :: 0 <= i < |calls| && calls[i] in g && calls[i] != root && g[calls[i]].ref.Some? ==>
              Schema(path, g[calls[i]].ref.value) in r
  {
    if calls == [] then []
    else
      var l := calls[0];
      var rest := RefTargets(g, calls[1..], root, path);
      assert forall i :: 1 <= i < |calls| ==> calls[i] == calls[1..][i - 1];
      if l in g && l != root && g[l].ref.Some? then
        var x := ToSchema(g[l].ref, path).value;
        [x] + rest
      else rest
  }

  /** `Definitions`: the `Ref` target of every schema the walk (references followed)
      reaches, except the root itself, tagged with the root's path. Targets are not
      deduplicated and the root's own location may be one of them. */
  function Definitions(g: Graph, s: Schema): (r: seq<Schema>)
    ensures forall x :: x in r ==> x.path == s.path
    ensures forall x :: x in r ==> exists l :: l in WalkSchema(g, true, NeverFails, s.location).visited
                                              && l in g && l != s.location && g[l].ref == Some(x.location)
    ensures forall l :: (l in WalkSchema(g, true, NeverFails, s.location).visited && l in g
                         && l != s.location && g[l].ref.Some?) ==> Schema(s.path, g[l].ref.value) in r
  {
    var t := WalkSchema(g, true, NeverFails, s.location);
    RefTargets(g, t.calls, s.location, s.path)
  }

  /** `s.AllOf != nil || s.AnyOf != nil || s.OneOf != nil`. */
  predicate HasTypeOf(n: Node) {
    n.allOf != [] || n.anyOf != [] || n.oneOf != []
  }

  /** The callback of `FindTypeOfs` over the calls, with its `unique` set. */
  function CollectTypeOfs(g: Graph, calls: seq<string>, unique: set<string>, path: string): (r: seq<Schema>)
    decreases |calls|
  {
    if calls == [] then []
    else
      var l := calls[0];
      if l in unique then CollectTypeOfs(g, calls[1..], unique, path)
      else if l in g && HasTypeOf(g[l]) then [Schema(path, l)] + CollectTypeOfs(g, calls[1..], unique + {l}, path)
      else CollectTypeOfs(g, calls[1..], unique, path)
  }

  /** The called schemas that carry `allOf`, `anyOf` or `oneOf`, in call order. */
  function TypeOfCalls(g: Graph, calls: seq<string>, path: string): (r: seq<Schema>)
    ensures forall x :: x in r ==> x.path == path && x.location in calls
                                   && x.location in g && HasTypeOf(g[x.location])
    ensures forall i :: 0 <= i < |calls| && calls[i] in g && HasTypeOf(g[calls[i]]) ==>
              Schema(path, calls[i]) in r
    ensures Distinct(calls) ==> Distinct(r)
  {
    if calls == [] then []
    else
      var rest := TypeOfCalls(g, calls[1..], path);
      assert forall i :: 1 <= i < |calls| ==> calls[i] == calls[1..][i - 1];
      if calls[0] in g && HasTypeOf(g[calls[0]]) then [Schema(path, calls[0])] + rest else rest
  }

  /** `FindTypeOfs`: the walk without references, keeping each schema that combines
      subschemas, once. */
  function FindTypeOfs(g: Graph, s: Schema): (r: seq<Schema>)
    ensures Distinct(r)
    ensures forall x :: x in r ==> x.path == s.path && x.location in WalkSchema(g, false, NeverFails, s.location).visited
                                   && x.location in g && HasTypeOf(g[x.location])
    ensures forall l :: (l in WalkSchema(g, false, NeverFails, s.location).visited && l in g && HasTypeOf(g[l]))
                        ==> Schema(s.path, l) in r
  {
    var calls := WalkSchema(g, false, NeverFails, s.location).calls;
    UniqueRedundant(g, calls, {}, s.path);
    CollectTypeOfs(g, calls, {}, s.path)
  }

  predicate Distinct<T(==)>(xs: seq<T>) {
    forall i, j :: 0 <= i < j < |xs| ==> xs[i] != xs[j]
  }

  /** The `unique` set never fires: the walk already calls each location once, so
      `FindTypeOfs` keeps exactly the called schemas that combine subschemas. */
  lemma {:induction false} UniqueRedundant(g: Graph, calls: seq<string>, unique: set<string>, path: string)
    requires Distinct(calls)
    requires forall i :: 0 <= i < |calls| ==> calls[i] !in unique
    ensures CollectTypeOfs(g, calls, unique, path) == TypeOfCalls(g, calls, path)
    decreases |calls|
  {
    if calls != [] {
      var l := calls[0];
      assert forall i :: 0 <= i < |calls[1..]| ==> calls[1..][i] == calls[i + 1];
      var u := if l in g && HasTypeOf(g[l]) then unique + {l} else unique;
      UniqueRedundant(g, calls[1..], u, path);
    }
  }


  // ---------------------------------------------------------------------------
  // The graphs of schema_test.go

  /** A schema with no children. */
  function Leaf(): Node {
    Node("", None, None, None, [], [], [], [], None, None, None, None, None, None, None, None, None,
         [], [], [], NoItems)
  }

  /** Root `a` refers to `b` and lists `c`, `d`, `e` under `anyOf`, `allOf` and `oneOf`;
      `d` and `e` refer to `b`. */
  function TestGraph(): Graph {
    var children := ["c", "d", "e"];
    map["a" := Leaf().(ref := Some("b"), anyOf := children, allOf := children, oneOf := children),
        "b" := Leaf(),
        "c" := Leaf(),
        "d" := Leaf().(ref := Some("b")),
        "e" := Leaf().(ref := Some("b"))]
  }

  /** `a` and `b` refer to each other. */
  function CycleGraph(): Graph {
    map["a" := Leaf().(ref := Some("b")), "b" := Leaf().(ref := Some("a"))]
  }

  /** A schema whose children are all marked or nil is a single call. */
  lemma WalkOne(g: Graph, edges: Node -> seq<string>, fails: string -> bool, loc: string, visited: set<string>)
    requires loc in g && loc !in visited && !fails(loc)
    requires forall k :: 0 <= k < |edges(g[loc])| ==>
               edges(g[loc])[k] !in g || edges(g[loc])[k] in visited + {loc}
    ensures Walk(g, edges, fails, loc, visited) == Trace(visited + {loc}, [loc])
  {
    WalkEachMarked(g, edges, fails, edges(g[loc]), visited + {loc});
  }

  /** Walking children that are all marked or nil does nothing. */
  lemma {:induction false} WalkEachMarked(g: Graph, edges: Node -> seq<string>, fails: string -> bool, locs: seq<string>, visited: set<string>)
    requires forall k :: 0 <= k < |locs| ==> locs[k] !in g || locs[k] in visited
    ensures WalkEach(g, edges, fails, locs, visited) == Trace(visited, [])
    decreases |locs|
  {
    if locs != [] {
      WalkEachMarked(g, edges, fails, locs[1..], visited);
    }
  }

  /** One child walked, then the others. */
  lemma WalkEachCons(g: Graph, edges: Node -> seq<string>, fails: string -> bool, locs: seq<string>, visited: set<string>,
                     first: Trace, rest: Trace)
    requires locs != []
    requires Walk(g, edges, fails, locs[0], visited) == first
    requires WalkEach(g, edges, fails, locs[1..], first.visited) == rest
    ensures WalkEach(g, edges, fails, locs, visited) == Trace(rest.visited, first.calls + rest.calls)
  {
  }

  /** A schema is called, then its children are walked. */
  lemma WalkCons(g: Graph, edges: Node -> seq<string>, fails: string -> bool, loc: string, visited: set<string>, rest: Trace)
    requires loc in g && loc !in visited && !fails(loc)
    requires WalkEach(g, edges, fails, edges(g[loc]), visited + {loc}) == rest
    ensures Walk(g, edges, fails, loc, visited) == Trace(rest.visited, [loc] + rest.calls)
  {
  }

  /** The slots are all empty. */
  lemma {:induction false} FlattenEmpty(slots: seq<seq<string>>)
    requires forall i :: 0 <= i < |slots| ==> slots[i] == []
    ensures Flatten(slots) == []
  {
    if slots != [] {
      FlattenEmpty(slots[1..]);
    }
  }

  /** A leaf has no children in the other slots. */
  lemma LeafOtherEdges()
    ensures OtherEdges(Leaf()) == []
  {
    var n := Leaf();
    FlattenEmpty([n.prefixItems,
                  OptList(n.notSchema), OptList(n.elseSchema), OptList(n.thenSchema), OptList(n.contains),
                  OptList(n.propertyNames), OptList(n.unevaluatedItems),
                  OptList(n.unevaluatedProperties), OptList(n.items2020),
                  n.properties, n.dependentSchemas, n.patternProperties,
                  ItemsList(n.items)]);
  }

  /** Five distinct locations. */
  predicate Apart(a: string, b: string, c: string, d: string, e: string) {
    && a != b && a != c && a != d && a != e && b != c && b != d && b != e
    && c != d && c != e && d != e
  }

  /** The children of the test graph's schemas, with its locations named `a` to `e`;
      `followRef` says whether references are among them. */
  predicate TestShape(g: Graph, edges: Node -> seq<string>, followRef: bool,
                      a: string, b: string, c: string, d: string, e: string) {
    && g.Keys == {a, b, c, d, e}
    && edges(g[a]) == (if followRef then [b] else []) + [c, d, e, c, d, e, c, d, e]
    && edges(g[b]) == [] && edges(g[c]) == []
    && edges(g[d]) == (if followRef then [b] else [])
    && edges(g[e]) == (if followRef then [b] else [])
  }

  /** The locations a walk from `a` reaches on the test graph. */
  function Reached(followRef: bool, a: string, b: string, c: string, d: string, e: string): set<string> {
    if followRef then {a, b, c, d, e} else {a, c, d, e}
  }

  lemma TestRootEdges(g: Graph, followRef: bool)
    requires g == TestGraph()
    ensures EdgesOf(followRef)(g["a"])
            == (if followRef then ["b"] else []) + ["c", "d", "e", "c", "d", "e", "c", "d", "e"]
  {
    LeafOtherEdges();
  }

  lemma TestLeafEdges(g: Graph, followRef: bool)
    requires g == TestGraph()
    ensures EdgesOf(followRef)(g["b"]) == [] && EdgesOf(followRef)(g["c"]) == []
    ensures EdgesOf(followRef)(g["d"]) == (if followRef then ["b"] else [])
    ensures EdgesOf(followRef)(g["e"]) == (if followRef then ["b"] else [])
  {
    LeafOtherEdges();
  }

  lemma TestEdges(g: Graph, followRef: bool)
    requires g == TestGraph()
    ensures TestShape(g, EdgesOf(followRef), followRef, "a", "b", "c", "d", "e")
  {
    TestRootEdges(g, followRef);
    TestLeafEdges(g, followRef);
  }

  /** Any set closed under the walk that holds the root holds everything reachable. */
  lemma ShapeReach(g: Graph, edges: Node -> seq<string>, followRef: bool,
                   a: string, b: string, c: string, d: string, e: string, v: set<string>)
    requires TestShape(g, edges, followRef, a, b, c, d, e)
    requires a in v && ClosedSince(g, edges, NeverFails, {}, v)
    ensures Reached(followRef, a, b, c, d, e) <= v
  {
    var ea := edges(g[a]);
    var o := if followRef then 1 else 0;
    assert ea[o] == c && ea[o + 1] == d && ea[o + 2] == e;
    assert Covered(g, NeverFails, v, ea[o]);
    assert Covered(g, NeverFails, v, ea[o + 1]);
    assert Covered(g, NeverFails, v, ea[o + 2]);
    if followRef {
      assert Covered(g, NeverFails, v, ea[0]);
    }
  }

  /** The reachable locations of the test graph hold all their children. */
  lemma ShapeClosed(g: Graph, edges: Node -> seq<string>, followRef: bool,
                    a: string, b: string, c: string, d: string, e: string)
    requires TestShape(g, edges, followRef, a, b, c, d, e)
    ensures Closed(g, edges, Reached(followRef, a, b, c, d, e))
  {
  }

  /** On the test graph the walk calls each reachable location once: with references
      followed that is all five, without them every location but `b`. */
  lemma ShapeWalk(g: Graph, edges: Node -> seq<string>, followRef: bool,
                  a: string, b: string, c: string, d: string, e: string)
    requires Apart(a, b, c, d, e) && TestShape(g, edges, followRef, a, b, c, d, e)
    ensures Walk(g, edges, NeverFails, a, {}).visited == Reached(followRef, a, b, c, d, e)
    ensures Distinct(Walk(g, edges, NeverFails, a, {}).calls)
    ensures forall x :: x in Walk(g, edges, NeverFails, a, {}).calls <==> x in Walk(g, edges, NeverFails, a, {}).visited
  {
    var t := Walk(g, edges, NeverFails, a, {});
    var s := Reached(followRef, a, b, c, d, e);
    WalkCloses(g, edges, NeverFails, a, {});
    ShapeReach(g, edges, followRef, a, b, c, d, e, t.visited);
    ShapeClosed(g, edges, followRef, a, b, c, d, e);
    WalkWithin(g, edges, NeverFails, a, {}, s);
  }

  /** The test of walking with references: every schema of the test graph, each once. */
  lemma TestWalkFollowRefs(g: Graph)
    requires g == TestGraph()
    ensures WalkSchema(g, true, NeverFails, "a").visited == {"a", "b", "c", "d", "e"}
    ensures Distinct(WalkSchema(g, true, NeverFails, "a").calls)
    ensures forall x :: x in WalkSchema(g, true, NeverFails, "a").calls <==> x in WalkSchema(g, true, NeverFails, "a").visited
  {
    TestEdges(g, true);
    ShapeWalk(g, EdgesOf(true), true, "a", "b", "c", "d", "e");
  }

  /** The test of walking without references: every schema but `b`, each once. */
  lemma TestWalkNoRefs(g: Graph)
    requires g == TestGraph()
    ensures WalkSchema(g, false, NeverFails, "a").visited == {"a", "c", "d", "e"}
    ensures Distinct(WalkSchema(g, false, NeverFails, "a").calls)
    ensures forall x :: x in WalkSchema(g, false, NeverFails, "a").calls <==> x in WalkSchema(g, false, NeverFails, "a").visited
  {
    TestEdges(g, false);
    ShapeWalk(g, EdgesOf(false), false, "a", "b", "c", "d", "e");
  }

  lemma CycleEdges(g: Graph)
    requires g == CycleGraph()
    ensures EdgesOf(true)(g["a"]) == ["b"] && EdgesOf(true)(g["b"]) == ["a"]
  {
    LeafOtherEdges();
  }

  /** A reference cycle ends: `a` and then `b` are called, once each. */
  lemma TestWalkCycle(g: Graph)
    requires g == CycleGraph()
    ensures WalkSchema(g, true, NeverFails, "a") == Trace({"a", "b"}, ["a", "b"])
  {
    var edges := EdgesOf(true);
    CycleEdges(g);
    WalkOne(g, edges, NeverFails, "b", {"a"});
    WalkEachCons(g, edges, NeverFails, ["b"], {"a"}, Trace({"a", "b"}, ["b"]), Trace({"a", "b"}, []));
    assert {} + {"a"} == {"a"};
    WalkCons(g, edges, NeverFails, "a", {}, Trace({"a", "b"}, ["b"]));
  }

  /** In the cycle, the root's own location comes back as a definition. */
  lemma CycleDefinitions(g: Graph)
    requires g == CycleGraph()
    ensures Definitions(g, Schema("p", "a")) == [Schema("p", "a")]
  {
    TestWalkCycle(g);
    assert "a" != "b" && g["b"].ref == Some("a");
    RefTargetsPair(g, "a", "b", "p");
  }

  /** After the root, a schema referring back to it: the root comes back as a target. */
  lemma RefTargetsPair(g: Graph, x: string, y: string, path: string)
    requires x != y && y in g && g[y].ref == Some(x)
    ensures RefTargets(g, [x, y], x, path) == [Schema(path, x)]
  {
    assert [x, y][1..] == [y];
    assert [y][1..] == [];
    assert RefTargets(g, [], x, path) == [];
    assert RefTargets(g, [y], x, path) == [Schema(path, x)];
    assert RefTargets(g, [x, y], x, path) == RefTargets(g, [y], x, path);
  }

  /** The called locations, other than the root, whose schema has a reference. */
  function Referrers(g: Graph, calls: seq<string>, root: string): set<string> {
    set l | l in calls && l in g && l != root && g[l].ref.Some?
  }

  /** Over repeat-free calls, `RefTargets` yields exactly one target per referring
      schema: repeats among the targets come from distinct referrers. */
  lemma {:induction false} RefTargetsCount(g: Graph, calls: seq<string>, root: string, path: string)
    requires Distinct(calls)
    ensures |RefTargets(g, calls, root, path)| == |Referrers(g, calls, root)|
  {
    if calls == [] {
      assert Referrers(g, calls, root) == {};
    } else {
      var l := calls[0];
      var tail := calls[1..];
      ReferrersCons(g, calls, root);
      RefTargetsCount(g, tail, root, path);
      var rest := RefTargets(g, tail, root, path);
      if l in g && l != root && g[l].ref.Some? {
        assert RefTargets(g, calls, root, path) == [ToSchema(g[l].ref, path).value] + rest;
      } else {
        assert RefTargets(g, calls, root, path) == rest;
      }
    }
  }

  /** The referrers of repeat-free calls: the first call's, if any, and the rest's. */
  lemma ReferrersCons(g: Graph, calls: seq<string>, root: string)
    requires calls != [] && Distinct(calls)
    ensures Distinct(calls[1..])
    ensures var l := calls[0];
            var rest := Referrers(g, calls[1..], root);
            && l !in rest
            && Referrers(g, calls, root) == (if l in g && l != root && g[l].ref.Some? then {l} + rest else rest)
  {
    DistinctTail(calls);
  }

  /** The tail of a repeat-free sequence is repeat-free and lacks the head. */
  lemma DistinctTail<T>(xs: seq<T>)
    requires xs != [] && Distinct(xs)
    ensures Distinct(xs[1..]) && xs[0] !in xs[1..]
    ensures forall x :: x in xs <==> x == xs[0] || x in xs[1..]
  {
    var tail := xs[1..];
    forall i, j | 0 <= i < j < |tail| ensures tail[i] != tail[j] {
      assert tail[i] == xs[i + 1] && tail[j] == xs[j + 1];
    }
    forall i | 0 <= i < |tail| ensures tail[i] != xs[0] {
      assert tail[i] == xs[i + 1];
    }
    assert xs == [xs[0]] + tail;
  }

  /** In a sequence whose elements all equal `v`, the first two are equal. */
  lemma HeadsEqual<T>(r: seq<T>, v: T)
    requires forall x :: x in r ==> x == v
    ensures |r| >= 1 ==> r[0] == v
    ensures |r| >= 2 ==> r[0] == r[1]
  {
    if |r| >= 1 {
      assert r[0] in r;
    }
    if |r| >= 2 {
      assert r[1] in r;
    }
  }

  /** A repeat-free sequence whose elements all equal `v`, and which holds `v`, is `[v]`. */
  lemma DistinctSingle<T>(r: seq<T>, v: T)
    requires Distinct(r) && v in r && forall x :: x in r ==> x == v
    ensures r == [v]
  {
    HeadsEqual(r, v);
  }

  /** Besides the root, only `d` and `e` carry a reference. */
  lemma RefOwner(g: Graph, a: string, b: string, c: string, d: string, e: string, l: string)
    requires l in {a, b, c, d, e} && l != a && l in g && g[l].ref.Some?
    requires b in g && g[b].ref.None? && c in g && g[c].ref.None?
    ensures l == d || l == e
  {
  }

  /** Over repeat-free calls that cover the test graph, `RefTargets` yields `b`
      exactly twice. */
  lemma ShapeRefTargets(g: Graph, a: string, b: string, c: string, d: string, e: string, path: string, calls: seq<string>)
    requires Apart(a, b, c, d, e) && g.Keys == {a, b, c, d, e}
    requires g[b].ref.None? && g[c].ref.None? && g[d].ref == Some(b) && g[e].ref == Some(b)
    requires Distinct(calls) && forall x :: x in calls <==> x in {a, b, c, d, e}
    ensures forall x :: x in RefTargets(g, calls, a, path) ==> x == Schema(path, b)
    ensures |RefTargets(g, calls, a, path)| == 2
  {
    var r := RefTargets(g, calls, a, path);
    forall x | x in r
      ensures x == Schema(path, b)
    {
      var i :| 0 <= i < |calls| && calls[i] in g && calls[i] != a && g[calls[i]].ref == Some(x.location);
      assert calls[i] in calls;
      RefOwner(g, a, b, c, d, e, calls[i]);
    }
    var refs := Referrers(g, calls, a);
    forall l | l in refs ensures l == d || l == e {
      RefOwner(g, a, b, c, d, e, l);
    }
    assert d in refs && e in refs;
    assert refs == {d, e};
    RefTargetsCount(g, calls, a, path);
  }

  /** When the walk with references calls exactly `a` to `e`, once each, `Definitions`
      of the root yields `b` exactly twice: once for `d` and once for `e`; the root's
      own reference is not collected. */
  lemma ShapeDefinitions(g: Graph, a: string, b: string, c: string, d: string, e: string, path: string)
    requires Apart(a, b, c, d, e) && g.Keys == {a, b, c, d, e}
    requires g[b].ref.None? && g[c].ref.None? && g[d].ref == Some(b) && g[e].ref == Some(b)
    requires WalkSchema(g, true, NeverFails, a).visited == {a, b, c, d, e}
    requires Distinct(WalkSchema(g, true, NeverFails, a).calls)
    requires forall x :: x in WalkSchema(g, true, NeverFails, a).calls <==> x in WalkSchema(g, true, NeverFails, a).visited
    ensures forall x :: x in Definitions(g, Schema(path, a)) ==> x == Schema(path, b)
    ensures |Definitions(g, Schema(path, a))| == 2
  {
    ShapeRefTargets(g, a, b, c, d, e, path, WalkSchema(g, true, NeverFails, a).calls);
  }

  /** When the walk without references marks `a`, `c`, `d` and `e`, and only `a`
      combines subschemas, `FindTypeOfs` of the root is the root alone. */
  lemma ShapeTypeOfs(g: Graph, a: string, b: string, c: string, d: string, e: string, path: string)
    requires WalkSchema(g, false, NeverFails, a).visited == {a, c, d, e}
    requires a in g && HasTypeOf(g[a])
    requires c in g && !HasTypeOf(g[c]) && d in g && !HasTypeOf(g[d]) && e in g && !HasTypeOf(g[e])
    ensures FindTypeOfs(g, Schema(path, a)) == [Schema(path, a)]
  {
    DistinctSingle(FindTypeOfs(g, Schema(path, a)), Schema(path, a));
  }

  lemma TestDefinitions(g: Graph)
    requires g == TestGraph()
    ensures forall x :: x in Definitions(g, Schema("", "a")) ==> x == Schema("", "b")
    ensures |Definitions(g, Schema("", "a"))| == 2
  {
    TestWalkFollowRefs(g);
    TestGraphRefs(g);
    ShapeDefinitions(g, "a", "b", "c", "d", "e", "");
  }

  /** The references of the test graph: `d` and `e` refer to `b`, `b` and `c` to nothing. */
  lemma TestGraphRefs(g: Graph)
    requires g == TestGraph()
    ensures Apart("a", "b", "c", "d", "e") && g.Keys == {"a", "b", "c", "d", "e"}
    ensures g["b"].ref.None? && g["c"].ref.None? && g["d"].ref == Some("b") && g["e"].ref == Some("b")
  {
  }

  lemma TestFindTypeOfs(g: Graph)
    requires g == TestGraph()
    ensures FindTypeOfs(g, Schema("", "a")) == [Schema("", "a")]
  {
    TestWalkNoRefs(g);
    ShapeTypeOfs(g, "a", "b", "c", "d", "e", "");
  }
}
