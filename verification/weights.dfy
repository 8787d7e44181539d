/** `GetWeight` (pkg/markdown/utils.go): the position of a schema among its
    siblings in the source file, read from the file's ordered key tree. */
module Weights {
  import opened Wrappers
  import Strings
  import Naming
  import TemplateFuncs

  /** A value of an `orderedmap.OrderedMap`. A nested ordered map, stored by value or
      through a pointer, is `Nested`; every other value is a `Leaf`. */
  datatype OValue = Leaf | Nested(entries: seq<Entry>)

  datatype Entry = Entry(key: string, value: OValue)

  /** `order.Keys()`: the keys in insertion order. */
  function Keys(m: seq<Entry>): (ks: seq<string>)
    ensures |ks| == |m|
    ensures forall i :: 0 <= i < |m| ==> ks[i] == m[i].key
  {
    if m == [] then [] else [m[0].key] + Keys(m[1..])
  }

  /** `order.Get(key)`. */
  function Lookup(m: seq<Entry>, key: string): (r: Option<OValue>)
    ensures r.None? <==> key !in Keys(m)
    ensures r.Some? ==> exists i :: 0 <= i < |m| && m[i] == Entry(key, r.value)
  {
    if m == [] then None
    else if m[0].key == key then
      assert m[0] == Entry(key, m[0].value);
      Some(m[0].value)
    else
      assert Keys(m) == [m[0].key] + Keys(m[1..]);
      var r := Lookup(m[1..], key);
      assert r.Some? ==> m[1..][0..] == m[1..];
      r
  }

  /** The loop of `GetWeight` over the anchor's segments: every segment but the last
      selects a value of the current level, descending into a nested map, leaving the
      level as it is for any other value, and failing for a missing key; the last
      segment's 1-based position among the level's keys is the weight. */
  function WeightIn(order: seq<Entry>, keys: seq<string>): (w: int)
    ensures w == -1 || w >= 1
    decreases |keys|
  {
    if keys == [] then -1
    else if |keys| == 1 then TemplateFuncs.IndexOf(Keys(order), keys[0])
    else
      match Lookup(order, keys[0])
      case None => -1
      case Some(Nested(m)) => WeightIn(m, keys[1..])
      case Some(Leaf) => WeightIn(order, keys[1..])
  }

  /** `GetWeight(schemaOrders)(path, location)`. */
  function GetWeight(orders: map<string, seq<Entry>>, path: string, location: string): (w: int)
    ensures path !in orders ==> w == -1
    ensures w == -1 || w >= 1
  {
    if path !in orders then -1
    else
      var anchor := Strings.TrimPrefix(Naming.AnchorPath(location), "/");
      WeightIn(orders[path], Strings.Split(anchor, '/'))
  }

  /** `level` is `m` or a map nested somewhere inside it. */
  predicate Within(level: seq<Entry>, m: seq<Entry>)
    decreases m
  {
    level == m || exists i :: 0 <= i < |m| && m[i].value.Nested? && Within(level, m[i].value.entries)
  }

  /** The level whose keys the last segment is looked up in, when the walk gets there. */
  function LevelOf(order: seq<Entry>, keys: seq<string>): Option<seq<Entry>>
    decreases |keys|
  {
    if keys == [] then None
    else if |keys| == 1 then Some(order)
    else
      match Lookup(order, keys[0])
      case None => None
      case Some(Nested(m)) => LevelOf(m, keys[1..])
      case Some(Leaf) => LevelOf(order, keys[1..])
  }

  /** A map nested in an entry of `m` lies within `m`. */
  lemma WithinStep(level: seq<Entry>, m: seq<Entry>, key: string, inner: seq<Entry>)
    requires Lookup(m, key) == Some(Nested(inner))
    requires Within(level, inner)
    ensures Within(level, m)
  {
    var i :| 0 <= i < |m| && m[i] == Entry(key, Nested(inner));
    assert m[i].value.entries == inner;
  }

  /** The level reached lies within the tree, and the weight is the last segment's
      position among that level's keys. */
  lemma {:induction false} LevelOfWithin(order: seq<Entry>, keys: seq<string>)
    requires LevelOf(order, keys).Some?
    ensures keys != []
    ensures Within(LevelOf(order, keys).value, order)
    ensures WeightIn(order, keys) == TemplateFuncs.IndexOf(Keys(LevelOf(order, keys).value), keys[|keys| - 1])
    decreases |keys|
  {
    if |keys| > 1 {
      var rest := keys[1..];
      assert rest[|rest| - 1] == keys[|keys| - 1];
      match Lookup(order, keys[0])
      case Some(Nested(m)) =>
        LevelOfWithin(m, rest);
        WithinStep(LevelOf(order, keys).value, order, keys[0], m);
      case Some(Leaf) =>
        LevelOfWithin(order, rest);
    }
  }

  /** Without a level to look the last segment up in, the weight is -1. */
  lemma {:induction false} NoLevelNoWeight(order: seq<Entry>, keys: seq<string>)
    requires LevelOf(order, keys).None?
    ensures WeightIn(order, keys) == -1
    decreases |keys|
  {
    if |keys| > 1 {
      match Lookup(order, keys[0])
      case None =>
      case Some(Nested(m)) => NoLevelNoWeight(m, keys[1..]);
      case Some(Leaf) => NoLevelNoWeight(order, keys[1..]);
    }
  }

  /** A weight is always the 1-based position of the last segment among the keys of
      one map of the tree (its first occurrence there); -1 means that the walk found
      no level or that the level lacks the segment. */
  lemma WeightIsPosition(order: seq<Entry>, keys: seq<string>)
    ensures var w := WeightIn(order, keys);
            match LevelOf(order, keys)
            case None => w == -1
            case Some(level) =>
              && keys != []
              && Within(level, order)
              && (w == -1 <==> keys[|keys| - 1] !in Keys(level))
              && (w != -1 ==> w <= |level| && Keys(level)[w - 1] == keys[|keys| - 1]
                              && keys[|keys| - 1] !in Keys(level)[..w - 1])
  {
    if LevelOf(order, keys).Some? {
      LevelOfWithin(order, keys);
    } else {
      NoLevelNoWeight(order, keys);
    }
  }

  /** A key missing at an inner level gives -1, whatever follows it. */
  lemma MissingKeyWeight(order: seq<Entry>, key: string, rest: seq<string>)
    requires key !in Keys(order) && rest != []
    ensures WeightIn(order, [key] + rest) == -1
  {
    assert ([key] + rest)[0] == key;
  }

  /** Within one level, the weight of a key is one more than its index. */
  lemma PositionWeight(order: seq<Entry>, i: int)
    requires 0 <= i < |order|
    requires forall j :: 0 <= j < i ==> order[j].key != order[i].key
    ensures WeightIn(order, [order[i].key]) == i + 1
  {
    var ks := Keys(order);
    var w := WeightIn(order, [order[i].key]);
    assert ks[i] == order[i].key;
  }

  /** A segment naming a value that is not a map leaves the level unchanged: the
      next segment is looked up in the same map. */
  lemma LeafKeepsLevel(order: seq<Entry>, key: string, rest: seq<string>)
    requires Lookup(order, key) == Some(Leaf) && rest != []
    ensures WeightIn(order, [key] + rest) == WeightIn(order, rest)
    ensures LevelOf(order, [key] + rest) == LevelOf(order, rest)
  {
    assert ([key] + rest)[1..] == rest;
  }

  /** The keys `GetWeight` walks for a location "#/" followed by `segments` joined by '/'. */
  lemma {:induction false} AnchorSegments(orders: map<string, seq<Entry>>, path: string, segments: seq<string>)
    requires path in orders && segments != []
    requires forall i :: 0 <= i < |segments| ==> '/' !in segments[i] && '#' !in segments[i]
    ensures GetWeight(orders, path, "#/" + Strings.Join(segments, '/')) == WeightIn(orders[path], segments)
  {
    var anchor := "/" + Strings.Join(segments, '/');
    var location := "#/" + Strings.Join(segments, '/');
    assert location == "" + "#" + anchor;
    Naming.AnchorRoundTrip(location, "", anchor);
    assert Strings.TrimPrefix(anchor, "/") == Strings.Join(segments, '/');
    Strings.SplitJoin(segments, '/');
  }

  /** The ordered-key fixture of the repository's tests: `a` holds `b` by value, `b`
      holds `c` through a pointer, `c` has the keys a, b, c. */
  function FixtureC(): seq<Entry> {
    [Entry("a", Leaf), Entry("b", Leaf), Entry("c", Leaf)]
  }

  function FixtureB(): seq<Entry> {
    [Entry("a", Leaf), Entry("b", Nested(FixtureC()))]
  }

  function FixtureA(): seq<Entry> {
    [Entry("a", Nested(FixtureB()))]
  }

  /** The weights the tests expect for the fixture's three-key anchors. */
  lemma FixtureWeights()
    ensures WeightIn(FixtureA(), ["a", "b", "c"]) == 3
    ensures WeightIn(FixtureA(), ["a", "b", "z"]) == -1
  {
    assert Keys(FixtureC()) == ["a", "b", "c"];
    assert Keys(FixtureB()) == ["a", "b"];
    assert ["a", "b", "c"][1..] == ["b", "c"];
    assert ["b", "c"][1..] == ["c"];
    assert ["a", "b", "z"][1..] == ["b", "z"];
    assert ["b", "z"][1..] == ["z"];
  }

  /** The weights the tests expect for the fixture's shorter anchors. */
  lemma FixtureShallowWeights()
    ensures WeightIn(FixtureA(), ["a", "b"]) == 2
    ensures WeightIn(FixtureA(), ["a"]) == 1
    ensures WeightIn(FixtureA(), [""]) == -1
  {
    assert Keys(FixtureB()) == ["a", "b"];
    assert Keys(FixtureA()) == ["a"];
    assert ["a", "b"][1..] == ["b"];
  }

  /** `GetWeight` on the tests' fixture for the last key of the innermost map. */
  lemma FixtureDeepest(orders: map<string, seq<Entry>>, location: string)
    requires orders == map["test.json" := FixtureA()]
    requires location == "#/a/b/c"
    ensures GetWeight(orders, "test.json", location) == 3
  {
    var segments := ["a", "b", "c"];
    JoinFixture(segments);
    FixtureAt(orders, segments, location);
    FixtureWeights();
  }

  /** `GetWeight` on the tests' fixture for a last key the innermost map lacks. */
  lemma FixtureMissingLeaf(orders: map<string, seq<Entry>>, location: string)
    requires orders == map["test.json" := FixtureA()]
    requires location == "#/a/b/z"
    ensures GetWeight(orders, "test.json", location) == -1
  {
    var segments := ["a", "b", "z"];
    JoinFixture(segments);
    FixtureAt(orders, segments, location);
    FixtureWeights();
  }

  /** `GetWeight` on the tests' fixture for the second key of the middle map. */
  lemma FixtureMiddle(orders: map<string, seq<Entry>>, location: string)
    requires orders == map["test.json" := FixtureA()]
    requires location == "#/a/b"
    ensures GetWeight(orders, "test.json", location) == 2
  {
    var segments := ["a", "b"];
    JoinFixture(segments);
    FixtureAt(orders, segments, location);
    FixtureShallowWeights();
  }

  /** `GetWeight` on the tests' fixture for the only key of the top map. */
  lemma FixtureTop(orders: map<string, seq<Entry>>, location: string)
    requires orders == map["test.json" := FixtureA()]
    requires location == "#/a"
    ensures GetWeight(orders, "test.json", location) == 1
  {
    var segments := ["a"];
    JoinFixture(segments);
    FixtureAt(orders, segments, location);
    FixtureShallowWeights();
  }

  lemma FixtureAt(orders: map<string, seq<Entry>>, segments: seq<string>, location: string)
    requires orders == map["test.json" := FixtureA()]
    requires forall i :: 0 <= i < |segments| ==> '/' !in segments[i] && '#' !in segments[i]
    requires segments != [] && location == "#/" + Strings.Join(segments, '/')
    ensures GetWeight(orders, "test.json", location) == WeightIn(FixtureA(), segments)
  {
    AnchorSegments(orders, "test.json", segments);
  }

  lemma JoinFixture(segments: seq<string>)
    requires segments == ["a", "b", "c"] || segments == ["a", "b", "z"] || segments == ["a", "b"] || segments == ["a"]
    ensures segments == ["a", "b", "c"] ==> Strings.Join(segments, '/') == "a/b/c"
    ensures segments == ["a", "b", "z"] ==> Strings.Join(segments, '/') == "a/b/z"
    ensures segments == ["a", "b"] ==> Strings.Join(segments, '/') == "a/b"
    ensures segments == ["a"] ==> Strings.Join(segments, '/') == "a"
  {
    if |segments| > 1 {
      assert segments[1..] == ["b", "c"] || segments[1..] == ["b", "z"] || segments[1..] == ["b"];
      assert ["b", "c"][1..] == ["c"];
      assert ["b", "z"][1..] == ["z"];
    }
  }

  /** `GetWeight` on the tests' fixture for the bare anchor "#". */
  lemma FixtureRoot(orders: map<string, seq<Entry>>, location: string)
    requires orders == map["test.json" := FixtureA()]
    requires location == "#"
    ensures GetWeight(orders, "test.json", location) == -1
  {
    Naming.AnchorRoundTrip(location, "", "");
    assert Strings.Split("", '/') == [""];
    FixtureShallowWeights();
  }
}
