/** The pattern rewriter of pkg/markdown/converter.go (`applyMiddleware` and
    `middleware`): before a schema is compiled, every `pattern` string and every
    `patternProperties` key is replaced by its hash, and a table maps each hash
    back to the original expression for the templates (`LookupRegex`). */
module Patterns {
  import opened Wrappers
  import opened Json
  import TemplateFuncs

  /** `Hash` (an MD5 hex digest), left uninterpreted. */
  type Hasher = string -> string

  /** The converter's `patterns` table: hash to original expression. */
  type Table = map<string, string>

  const PatternKey: string := "pattern"
  const PatternPropertiesKey: string := "patternProperties"

  /** Every entry of the table is keyed by the hash of its value. */
  predicate ValidTable(hash: Hasher, t: Table) {
    forall h :: h in t ==> hash(t[h]) == h
  }

  // ---------------------------------------------------------------------------
  // Nesting depth, the measure the recursion descends on

  function Max(a: nat, b: nat): nat {
    if a < b then b else a
  }

  /** How deeply objects nest in `j`; arrays are not descended, so they count as flat. */
  function Depth(j: Json): nat
    decreases j, 1
  {
    match j
    case Object(ms) => 1 + MaxDepth(ms)
    case _ => 0
  }

  function MaxDepth(ms: seq<Member>): nat
    decreases ms, 0
  {
    if ms == [] then 0 else Max(Depth(ms[0].value), MaxDepth(ms[1..]))
  }

  /** All member values of `ms` nest at most `b` deep. */
  predicate DepthsAtMost(ms: seq<Member>, b: nat) {
    forall i :: 0 <= i < |ms| ==> Depth(ms[i].value) <= b
  }

  lemma {:induction false} MaxDepthBound(ms: seq<Member>, b: nat)
    ensures DepthsAtMost(ms, b) <==> MaxDepth(ms) <= b
  {
    if ms != [] {
      MaxDepthBound(ms[1..], b);
      assert forall i :: 1 <= i < |ms| ==> ms[i] == ms[1..][i - 1];
    }
  }

  lemma {:induction false} PutDepth(ms: seq<Member>, key: string, value: Json, b: nat)
    requires DepthsAtMost(ms, b) && Depth(value) <= b
    ensures DepthsAtMost(Put(ms, key, value), b)
  {
    if ms != [] && ms[0].key != key {
      PutDepth(ms[1..], key, value, b);
      assert forall i :: 1 <= i < |ms| ==> ms[i] == ms[1..][i - 1];
    }
  }

  // ---------------------------------------------------------------------------
  // The two middleware functions

  /** The `patternProperties` middleware's loop: each key `k` moves to `hash(k)` in a
      fresh map, keeping its value, and the table records `hash(k) ↦ k`. */
  function Rekey(hash: Hasher, ms: seq<Member>, acc: seq<Member>, t: Table): (r: (seq<Member>, Table))
    decreases |ms|
  {
    if ms == [] then (acc, t)
    else
      var k := ms[0].key;
      Rekey(hash, ms[1..], Put(acc, hash(k), ms[0].value), t[hash(k) := k])
  }

  /** The `patternProperties` middleware; `None` is the panic of its type assertion
      when the value is not an object. */
  function RewritePatternProperties(hash: Hasher, v: Json, t: Table): Option<(Json, Table)> {
    match v
    case Object(ms) =>
      var r := Rekey(hash, ms, [], t);
      Some((Object(r.0), r.1))
    case _ => None
  }

  /** The `pattern` middleware; `None` is the panic of its type assertion when the
      value is not a string. */
  function RewritePattern(hash: Hasher, v: Json, t: Table): Option<(Json, Table)> {
    match v
    case Str(p) => Some((Str(hash(p)), t[hash(p) := p]))
    case _ => None
  }

  /** Applies the middleware registered for `key` when the object has that key. */
  function ApplyOne(hash: Hasher, ms: seq<Member>, t: Table, key: string): Option<(seq<Member>, Table)> {
    match Get(ms, key)
    case None => Some((ms, t))
    case Some(v) =>
      var r :- if key == PatternPropertiesKey then RewritePatternProperties(hash, v, t)
               else RewritePattern(hash, v, t);
      Some((Put(ms, key, r.0), r.1))
  }

  /** The first loop of `applyMiddleware`. Go visits the two middleware entries in an
      unspecified order; they touch different keys, so the model fixes one. */
  function Middleware(hash: Hasher, ms: seq<Member>, t: Table): Option<(seq<Member>, Table)> {
    var r :- ApplyOne(hash, ms, t, PatternPropertiesKey);
    ApplyOne(hash, r.0, r.1, PatternKey)
  }

  lemma {:induction false} RekeyDepth(hash: Hasher, ms: seq<Member>, acc: seq<Member>, t: Table, b: nat)
    requires DepthsAtMost(ms, b) && DepthsAtMost(acc, b)
    ensures DepthsAtMost(Rekey(hash, ms, acc, t).0, b)
    decreases |ms|
  {
    if ms != [] {
      PutDepth(acc, hash(ms[0].key), ms[0].value, b);
      assert forall i :: 1 <= i < |ms| ==> ms[i] == ms[1..][i - 1];
      RekeyDepth(hash, ms[1..], Put(acc, hash(ms[0].key), ms[0].value), t[hash(ms[0].key) := ms[0].key], b);
    }
  }

  lemma ApplyOneDepth(hash: Hasher, ms: seq<Member>, t: Table, key: string)
    requires ApplyOne(hash, ms, t, key).Some?
    ensures MaxDepth(ApplyOne(hash, ms, t, key).value.0) <= MaxDepth(ms)
  {
    match Get(ms, key)
    case None =>
    case Some(v) =>
      GetDepth(ms, key);
      var r := if key == PatternPropertiesKey then RewritePatternProperties(hash, v, t) else RewritePattern(hash, v, t);
      RewriteDepth(hash, key, v, t);
      PutMaxDepth(ms, key, r.value.0);
  }

  /** A value found in an object nests no deeper than the object's members. */
  lemma GetDepth(ms: seq<Member>, key: string)
    requires Get(ms, key).Some?
    ensures Depth(Get(ms, key).value) <= MaxDepth(ms)
  {
    GetFound(ms, key);
    MaxDepthBound(ms, MaxDepth(ms));
  }

  /** Neither middleware makes a value nest deeper. */
  lemma RewriteDepth(hash: Hasher, key: string, v: Json, t: Table)
    ensures var r := if key == PatternPropertiesKey then RewritePatternProperties(hash, v, t) else RewritePattern(hash, v, t);
            r.Some? ==> Depth(r.value.0) <= Depth(v)
  {
    if key == PatternPropertiesKey && v.Object? {
      var inner := v.members;
      MaxDepthBound(inner, Depth(v) - 1);
      RekeyDepth(hash, inner, [], t, Depth(v) - 1);
      MaxDepthBound(Rekey(hash, inner, [], t).0, Depth(v) - 1);
    }
  }

  /** Putting a value no deeper than the members keeps the members' depth. */
  lemma PutMaxDepth(ms: seq<Member>, key: string, value: Json)
    requires Depth(value) <= MaxDepth(ms)
    ensures MaxDepth(Put(ms, key, value)) <= MaxDepth(ms)
  {
    var b := MaxDepth(ms);
    MaxDepthBound(ms, b);
    PutDepth(ms, key, value, b);
    MaxDepthBound(Put(ms, key, value), b);
  }

  /** A key that is present has its value at some position. */
  lemma {:induction false} GetFound(ms: seq<Member>, key: string)
    requires Get(ms, key).Some?
    ensures exists i :: 0 <= i < |ms| && ms[i].key == key && Get(ms, key) == Some(ms[i].value)
  {
    if ms[0].key != key {
      GetFound(ms[1..], key);
      var i :| 0 <= i < |ms[1..]| && ms[1..][i].key == key && Get(ms[1..], key) == Some(ms[1..][i].value);
      assert ms[i + 1] == ms[1..][i];
    }
  }

  lemma MiddlewareDepth(hash: Hasher, ms: seq<Member>, t: Table)
    requires Middleware(hash, ms, t).Some?
    ensures MaxDepth(Middleware(hash, ms, t).value.0) <= MaxDepth(ms)
  {
    var r := ApplyOne(hash, ms, t, PatternPropertiesKey).value;
    ApplyOneDepth(hash, ms, t, PatternPropertiesKey);
    ApplyOneDepth(hash, r.0, r.1, PatternKey);
  }

  lemma {:induction false} RekeyTable(hash: Hasher, ms: seq<Member>, acc: seq<Member>, t: Table)
    ensures t.Keys <= Rekey(hash, ms, acc, t).1.Keys
    ensures ValidTable(hash, t) ==> ValidTable(hash, Rekey(hash, ms, acc, t).1)
    decreases |ms|
  {
    if ms != [] {
      var k := ms[0].key;
      RekeyTable(hash, ms[1..], Put(acc, hash(k), ms[0].value), t[hash(k) := k]);
    }
  }

  /** The middleware keeps the object's keys, only adds to the table, and keeps the
      table valid. */
  lemma MiddlewareKeeps(hash: Hasher, ms: seq<Member>, t: Table)
    requires Middleware(hash, ms, t).Some?
    ensures Keys(Middleware(hash, ms, t).value.0) == Keys(ms)
    ensures t.Keys <= Middleware(hash, ms, t).value.1.Keys
    ensures ValidTable(hash, t) ==> ValidTable(hash, Middleware(hash, ms, t).value.1)
  {
    var r := ApplyOne(hash, ms, t, PatternPropertiesKey).value;
    ApplyOneKeeps(hash, ms, t, PatternPropertiesKey);
    ApplyOneKeeps(hash, r.0, r.1, PatternKey);
  }

  lemma ApplyOneKeeps(hash: Hasher, ms: seq<Member>, t: Table, key: string)
    requires ApplyOne(hash, ms, t, key).Some?
    ensures Keys(ApplyOne(hash, ms, t, key).value.0) == Keys(ms)
    ensures t.Keys <= ApplyOne(hash, ms, t, key).value.1.Keys
    ensures ValidTable(hash, t) ==> ValidTable(hash, ApplyOne(hash, ms, t, key).value.1)
  {
    match Get(ms, key)
    case None =>
    case Some(v) =>
      if key == PatternPropertiesKey {
        RekeyTable(hash, v.members, [], t);
      }
  }

  // ---------------------------------------------------------------------------
  // applyMiddleware

  /** `applyMiddleware` on one object: the middleware first, then every member
      whose value is an object, in iteration order. `None` is a panic. */
  function ApplyObject(hash: Hasher, ms: seq<Member>, t: Table): (r: Option<(seq<Member>, Table)>)
    ensures r.Some? ==> Keys(r.value.0) == Keys(ms)
    ensures r.Some? ==> t.Keys <= r.value.1.Keys
    ensures r.Some? && ValidTable(hash, t) ==> ValidTable(hash, r.value.1)
    decreases MaxDepth(ms), 1
  {
    var m :- Middleware(hash, ms, t);
    MiddlewareDepth(hash, ms, t);
    MiddlewareKeeps(hash, ms, t);
    DescendMembers(hash, m.0, m.1)
  }

  /** The second loop of `applyMiddleware`: recurse into object values only. */
  function DescendMembers(hash: Hasher, ms: seq<Member>, t: Table): (r: Option<(seq<Member>, Table)>)
    ensures r.Some? ==> Keys(r.value.0) == Keys(ms)
    ensures r.Some? ==> t.Keys <= r.value.1.Keys
    ensures r.Some? && ValidTable(hash, t) ==> ValidTable(hash, r.value.1)
    decreases MaxDepth(ms), 0, |ms|
  {
    if ms == [] then Some(([], t))
    else
      MaxDepthBound(ms, MaxDepth(ms));
      assert Depth(ms[0].value) <= MaxDepth(ms);
      MaxDepthBound(ms[1..], MaxDepth(ms));
      match ms[0].value
      case Object(inner) =>
        var h :- ApplyObject(hash, inner, t);
        var rest :- DescendMembers(hash, ms[1..], h.1);
        assert Keys(ms) == [ms[0].key] + Keys(ms[1..]);
        assert Keys([Member(ms[0].key, Object(h.0))] + rest.0) == [ms[0].key] + Keys(rest.0);
        Some(([Member(ms[0].key, Object(h.0))] + rest.0, rest.1))
      case _ =>
        var rest :- DescendMembers(hash, ms[1..], t);
        assert Keys(ms) == [ms[0].key] + Keys(ms[1..]);
        assert Keys([ms[0]] + rest.0) == [ms[0].key] + Keys(rest.0);
        Some(([ms[0]] + rest.0, rest.1))
  }

  // ---------------------------------------------------------------------------
  // What the rewrite does to one object

  /** The descent leaves a member that is not an object as it was. */
  lemma {:induction false} DescendKeepsFlat(hash: Hasher, ms: seq<Member>, t: Table, key: string, v: Json)
    requires DescendMembers(hash, ms, t).Some?
    requires Get(ms, key) == Some(v) && !v.Object?
    ensures Get(DescendMembers(hash, ms, t).value.0, key) == Some(v)
    decreases |ms|
  {
    var r := DescendMembers(hash, ms, t).value.0;
    if ms[0].key != key {
      match ms[0].value
      case Object(inner) =>
        var h := ApplyObject(hash, inner, t).value;
        DescendKeepsFlat(hash, ms[1..], h.1, key, v);
        assert r[1..] == DescendMembers(hash, ms[1..], h.1).value.0;
      case _ =>
        DescendKeepsFlat(hash, ms[1..], t, key, v);
        assert r[1..] == DescendMembers(hash, ms[1..], t).value.0;
    }
  }

  /** In `r`, the member `key` holds `inner` rewritten by `applyMiddleware` from some
      table `t'`, and everything that rewrite recorded is still in `r`'s table. */
  predicate NestedRewrite(hash: Hasher, inner: seq<Member>, t': Table, r: (seq<Member>, Table), key: string) {
    && ApplyObject(hash, inner, t').Some?
    && Get(r.0, key) == Some(Object(ApplyObject(hash, inner, t').value.0))
    && ApplyObject(hash, inner, t').value.1.Keys <= r.1.Keys
  }

  /** The descent replaces an object member by its own recursive rewrite, with the
      table as it stood when the descent reached it. */
  lemma {:induction false} DescendKeepsObject(hash: Hasher, ms: seq<Member>, t: Table, key: string, inner: seq<Member>)
    requires DescendMembers(hash, ms, t).Some?
    requires Get(ms, key) == Some(Object(inner))
    ensures exists t' :: NestedRewrite(hash, inner, t', DescendMembers(hash, ms, t).value, key)
    decreases |ms|
  {
    var r := DescendMembers(hash, ms, t).value;
    match ms[0].value
    case Object(i0) =>
      var h := ApplyObject(hash, i0, t).value;
      var rest := DescendMembers(hash, ms[1..], h.1).value;
      assert r == ([Member(ms[0].key, Object(h.0))] + rest.0, rest.1);
      PrependMember(Member(ms[0].key, Object(h.0)), rest.0, key);
      if ms[0].key != key {
        DescendKeepsObject(hash, ms[1..], h.1, key, inner);
        var t' :| NestedRewrite(hash, inner, t', rest, key);
        assert NestedRewrite(hash, inner, t', r, key);
      } else {
        assert NestedRewrite(hash, inner, t, r, key);
      }
    case _ =>
      var rest := DescendMembers(hash, ms[1..], t).value;
      assert r == ([ms[0]] + rest.0, rest.1);
      PrependMember(ms[0], rest.0, key);
      DescendKeepsObject(hash, ms[1..], t, key, inner);
      var t' :| NestedRewrite(hash, inner, t', rest, key);
      assert NestedRewrite(hash, inner, t', r, key);
  }

  /** A member other than `pattern` and `patternProperties` holding an object ends up
      holding that object's own rewrite. */
  lemma NestedInApply(hash: Hasher, ms: seq<Member>, t: Table, key: string, inner: seq<Member>)
    requires key != PatternKey && key != PatternPropertiesKey
    requires Get(ms, key) == Some(Object(inner))
    requires ApplyObject(hash, ms, t).Some?
    ensures exists t' :: NestedRewrite(hash, inner, t', ApplyObject(hash, ms, t).value, key)
  {
    var r1 := ApplyOne(hash, ms, t, PatternPropertiesKey).value;
    ApplyOneOther(hash, ms, t, PatternPropertiesKey, key);
    ApplyOneOther(hash, r1.0, r1.1, PatternKey, key);
    var m := Middleware(hash, ms, t).value;
    DescendKeepsObject(hash, m.0, m.1, key, inner);
  }

  /** A middleware step leaves the members under other keys as they were. */
  lemma ApplyOneOther(hash: Hasher, ms: seq<Member>, t: Table, key: string, other: string)
    requires other != key && ApplyOne(hash, ms, t, key).Some?
    ensures Get(ApplyOne(hash, ms, t, key).value.0, other) == Get(ms, other)
  {
    match Get(ms, key)
    case None =>
    case Some(v) =>
      var r := if key == PatternPropertiesKey then RewritePatternProperties(hash, v, t) else RewritePattern(hash, v, t);
      PutOther(ms, key, r.value.0, other);
  }

  /** The object reached from `ms` by following the keys of `path`, or `None` when a
      key is missing or does not hold an object. */
  function At(ms: seq<Member>, path: seq<string>): Option<seq<Member>>
    decreases |path|
  {
    if path == [] then Some(ms)
    else
      match Get(ms, path[0])
      case Some(Object(inner)) => At(inner, path[1..])
      case _ => None
  }

  /** `applyMiddleware` descends into every object: a string `pattern` `p` at any
      depth, reached through keys other than `pattern` and `patternProperties`,
      becomes `hash(p)` at the same place, and the table maps `hash(p)` to `p`. */
  lemma {:induction false} PatternRewrittenAt(hash: Hasher, ms: seq<Member>, t: Table, path: seq<string>, p: string)
    requires forall i :: 0 <= i < |path| ==> path[i] != PatternKey && path[i] != PatternPropertiesKey
    requires At(ms, path).Some? && Get(At(ms, path).value, PatternKey) == Some(Str(p))
    requires ApplyObject(hash, ms, t).Some?
    ensures At(ApplyObject(hash, ms, t).value.0, path).Some?
    ensures Get(At(ApplyObject(hash, ms, t).value.0, path).value, PatternKey) == Some(Str(hash(p)))
    ensures hash(p) in ApplyObject(hash, ms, t).value.1
    decreases |path|
  {
    if path == [] {
      PatternRewritten(hash, ms, t, p);
    } else {
      var inner := Get(ms, path[0]).value.members;
      var r := ApplyObject(hash, ms, t).value;
      NestedInApply(hash, ms, t, path[0], inner);
      var t' :| NestedRewrite(hash, inner, t', r, path[0]);
      PatternRewrittenAt(hash, inner, t', path[1..], p);
      assert At(r.0, path) == At(ApplyObject(hash, inner, t').value.0, path[1..]);
    }
  }

  /** The `pattern` member's value after the `patternProperties` step is the original one. */
  lemma PatternAfterFirstStep(hash: Hasher, ms: seq<Member>, t: Table)
    requires ApplyOne(hash, ms, t, PatternPropertiesKey).Some?
    ensures Get(ApplyOne(hash, ms, t, PatternPropertiesKey).value.0, PatternKey) == Get(ms, PatternKey)
  {
    match Get(ms, PatternPropertiesKey)
    case None =>
    case Some(v) =>
      var r := RewritePatternProperties(hash, v, t).value;
      PutOther(ms, PatternPropertiesKey, r.0, PatternKey);
  }

  /** A string `pattern` value `p` becomes `hash(p)`, and the table maps `hash(p)` to `p`. */
  lemma PatternRewritten(hash: Hasher, ms: seq<Member>, t: Table, p: string)
    requires Get(ms, PatternKey) == Some(Str(p))
    requires ApplyObject(hash, ms, t).Some?
    ensures Get(ApplyObject(hash, ms, t).value.0, PatternKey) == Some(Str(hash(p)))
    ensures hash(p) in ApplyObject(hash, ms, t).value.1
    ensures ValidTable(hash, t) ==> ValidTable(hash, ApplyObject(hash, ms, t).value.1)
  {
    var r1 := ApplyOne(hash, ms, t, PatternPropertiesKey).value;
    PatternAfterFirstStep(hash, ms, t);
    var m := Middleware(hash, ms, t).value;
    assert m == (Put(r1.0, PatternKey, Str(hash(p))), r1.1[hash(p) := p]);
    DescendKeepsFlat(hash, m.0, m.1, PatternKey, Str(hash(p)));
  }

  /** A `pattern` value that is not a string makes the rewrite panic. */
  lemma PatternNotStringPanics(hash: Hasher, ms: seq<Member>, t: Table, v: Json)
    requires Get(ms, PatternKey) == Some(v) && !v.Str?
    ensures ApplyObject(hash, ms, t).None?
  {
    if ApplyOne(hash, ms, t, PatternPropertiesKey).Some? {
      PatternAfterFirstStep(hash, ms, t);
    }
  }

  /** A `patternProperties` value that is not an object makes the rewrite panic. */
  lemma PatternPropertiesNotObjectPanics(hash: Hasher, ms: seq<Member>, t: Table, v: Json)
    requires Get(ms, PatternPropertiesKey) == Some(v) && !v.Object?
    ensures ApplyObject(hash, ms, t).None?
  {
  }

  /** The members of `ms` with every key replaced by its hash. */
  function HashKeys(hash: Hasher, ms: seq<Member>): (r: seq<Member>)
    ensures |r| == |ms|
    ensures forall i :: 0 <= i < |ms| ==> r[i] == Member(hash(ms[i].key), ms[i].value)
  {
    if ms == [] then [] else [Member(hash(ms[0].key), ms[0].value)] + HashKeys(hash, ms[1..])
  }

  ghost predicate Injective(hash: Hasher) {
    forall a, b :: hash(a) == hash(b) ==> a == b
  }

  lemma PutFresh(acc: seq<Member>, key: string, value: Json)
    requires key !in Keys(acc)
    ensures Put(acc, key, value) == acc + [Member(key, value)]
  {
    if acc != [] {
      assert Keys(acc)[0] == acc[0].key;
      assert key !in Keys(acc[1..]) by {
        assert forall i :: 0 <= i < |acc[1..]| ==> Keys(acc[1..])[i] == Keys(acc)[i + 1];
      }
      calc {
        Put(acc, key, value);
        [acc[0]] + Put(acc[1..], key, value);
      == { PutFresh(acc[1..], key, value); }
        [acc[0]] + (acc[1..] + [Member(key, value)]);
        ([acc[0]] + acc[1..]) + [Member(key, value)];
      == { assert [acc[0]] + acc[1..] == acc; }
        acc + [Member(key, value)];
      }
    }
  }

  lemma DistinctTail(ms: seq<Member>)
    requires ms != [] && DistinctKeys(ms)
    ensures DistinctKeys(ms[1..])
  {
    forall i, j | 0 <= i < j < |ms[1..]| ensures ms[1..][i].key != ms[1..][j].key {
      assert ms[1..][i] == ms[i + 1] && ms[1..][j] == ms[j + 1];
    }
  }

  /** No two keys of `ms` hash alike: what an injective hash gives distinct keys. */
  predicate DistinctHashes(hash: Hasher, ms: seq<Member>) {
    forall i, j :: 0 <= i < j < |ms| ==> hash(ms[i].key) != hash(ms[j].key)
  }

  lemma InjectiveDistinct(hash: Hasher, ms: seq<Member>)
    requires Injective(hash) && DistinctKeys(ms)
    ensures DistinctHashes(hash, ms)
  {
  }

  /** No key of `ms` hashes to a key already in `acc`. */
  predicate FreshHashes(hash: Hasher, ms: seq<Member>, acc: seq<Member>) {
    forall i, j :: 0 <= i < |ms| && 0 <= j < |acc| ==> hash(ms[i].key) != acc[j].key
  }

  /** When no two keys hash alike, the `patternProperties` loop moves each member
      `k: v` to `hash(k): v`, in order. */
  lemma {:induction false} RekeyMembers(hash: Hasher, ms: seq<Member>, acc: seq<Member>, t: Table)
    requires DistinctHashes(hash, ms) && FreshHashes(hash, ms, acc)
    ensures Rekey(hash, ms, acc, t).0 == acc + HashKeys(hash, ms)
    decreases |ms|
  {
    if ms == [] {
      assert acc + HashKeys(hash, ms) == acc;
    } else {
      var k := ms[0].key;
      var m := Member(hash(k), ms[0].value);
      RekeyStep(hash, ms, acc);
      RekeyMembers(hash, ms[1..], acc + [m], t[hash(k) := k]);
      RekeyUnfold(hash, ms, acc, t);
      HashKeysCons(hash, ms, acc);
    }
  }

  lemma RekeyUnfold(hash: Hasher, ms: seq<Member>, acc: seq<Member>, t: Table)
    requires ms != []
    requires Put(acc, hash(ms[0].key), ms[0].value) == acc + [Member(hash(ms[0].key), ms[0].value)]
    ensures Rekey(hash, ms, acc, t).0
         == Rekey(hash, ms[1..], acc + [Member(hash(ms[0].key), ms[0].value)], t[hash(ms[0].key) := ms[0].key]).0
  {
  }

  lemma HashKeysCons(hash: Hasher, ms: seq<Member>, acc: seq<Member>)
    requires ms != []
    ensures acc + [Member(hash(ms[0].key), ms[0].value)] + HashKeys(hash, ms[1..]) == acc + HashKeys(hash, ms)
  {
    var m := Member(hash(ms[0].key), ms[0].value);
    var tail := HashKeys(hash, ms[1..]);
    assert (acc + [m]) + tail == acc + ([m] + tail);
  }

  /** One step of the loop appends the first member and keeps the premises of
      `RekeyMembers` for the rest. */
  lemma RekeyStep(hash: Hasher, ms: seq<Member>, acc: seq<Member>)
    requires ms != [] && DistinctHashes(hash, ms) && FreshHashes(hash, ms, acc)
    ensures Put(acc, hash(ms[0].key), ms[0].value) == acc + [Member(hash(ms[0].key), ms[0].value)]
    ensures DistinctHashes(hash, ms[1..])
    ensures FreshHashes(hash, ms[1..], acc + [Member(hash(ms[0].key), ms[0].value)])
  {
    var m := Member(hash(ms[0].key), ms[0].value);
    assert hash(ms[0].key) !in Keys(acc) by {
      assert forall j :: 0 <= j < |acc| ==> Keys(acc)[j] != hash(ms[0].key);
    }
    PutFresh(acc, hash(ms[0].key), ms[0].value);
    forall i, j | 0 <= i < |ms[1..]| && 0 <= j < |acc + [m]|
      ensures hash(ms[1..][i].key) != (acc + [m])[j].key
    {
      assert ms[1..][i] == ms[i + 1];
    }
    assert DistinctHashes(hash, ms[1..]) by {
      forall i, j | 0 <= i < j < |ms[1..]| ensures hash(ms[1..][i].key) != hash(ms[1..][j].key) {
        assert ms[1..][i] == ms[i + 1] && ms[1..][j] == ms[j + 1];
      }
    }
  }

  /** The loop leaves the table entry of a hash that no key of `ms` has. */
  lemma {:induction false} RekeyFrame(hash: Hasher, ms: seq<Member>, acc: seq<Member>, t: Table, h: string)
    requires h in t && forall i :: 0 <= i < |ms| ==> h != hash(ms[i].key)
    ensures h in Rekey(hash, ms, acc, t).1 && Rekey(hash, ms, acc, t).1[h] == t[h]
    decreases |ms|
  {
    if ms != [] {
      var k := ms[0].key;
      assert forall i :: 0 <= i < |ms[1..]| ==> ms[1..][i] == ms[i + 1];
      RekeyFrame(hash, ms[1..], Put(acc, hash(k), ms[0].value), t[hash(k) := k], h);
    }
  }

  /** With an injective hash, the loop records `hash(k) ↦ k` for every key `k`. */
  lemma {:induction false} RekeyRecords(hash: Hasher, ms: seq<Member>, acc: seq<Member>, t: Table, i: int)
    requires Injective(hash) && DistinctKeys(ms) && 0 <= i < |ms|
    ensures hash(ms[i].key) in Rekey(hash, ms, acc, t).1
    ensures Rekey(hash, ms, acc, t).1[hash(ms[i].key)] == ms[i].key
    decreases |ms|
  {
    var k := ms[0].key;
    var acc' := Put(acc, hash(k), ms[0].value);
    if i == 0 {
      forall j | 0 <= j < |ms[1..]| ensures hash(k) != hash(ms[1..][j].key) {
        assert ms[1..][j] == ms[j + 1];
      }
      RekeyFrame(hash, ms[1..], acc', t[hash(k) := k], hash(k));
    } else {
      DistinctTail(ms);
      RekeyRecords(hash, ms[1..], acc', t[hash(k) := k], i - 1);
      assert ms[1..][i - 1] == ms[i];
    }
  }

  /** With an injective hash, a valid table gives back the original expression for its
      hash, and `LookupRegex` prints that expression. */
  lemma LookupRecovers(hash: Hasher, t: Table, p: string)
    requires Injective(hash) && ValidTable(hash, t) && hash(p) in t
    ensures t[hash(p)] == p
    ensures TemplateFuncs.LookupRegex(t, hash(p)) == TemplateFuncs.EscapeRegex(p)
  {
  }

  /** The loop records an entry for the hash of every key it moves. */
  lemma {:induction false} RekeyCovers(hash: Hasher, ms: seq<Member>, acc: seq<Member>, t: Table)
    ensures forall i :: 0 <= i < |ms| ==> hash(ms[i].key) in Rekey(hash, ms, acc, t).1
    decreases |ms|
  {
    if ms != [] {
      var k := ms[0].key;
      var acc' := Put(acc, hash(k), ms[0].value);
      RekeyCovers(hash, ms[1..], acc', t[hash(k) := k]);
      RekeyTable(hash, ms[1..], acc', t[hash(k) := k]);
      assert forall i :: 1 <= i < |ms| ==> ms[i] == ms[1..][i - 1];
    }
  }

  /** An object-valued `patternProperties` ends up keyed by the hashes of its original
      keys, in order, and the table has an entry for each of them. */
  lemma PatternPropertiesRewritten(hash: Hasher, ms: seq<Member>, t: Table, pms: seq<Member>)
    requires Get(ms, PatternPropertiesKey) == Some(Object(pms))
    requires DistinctHashes(hash, pms)
    requires ApplyObject(hash, ms, t).Some?
    ensures Get(ApplyObject(hash, ms, t).value.0, PatternPropertiesKey).Some?
    ensures Get(ApplyObject(hash, ms, t).value.0, PatternPropertiesKey).value.Object?
    ensures Keys(Get(ApplyObject(hash, ms, t).value.0, PatternPropertiesKey).value.members)
            == Keys(HashKeys(hash, pms))
    ensures forall i :: 0 <= i < |pms| ==> hash(pms[i].key) in ApplyObject(hash, ms, t).value.1
  {
    var rk := Rekey(hash, pms, [], t);
    RekeyMembers(hash, pms, [], t);
    RekeyCovers(hash, pms, [], t);
    assert rk.0 == HashKeys(hash, pms);
    var r1 := ApplyOne(hash, ms, t, PatternPropertiesKey).value;
    assert r1 == (Put(ms, PatternPropertiesKey, Object(rk.0)), rk.1);
    var m := Middleware(hash, ms, t).value;
    var r2 := ApplyOne(hash, r1.0, r1.1, PatternKey);
    assert Get(m.0, PatternPropertiesKey) == Some(Object(rk.0)) by {
      match Get(r1.0, PatternKey)
      case None =>
      case Some(v) =>
        PutOther(r1.0, PatternKey, RewritePattern(hash, v, r1.1).value.0, PatternPropertiesKey);
    }
    ApplyOneKeeps(hash, r1.0, r1.1, PatternKey);
    DescendKeepsObject(hash, m.0, m.1, PatternPropertiesKey, rk.0);
  }

  // ---------------------------------------------------------------------------
  // The example of converter_test.go

  /** `{"pattern": "a", "patternProperties": {"a": 1}}`. */
  function TestSchema(): seq<Member> {
    [Member("pattern", Str("a")), Member("patternProperties", Object([Member("a", Number("1"))]))]
  }

  /** Both occurrences of `a` become its hash; the table maps the hash back to `a`.
      A hash is never one of the two keywords, which the premise states. */
  lemma TestSchemaRewritten(hash: Hasher)
    requires hash("a") != PatternKey && hash("a") != PatternPropertiesKey
    ensures ApplyObject(hash, TestSchema(), map[]) ==
      Some(([Member("pattern", Str(hash("a"))),
             Member("patternProperties", Object([Member(hash("a"), Number("1"))]))],
            map[hash("a") := "a"]))
  {
    var h := hash("a");
    var t := map[h := "a"];
    var inner := [Member(h, Number("1"))];
    var ms0 := TestSchema();
    var pp0 := Member("patternProperties", Object([Member("a", Number("1"))]));
    assert ms0[1..] == [pp0];
    assert Get(ms0[1..], PatternPropertiesKey) == Some(pp0.value);
    assert Get(ms0, PatternPropertiesKey) == Some(pp0.value);
    assert Rekey(hash, [Member("a", Number("1"))], [], map[]) == (inner, t);
    assert Put(ms0[1..], PatternPropertiesKey, Object(inner)) == [Member("patternProperties", Object(inner))];
    var ms1 := [Member("pattern", Str("a")), Member("patternProperties", Object(inner))];
    assert Put(ms0, PatternPropertiesKey, Object(inner)) == ms1;
    assert ApplyOne(hash, ms0, map[], PatternPropertiesKey) == Some((ms1, t));
    assert Get(ms1, PatternKey) == Some(Str("a"));
    var ms2 := [Member("pattern", Str(h)), Member("patternProperties", Object(inner))];
    assert ms1[1..] == ms2[1..];
    assert Put(ms1, PatternKey, Str(h)) == ms2;
    assert t[h := "a"] == t;
    assert RewritePattern(hash, Str("a"), t) == Some((Str(h), t));
    assert ApplyOne(hash, ms1, t, PatternKey) == Some((ms2, t));
    assert Middleware(hash, ms0, map[]) == Some((ms2, t));
    assert Get(inner, PatternPropertiesKey) == None && Get(inner, PatternKey) == None;
    assert Middleware(hash, inner, t) == Some((inner, t));
    assert inner[1..] == [];
    assert DescendMembers(hash, inner[1..], t) == Some(([], t));
    assert [inner[0]] + [] == inner;
    assert DescendMembers(hash, inner, t) == Some((inner, t));
    assert ApplyObject(hash, inner, t) == Some((inner, t));
    assert ms2[1..][1..] == [];
    assert DescendMembers(hash, ms2[1..], t) == Some((ms2[1..], t));
    assert DescendMembers(hash, ms2, t) == Some((ms2, t));
  }

  // ---------------------------------------------------------------------------
  // Where the rewriter goes wrong

  /** `{"properties": {"pattern": {"type": "string"}}}`: an object with a property
      that happens to be called `pattern`. */
  function PropertyNamedPattern(): seq<Member> {
    [Member("properties", Object([Member("pattern", Object([Member("type", Str("string"))]))]))]
  }

  /** The rewriter treats every object as a schema, so the `properties` map's member
      `pattern` is taken for the keyword and its schema value panics the type assertion. */
  lemma PropertyNamedPatternPanics(hash: Hasher, t: Table)
    ensures ApplyObject(hash, PropertyNamedPattern(), t).None?
  {
    var ms := PropertyNamedPattern();
    var props := [Member("pattern", Object([Member("type", Str("string"))]))];
    assert Get(ms, PatternPropertiesKey) == None && Get(ms, PatternKey) == None;
    assert Middleware(hash, ms, t) == Some((ms, t));
    PatternNotStringPanics(hash, props, t, props[0].value);
  }

  /** `{"allOf": [{"pattern": "a"}]}`: a pattern inside a list of subschemas. */
  function PatternInAllOf(): seq<Member> {
    [Member("allOf", Array([Object([Member("pattern", Str("a"))])]))]
  }

  /** Arrays are not descended, so the expression inside `allOf` reaches the schema
      compiler unhashed, which is what the rewrite exists to prevent. */
  lemma PatternInAllOfMissed(hash: Hasher, t: Table)
    ensures ApplyObject(hash, PatternInAllOf(), t) == Some((PatternInAllOf(), t))
  {
    var ms := PatternInAllOf();
    assert Get(ms, PatternPropertiesKey) == None && Get(ms, PatternKey) == None;
    assert Middleware(hash, ms, t) == Some((ms, t));
    assert ms[1..] == [];
    assert [ms[0]] + [] == ms;
  }

  // ---------------------------------------------------------------------------
  // A schema-aware rewriter

  /** Keywords whose object value maps names to subschemas. */
  const NameMapKeys: set<string> := {"properties", "definitions", "$defs", "dependentSchemas"}

  /** Keywords whose value is a list of subschemas. */
  const SchemaListKeys: set<string> := {"allOf", "anyOf", "oneOf", "prefixItems", "items"}

  /** Keywords whose value is instance data, not a schema. */
  const DataKeys: set<string> := {"const", "default", "enum", "examples"}

  /** The rewrite as intended: only the `pattern` and `patternProperties` keywords of
      schemas are rewritten, wherever the schemas sit (under a name map, in a list of
      subschemas, or as the value of any other keyword). A keyword whose value has the
      wrong type is left for the schema compiler to report. */
  function FixSchema(hash: Hasher, v: Json, t: Table): (r: (Json, Table))
    ensures v.Object? <==> r.0.Object?
    ensures v.Object? ==> Keys(r.0.members) == Keys(v.members)
    ensures !v.Object? ==> r == (v, t)
    ensures t.Keys <= r.1.Keys
    ensures ValidTable(hash, t) ==> ValidTable(hash, r.1)
    decreases v, 2
  {
    match v
    case Object(ms) =>
      var r := FixKeywords(hash, ms, t);
      (Object(r.0), r.1)
    case _ => (v, t)
  }

  /** The keywords of one schema object, in iteration order. */
  function FixKeywords(hash: Hasher, ms: seq<Member>, t: Table): (r: (seq<Member>, Table))
    ensures Keys(r.0) == Keys(ms)
    ensures t.Keys <= r.1.Keys
    ensures ValidTable(hash, t) ==> ValidTable(hash, r.1)
    decreases ms, 1
  {
    if ms == [] then ([], t)
    else
      var h := FixKeyword(hash, ms[0], t);
      var rest := FixKeywords(hash, ms[1..], h.1);
      assert Keys(ms) == [ms[0].key] + Keys(ms[1..]);
      assert Keys([h.0] + rest.0) == [h.0.key] + Keys(rest.0);
      ([h.0] + rest.0, rest.1)
  }

  function FixKeyword(hash: Hasher, m: Member, t: Table): (r: (Member, Table))
    ensures r.0.key == m.key
    ensures t.Keys <= r.1.Keys
    ensures ValidTable(hash, t) ==> ValidTable(hash, r.1)
    decreases m, 0
  {
    match m.value
    case Str(p) =>
      if m.key == PatternKey then (Member(m.key, Str(hash(p))), t[hash(p) := p]) else (m, t)
    case Object(ms) =>
      if m.key == PatternPropertiesKey then
        var r := FixPatternNames(hash, ms, t);
        (Member(m.key, Object(r.0)), r.1)
      else if m.key in NameMapKeys then
        var r := FixNames(hash, ms, t);
        (Member(m.key, Object(r.0)), r.1)
      else if m.key in DataKeys then (m, t)
      else
        var r := FixSchema(hash, m.value, t);
        (Member(m.key, r.0), r.1)
    case Array(items) =>
      if m.key in SchemaListKeys then
        var r := FixList(hash, items, t);
        (Member(m.key, Array(r.0)), r.1)
      else (m, t)
    case _ => (m, t)
  }

  /** A name map: the names stay, every value is rewritten as a schema. */
  function FixNames(hash: Hasher, ms: seq<Member>, t: Table): (r: (seq<Member>, Table))
    ensures |r.0| == |ms|
    ensures forall i :: 0 <= i < |ms| ==> r.0[i].key == ms[i].key
    ensures forall i :: 0 <= i < |ms| ==> (r.0[i].value.Object? <==> ms[i].value.Object?)
    ensures t.Keys <= r.1.Keys
    ensures ValidTable(hash, t) ==> ValidTable(hash, r.1)
    decreases ms, 1
  {
    if ms == [] then ([], t)
    else
      var h := FixSchema(hash, ms[0].value, t);
      var rest := FixNames(hash, ms[1..], h.1);
      ([Member(ms[0].key, h.0)] + rest.0, rest.1)
  }

  /** The `patternProperties` map: every name is a pattern and moves to its hash,
      every value is rewritten as a schema. */
  function FixPatternNames(hash: Hasher, ms: seq<Member>, t: Table): (r: (seq<Member>, Table))
    ensures |r.0| == |ms|
    ensures forall i :: 0 <= i < |ms| ==> r.0[i].key == hash(ms[i].key) && hash(ms[i].key) in r.1
    ensures t.Keys <= r.1.Keys
    ensures ValidTable(hash, t) ==> ValidTable(hash, r.1)
    decreases ms, 1
  {
    if ms == [] then ([], t)
    else
      var k := ms[0].key;
      var h := FixSchema(hash, ms[0].value, t[hash(k) := k]);
      var rest := FixPatternNames(hash, ms[1..], h.1);
      ([Member(hash(k), h.0)] + rest.0, rest.1)
  }

  /** A list of subschemas. */
  function FixList(hash: Hasher, items: seq<Json>, t: Table): (r: (seq<Json>, Table))
    ensures |r.0| == |items|
    ensures forall i :: 0 <= i < |items| ==> (r.0[i].Object? <==> items[i].Object?)
    ensures t.Keys <= r.1.Keys
    ensures ValidTable(hash, t) ==> ValidTable(hash, r.1)
    decreases items, 1
  {
    if items == [] then ([], t)
    else
      var h := FixSchema(hash, items[0], t);
      var rest := FixList(hash, items[1..], h.1);
      ([h.0] + rest.0, rest.1)
  }

  /** A string `pattern` keyword of a schema becomes its hash, and the table gets an
      entry for that hash. */
  lemma {:induction false} FixRewritesPattern(hash: Hasher, ms: seq<Member>, t: Table, p: string)
    requires Get(ms, PatternKey) == Some(Str(p))
    ensures Get(FixKeywords(hash, ms, t).0, PatternKey) == Some(Str(hash(p)))
    ensures hash(p) in FixKeywords(hash, ms, t).1
    decreases |ms|
  {
    var h := FixKeyword(hash, ms[0], t);
    var rest := FixKeywords(hash, ms[1..], h.1);
    assert FixKeywords(hash, ms, t).0 == [h.0] + rest.0;
    if ms[0].key != PatternKey {
      FixRewritesPattern(hash, ms[1..], h.1, p);
      assert ([h.0] + rest.0)[1..] == rest.0;
    }
  }

  /** The property called `pattern` is left alone and nothing panics. */
  lemma FixPropertyNamedPattern(hash: Hasher, t: Table)
    ensures FixSchema(hash, Object(PropertyNamedPattern()), t) == (Object(PropertyNamedPattern()), t)
  {
    var typed := [Member("type", Str("string"))];
    assert FixKeyword(hash, typed[0], t) == (typed[0], t);
    assert FixKeywords(hash, typed[1..], t) == ([], t);
    assert [typed[0]] + [] == typed;
    assert FixKeywords(hash, typed, t) == (typed, t);
    assert FixSchema(hash, Object(typed), t) == (Object(typed), t);
    var props := [Member("pattern", Object(typed))];
    assert FixNames(hash, props[1..], t) == ([], t);
    assert [Member("pattern", Object(typed))] + [] == props;
    assert FixNames(hash, props, t) == (props, t);
    var ms := PropertyNamedPattern();
    assert "properties" in NameMapKeys;
    assert FixKeyword(hash, ms[0], t) == (ms[0], t);
    assert FixKeywords(hash, ms[1..], t) == ([], t);
    assert [ms[0]] + [] == ms;
  }

  /** The expression inside `allOf` is hashed like any other. */
  lemma FixPatternInAllOf(hash: Hasher)
    ensures FixSchema(hash, Object(PatternInAllOf()), map[]) ==
      (Object([Member("allOf", Array([Object([Member("pattern", Str(hash("a")))])]))]), map[hash("a") := "a"])
  {
    var h := hash("a");
    var t := map[h := "a"];
    var inner := [Member("pattern", Str("a"))];
    var inner' := [Member("pattern", Str(h))];
    assert FixKeyword(hash, inner[0], map[]) == (inner'[0], t);
    assert FixKeywords(hash, inner[1..], t) == ([], t);
    assert [inner'[0]] + [] == inner';
    assert FixKeywords(hash, inner, map[]) == (inner', t);
    var items := [Object(inner)];
    assert FixList(hash, items[1..], t) == ([], t);
    assert [Object(inner')] + [] == [Object(inner')];
    assert FixList(hash, items, map[]) == ([Object(inner')], t);
    var ms := PatternInAllOf();
    var m' := Member("allOf", Array([Object(inner')]));
    assert "allOf" in SchemaListKeys;
    assert FixKeyword(hash, ms[0], map[]) == (m', t);
    assert FixKeywords(hash, ms[1..], t) == ([], t);
    assert [m'] + [] == [m'];
  }

  /** On the example of converter_test.go the schema-aware rewrite gives what the
      original does, and needs no premise about the hash: names under
      `patternProperties` are never read as keywords. */
  lemma FixTestSchema(hash: Hasher)
    ensures FixSchema(hash, Object(TestSchema()), map[]) ==
      (Object([Member("pattern", Str(hash("a"))),
               Member("patternProperties", Object([Member(hash("a"), Number("1"))]))]),
       map[hash("a") := "a"])
  {
    var h := hash("a");
    var t := map[h := "a"];
    var ms := TestSchema();
    var m0 := Member("pattern", Str(h));
    var m1 := Member("patternProperties", Object([Member(h, Number("1"))]));
    assert FixKeyword(hash, ms[0], map[]) == (m0, t);
    var names := [Member("a", Number("1"))];
    assert t[h := "a"] == t;
    assert FixSchema(hash, Number("1"), t) == (Number("1"), t);
    assert FixPatternNames(hash, names[1..], t) == ([], t);
    assert [Member(h, Number("1"))] + [] == [Member(h, Number("1"))];
    assert FixPatternNames(hash, names, map[]) == ([Member(h, Number("1"))], t);
    assert FixKeyword(hash, ms[1], t) == (m1, t);
    assert ms[1..][1..] == [];
    assert ms[1..][0] == ms[1];
    assert FixKeywords(hash, ms[1..][1..], t) == ([], t);
    assert [m1] + [] == [m1];
    assert FixKeywords(hash, ms[1..], t) == ([m1], t);
    assert [m0] + [m1] == [m0, m1];
  }

  /** With an injective hash, every rewritten expression can be read back from the
      table the schema-aware rewrite builds. */
  lemma FixRecovers(hash: Hasher, ms: seq<Member>, p: string)
    requires Injective(hash) && Get(ms, PatternKey) == Some(Str(p))
    ensures hash(p) in FixKeywords(hash, ms, map[]).1
    ensures FixKeywords(hash, ms, map[]).1[hash(p)] == p
    ensures TemplateFuncs.LookupRegex(FixKeywords(hash, ms, map[]).1, hash(p)) == TemplateFuncs.EscapeRegex(p)
  {
    FixRewritesPattern(hash, ms, map[], p);
    LookupRecovers(hash, FixKeywords(hash, ms, map[]).1, p);
  }
}
