/** Decoded JSON values, as `encoding/json` hands them to the converter
    (`map[string]interface{}`, `[]interface{}`, `string`, `float64`, `bool`, nil). */
module Json {
  import opened Wrappers

  /** An object keeps its members in this run's iteration order; a Go map has no
      order of its own, so no property of the model depends on that order unless
      stated. Numbers keep their literal text: nothing here computes with them. */
  datatype Json =
    | Null
    | Bool(b: bool)
    | Number(literal: string)
    | Str(s: string)
    | Array(items: seq<Json>)
    | Object(members: seq<Member>)

  datatype Member = Member(key: string, value: Json)

  /** The keys of an object, in iteration order. */
  function Keys(ms: seq<Member>): (ks: seq<string>)
    ensures |ks| == |ms|
    ensures forall i :: 0 <= i < |ms| ==> ks[i] == ms[i].key
  {
    if ms == [] then [] else [ms[0].key] + Keys(ms[1..])
  }

  /** No key occurs twice: what a Go map guarantees. */
  predicate DistinctKeys(ms: seq<Member>) {
    forall i, j :: 0 <= i < j < |ms| ==> ms[i].key != ms[j].key
  }

  /** `v` is the value of the first member of `ms` keyed `key`. */
  predicate FirstValue(ms: seq<Member>, key: string, v: Json) {
    exists i :: 0 <= i < |ms| && ms[i].key == key && key !in Keys(ms[..i]) && ms[i].value == v
  }

  /** `m[key]`: the value stored under `key`, or `None` when the key is absent. Which
      value is found when keys repeat is stated by `GetFirst`. */
  function Get(ms: seq<Member>, key: string): (r: Option<Json>)
    ensures r.None? <==> key !in Keys(ms)
  {
    if ms == [] then None
    else if ms[0].key == key then Some(ms[0].value)
    else
      assert Keys(ms) == [ms[0].key] + Keys(ms[1..]);
      Get(ms[1..], key)
  }

  /** The value found is that of the first member with the key, and only that one. */
  lemma {:induction false} GetFirst(ms: seq<Member>, key: string, v: Json)
    ensures Get(ms, key) == Some(v) <==> FirstValue(ms, key, v)
  {
    if ms != [] {
      if ms[0].key == key {
        FirstHere(ms, key);
      } else {
        GetFirst(ms[1..], key, v);
        if Get(ms, key) == Some(v) {
          FirstLater(ms, key, v);
        }
        if FirstValue(ms, key, v) {
          FirstEarlier(ms, key, v);
        }
      }
    }
  }

  lemma FirstHere(ms: seq<Member>, key: string)
    requires ms != [] && ms[0].key == key
    ensures FirstValue(ms, key, ms[0].value)
  {
    assert Keys(ms[..0]) == [];
  }

  /** A first occurrence in the tail, behind a member with another key, is the
      first occurrence overall. */
  lemma FirstLater(ms: seq<Member>, key: string, v: Json)
    requires ms != [] && ms[0].key != key && FirstValue(ms[1..], key, v)
    ensures FirstValue(ms, key, v)
  {
    var tail := ms[1..];
    var i :| 0 <= i < |tail| && tail[i].key == key && key !in Keys(tail[..i]) && tail[i].value == v;
    assert ms[i + 1] == tail[i];
    var ks := Keys(ms[..i + 1]);
    forall j | 0 <= j < i + 1 ensures ks[j] != key {
      if j > 0 {
        assert ms[j] == tail[j - 1];
        assert Keys(tail[..i])[j - 1] == tail[j - 1].key;
      }
    }
    assert key !in ks;
  }

  /** A first occurrence behind a member with another key is the first occurrence
      in the tail. */
  lemma FirstEarlier(ms: seq<Member>, key: string, v: Json)
    requires ms != [] && ms[0].key != key && FirstValue(ms, key, v)
    ensures FirstValue(ms[1..], key, v)
  {
    var tail := ms[1..];
    var i :| 0 <= i < |ms| && ms[i].key == key && key !in Keys(ms[..i]) && ms[i].value == v;
    assert i > 0;
    assert tail[i - 1] == ms[i];
    var ks := Keys(tail[..i - 1]);
    forall j | 0 <= j < i - 1 ensures ks[j] != key {
      assert tail[j] == ms[j + 1];
      assert Keys(ms[..i])[j + 1] == ms[j + 1].key;
    }
    assert key !in ks;
  }

  /** `m[key] = value`: replaces the value of an existing key in place, otherwise
      adds the key at the end. */
  function Put(ms: seq<Member>, key: string, value: Json): (r: seq<Member>)
    ensures Get(r, key) == Some(value)
    ensures key in Keys(ms) ==> Keys(r) == Keys(ms)
    ensures key !in Keys(ms) ==> Keys(r) == Keys(ms) + [key]
  {
    if ms == [] then [Member(key, value)]
    else if ms[0].key == key then
      PrependMember(Member(key, value), ms[1..], key);
      PrependMember(ms[0], ms[1..], key);
      [Member(key, value)] + ms[1..]
    else
      var rest := Put(ms[1..], key, value);
      PrependMember(ms[0], ms[1..], key);
      PrependMember(ms[0], rest, key);
      [ms[0]] + rest
  }

  /** The keys and lookups of an object with one more member in front. */
  lemma PrependMember(m: Member, ms: seq<Member>, key: string)
    ensures Keys([m] + ms) == [m.key] + Keys(ms)
    ensures Get([m] + ms, key) == if m.key == key then Some(m.value) else Get(ms, key)
  {
    assert ([m] + ms)[1..] == ms;
  }

  /** `Put` leaves every other key's value as it was. */
  lemma {:induction false} PutOther(ms: seq<Member>, key: string, value: Json, other: string)
    requires other != key
    ensures Get(Put(ms, key, value), other) == Get(ms, other)
  {
    if ms != [] && ms[0].key != key {
      PutOther(ms[1..], key, value, other);
      assert ([ms[0]] + Put(ms[1..], key, value))[1..] == Put(ms[1..], key, value);
    }
  }

  /** `Put` keeps the keys distinct. */
  lemma PutDistinct(ms: seq<Member>, key: string, value: Json)
    requires DistinctKeys(ms)
    ensures DistinctKeys(Put(ms, key, value))
  {
    var r := Put(ms, key, value);
    var ks, ks0 := Keys(r), Keys(ms);
    forall i, j | 0 <= i < j < |r| ensures r[i].key != r[j].key {
      assert r[i].key == ks[i] && r[j].key == ks[j];
      if j < |ms| {
        assert ks[i] == ks0[i] == ms[i].key && ks[j] == ks0[j] == ms[j].key;
      } else {
        assert ks[i] == ks0[i] && ks[j] == key;
      }
    }
  }

  /** `RawSchema.Id`: the top-level `$id` when it is a string, "" otherwise. */
  function RawSchemaId(schema: seq<Member>): (id: string)
    ensures (exists s :: Get(schema, "$id") == Some(Str(s))) ==> Get(schema, "$id") == Some(Str(id))
    ensures !(exists s :: Get(schema, "$id") == Some(Str(s))) ==> id == ""
  {
    match Get(schema, "$id")
    case Some(Str(s)) => s
    case _ => ""
  }
}
