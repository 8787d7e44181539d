/** The helpers of pkg/markdown/utils.go the Markdown templates call:
    `FirstNonEmpty`, `EscapeRegex`, `LookupRegex`, `Dict` and `IndexOf`. */
module TemplateFuncs {
  import opened Wrappers
  import opened Json

  /** `FirstNonEmpty`: the first non-empty argument, or "" when there is none. */
  function FirstNonEmpty(values: seq<string>): (r: string)
    ensures r == "" <==> forall i :: 0 <= i < |values| ==> values[i] == ""
    ensures r != "" ==> exists i :: 0 <= i < |values| && values[i] == r
                          && forall j :: 0 <= j < i ==> values[j] == ""
  {
    if values == [] then ""
    else if |values[0]| > 0 then
      assert values[0] == values[0];
      values[0]
    else
      var r := FirstNonEmpty(values[1..]);
      assert r != "" ==> exists i :: 0 <= i < |values| && values[i] == r
                            && forall j :: 0 <= j < i ==> values[j] == "" by {
        if r != "" {
          var i :| 0 <= i < |values[1..]| && values[1..][i] == r
                   && forall j :: 0 <= j < i ==> values[1..][j] == "";
          assert values[i + 1] == r;
          assert forall j :: 1 <= j < i + 1 ==> values[j] == values[1..][j - 1];
        }
      }
      r
  }

  // ---------------------------------------------------------------------------
  // Regular expressions in tables

  /** `strings.Replace(v, "|", "\\|", -1)`. */
  function EscapePipes(v: string): (r: string)
    ensures |r| >= |v|
  {
    if v == [] then []
    else if v[0] == '|' then "\\|" + EscapePipes(v[1..])
    else [v[0]] + EscapePipes(v[1..])
  }

  /** `EscapeRegex`: the pattern with its pipes escaped, in backticks, so that it can
      stand in a Markdown table cell as inline code. */
  function EscapeRegex(v: string): (r: string)
    ensures |r| >= 2 && r[0] == '`' && r[|r| - 1] == '`'
    ensures r[1..|r| - 1] == EscapePipes(v)
  {
    var e := EscapePipes(v);
    var r := "`" + e + "`";
    assert r[1..|r| - 1] == e;
    r
  }

  /** The inverse reading of `EscapePipes`: a backslash directly before a pipe is dropped. */
  function UnescapePipes(s: string): string {
    if s == [] then []
    else if |s| >= 2 && s[0] == '\\' && s[1] == '|' then "|" + UnescapePipes(s[2..])
    else [s[0]] + UnescapePipes(s[1..])
  }

  /** Escaping loses nothing: the pattern can be read back from the escaped text. */
  lemma {:induction false} UnescapeEscape(v: string)
    ensures UnescapePipes(EscapePipes(v)) == v
  {
    if v != [] {
      UnescapeEscape(v[1..]);
      var rest := EscapePipes(v[1..]);
      if v[0] == '|' {
        assert ("\\|" + rest)[2..] == rest;
      } else {
        assert ([v[0]] + rest)[1..] == rest;
        if v[0] == '\\' && rest != [] {
          assert rest[0] != '|' by { EscapedHead(v[1..]); }
        }
      }
    }
  }

  /** An escaped text never starts with a pipe: every pipe has its backslash. */
  lemma EscapedHead(v: string)
    requires v != []
    ensures EscapePipes(v)[0] != '|'
  {
  }

  /** Every pipe of the escaped text directly follows a backslash. */
  lemma {:induction false} PipesEscaped(v: string)
    ensures forall k :: 0 <= k < |EscapePipes(v)| && EscapePipes(v)[k] == '|' ==>
              k > 0 && EscapePipes(v)[k - 1] == '\\'
  {
    if v != [] {
      PipesEscaped(v[1..]);
      var rest := EscapePipes(v[1..]);
      var r := EscapePipes(v);
      if v[0] == '|' {
        assert forall k :: 2 <= k < |r| ==> r[k] == rest[k - 2];
      } else {
        assert forall k :: 1 <= k < |r| ==> r[k] == rest[k - 1];
        if rest != [] {
          EscapedHead(v[1..]);
        }
      }
    }
  }

  /** `LookupRegex(patterns)` applied to a compiled expression whose source text is
      `key`: the escaped original pattern, or "" when the table has no entry. */
  function LookupRegex(patterns: map<string, string>, key: string): (r: string)
    ensures key !in patterns ==> r == ""
    ensures key in patterns ==> |r| >= 2 && r[0] == '`' && r[|r| - 1] == '`'
                                && UnescapePipes(r[1..|r| - 1]) == patterns[key]
  {
    if key !in patterns then ""
    else
      var r := EscapeRegex(patterns[key]);
      UnescapeEscape(patterns[key]);
      r
  }

  // ---------------------------------------------------------------------------
  // Dict

  datatype DictError = InvalidDictCall | KeysMustBeStrings

  /** Every key position (0, 2, 4, ...) of the first `n` arguments holds a string. */
  predicate KeysAreStrings(values: seq<Json>, n: int)
    requires n <= |values|
  {
    forall i :: 0 <= i < n && i % 2 == 0 ==> values[i].Str?
  }

  /** Position `i` is a key position whose key is `k` and no later key position
      below `n` repeats `k`: the pair at `i` is the one whose value `k` keeps. */
  ghost predicate LastPairFor(values: seq<Json>, n: int, k: string, i: int)
    requires n <= |values|
  {
    0 <= i && i + 1 < n + 1 && i + 1 < |values| && i % 2 == 0 && values[i] == Str(k)
    && forall j :: i < j < n && j % 2 == 0 ==> values[j] != Str(k)
  }

  /** `d` is the dictionary the pairs below `n` build: a key for every key position,
      each bound to the value after its last occurrence. */
  ghost predicate DictOf(values: seq<Json>, n: int, d: map<string, Json>)
    requires n <= |values|
  {
    && (forall i :: 0 <= i < n && i % 2 == 0 && values[i].Str? ==> values[i].s in d)
    && (forall k :: k in d ==> exists i :: LastPairFor(values, n, k, i) && d[k] == values[i + 1])
  }

  /** `Dict`: builds a map from alternating keys and values. An odd number of
      arguments fails before any key is looked at; otherwise the first non-string
      key fails; a repeated key keeps its last value. */
  method Dict(values: seq<Json>) returns (r: Result<map<string, Json>, DictError>)
    ensures |values| % 2 != 0 ==> r == Failure(InvalidDictCall)
    ensures |values| % 2 == 0 && !KeysAreStrings(values, |values|) ==> r == Failure(KeysMustBeStrings)
    ensures |values| % 2 == 0 && KeysAreStrings(values, |values|) ==>
              r.Success? && DictOf(values, |values|, r.value)
  {
    if |values| % 2 != 0 {
      return Failure(InvalidDictCall);
    }
    var dict: map<string, Json> := map[];
    var i := 0;
    while i < |values|
      invariant 0 <= i <= |values| && i % 2 == 0
      invariant KeysAreStrings(values, i)
      invariant DictOf(values, i, dict)
    {
      if !values[i].Str? {
        return Failure(KeysMustBeStrings);
      }
      DictStep(values, i, i + 2, dict);
      dict := dict[values[i].s := values[i + 1]];
      i := i + 2;
    }
    return Success(dict);
  }

  /** Adding the pair at key position `n` keeps the dictionary in step with the arguments. */
  lemma DictStep(values: seq<Json>, n: int, next: int, d: map<string, Json>)
    requires 0 <= n && next == n + 2 <= |values| && n % 2 == 0
    requires DictOf(values, n, d) && values[n].Str?
    ensures DictOf(values, next, d[values[n].s := values[n + 1]])
  {
    var key := values[n].s;
    var d' := d[key := values[n + 1]];
    forall i | 0 <= i < next && i % 2 == 0 && values[i].Str? ensures values[i].s in d' {
      if i < n {
        assert values[i].s in d;
      }
    }
    assert LastPairFor(values, next, key, n);
    forall k | k in d'
      ensures exists j :: LastPairFor(values, next, k, j) && d'[k] == values[j + 1]
    {
      if k != key {
        var j :| LastPairFor(values, n, k, j) && d[k] == values[j + 1];
        assert values[n] != Str(k);
        assert LastPairFor(values, next, k, j);
      }
    }
  }

  /** The repository's `Dict` test: the pairs ("Name", "Joe") and ("Age", 1) build
      their map; a missing value and a number in key position are refused. */
  method DictFixtures() returns (pairs: Result<map<string, Json>, DictError>,
                                 odd: Result<map<string, Json>, DictError>,
                                 numberKey: Result<map<string, Json>, DictError>)
    ensures pairs == Success(map["Name" := Str("Joe"), "Age" := Number("1")])
    ensures odd == Failure(InvalidDictCall)
    ensures numberKey == Failure(KeysMustBeStrings)
  {
    var values := [Str("Name"), Str("Joe"), Str("Age"), Number("1")];
    pairs := Dict(values);
    NameAgeDict(values, pairs.value);
    odd := Dict([Str("Name"), Str("Joe"), Str("Age")]);
    var swapped := [Str("Name"), Str("Joe"), Number("1"), Str("Age")];
    assert !swapped[2].Str?;
    numberKey := Dict(swapped);
  }

  /** `DictOf` leaves only one dictionary for the pairs of the `Dict` test. */
  lemma NameAgeDict(values: seq<Json>, d: map<string, Json>)
    requires values == [Str("Name"), Str("Joe"), Str("Age"), Number("1")]
    requires DictOf(values, 4, d)
    ensures d == map["Name" := Str("Joe"), "Age" := Number("1")]
  {
    assert values[0].s in d && values[2].s in d;
    forall k | k in d ensures k in {"Name", "Age"} {
      var i :| LastPairFor(values, 4, k, i) && d[k] == values[i + 1];
    }
    var i :| LastPairFor(values, 4, "Name", i) && d["Name"] == values[i + 1];
    assert i == 0;
    var j :| LastPairFor(values, 4, "Age", j) && d["Age"] == values[j + 1];
    assert j == 2;
  }

  /** The repository's `EscapeRegex` test: pipes are escaped, other characters and
      backslashes are kept, and the result is wrapped in backticks. */
  lemma EscapeRegexFixtures()
    ensures EscapeRegex("^(abc|b|c|d)$") == "`^(abc\\|b\\|c\\|d)$`"
    ensures EscapeRegex("^\\W$") == "`^\\W$`"
    ensures EscapeRegex("^") == "`^`"
  {
    AlternationRegex("^(abc|b|c|d)$");
    NoPipeRegex("^\\W$");
    NoPipeRegex("^");
  }

  lemma AlternationRegex(v: string)
    requires v == "^(abc|b|c|d)$"
    ensures EscapeRegex(v) == "`^(abc\\|b\\|c\\|d)$`"
  {
    var e := "^(abc\\|b\\|c\\|d)$";
    AlternationPipes(v, e);
    Backticked(EscapeRegex(v), e);
  }

  lemma AlternationPipes(v: string, e: string)
    requires v == "^(abc|b|c|d)$" && e == "^(abc\\|b\\|c\\|d)$"
    ensures EscapePipes(v) == e
  {
    AlternationPieces(v, e, "^(abc", "b", "c", "d)$");
    ThreePipes("^(abc", "b", "c", "d)$");
  }

  lemma AlternationPieces(v: string, e: string, a: string, b: string, c: string, d: string)
    requires v == "^(abc|b|c|d)$" && e == "^(abc\\|b\\|c\\|d)$"
    requires a == "^(abc" && b == "b" && c == "c" && d == "d)$"
    ensures v == a + "|" + (b + "|" + (c + "|" + d))
    ensures e == a + "\\|" + (b + "\\|" + (c + "\\|" + d))
    ensures '|' !in a && '|' !in b && '|' !in c && '|' !in d
  {
  }

  /** Escaping `a|b|c|d`, where no part has a pipe. */
  lemma ThreePipes(a: string, b: string, c: string, d: string)
    requires '|' !in a && '|' !in b && '|' !in c && '|' !in d
    ensures EscapePipes(a + "|" + (b + "|" + (c + "|" + d))) == a + "\\|" + (b + "\\|" + (c + "\\|" + d))
  {
    NoPipes(d);
    PipeAfter(c, d);
    PipeAfter(b, c + "|" + d);
    PipeAfter(a, b + "|" + (c + "|" + d));
  }

  /** `EscapePipes` distributes over concatenation. */
  lemma {:induction false} EscapeAppend(a: string, b: string)
    ensures EscapePipes(a + b) == EscapePipes(a) + EscapePipes(b)
  {
    if a != [] {
      assert (a + b)[1..] == a[1..] + b;
      EscapeAppend(a[1..], b);
    } else {
      assert a + b == b;
    }
  }

  /** A string without pipes is its own escape. */
  lemma {:induction false} NoPipes(a: string)
    requires '|' !in a
    ensures EscapePipes(a) == a
  {
    if a != [] {
      NoPipes(a[1..]);
    }
  }

  /** Escaping `a|b`, where `a` has no pipe. */
  lemma PipeAfter(a: string, b: string)
    requires '|' !in a
    ensures EscapePipes(a + "|" + b) == a + "\\|" + EscapePipes(b)
  {
    assert a + "|" + b == a + ("|" + b);
    EscapeAppend(a, "|" + b);
    NoPipes(a);
    assert ("|" + b)[0] == '|' && ("|" + b)[1..] == b;
    assert a + ("\\|" + EscapePipes(b)) == a + "\\|" + EscapePipes(b);
  }

  /** A backtick-wrapped string is determined by its inside. */
  lemma Backticked(r: string, e: string)
    requires |r| >= 2 && r[0] == '`' && r[|r| - 1] == '`' && r[1..|r| - 1] == e
    ensures r == "`" + e + "`"
  {
  }

  /** A pattern without pipes is only wrapped in backticks. */
  lemma NoPipeRegex(v: string)
    requires '|' !in v
    ensures EscapeRegex(v) == "`" + v + "`"
  {
    NoPipes(v);
    Backticked(EscapeRegex(v), v);
  }

  /** `IndexOf`: the 1-based position of the first occurrence of `val`, or -1. */
  function IndexOf(slice: seq<string>, val: string): (i: int)
    ensures i == -1 <==> val !in slice
    ensures i != -1 ==> 1 <= i <= |slice| && slice[i - 1] == val && val !in slice[..i - 1]
  {
    if slice == [] then -1
    else if slice[0] == val then 1
    else
      var j := IndexOf(slice[1..], val);
      if j == -1 then -1
      else
        assert slice[..j] == [slice[0]] + slice[1..][..j - 1];
        j + 1
  }
}
