/** The converter's configuration (pkg/markdown/config.go) and the reference URL
    the templates link under. */
module Config {
  import opened Wrappers
  import opened Strings

  /** The command-line options. */
  datatype Config = Config(
    destination: string,
    extension: string,
    recursive: bool,
    ordered: bool,
    orderedFilePath: bool,
    local: bool,
    clean: bool)

  /** The directory of a Hugo site's pages. */
  const ContentPrefix: string := "content/"

  /** The URL used when the destination is not under a `content/` directory. */
  const DefaultReference: string := "reference"

  /** `ReferenceUrl`: what follows the first `content/` of the destination, or
      "reference" when there is none. */
  function ReferenceUrl(c: Config): (r: string)
    ensures (forall k :: !OccursAt(c.destination, ContentPrefix, k)) ==> r == DefaultReference
    ensures forall k :: OccursAt(c.destination, ContentPrefix, k) ==> IsSuffix(ContentPrefix + r, c.destination)
  {
    var d := c.destination;
    var i := IndexOfSub(d, ContentPrefix);
    var offset := i + |ContentPrefix|;
    if i < 0 || offset > |d| then DefaultReference
    else
      assert d[i..] == d[i..offset] + d[offset..];
      d[offset..]
  }

  // ---------------------------------------------------------------------------
  // An independent reading

  /** What follows the first occurrence of `prefix` in `s`, found by scanning from
      the left. */
  function AfterFirst(s: string, prefix: string): (r: Option<string>)
    ensures r.Some? ==> IsSuffix(prefix + r.value, s)
    decreases |s|
  {
    if |prefix| <= |s| && s[..|prefix|] == prefix then Some(s[|prefix|..])
    else if s == [] then None
    else AfterFirst(s[1..], prefix)
  }

  /** Scanning agrees with the first-occurrence index: `ReferenceUrl` is "reference"
      exactly when the destination has no `content/`, and otherwise the rest after
      the first one. */
  lemma ReferenceUrlScan(c: Config)
    ensures ReferenceUrl(c) == (match AfterFirst(c.destination, ContentPrefix)
                                case None => DefaultReference
                                case Some(rest) => rest)
  {
    ScanFrom(c.destination, ContentPrefix, 0);
  }

  /** Scanning the suffix from `from` finds the first occurrence at or after `from`. */
  lemma {:induction false} ScanFrom(s: string, prefix: string, from: nat)
    requires from <= |s|
    requires forall k :: 0 <= k < from ==> !OccursAt(s, prefix, k)
    ensures var i := IndexOfSub(s, prefix);
            AfterFirst(s[from..], prefix) == if i < 0 then None else Some(s[i + |prefix|..])
    decreases |s| - from
  {
    var t := s[from..];
    var i := IndexOfSub(s, prefix);
    if |prefix| <= |t| && t[..|prefix|] == prefix {
      assert s[from..from + |prefix|] == t[..|prefix|];
      assert OccursAt(s, prefix, from);
      assert i >= 0;
      assert i == from;
      assert t[|prefix|..] == s[i + |prefix|..];
    } else if t == [] {
      assert |prefix| > 0;
      assert forall k :: !OccursAt(s, prefix, k);
    } else {
      if from + |prefix| <= |s| {
        assert s[from..from + |prefix|] == t[..|prefix|];
      }
      assert !OccursAt(s, prefix, from);
      assert t[1..] == s[from + 1..];
      ScanFrom(s, prefix, from + 1);
    }
  }


  /** With `content/` first occurring at `k`, the URL is everything after that
      occurrence, `/`s included. */
  lemma ReferenceUrlFirst(c: Config, k: nat)
    requires OccursAt(c.destination, ContentPrefix, k)
    requires forall j :: 0 <= j < k ==> !OccursAt(c.destination, ContentPrefix, j)
    ensures ReferenceUrl(c) == c.destination[k + |ContentPrefix|..]
    ensures c.destination == c.destination[..k] + ContentPrefix + ReferenceUrl(c)
  {
    var d := c.destination;
    var i := IndexOfSub(d, ContentPrefix);
    assert i >= 0;
    assert i == k;
    assert d == d[..k] + d[k..k + |ContentPrefix|] + d[k + |ContentPrefix|..];
  }

  /** A destination `front` + "content/" + `rest`, with no `content/` in `front`, has
      `rest` as its URL. */
  lemma NestedReference(c: Config, front: string, rest: string)
    requires c.destination == front + ContentPrefix + rest
    requires forall k :: !OccursAt(front, ContentPrefix, k)
    ensures ReferenceUrl(c) == rest
  {
    var d := c.destination;
    assert d[|front|..|front| + |ContentPrefix|] == ContentPrefix;
    forall j | 0 <= j < |front| ensures !OccursAt(d, ContentPrefix, j) {
      FirstOccurrence(front, rest, j);
    }
    ReferenceUrlFirst(c, |front|);
    assert d[|front| + |ContentPrefix|..] == rest;
  }

  lemma FirstOccurrence(front: string, rest: string, j: nat)
    requires j < |front|
    requires forall k :: !OccursAt(front, ContentPrefix, k)
    ensures !OccursAt(front + ContentPrefix + rest, ContentPrefix, j)
  {
    var d := front + ContentPrefix + rest;
    if j + |ContentPrefix| <= |front| {
      assert front[j..j + |ContentPrefix|] == d[j..j + |ContentPrefix|];
      assert !OccursAt(front, ContentPrefix, j);
    } else if j + |ContentPrefix| <= |d| {
      // A match running from `front` into the prefix would need a second 'c' in
      // "content/".
      var m := |front| - j;
      assert d[j..j + |ContentPrefix|][m] == 'c';
      assert ContentPrefix[m] != 'c';
    }
  }

  // ---------------------------------------------------------------------------
  // Examples

  lemma ReferenceUrlContentReference(c: Config)
    requires c.destination == "./content/reference"
    ensures ReferenceUrl(c) == "reference"
  {
    assert c.destination == "./" + ContentPrefix + "reference";
    NestedReference(c, "./", "reference");
  }

  lemma ReferenceUrlNested(c: Config)
    requires c.destination == "./content/reference/sample"
    ensures ReferenceUrl(c) == "reference/sample"
  {
    assert c.destination == "./" + ContentPrefix + "reference/sample";
    NestedReference(c, "./", "reference/sample");
  }

  lemma ReferenceUrlMissing(c: Config)
    requires c.destination == "not-valid" || c.destination == "content"
    ensures ReferenceUrl(c) == "reference"
  {
    var d := c.destination;
    if d == "not-valid" {
      assert d[0..8][7] != '/' && d[1..9][7] != '/';
      assert !OccursAt(d, ContentPrefix, 0) && !OccursAt(d, ContentPrefix, 1);
    }
  }
}
