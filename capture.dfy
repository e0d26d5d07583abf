/** The regular expressions `name = "([^"]+)"` and `version = "([^"]+)"` of the
    changelog script, written out as an explicit scan: `Search` is `re.search`
    followed by `group(1)`. */
module Capture {
  import opened Wrappers
  import opened Text

  const NameKey := "name = "
  const VersionKey := "version = "

  /** The longest prefix of `s` holding no double quote: what `[^"]+` consumes greedily. */
  function QuoteFreePrefix(s: string): (r: string)
    ensures r <= s && '"' !in r
    ensures |r| < |s| ==> s[|r|] == '"'
  {
    if |s| == 0 || s[0] == '"' then "" else [s[0]] + QuoteFreePrefix(s[1..])
  }

  lemma {:induction false} QuoteFreePrefixOf(v: string, tail: string)
    requires '"' !in v
    ensures QuoteFreePrefix(v + "\"" + tail) == v
  {
    if |v| > 0 {
      assert (v + "\"" + tail)[1..] == v[1..] + "\"" + tail;
      QuoteFreePrefixOf(v[1..], tail);
      assert [v[0]] + v[1..] == v;
    }
  }

  /** A capture: non-empty and free of double quotes. */
  predicate IsCapture(v: string) {
    |v| > 0 && '"' !in v
  }

  /** The text `key"v"`, which the pattern `key"([^"]+)"` matches with group `v`. */
  function Quoted(key: string, v: string): string {
    key + "\"" + v + "\""
  }

  /** The pattern `key"([^"]+)"` tried at index `i` only. */
  function MatchAt(line: string, key: string, i: nat): (r: Option<string>)
    ensures r.Some? ==> IsCapture(r.value) && OccursAt(line, Quoted(key, r.value), i)
  {
    var open := key + "\"";
    if !OccursAt(line, open, i) then None
    else
      var v := QuoteFreePrefix(line[i + |open|..]);
      if |v| > 0 && i + |open| + |v| < |line| then
        assert line[i..i + |open| + |v| + 1] == open + v + "\"" == Quoted(key, v);
        Some(v)
      else None
  }

  /** The pattern matches at `i` exactly when some capture `v` makes `key"v"` occur there,
      and then `v` is the group. */
  lemma MatchAtExactly(line: string, key: string, i: nat, v: string)
    ensures IsCapture(v) && OccursAt(line, Quoted(key, v), i) <==> MatchAt(line, key, i) == Some(v)
  {
    if IsCapture(v) && OccursAt(line, Quoted(key, v), i) {
      QuotedStartsWithOpen(line, key, i);
      QuotedAtOnlyOne(line, key, i);
      var rest := line[i + |key| + 1..];
      assert line[i..i + |Quoted(key, v)|] == Quoted(key, v);
      assert rest[..|v| + 1] == v + "\"";
    }
  }

  lemma QuotedStartsWithOpen(line: string, key: string, i: nat)
    ensures forall v :: OccursAt(line, Quoted(key, v), i) ==> OccursAt(line, key + "\"", i)
  {
    forall v | OccursAt(line, Quoted(key, v), i)
      ensures OccursAt(line, key + "\"", i)
    {
      var n := |key| + 1;
      assert line[i..i + n] == line[i..i + |Quoted(key, v)|][..n];
      assert Quoted(key, v)[..n] == key + "\"";
    }
  }

  /** Where `key"` occurs, only the group that `[^"]+` consumes can complete the match. */
  lemma QuotedAtOnlyOne(line: string, key: string, i: nat)
    ensures forall v :: IsCapture(v) && OccursAt(line, Quoted(key, v), i) ==>
      v == QuoteFreePrefix(line[i + |key| + 1..])
  {
    forall v | IsCapture(v) && OccursAt(line, Quoted(key, v), i)
      ensures v == QuoteFreePrefix(line[i + |key| + 1..])
    {
      var rest := line[i + |key| + 1..];
      var tail := line[i + |key| + 1 + |v| + 1..];
      assert line[i..i + |Quoted(key, v)|] == Quoted(key, v);
      assert rest == v + "\"" + tail;
      QuoteFreePrefixOf(v, tail);
    }
  }

  /** `re.search` from index `i` on: the match at the leftmost index where there is one. */
  function SearchFrom(line: string, key: string, i: nat): Option<string>
    requires i <= |line| + 1
    decreases |line| + 1 - i
  {
    if i > |line| then None
    else
      var m := MatchAt(line, key, i);
      if m.Some? then m else SearchFrom(line, key, i + 1)
  }

  /** The pattern matches at no index from `i` up to, but not including, `j`. */
  predicate NoMatchBetween(line: string, key: string, i: nat, j: nat) {
    forall j' :: i <= j' < j && j' <= |line| ==> MatchAt(line, key, j').None?
  }

  /** `SearchFrom` finds the leftmost match, and finds nothing only when no index matches. */
  lemma {:induction false} SearchFromLeftmost(line: string, key: string, i: nat)
    requires i <= |line| + 1
    ensures SearchFrom(line, key, i).None? <==> NoMatchBetween(line, key, i, |line| + 1)
    ensures SearchFrom(line, key, i).Some? ==>
              exists j :: i <= j <= |line| && MatchAt(line, key, j) == SearchFrom(line, key, i) &&
                          NoMatchBetween(line, key, i, j)
    decreases |line| + 1 - i
  {
    if i <= |line| {
      if MatchAt(line, key, i).Some? {
        assert NoMatchBetween(line, key, i, i);
      } else {
        SearchFromLeftmost(line, key, i + 1);
        if SearchFrom(line, key, i + 1).Some? {
          var j :| i + 1 <= j <= |line| && MatchAt(line, key, j) == SearchFrom(line, key, i + 1) &&
                   NoMatchBetween(line, key, i + 1, j);
          assert NoMatchBetween(line, key, i, j);
        }
      }
    }
  }

  /** `re.search(key + '"([^"]+)"', line).group(1)`, or `None` when there is no match. */
  function Search(line: string, key: string): (r: Option<string>)
    ensures r.Some? ==> IsCapture(r.value) && Contains(line, Quoted(key, r.value))
  {
    SearchFromLeftmost(line, key, 0);
    SearchFrom(line, key, 0)
  }

  /** The value of a `key = "..."` declaration line: the line must start with the key
      (`line.startswith(key)`) and the pattern must match somewhere in it. */
  function KeyValue(line: string, key: string): Option<string>
  {
    if StartsWith(line, key) then Search(line, key) else None
  }

  /** The case a lock or manifest declaration has: the quote follows the key at once. */
  lemma {:induction false} KeyValueOfDeclaration(key: string, v: string, tail: string)
    requires IsCapture(v)
    ensures KeyValue(Quoted(key, v) + tail, key) == Some(v)
  {
    var line := Quoted(key, v) + tail;
    assert line[..|key|] == key;
    assert line[0..|Quoted(key, v)|] == Quoted(key, v);
    MatchAtExactly(line, key, 0, v);
  }
}
