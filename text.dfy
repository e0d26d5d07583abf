/** Python's string operations that the changelog script relies on:
    `startswith`, the `in` substring test, and `'\n'.join` / `split('\n')`. */
module Text {

  /** Python's `s.startswith(p)`. */
  predicate StartsWith(s: string, p: string) {
    |p| <= |s| && s[..|p|] == p
  }

  /** `m` occurs in `s` beginning at index `i`. */
  predicate OccursAt(s: string, m: string, i: int) {
    0 <= i && i + |m| <= |s| && s[i..i + |m|] == m
  }

  /** Python's `m in s` on two strings. */
  predicate Contains(s: string, m: string) {
    exists i :: 0 <= i <= |s| - |m| && OccursAt(s, m, i)
  }

  /** No line separator inside `s`: every element of `s.split('\n')` has this shape. */
  predicate NewlineFree(s: string) {
    '\n' !in s
  }

  predicate AllNewlineFree(lines: seq<string>) {
    forall i :: 0 <= i < |lines| ==> NewlineFree(lines[i])
  }

  /** A string of `n` copies of `c`: Python's `c * n`. */
  function Repeat(c: char, n: nat): (r: string)
    ensures |r| == n && forall i :: 0 <= i < n ==> r[i] == c
  {
    seq(n, _ => c)
  }

  /** Python's `'\n'.join(lines)`. */
  function Join(lines: seq<string>): string
  {
    if |lines| == 0 then ""
    else if |lines| == 1 then lines[0]
    else lines[0] + "\n" + Join(lines[1..])
  }

  /** Python's `s.split('\n')`: never empty; an empty string gives `[""]`. */
  function Split(s: string): (r: seq<string>)
    ensures |r| >= 1
    ensures AllNewlineFree(r)
  {
    if |s| == 0 then [""]
    else if s[0] == '\n' then [""] + Split(s[1..])
    else
      var rest := Split(s[1..]);
      [[s[0]] + rest[0]] + rest[1..]
  }

  lemma StartsWithHead(s: string, p: string)
    requires StartsWith(s, p) && |p| > 0
    ensures |s| > 0 && s[0] == p[0]
  {
    assert s[..|p|][0] == p[0];
  }

  /** A string none of whose characters is the first character of `m` does not contain `m`. */
  lemma NotContainsByHead(s: string, m: string)
    requires |m| > 0 && forall i :: 0 <= i < |s| ==> s[i] != m[0]
    ensures !Contains(s, m)
  {
    forall i | 0 <= i <= |s| - |m|
      ensures !OccursAt(s, m, i)
    {
      assert s[i..i + |m|][0] == s[i];
    }
  }

  lemma {:induction false} SplitNewlineFree(s: string)
    requires NewlineFree(s)
    ensures Split(s) == [s]
  {
    if |s| > 0 {
      SplitNewlineFree(s[1..]);
      assert [s[0]] + s[1..] == s;
    }
  }

  lemma {:induction false} SplitAfterLine(a: string, b: string)
    requires NewlineFree(a)
    ensures Split(a + "\n" + b) == [a] + Split(b)
  {
    var s := a + "\n" + b;
    if |a| == 0 {
      assert s == "\n" + b;
      assert s[1..] == b;
    } else {
      assert s[1..] == a[1..] + "\n" + b;
      SplitAfterLine(a[1..], b);
      assert [a[0]] + a[1..] == a;
    }
  }

  /** Joining newline-free lines and splitting the result gives the lines back;
      the only exception is the empty sequence, which comes back as `[""]`. */
  lemma {:induction false} SplitJoin(lines: seq<string>)
    requires AllNewlineFree(lines)
    ensures Split(Join(lines)) == if lines == [] then [""] else lines
  {
    if |lines| == 1 {
      SplitNewlineFree(lines[0]);
    } else if |lines| > 1 {
      SplitJoin(lines[1..]);
      SplitAfterLine(lines[0], Join(lines[1..]));
      assert [lines[0]] + lines[1..] == lines;
    }
  }

  /** Splitting and joining again gives back any string. */
  lemma {:induction false} JoinSplit(s: string)
    ensures Join(Split(s)) == s
  {
    if |s| > 0 {
      JoinSplit(s[1..]);
      var rest := Split(s[1..]);
      if s[0] == '\n' {
        assert Split(s) == [""] + rest;
        assert ([""] + rest)[1..] == rest;
        assert s == "\n" + s[1..];
      } else {
        assert [s[0]] + s[1..] == s;
        if |rest| > 1 {
          assert Join(rest) == rest[0] + "\n" + Join(rest[1..]);
          var r := [[s[0]] + rest[0]] + rest[1..];
          assert r[1..] == rest[1..];
        }
      }
    }
  }

  lemma OccursInConcat(a: string, b: string, m: string)
    ensures forall p :: OccursAt(a, m, p) ==> OccursAt(a + b, m, p)
    ensures forall q :: OccursAt(b, m, q) ==> OccursAt(a + b, m, |a| + q)
  {
    forall p | OccursAt(a, m, p)
      ensures OccursAt(a + b, m, p)
    {
      assert (a + b)[p..p + |m|] == a[p..p + |m|];
    }
    forall q | OccursAt(b, m, q)
      ensures OccursAt(a + b, m, |a| + q)
    {
      assert (a + b)[|a| + q..|a| + q + |m|] == b[q..q + |m|];
    }
  }

  /** A substring of one line is a substring of the joined document. */
  lemma {:induction false} JoinContainsLine(lines: seq<string>, i: int, m: string)
    requires 0 <= i < |lines| && Contains(lines[i], m)
    ensures Contains(Join(lines), m)
  {
    if |lines| > 1 {
      var head := lines[0] + "\n";
      var t := Join(lines[1..]);
      assert Join(lines) == head + t;
      if i == 0 {
        var p :| 0 <= p <= |lines[0]| - |m| && OccursAt(lines[0], m, p);
        OccursInConcat(lines[0], "\n", m);
        OccursInConcat(head, t, m);
        assert OccursAt(Join(lines), m, p);
      } else {
        JoinContainsLine(lines[1..], i - 1, m);
        var q :| 0 <= q <= |t| - |m| && OccursAt(t, m, q);
        OccursInConcat(head, t, m);
        assert OccursAt(Join(lines), m, |head| + q);
      }
    }
  }

  /** A newline-free string cannot occur across the separator of `a + "\n" + t`. */
  lemma WindowOverNewline(a: string, t: string, m: string, p: int)
    requires NewlineFree(m)
    ensures p <= |a| < p + |m| ==> !OccursAt(a + "\n" + t, m, p)
  {
    var j := a + "\n" + t;
    if 0 <= p <= |a| < p + |m| <= |j| {
      assert j[p..p + |m|][|a| - p] == '\n';
    }
  }

  /** A newline-free string that occurs in the joined document occurs in one of its lines. */
  lemma {:induction false} JoinContainsInLine(lines: seq<string>, m: string)
    requires NewlineFree(m) && |m| > 0
    ensures Contains(Join(lines), m) ==> exists i :: 0 <= i < |lines| && Contains(lines[i], m)
  {
    if |lines| > 1 && Contains(Join(lines), m) {
      JoinContainsInLine(lines[1..], m);
      var t := Join(lines[1..]);
      var j := Join(lines);
      var a := lines[0];
      assert j == a + "\n" + t;
      var p :| 0 <= p <= |j| - |m| && OccursAt(j, m, p);
      WindowOverNewline(a, t, m, p);
      if p + |m| <= |a| {
        assert j[p..p + |m|] == a[p..p + |m|];
        assert OccursAt(a, m, p);
        assert Contains(lines[0], m);
      } else {
        var q := p - |a| - 1;
        assert j[p..p + |m|] == t[q..q + |m|];
        assert OccursAt(t, m, q);
        var i :| 0 <= i < |lines[1..]| && Contains(lines[1..][i], m);
        assert Contains(lines[i + 1], m);
      }
    } else if |lines| == 1 && Contains(Join(lines), m) {
      assert Contains(lines[0], m);
    }
  }
}
