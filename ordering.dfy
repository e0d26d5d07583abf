/** Python's ordering of `str` values and the `sorted(...)` order of a set of
    package names. */
module Ordering {

  /** Python's `a < b` on strings: code point by code point, and a proper
      prefix sorts before the longer string. */
  predicate Less(a: string, b: string) {
    if |a| == 0 then |b| > 0
    else if |b| == 0 then false
    else if a[0] == b[0] then Less(a[1..], b[1..])
    else a[0] < b[0]
  }

  lemma {:induction false} LessIrreflexive(a: string)
    ensures !Less(a, a)
  {
    if |a| > 0 {
      LessIrreflexive(a[1..]);
    }
  }

  lemma {:induction false} LessTransitive(a: string, b: string, c: string)
    requires Less(a, b) && Less(b, c)
    ensures Less(a, c)
  {
    if |a| > 0 && |b| > 0 && |c| > 0 && a[0] == b[0] == c[0] {
      LessTransitive(a[1..], b[1..], c[1..]);
    }
  }

  lemma {:induction false} LessTotal(a: string, b: string)
    requires a != b
    ensures Less(a, b) || Less(b, a)
  {
    if |a| > 0 && |b| > 0 && a[0] == b[0] {
      assert a == [a[0]] + a[1..] && b == [b[0]] + b[1..];
      LessTotal(a[1..], b[1..]);
    }
  }

  /** Each element is strictly below every later one. */
  predicate StrictlyIncreasing(s: seq<string>) {
    forall i, j :: 0 <= i < j < |s| ==> Less(s[i], s[j])
  }

  /** Nothing in `s` is below `x`. */
  predicate IsLeast(x: string, s: set<string>) {
    x in s && forall y :: y in s ==> !Less(y, x)
  }

  lemma {:induction false} LeastExists(s: set<string>)
    requires s != {}
    ensures exists x :: IsLeast(x, s)
    decreases s
  {
    var y :| y in s;
    if s != {y} {
      LeastExists(s - {y});
      var z :| IsLeast(z, s - {y});
      if Less(y, z) {
        forall w | w in s
          ensures !Less(w, y)
        {
          LessIrreflexive(y);
          if w != y && Less(w, y) {
            LessTransitive(w, y, z);
          }
        }
        assert IsLeast(y, s);
      } else {
        assert IsLeast(z, s);
      }
    } else {
      LessIrreflexive(y);
      assert IsLeast(y, s);
    }
  }

  /** The least element is unique and strictly below every other element. */
  lemma LeastBelowOthers(x: string, s: set<string>)
    requires IsLeast(x, s)
    ensures forall y :: y in s && y != x ==> Less(x, y)
  {
    forall y | y in s && y != x
      ensures Less(x, y)
    {
      LessTotal(x, y);
    }
  }

  /** The members of `ks` in increasing order: what `sorted(ks)` returns. */
  ghost function SortedSeq(ks: set<string>): seq<string>
    decreases ks
  {
    if ks == {} then []
    else
      LeastExists(ks);
      var x :| IsLeast(x, ks);
      [x] + SortedSeq(ks - {x})
  }

  /** `SortedSeq(ks)` lists every member of `ks` once, in strictly increasing order. */
  lemma {:induction false} SortedSeqSpec(ks: set<string>)
    ensures |SortedSeq(ks)| == |ks|
    ensures forall k :: k in SortedSeq(ks) <==> k in ks
    ensures StrictlyIncreasing(SortedSeq(ks))
    decreases ks
  {
    if ks != {} {
      var r := SortedSeq(ks);
      var x := r[0];
      assert IsLeast(x, ks) && r == [x] + SortedSeq(ks - {x});
      SortedSeqSpec(ks - {x});
      LeastBelowOthers(x, ks);
      var tail := SortedSeq(ks - {x});
      forall i, j | 0 <= i < j < |r|
        ensures Less(r[i], r[j])
      {
        if i > 0 {
          assert r[i] == tail[i - 1] && r[j] == tail[j - 1];
        } else {
          assert r[j] == tail[j - 1];
        }
      }
    }
  }

  lemma LessAsymmetric(a: string, b: string)
    requires Less(a, b)
    ensures !Less(b, a)
  {
    LessIrreflexive(a);
    if Less(b, a) {
      LessTransitive(a, b, a);
    }
  }

  lemma LeastUnique(x: string, y: string, s: set<string>)
    requires IsLeast(x, s) && IsLeast(y, s)
    ensures x == y
  {
    if x != y {
      LessTotal(x, y);
    }
  }

  /** The sorted order starts with the least element, whichever way it was found. */
  lemma SortedSeqStartsWithLeast(x: string, ks: set<string>)
    requires IsLeast(x, ks)
    ensures SortedSeq(ks) == [x] + SortedSeq(ks - {x})
  {
    var r := SortedSeq(ks);
    SortedSeqSpec(ks);
    assert r[0] in ks;
    forall y | y in ks
      ensures !Less(y, r[0])
    {
      var j :| 0 <= j < |r| && r[j] == y;
      if j == 0 {
        LessIrreflexive(y);
      } else {
        LessAsymmetric(r[0], r[j]);
      }
    }
    LeastUnique(r[0], x, ks);
  }
}
