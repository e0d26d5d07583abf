/** The loop of `update_changelog` that drops an existing section for the
    current version: a `skip` flag is raised at every line carrying the marker
    `Version {version}` and lowered at the next section title without it. */
module SectionRemoval {
  import opened Text

  /** `line.startswith("## Version") or line.startswith("Version ")`. */
  predicate IsSectionStart(line: string) {
    StartsWith(line, "## Version") || StartsWith(line, "Version ")
  }

  /** A line at which skipping stops (and which is kept): a section title without the marker. */
  predicate Resumes(line: string, marker: string) {
    IsSectionStart(line) && !Contains(line, marker)
  }

  /** The `skip` flag after the loop has looked at `line`. */
  function SkipAfter(line: string, marker: string, skip: bool): bool {
    if Contains(line, marker) then true
    else if skip && IsSectionStart(line) then false
    else skip
  }

  /** The lines the loop appends to `new_lines` when it meets `lines` with flag `skip`. */
  function Kept(lines: seq<string>, marker: string, skip: bool): seq<string>
    decreases |lines|
  {
    if lines == [] then []
    else
      var s := SkipAfter(lines[0], marker, skip);
      (if s then [] else [lines[0]]) + Kept(lines[1..], marker, s)
  }

  /** The whole loop, which starts with `skip = False`. */
  function SectionRemoved(lines: seq<string>, marker: string): seq<string> {
    Kept(lines, marker, false)
  }

  /** The removal loop over the document's lines. */
  method RemoveSection(lines: seq<string>, marker: string) returns (kept: seq<string>)
    ensures kept == SectionRemoved(lines, marker)
  {
    kept := [];
    var skip := false;
    for i := 0 to |lines|
      invariant kept + Kept(lines[i..], marker, skip) == SectionRemoved(lines, marker)
    {
      var line := lines[i];
      if Contains(line, marker) {
        skip := true;
      } else if skip && (StartsWith(line, "## Version") || StartsWith(line, "Version ")) {
        skip := false;
      }
      if !skip {
        kept := kept + [line];
      }
      assert lines[i..][1..] == lines[i + 1..];
    }
    assert lines[|lines|..] == [];
  }

  /** `a` is `b` with some elements left out, the rest in their order. */
  predicate IsSubsequence(a: seq<string>, b: seq<string>)
    decreases |b|
  {
    if b == [] then a == []
    else (|a| > 0 && a[0] == b[0] && IsSubsequence(a[1..], b[1..])) || IsSubsequence(a, b[1..])
  }

  lemma {:induction false} KeptIsSubsequence(lines: seq<string>, marker: string, skip: bool)
    ensures IsSubsequence(Kept(lines, marker, skip), lines)
    decreases |lines|
  {
    if lines != [] {
      var s := SkipAfter(lines[0], marker, skip);
      KeptIsSubsequence(lines[1..], marker, s);
      var k := Kept(lines, marker, skip);
      if !s {
        assert k == [lines[0]] + Kept(lines[1..], marker, s);
        assert k[0] == lines[0] && k[1..] == Kept(lines[1..], marker, s);
      } else {
        assert k == Kept(lines[1..], marker, s);
      }
    }
  }

  lemma {:induction false} KeptHasNoMarker(lines: seq<string>, marker: string, skip: bool)
    ensures forall i :: 0 <= i < |Kept(lines, marker, skip)| ==> !Contains(Kept(lines, marker, skip)[i], marker)
    decreases |lines|
  {
    if lines != [] {
      var s := SkipAfter(lines[0], marker, skip);
      KeptHasNoMarker(lines[1..], marker, s);
    }
  }

  /** The removal yields a subsequence of the document in which no line carries the marker. */
  lemma SectionRemovedFacts(lines: seq<string>, marker: string)
    ensures IsSubsequence(SectionRemoved(lines, marker), lines)
    ensures forall i :: 0 <= i < |SectionRemoved(lines, marker)| ==>
              !Contains(SectionRemoved(lines, marker)[i], marker)
  {
    KeptIsSubsequence(lines, marker, false);
    KeptHasNoMarker(lines, marker, false);
  }

  /** Lines before the first marker line are all kept. */
  lemma {:induction false} KeptCleanPrefix(lines: seq<string>, marker: string, i: int)
    requires 0 <= i <= |lines|
    requires forall j :: 0 <= j < i ==> !Contains(lines[j], marker)
    ensures Kept(lines, marker, false) == lines[..i] + Kept(lines[i..], marker, false)
    decreases i
  {
    if i > 0 {
      KeptCleanPrefix(lines[1..], marker, i - 1);
      assert lines[1..][i - 1..] == lines[i..];
      assert [lines[0]] + lines[1..][..i - 1] == lines[..i];
    }
  }

  /** A document without the marker comes out unchanged. */
  lemma SectionRemovedUnchanged(lines: seq<string>, marker: string)
    requires forall j :: 0 <= j < |lines| ==> !Contains(lines[j], marker)
    ensures SectionRemoved(lines, marker) == lines
  {
    KeptCleanPrefix(lines, marker, |lines|);
    assert lines[..|lines|] == lines && lines[|lines|..] == [];
  }

  /** While skipping, lines up to the next resuming line are dropped. */
  lemma {:induction false} KeptSkipRun(lines: seq<string>, marker: string, k: int)
    requires 0 <= k <= |lines|
    requires forall j :: 0 <= j < k ==> !Resumes(lines[j], marker)
    ensures Kept(lines, marker, true) == Kept(lines[k..], marker, true)
    decreases k
  {
    if k > 0 {
      KeptSkipRun(lines[1..], marker, k - 1);
      assert lines[1..][k - 1..] == lines[k..];
    }
  }

  /** The section from the first marker line `i` up to the next section title `k`
      without the marker (or to the end) is cut; everything before it is kept,
      the title at `k` is kept, and the rest is scanned afresh. */
  lemma SectionCut(lines: seq<string>, marker: string, i: int, k: int)
    requires 0 <= i < k <= |lines|
    requires Contains(lines[i], marker)
    requires forall j :: 0 <= j < i ==> !Contains(lines[j], marker)
    requires forall j :: i < j < k ==> !Resumes(lines[j], marker)
    requires k == |lines| || Resumes(lines[k], marker)
    ensures SectionRemoved(lines, marker) ==
              lines[..i] + if k < |lines| then [lines[k]] + SectionRemoved(lines[k + 1..], marker) else []
  {
    KeptCleanPrefix(lines, marker, i);
    var rest := lines[i + 1..];
    assert lines[i..][1..] == rest;
    KeptSkipRun(rest, marker, k - i - 1);
    assert rest[k - i - 1..] == lines[k..];
    if k < |lines| {
      assert lines[k..][1..] == lines[k + 1..];
    }
  }
}
