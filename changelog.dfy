/** `update_changelog`, with the three files and the clock replaced by values:
    the lock file's lines, the manifest's lines, the changelog's lines when the
    file exists, and today's date as text (one value serves both calls that
    format the date). The result is the list of lines written, or `None` when
    nothing is written. */
module Changelog {
  import opened Wrappers
  import opened Text
  import opened Ordering
  import opened LockParser
  import opened ManifestReader
  import opened SectionRemoval
  import opened ChangelogEntry

  /** `"=========\nChangelog\n=========\n\n".split('\n')`: the content used when
      the changelog file does not exist. */
  function DefaultHeader(): seq<string> {
    ["=========", "Changelog", "=========", "", ""]
  }

  /** The number of leading lines the new entry is placed after. */
  const HeaderEnd := 3

  /** `f"Version {version}"`: the text that marks a section for `version`. */
  function Marker(version: string): string {
    "Version " + version
  }

  lemma DefaultHeaderIsDefaultContent()
    ensures Join(DefaultHeader()) == "=========\nChangelog\n=========\n\n"
  {
  }

  /** Splitting the default content at newlines gives the default lines back. */
  lemma DefaultContentSplits()
    ensures Split(Join(DefaultHeader())) == DefaultHeader()
  {
    assert AllNewlineFree(DefaultHeader());
    SplitJoin(DefaultHeader());
  }

  /** What `text.split('\n')` can be, for any text: at least one piece, and no
      piece holding a newline. Existing changelog content has this shape. */
  predicate IsContent(lines: seq<string>) {
    lines != [] && AllNewlineFree(lines)
  }

  lemma SplitIsContent(s: string)
    ensures IsContent(Split(s))
  {
  }

  /** The lines the entry is spliced into, as split just before the header
      splice: the existing lines or the default header; when the document
      contains the marker, with the section removed, joined with newlines and
      split again. */
  function Prepared(version: string, existing: Option<seq<string>>): seq<string> {
    var lines := if existing.Some? then existing.value else DefaultHeader();
    var marker := Marker(version);
    if Contains(Join(lines), marker) then Split(Join(SectionRemoved(lines, marker))) else lines
  }

  /** `lines[:header_end] + entry_lines + lines[header_end:]`, Python slices
      being cut short at the end of a shorter list. */
  function Splice(lines: seq<string>, entry: seq<string>): (r: seq<string>)
    ensures var h := if |lines| < HeaderEnd then |lines| else HeaderEnd;
      && |r| == |lines| + |entry|
      && r[..h] == lines[..h]
      && r[h..h + |entry|] == entry
      && r[h + |entry|..] == lines[h..]
  {
    var h := if |lines| < HeaderEnd then |lines| else HeaderEnd;
    lines[..h] + entry + lines[h..]
  }

  /** The lines `update_changelog` writes, or `None` when it returns early because
      no `anemoi-` package was found. */
  ghost function Updated(version: string, packages: map<string, string>, existing: Option<seq<string>>,
                         date: string): (r: Option<seq<string>>)
    requires existing.Some? ==> IsContent(existing.value)
    ensures r.None? <==> |packages| == 0
  {
    if |packages| == 0 then None
    else Some(Splice(Prepared(version, existing), Entry(version, date, packages)))
  }

  /** `update_changelog` from the lines of its inputs to the lines it writes. */
  method UpdateChangelog(lockLines: seq<string>, manifestLines: seq<string>,
                         existing: Option<seq<string>>, date: string)
    returns (written: Option<seq<string>>)
    requires existing.Some? ==> IsContent(existing.value)
    ensures written == Updated(CurrentVersion(manifestLines), ParseLock(lockLines), existing, date)
  {
    var version := ReadCurrentVersion(manifestLines);
    var packages := ParsePoetryLock(lockLines);
    if |packages| == 0 {
      return None;
    }
    var content := if existing.Some? then existing.value else DefaultHeader();
    var marker := Marker(version);
    if Contains(Join(content), marker) {
      var kept := RemoveSection(content, marker);
      content := Split(Join(kept));
    }
    var entry := BuildEntry(version, date, packages);
    var h := if |content| < HeaderEnd then |content| else HeaderEnd;
    written := Some(content[..h] + entry + content[h..]);
  }

  lemma MarkerNotInDefaultHeader(version: string)
    ensures forall j :: 0 <= j < |DefaultHeader()| ==> !Contains(DefaultHeader()[j], Marker(version))
    ensures !Contains(Join(DefaultHeader()), Marker(version))
  {
    var m := Marker(version);
    var text := "=========\nChangelog\n=========\n\n";
    DefaultHeaderIsDefaultContent();
    assert forall i :: 0 <= i < |text| ==> text[i] != m[0];
    NotContainsByHead(text, m);
    forall j | 0 <= j < |DefaultHeader()|
      ensures !Contains(DefaultHeader()[j], m)
    {
      NotContainsByHead(DefaultHeader()[j], m);
    }
  }

  /** Without a changelog file, the result is the default three header lines,
      the entry, and the two blank lines that end the default content. */
  lemma FreshChangelog(version: string, packages: map<string, string>, date: string)
    requires |packages| > 0
    ensures Updated(version, packages, None, date) ==
              Some(["=========", "Changelog", "========="] + Entry(version, date, packages) + ["", ""])
  {
    MarkerNotInDefaultHeader(version);
    assert DefaultHeader()[..HeaderEnd] == ["=========", "Changelog", "========="];
    assert DefaultHeader()[HeaderEnd..] == ["", ""];
  }

  lemma KeptFromLines(lines: seq<string>, marker: string, skip: bool)
    ensures forall i :: 0 <= i < |Kept(lines, marker, skip)| ==> Kept(lines, marker, skip)[i] in lines
    decreases |lines|
  {
    if lines != [] {
      KeptFromLines(lines[1..], marker, SkipAfter(lines[0], marker, skip));
    }
  }

  /** For an existing changelog, the entry goes into what the removal loop kept;
      only when the loop kept nothing of a non-empty document is that `[""]`,
      the split of the empty string. */
  lemma PreparedExisting(version: string, lines: seq<string>)
    requires AllNewlineFree(lines)
    ensures Prepared(version, Some(lines)) ==
              var r := SectionRemoved(lines, Marker(version));
              if r == [] && lines != [] then [""] else r
  {
    var m := Marker(version);
    var r := SectionRemoved(lines, m);
    if Contains(Join(lines), m) {
      KeptFromLines(lines, m, false);
      SplitJoin(r);
      assert lines != [];
    } else {
      forall j | 0 <= j < |lines|
        ensures !Contains(lines[j], m)
      {
        if Contains(lines[j], m) {
          JoinContainsLine(lines, j, m);
        }
      }
      SectionRemovedUnchanged(lines, m);
    }
  }

  /** When the removal keeps something, the written lines are its first three
      lines, the entry, and the rest of it unchanged: seven head lines and one
      bullet per package more than it holds. */
  lemma WrittenLayout(version: string, packages: map<string, string>, lines: seq<string>, date: string)
    requires IsContent(lines) && |packages| > 0
    requires SectionRemoved(lines, Marker(version)) != []
    ensures var r := SectionRemoved(lines, Marker(version));
      && Updated(version, packages, Some(lines), date) == Some(Splice(r, Entry(version, date, packages)))
      && |Updated(version, packages, Some(lines), date).value| == |r| + 7 + |packages|
  {
    PreparedExisting(version, lines);
    EntryLayout(version, date, packages);
  }

  /** A changelog with no section for the version gets the entry after its first
      three lines and is otherwise unchanged. */
  lemma NoPriorSection(version: string, packages: map<string, string>, lines: seq<string>, date: string)
    requires IsContent(lines) && |packages| > 0
    requires forall j :: 0 <= j < |lines| ==> !Contains(lines[j], Marker(version))
    ensures Updated(version, packages, Some(lines), date) == Some(Splice(lines, Entry(version, date, packages)))
  {
    PreparedExisting(version, lines);
    SectionRemovedUnchanged(lines, Marker(version));
  }

  /** When the first three lines do not carry the marker they stay in place and
      the entry follows them directly. */
  lemma KeepsHeader(version: string, packages: map<string, string>, lines: seq<string>, date: string)
    requires IsContent(lines) && |packages| > 0 && |lines| >= HeaderEnd
    requires forall j :: 0 <= j < HeaderEnd ==> !Contains(lines[j], Marker(version))
    ensures Updated(version, packages, Some(lines), date) ==
              Some(lines[..HeaderEnd] + Entry(version, date, packages) + Kept(lines[HeaderEnd..], Marker(version), false))
  {
    var m := Marker(version);
    KeptCleanPrefix(lines, m, HeaderEnd);
    var r := SectionRemoved(lines, m);
    assert r[..HeaderEnd] == lines[..HeaderEnd];
    PreparedExisting(version, lines);
  }

  lemma SectionStartHead(line: string)
    ensures IsSectionStart(line) ==> |line| > 0 && (line[0] == 'V' || line[0] == '#')
  {
    if StartsWith(line, "## Version") {
      assert line[..10][0] == '#';
    } else if StartsWith(line, "Version ") {
      assert line[..8][0] == 'V';
    }
  }

  /** Of the seven head lines only the title starts like a section title. */
  lemma HeadHasOneTitle(version: string, date: string)
    ensures var h := EntryHead(version, date);
      forall j :: 0 <= j < |h| && j != 1 ==> !IsSectionStart(h[j])
  {
    var h := EntryHead(version, date);
    EntryHeadLayout(version, date);
    forall j | 0 <= j < |h| && j != 1
      ensures !IsSectionStart(h[j])
    {
      SectionStartHead(h[j]);
      if j == 2 {
        assert |h[2]| > 0 ==> h[2][0] == '=';
      } else if j == 4 {
        assert h[j][0] == 'A';
      } else if j == 5 {
        assert h[j][0] == '-';
      }
    }
  }

  /** A bullet line never starts like a section title. */
  lemma BulletNotSectionStart(name: string, version: string)
    ensures !IsSectionStart(Bullet(name, version))
  {
    SectionStartHead(Bullet(name, version));
    assert Bullet(name, version)[0] == '*';
  }

  /** Of the entry's lines only the title starts like a section title. */
  lemma EntryHasOneTitle(version: string, date: string, packages: map<string, string>)
    ensures var e := Entry(version, date, packages);
      forall j :: 0 <= j < |e| && j != 1 ==> !IsSectionStart(e[j])
  {
    var e := Entry(version, date, packages);
    EntryLayout(version, date, packages);
    HeadHasOneTitle(version, date);
    var keys := SortedSeq(packages.Keys);
    forall j | 0 <= j < |e| && j != 1
      ensures !IsSectionStart(e[j])
    {
      if j >= 7 {
        BulletNotSectionStart(keys[j - 7], packages[keys[j - 7]]);
      } else {
        assert e[j] == e[..7][j] == EntryHead(version, date)[j];
      }
    }
  }

  /** The entry's title starts a section and carries the marker. */
  lemma EntryTitleCarriesMarker(version: string, date: string, packages: map<string, string>)
    ensures var e := Entry(version, date, packages);
      |e| > 1 && IsSectionStart(e[1]) && Contains(e[1], Marker(version))
  {
    EntryLayout(version, date, packages);
    EntryHeadLayout(version, date);
    var t := Title(version, date);
    var m := Marker(version);
    assert t[..8] == "Version " && t[..|m|] == m;
    assert OccursAt(t, m, 0);
  }

  /** After any update of an existing changelog exactly one section title for the
      version remains: the entry's own, on the second line after the splice point;
      no line outside the entry carries the marker. */
  lemma OneSectionAfterUpdate(version: string, packages: map<string, string>, lines: seq<string>, date: string)
    requires IsContent(lines) && |packages| > 0
    ensures var p := Prepared(version, Some(lines));
      var h := if |p| < HeaderEnd then |p| else HeaderEnd;
      var w := Updated(version, packages, Some(lines), date).value;
      var e := Entry(version, date, packages);
      && w == Splice(p, e)
      && (forall j :: 0 <= j < |w| && !(h <= j < h + |e|) ==> !Contains(w[j], Marker(version)))
      && h + 1 < |w| && IsSectionStart(w[h + 1]) && Contains(w[h + 1], Marker(version))
      && (forall j :: 0 <= j < |w| && IsSectionStart(w[j]) && Contains(w[j], Marker(version)) ==> j == h + 1)
  {
    var m := Marker(version);
    var p := Prepared(version, Some(lines));
    var e := Entry(version, date, packages);
    var h := if |p| < HeaderEnd then |p| else HeaderEnd;
    var w := Splice(p, e);
    PreparedExisting(version, lines);
    SectionRemovedFacts(lines, m);
    EntryHasOneTitle(version, date, packages);
    assert forall j :: 0 <= j < |p| ==> !Contains(p[j], m) by {
      var r := SectionRemoved(lines, m);
      if r == [] && lines != [] {
        forall j | 0 <= j < |p| ensures !Contains(p[j], m) {
          assert p[j] == "";
        }
      }
    }
    forall j | 0 <= j < |w| && !(h <= j < h + |e|)
      ensures !Contains(w[j], m)
    {
      if j < h { assert w[j] == w[..h][j] == p[..h][j]; }
      else { assert w[j] == w[h + |e|..][j - h - |e|] == p[h..][j - h - |e|]; }
    }
    EntryTitleCarriesMarker(version, date, packages);
    assert w[h + 1] == w[h..h + |e|][1] == e[1];
    forall j | 0 <= j < |w| && IsSectionStart(w[j]) && Contains(w[j], m)
      ensures j == h + 1
    {
      if h <= j < h + |e| {
        assert w[j] == w[h..h + |e|][j - h] == e[j - h];
      }
    }
  }

  /** In the document a first run writes, the marker is on the title line and
      the section from there to the end is cut: the header and one blank line stay. */
  lemma FirstSectionCut(version: string, date: string, packages: map<string, string>)
    ensures var once := ["=========", "Changelog", "========="] + Entry(version, date, packages) + ["", ""];
      && Contains(Join(once), Marker(version))
      && SectionRemoved(once, Marker(version)) == ["=========", "Changelog", "=========", ""]
  {
    var m := Marker(version);
    var e := Entry(version, date, packages);
    var once := ["=========", "Changelog", "========="] + e + ["", ""];
    EntryLayout(version, date, packages);
    EntryHeadLayout(version, date);
    assert once[4] == Title(version, date);
    assert OccursAt(once[4], m, 0);
    JoinContainsLine(once, 4, m);
    MarkerNotInDefaultHeader(version);
    EntryHasOneTitle(version, date, packages);
    forall j | 4 < j < |once|
      ensures !IsSectionStart(once[j])
    {
      if j < 3 + |e| {
        assert once[j] == e[j - 3];
      } else {
        assert once[j] == "";
      }
    }
    assert forall j :: 0 <= j < 3 ==> once[j] == DefaultHeader()[j];
    SectionCut(once, m, 4, |once|);
    assert once[..4] == ["=========", "Changelog", "=========", ""];
  }

  /** Running the update twice for the same version, starting without a
      changelog file, leaves one section for it: the one the second run wrote.
      The second run reads the split of the text the first run wrote, which is
      the first run's lines when no captured name, version or date holds a
      newline. The first run's section reaches to the end of the document and
      is dropped with the blank line after it, so one of the two trailing blank
      lines of the default content remains. */
  lemma RerunReplacesSection(version: string, first: map<string, string>, second: map<string, string>,
                             date1: string, date2: string)
    requires |first| > 0 && |second| > 0
    requires NewlineFree(version) && NewlineFree(date1) && FieldsNewlineFree(first)
    ensures Updated(version, first, None, date1).Some?
    ensures var text := Join(Updated(version, first, None, date1).value);
      Updated(version, second, Some(Split(text)), date2) ==
        Some(["=========", "Changelog", "========="] + Entry(version, date2, second) + [""])
  {
    var head := ["=========", "Changelog", "=========", ""];
    var once := ["=========", "Changelog", "========="] + Entry(version, date1, first) + ["", ""];
    FreshChangelog(version, first, date1);
    EntryNewlineFree(version, date1, first);
    assert AllNewlineFree(once);
    SplitJoin(once);
    FirstSectionCut(version, date1, first);
    assert AllNewlineFree(head);
    SplitJoin(head);
    assert Prepared(version, Some(once)) == head;
    assert head[..HeaderEnd] == ["=========", "Changelog", "========="] && head[HeaderEnd..] == [""];
    assert Updated(version, second, Some(once), date2) == Some(Splice(head, Entry(version, date2, second)));
  }

  /** A changelog with a section for 1.2.3 and one for 1.1 below it. */
  const LongerVersionTitle := "Version 1.2.3 (2024-01-01)"
  const OlderVersionTitle := "Version 1.1 (2023-01-01)"
  const TwoSections: seq<string> :=
    ["=========", "Changelog", "=========", LongerVersionTitle, "x", OlderVersionTitle]

  lemma OlderTitleResumes()
    ensures Resumes(OlderVersionTitle, Marker("1.2"))
  {
    var s, m := OlderVersionTitle, Marker("1.2");
    assert StartsWith(s, "Version ");
    forall i | 0 <= i <= |s| - |m|
      ensures !OccursAt(s, m, i)
    {
      if i == 0 {
        assert s[10] != m[10];
        assert s[0..|m|][10] == s[10];
      } else {
        assert s[i] != m[0];
        assert i + |m| <= |s| ==> s[i..i + |m|][0] == s[i];
      }
    }
  }

  /** The marker test is a substring test, so the removal for version 1.2 also
      cuts the section of version 1.2.3, up to the next section title. */
  lemma LongerVersionSectionCut()
    ensures SectionRemoved(TwoSections, Marker("1.2")) ==
              ["=========", "Changelog", "=========", OlderVersionTitle]
  {
    var lines, m := TwoSections, Marker("1.2");
    assert OccursAt(lines[3], m, 0);
    MarkerNotInDefaultHeader("1.2");
    assert forall j :: 0 <= j < 3 ==> lines[j] == DefaultHeader()[j];
    assert !IsSectionStart(lines[4]);
    OlderTitleResumes();
    SectionCut(lines, m, 3, 5);
    assert lines[6..] == [];
    assert lines[..3] == ["=========", "Changelog", "========="];
  }

  /** Updating version 1.2 on that changelog leaves the header, the new entry
      and the 1.1 section: the 1.2.3 section is gone. */
  lemma LongerVersionSectionRemoved(packages: map<string, string>, date: string)
    requires |packages| > 0
    ensures Updated("1.2", packages, Some(TwoSections), date) ==
              Some(["=========", "Changelog", "========="] + Entry("1.2", date, packages) + [OlderVersionTitle])
  {
    assert '\n' !in LongerVersionTitle && '\n' !in OlderVersionTitle;
    assert IsContent(TwoSections);
    LongerVersionSectionCut();
    WrittenLayout("1.2", packages, TwoSections, date);
    var r := ["=========", "Changelog", "=========", OlderVersionTitle];
    assert r[..HeaderEnd] == ["=========", "Changelog", "========="] && r[HeaderEnd..] == [OlderVersionTitle];
  }
}
