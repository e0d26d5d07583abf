# anemoi-env changelog updater, modelled in Dafny

`scripts/update_changelog.py` keeps `CHANGELOG.rst` in step with the
versions of the `anemoi-*` packages pinned in `poetry.lock`. It reads the
project's own version from `pyproject.toml`, collects every `anemoi-` package
and its locked version, and, when the changelog text contains
`Version {version}`, drops every line holding that text together with what
follows it up to the next section title (so a section for a longer version
that starts the same way, 1.2.3 for 1.2, goes too). It then splices a new reStructuredText section (title, `=` underline,
an "Anemoi Package Versions" subtitle, one bullet per package in name order)
in after the first three lines of the file. When no `anemoi-` package is
found it writes nothing.

The model works on lines. The lock file and the manifest are the sequences
of lines their iterators yield, the changelog is `Option<seq<string>>` (the
`split('\n')` of its text, so never empty and with no newline inside a line;
`None` when the file is absent), the clock is a
`date` parameter, and the result is the list of lines written (or `None`).
Each step the script performs with a loop is a Dafny `method` with that loop,
proved equal to a recursive specification function; the properties of the
script are lemmas about those functions.

Modules, in dependency order:

- `Wrappers` — `Option`.
- `Text` — prefixes, substring search, `'\n'.join` (`Join`) and
  `str.split('\n')` (`Split`) with their round trips.
- `Ordering` — Python's `<` on `str` (code point by code point, a proper
  prefix first), and `SortedSeq`, the list `sorted(keys)` produces.
- `Capture` — the regular expressions `name = "([^"]+)"` and
  `version = "([^"]+)"` as an explicit leftmost search.
- `LockParser` — `parse_poetry_lock`.
- `ManifestReader` — `read_current_version`.
- `SectionRemoval` — the `skip`-flag loop that drops the section for the
  current version.
- `ChangelogEntry` — the construction of `entry_lines`.
- `Changelog` — `update_changelog` end to end.

## Model

| member | source | states |
|---|---|---|
| `Capture.QuoteFreePrefix` | scripts/update_changelog.py:18 | the text the group `[^"]+` can take: a quote-free prefix of the input, followed by a quote when shorter than the input |
| `Capture.IsCapture` | scripts/update_changelog.py:18 | what the group `[^"]+` can capture: a non-empty text with no double quote |
| `Capture.QuoteFreePrefixOf` | scripts/update_changelog.py:18 | for quote-free `v`, the run before the next quote in `v"…` is exactly `v` |
| `Capture.MatchAt` | scripts/update_changelog.py:18 | a match at position `i` yields a non-empty, quote-free capture `v` with `key"v"` occurring at `i` |
| `Capture.MatchAtExactly` | scripts/update_changelog.py:18 | `MatchAt` yields `v` at `i` if and only if `v` is a valid capture and `key"v"` occurs at `i` |
| `Capture.QuotedAtOnlyOne` | scripts/update_changelog.py:18 | at a given position at most one capture fits, since `[^"]+` must stop at the first quote |
| `Capture.SearchFromLeftmost` | scripts/update_changelog.py:18 | the search finds nothing exactly when no position from `i` on matches, and otherwise returns the match at the first matching position |
| `Capture.SearchFrom` | scripts/update_changelog.py:18 | `re.search`'s scan: try each start position from `i` on in turn and return the first match |
| `Capture.Search` | scripts/update_changelog.py:23 | the search `re.search` makes at lines 18, 23 and 36, from the start of the line: a found value is a valid capture and `key"value"` occurs in the line |
| `Capture.KeyValue` | scripts/update_changelog.py:17-18 | `line.startswith(key)` followed by `re.search` for `key"([^"]+)"` on the line; the same test serves lines 22-23 and 35-36 |
| `Capture.KeyValueOfDeclaration` | scripts/update_changelog.py:17-20 | a line `key"v"…` with a valid capture `v` yields `v`, whatever follows it |
| `LockParser.PendingAnemoi` | scripts/update_changelog.py:22 | `current_package and current_package.startswith('anemoi-')` |
| `LockParser.IsNameLine` | scripts/update_changelog.py:17 | `line.startswith('name = ')` |
| `LockParser.NameOf` | scripts/update_changelog.py:17-18 | the name a line declares: it starts with `name = ` and the pattern matches |
| `LockParser.VersionOf` | scripts/update_changelog.py:22-23 | the version a line declares: it starts with `version = ` and the pattern matches |
| `LockParser.Step` | scripts/update_changelog.py:16-26 | a line starting with `name = ` sets the pending name to its capture, or keeps it when the pattern fails, and leaves the dict alone; any other line with an `anemoi-` name pending and a captured version records that version under the name and clears it; every other line changes nothing |
| `LockParser.ParseFrom` | scripts/update_changelog.py:16-26 | the state after the loop has read the lines, one `Step` per line in order |
| `LockParser.ParseLock` | scripts/update_changelog.py:10-28 | the dict returned for the lines, scanning from no pending name and an empty dict |
| `LockParser.ParsePoetryLock` | scripts/update_changelog.py:10-28 | the loop returns `ParseLock(lines)`, and every key starts with `anemoi-` |
| `LockParser.ParsedKeysArePrefixed` | scripts/update_changelog.py:22-25 | every key of the parsed dict starts with `anemoi-` |
| `LockParser.ParseFromKeys` | scripts/update_changelog.py:22-25 | scanning from any state whose keys all start with `anemoi-` keeps that true |
| `LockParser.IgnoredWithoutPendingName` | scripts/update_changelog.py:17-26 | with no `anemoi-` name pending, lines that declare no name leave the scanner's state unchanged |
| `LockParser.OrphanVersionLinesIgnored` | scripts/update_changelog.py:17-26 | a file in which no line declares a name yields the empty dict, whatever version lines it holds |
| `LockParser.SecondVersionLineIgnored` | scripts/update_changelog.py:25-26 | after an `anemoi-` block is committed, a further version line is ignored |
| `LockParser.ParseFromAppend` | scripts/update_changelog.py:16 | scanning `a + b` is scanning `b` from the state reached after `a` |
| `LockParser.ParseFromFrame` | scripts/update_changelog.py:25 | entries already in the dict are overwritten, never read: scanning from `(p, m)` gives `m` overlaid with what scanning from `(p, {})` gives |
| `LockParser.LaterBlockWins` | scripts/update_changelog.py:25 | when `b` starts with a name line, the dict for `a + b` is the dict for `a` overlaid with the dict for `b`, so a later block's version wins |
| `LockParser.StepProvenance` | scripts/update_changelog.py:17-26 | each step keeps two facts: every entry is declared by a name line and a later version line with no matching name line between, and a pending name is the one the last matching name line gave |
| `LockParser.ProvenanceHolds` | scripts/update_changelog.py:16-26 | those two facts hold after any prefix of the file |
| `LockParser.RecordedValuesAreDeclared` | scripts/update_changelog.py:17-26 | every entry `k: v` comes from a name line naming `k` and a later version line capturing `v`, with no matching name line (one with a quoted name) between them |
| `LockParser.Expected` | scripts/update_changelog.py:22-25 | the dict a file of well-formed blocks should give: its keys start with `anemoi-` and are names of blocks |
| `LockParser.ParseDeclarations` | scripts/update_changelog.py:17-26 | a block's name line and the version line after it, whatever follows their closing quotes, commit the pair if the name starts with `anemoi-`, and otherwise leave the name pending and the dict empty |
| `LockParser.ParseOneBlock` | scripts/update_changelog.py:17-26 | the same holds for the whole block, its other lines declaring no name |
| `LockParser.AppendBlock` | scripts/update_changelog.py:17-26 | appending a block to any lines adds its entry for an `anemoi-` name and otherwise leaves the dict unchanged |
| `LockParser.ParseBlocks` | scripts/update_changelog.py:10-28 | a file made of a preamble that declares no name and well-formed blocks (lines with terminators, other lines after the version) parses to `Expected` of its blocks |
| `LockParser.OtherPackageDropped` | scripts/update_changelog.py:22 | of an `anemoi-` block followed by another package's block, only the first is recorded |
| `LockParser.ExpectedSize` | scripts/update_changelog.py:22-25 | with distinct names there is exactly one entry per `anemoi-` block |
| `LockParser.OtherPackagesAreDropped` | scripts/update_changelog.py:22 | a lock file with `anemoi-core` 1.2.0 and `other-pkg` 9.9.9, lines ending in newlines and with `description` and `[[package]]` lines, parses to `{anemoi-core: 1.2.0}` |
| `ManifestReader.CurrentVersion` | scripts/update_changelog.py:31-39 | the capture of the first line that starts with `version = ` and has a quoted value; `unknown` when no line has one |
| `ManifestReader.ReadCurrentVersion` | scripts/update_changelog.py:31-39 | the loop with its early return yields `CurrentVersion(lines)` |
| `SectionRemoval.IsSectionStart` | scripts/update_changelog.py:78 | `line.startswith("## Version") or line.startswith("Version ")` |
| `SectionRemoval.Resumes` | scripts/update_changelog.py:76-78 | a line that lowers a raised flag: a section title that does not hold the marker, since the marker test comes first |
| `SectionRemoval.SkipAfter` | scripts/update_changelog.py:76-79 | the `skip` flag after a line: raised by a line holding the marker, lowered by a section title while raised, otherwise unchanged |
| `SectionRemoval.Kept` | scripts/update_changelog.py:75-82 | the lines appended to `new_lines` from a given line and flag on: each line whose updated flag is down |
| `SectionRemoval.SectionRemoved` | scripts/update_changelog.py:73-82 | the lines kept by the loop started with `skip = False` |
| `SectionRemoval.RemoveSection` | scripts/update_changelog.py:73-82 | the loop's `new_lines` equals `SectionRemoved(lines, marker)` |
| `SectionRemoval.KeptIsSubsequence` | scripts/update_changelog.py:81-82 | the kept lines are a subsequence of the input lines |
| `SectionRemoval.KeptHasNoMarker` | scripts/update_changelog.py:76-77 | no kept line contains the marker |
| `SectionRemoval.SectionRemovedFacts` | scripts/update_changelog.py:73-82 | the result is a subsequence of the input and contains no line with the marker |
| `SectionRemoval.KeptCleanPrefix` | scripts/update_changelog.py:74-82 | every line before the first marker line is kept |
| `SectionRemoval.SectionRemovedUnchanged` | scripts/update_changelog.py:73-82 | when no line contains the marker, the lines come out unchanged |
| `SectionRemoval.KeptSkipRun` | scripts/update_changelog.py:78-79 | while skipping, lines that are not section titles without the marker are dropped |
| `SectionRemoval.SectionCut` | scripts/update_changelog.py:75-82 | from the first marker line to the next section title without the marker, everything is dropped; that title is kept, and the rest is scanned again from it |
| `ChangelogEntry.Title` | scripts/update_changelog.py:90 | the title `Version {version} ({date})` |
| `ChangelogEntry.Bullet` | scripts/update_changelog.py:99 | the bullet `* **{name}**: ``{version}``` |
| `ChangelogEntry.EntryHead` | scripts/update_changelog.py:88-96 | the seven literal head lines of `entry_lines`, with the `=` rule as long as the title |
| `ChangelogEntry.Bullets` | scripts/update_changelog.py:98-99 | one bullet per key, in the order of the keys, each `* **name**: ``version``` |
| `ChangelogEntry.Entry` | scripts/update_changelog.py:88-99 | `entry_lines`: the seven head lines, then a bullet for each key of `sorted(keys)` |
| `ChangelogEntry.EntryNewlineFree` | scripts/update_changelog.py:88-99 | when the version, the date and every name and value are newline-free, so is every entry line |
| `ChangelogEntry.EntryHeadLayout` | scripts/update_changelog.py:88-96 | the seven head lines: a blank line, the title, an `=` rule exactly as long as the title, a blank line, the subtitle, a 24-dash rule and a blank line |
| `ChangelogEntry.EntryLayout` | scripts/update_changelog.py:88-99 | the entry is the head and then exactly one bullet per package, in strictly increasing name order; its length is 7 plus the number of packages |
| `ChangelogEntry.BuildEntry` | scripts/update_changelog.py:88-99 | the loop appending a bullet for each key of `sorted(keys)` yields `Entry` |
| `Ordering.Less` | scripts/update_changelog.py:98 | Python's `<` on `str`: the first differing code point decides, and a proper prefix sorts first |
| `Ordering.SortedSeq` | scripts/update_changelog.py:98 | the list `sorted(keys)`: the least key, then the sorted rest |
| `Ordering.LessIrreflexive` | scripts/update_changelog.py:98 | no string sorts before itself |
| `Ordering.LessTransitive` | scripts/update_changelog.py:98 | string order is transitive |
| `Ordering.LessTotal` | scripts/update_changelog.py:98 | of two different strings, one sorts before the other |
| `Ordering.LeastExists` | scripts/update_changelog.py:98 | a non-empty set of names has a least element |
| `Ordering.SortedSeqSpec` | scripts/update_changelog.py:98 | `sorted(keys)` holds each key once, nothing else, in strictly increasing order |
| `Ordering.SortedSeqStartsWithLeast` | scripts/update_changelog.py:98 | `sorted(keys)` begins with the least key, followed by the sorted rest |
| `Text.StartsWith` | scripts/update_changelog.py:17 | `s.startswith(p)`: `p` is the first `len(p)` characters of `s` |
| `Text.Contains` | scripts/update_changelog.py:70 | `m in s`: `m` occurs in `s` at some position, as at lines 70 and 76 |
| `Text.Repeat` | scripts/update_changelog.py:91 | `c * n`: `n` copies of `c` |
| `Text.Join` | scripts/update_changelog.py:83 | `'\n'.join(lines)`: the lines with one newline between each two |
| `Text.Split` | scripts/update_changelog.py:85 | `split('\n')` gives at least one piece and no piece holds a newline |
| `Text.SplitJoin` | scripts/update_changelog.py:83-85 | splitting the join of newline-free lines gives them back, and gives `[""]` for no lines |
| `Text.JoinSplit` | scripts/update_changelog.py:72-83 | joining the split of a text gives the text back |
| `Text.JoinContainsLine` | scripts/update_changelog.py:70-76 | a marker inside one line occurs in the joined text |
| `Text.JoinContainsInLine` | scripts/update_changelog.py:70-76 | a non-empty marker without a newline that occurs in the joined text occurs inside one line |
| `Changelog.DefaultHeader` | scripts/update_changelog.py:66 | the lines of the default content: `=========`, `Changelog`, `=========` and two empty lines |
| `Changelog.Marker` | scripts/update_changelog.py:70 | `f"Version {version}"`, the text tested at lines 70 and 76 |
| `Changelog.DefaultHeaderIsDefaultContent` | scripts/update_changelog.py:66 | the default lines join to the default content written in the source |
| `Changelog.DefaultContentSplits` | scripts/update_changelog.py:66 | splitting the default content at newlines gives the default lines back |
| `Changelog.MarkerNotInDefaultHeader` | scripts/update_changelog.py:66-70 | the default content never carries a version marker |
| `Changelog.SplitIsContent` | scripts/update_changelog.py:85 | the split of any text has the shape the update demands of existing content |
| `Changelog.Prepared` | scripts/update_changelog.py:63-85 | the existing lines or the default ones; when their text contains the marker, what the removal loop kept, joined and split again |
| `Changelog.Splice` | scripts/update_changelog.py:101 | the result is the first `min(3, n)` lines, then the entry, then the remaining lines unchanged |
| `Changelog.Updated` | scripts/update_changelog.py:58-60 | for existing content that is the split of some text, nothing is written exactly when the package dict is empty |
| `Changelog.UpdateChangelog` | scripts/update_changelog.py:53-104 | the whole update returns `Updated` of the manifest's version, the lock file's dict, the existing content and the date |
| `Changelog.FreshChangelog` | scripts/update_changelog.py:63-101 | without a changelog file, the lines written are `=========`, `Changelog`, `=========`, the entry and two blank lines |
| `Changelog.PreparedExisting` | scripts/update_changelog.py:70-85 | for an existing changelog, the lines the entry goes into are what the removal loop kept, or `[""]` when it kept nothing of a non-empty document |
| `Changelog.WrittenLayout` | scripts/update_changelog.py:70-101 | when the removal keeps something, the written lines are its splice with the entry, and there are 7 plus the number of packages more of them |
| `Changelog.NoPriorSection` | scripts/update_changelog.py:70-101 | a changelog with no line holding the marker gets the entry after its first three lines and is otherwise unchanged |
| `Changelog.KeepsHeader` | scripts/update_changelog.py:85-101 | when none of the first three lines holds the marker, they stay first, the entry follows them, and then come the lines the removal kept from the rest |
| `Changelog.HeadHasOneTitle` | scripts/update_changelog.py:88-96 | of the seven head lines only the title starts like a section title |
| `Changelog.BulletNotSectionStart` | scripts/update_changelog.py:99 | a bullet line never starts like a section title |
| `Changelog.EntryHasOneTitle` | scripts/update_changelog.py:88-99 | of the entry's lines only the title starts like a section title |
| `Changelog.EntryTitleCarriesMarker` | scripts/update_changelog.py:90 | the entry's title starts a section and contains `Version {version}` |
| `Changelog.OneSectionAfterUpdate` | scripts/update_changelog.py:53-104 | for any existing changelog and a non-empty dict, the written lines are the splice of the prepared lines with the entry, no line outside the entry contains `Version {version}`, and the only section title containing it is the entry's own, right after the splice point's blank line |
| `Changelog.FirstSectionCut` | scripts/update_changelog.py:70-83 | in the lines a first run writes, the marker is present and the removal keeps only the three header lines and one blank line |
| `Changelog.RerunReplacesSection` | scripts/update_changelog.py:53-104 | a second run for the same version, reading the split of the text a first run without a changelog file wrote, leaves just the second run's section, after the header and before one blank line; the first run's version, date, names and values hold no newline |
| `Changelog.LongerVersionSectionCut` | scripts/update_changelog.py:70-82 | the removal for version 1.2 on a changelog with sections for 1.2.3 and 1.1 drops the 1.2.3 section and keeps the 1.1 title |
| `Changelog.LongerVersionSectionRemoved` | scripts/update_changelog.py:53-104 | updating version 1.2 on that changelog gives the header, the new entry and the 1.1 title: the 1.2.3 section is gone |

## Left out

- File reading and writing, and the `open`/`read` with its `FileNotFoundError` catch (scripts/update_changelog.py:15, 33, 63-65, 103-104), are I/O: file contents come in as lines, a missing changelog is `None`, and the written text is the join of the returned lines. The fallback content of line 66 is modelled (`Changelog.DefaultHeader`, used by `Changelog.Prepared` for `None`; see `Changelog.FreshChangelog`).
- `datetime.now()` (scripts/update_changelog.py:44, 90-91) is a clock read: the formatted date is the parameter `date`, and the two calls at lines 90 and 91 are taken to return the same date, so the underline always matches the title.
- Console output (scripts/update_changelog.py:59, 71, 106-107) has no effect on the result and is not modelled.
- The `re` module is replaced by an explicit leftmost scan for `key"…"` with a non-empty, quote-free capture; the regular expression engine itself is not modelled.
- `generate_changelog_entry` (scripts/update_changelog.py:42-50) is not modelled: its result is discarded at line 68, so it has no effect on what is written.
- The `__main__` hook (scripts/update_changelog.py:110-111) only calls `update_changelog` with its default file names.
- Whole-text `split('\n')` and `'\n'.join` are modelled on lines as `Split` and `Join`. The marker test at line 70 is made on the joined text, as in the source, so a marker that spans a line break counts there but is never found by the per-line test at line 76.
- The lock file's and manifest's lines are taken as the file iterator yields them, with any line terminator included. The model accepts any strings as lines, so this is a generalisation. The block lemmas let every declaration line carry a tail after its closing quote, such as the terminator.
- Existing changelog content is required to be the split of a text: never empty and free of newlines inside lines. A list such as `[]` is not the split of any text, so the model does not say what the update would do with it.
- The update aborts only when no `anemoi-` package is found. Nothing checks whether the package dict has an entry for the current version. The test at line 70 is a substring test on the whole text: every line that holds `Version {version}` starts a cut, which runs up to the next title beginning `## Version` or `Version ` that does not hold the marker. Sections of longer versions that start the same way (1.2.3 or 1.20 for 1.2) are cut too. The new entry is always placed after line 3, wherever the old section was.
- The whole changelog is scanned for the marker, not only the part after the three header lines.
- `Capture.Search`: its own contract states only that a found value is a valid capture occurring in the line. That it is the leftmost match is stated by `Capture.SearchFromLeftmost`.
