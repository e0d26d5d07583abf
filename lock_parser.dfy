/** `parse_poetry_lock`: a scan over the lock file's lines that remembers the
    last package name it saw and records `name -> version` for the `anemoi-`
    packages. */
module LockParser {
  import opened Wrappers
  import opened Text
  import opened Capture

  const Prefix := "anemoi-"

  /** What the scan carries from line to line: `current_package` and the dict `anemoi_packages`. */
  datatype ScanState = ScanState(pending: Option<string>, packages: map<string, string>)

  const Start := ScanState(None, map[])

  /** `current_package and current_package.startswith('anemoi-')`; a pending
      name is a capture, so it is never the empty string. */
  predicate PendingAnemoi(st: ScanState) {
    st.pending.Some? && StartsWith(st.pending.value, Prefix)
  }

  predicate IsNameLine(line: string) {
    StartsWith(line, NameKey)
  }

  /** The name a lock line declares, if it is a name line whose pattern matches. */
  function NameOf(line: string): Option<string> {
    KeyValue(line, NameKey)
  }

  /** The version a lock line declares, if it starts with `version = ` and its pattern matches. */
  function VersionOf(line: string): Option<string> {
    KeyValue(line, VersionKey)
  }

  /** One iteration of the loop over the lock file. */
  function Step(st: ScanState, line: string): (r: ScanState)
    ensures IsNameLine(line) ==>
              r == ScanState(if NameOf(line).Some? then NameOf(line) else st.pending, st.packages)
    ensures !IsNameLine(line) && PendingAnemoi(st) && VersionOf(line).Some? ==>
              r == ScanState(None, st.packages[st.pending.value := VersionOf(line).value])
    ensures !IsNameLine(line) && !(PendingAnemoi(st) && VersionOf(line).Some?) ==> r == st
  {
    if IsNameLine(line) then
      match Search(line, NameKey)
      case Some(name) => st.(pending := Some(name))
      case None => st
    else if StartsWith(line, VersionKey) && PendingAnemoi(st) then
      match Search(line, VersionKey)
      case Some(version) => ScanState(None, st.packages[st.pending.value := version])
      case None => st
    else st
  }

  /** The state after scanning `lines` from `st`. */
  function ParseFrom(st: ScanState, lines: seq<string>): ScanState
    decreases |lines|
  {
    if lines == [] then st
    else Step(ParseFrom(st, lines[..|lines| - 1]), lines[|lines| - 1])
  }

  /** What `parse_poetry_lock` returns for a lock file with these lines. */
  function ParseLock(lines: seq<string>): map<string, string> {
    ParseFrom(Start, lines).packages
  }

  /** `parse_poetry_lock` with the file handle replaced by its lines. */
  method ParsePoetryLock(lines: seq<string>) returns (packages: map<string, string>)
    ensures packages == ParseLock(lines)
    ensures forall k :: k in packages ==> StartsWith(k, Prefix)
  {
    packages := map[];
    var current: Option<string> := None;
    var i := 0;
    while i < |lines|
      invariant 0 <= i <= |lines|
      invariant ScanState(current, packages) == ParseFrom(Start, lines[..i])
    {
      var line := lines[i];
      if StartsWith(line, NameKey) {
        var m := Search(line, NameKey);
        if m.Some? {
          current := m;
        }
      } else if StartsWith(line, VersionKey) && current.Some? && StartsWith(current.value, Prefix) {
        var m := Search(line, VersionKey);
        if m.Some? {
          packages := packages[current.value := m.value];
          current := None;
        }
      }
      assert lines[..i + 1][..i] == lines[..i];
      i := i + 1;
    }
    assert lines[..|lines|] == lines;
    ParsedKeysArePrefixed(lines);
  }

  lemma {:induction false} ParseFromKeys(st: ScanState, lines: seq<string>)
    requires forall k :: k in st.packages ==> StartsWith(k, Prefix)
    ensures forall k :: k in ParseFrom(st, lines).packages ==> StartsWith(k, Prefix)
    decreases |lines|
  {
    if lines != [] {
      ParseFromKeys(st, lines[..|lines| - 1]);
    }
  }

  /** Only `anemoi-` names become keys, whatever version lines follow the others. */
  lemma ParsedKeysArePrefixed(lines: seq<string>)
    ensures forall k :: k in ParseLock(lines) ==> StartsWith(k, Prefix)
  {
    ParseFromKeys(Start, lines);
  }

  /** Without a pending `anemoi-` name, lines that declare no name change nothing:
      a version line with no name before it, or a second version line after a
      commit, is ignored. */
  lemma {:induction false} IgnoredWithoutPendingName(st: ScanState, lines: seq<string>)
    requires !PendingAnemoi(st)
    requires forall i :: 0 <= i < |lines| ==> NameOf(lines[i]).None?
    ensures ParseFrom(st, lines) == st
    decreases |lines|
  {
    if lines != [] {
      IgnoredWithoutPendingName(st, lines[..|lines| - 1]);
    }
  }

  lemma {:induction false} ParseFromAppend(st: ScanState, a: seq<string>, b: seq<string>)
    ensures ParseFrom(st, a + b) == ParseFrom(ParseFrom(st, a), b)
    decreases |b|
  {
    if b == [] {
      assert a + b == a;
    } else {
      var b' := b[..|b| - 1];
      assert (a + b)[..|a + b| - 1] == a + b';
      ParseFromAppend(st, a, b');
    }
  }

  /** Entries already in the dict are overwritten, but never read, by the rest of the scan. */
  lemma {:induction false} ParseFromFrame(p: Option<string>, m: map<string, string>, lines: seq<string>)
    ensures ParseFrom(ScanState(p, m), lines) ==
      var q := ParseFrom(ScanState(p, map[]), lines);
      ScanState(q.pending, m + q.packages)
    decreases |lines|
  {
    if lines != [] {
      ParseFromFrame(p, m, lines[..|lines| - 1]);
      var q := ParseFrom(ScanState(p, map[]), lines[..|lines| - 1]);
      StepFrame(q, m, lines[|lines| - 1]);
    }
  }

  lemma StepFrame(st: ScanState, m: map<string, string>, line: string)
    ensures Step(ScanState(st.pending, m + st.packages), line) ==
      ScanState(Step(st, line).pending, m + Step(st, line).packages)
  {
  }

  /** A block that begins with a name line forgets the pending name: its entries
      are added to those before it and win over them. */
  lemma LaterBlockWins(a: seq<string>, b: seq<string>)
    requires |b| > 0 && NameOf(b[0]).Some?
    ensures ParseLock(a + b) == ParseLock(a) + ParseLock(b)
  {
    var st := ParseFrom(Start, a);
    ParseFromAppend(Start, a, b);
    assert b == [b[0]] + b[1..];
    ParseFromAppend(st, [b[0]], b[1..]);
    ParseFromAppend(Start, [b[0]], b[1..]);
    assert [b[0]][..0] == [];
    var p := NameOf(b[0]);
    assert ParseFrom(st, [b[0]]) == ScanState(p, st.packages);
    assert ParseFrom(Start, [b[0]]) == ScanState(p, map[]);
    ParseFromFrame(p, st.packages, b[1..]);
  }

  /** No line strictly between `i` and `j` is a matching name line. */
  ghost predicate NoNameBetween(lines: seq<string>, i: int, j: int) {
    forall t :: i < t < j && 0 <= t < |lines| ==> NameOf(lines[t]).None?
  }

  /** Line `i` names `k`, line `j` declares version `v`, and no name line comes between. */
  ghost predicate DeclaredAt(lines: seq<string>, k: string, v: string, i: int, j: int) {
    0 <= i < j < |lines| && NameOf(lines[i]) == Some(k) && VersionOf(lines[j]) == Some(v) &&
    NoNameBetween(lines, i, j)
  }

  ghost predicate Declared(lines: seq<string>, k: string, v: string) {
    exists i, j :: DeclaredAt(lines, k, v, i, j)
  }

  /** The last matching name line of `lines` names `k`. */
  ghost predicate LastNamed(lines: seq<string>, k: string) {
    exists i :: 0 <= i < |lines| && NameOf(lines[i]) == Some(k) && NoNameBetween(lines, i, |lines|)
  }

  /** What the scan state says about the lines it has read. */
  ghost predicate Provenance(lines: seq<string>, st: ScanState) {
    (st.pending.Some? ==> LastNamed(lines, st.pending.value)) &&
    (forall k :: k in st.packages ==> Declared(lines, k, st.packages[k]))
  }

  lemma DeclaredExtend(init: seq<string>, x: string, k: string, v: string)
    requires Declared(init, k, v)
    ensures Declared(init + [x], k, v)
  {
    var i, j :| DeclaredAt(init, k, v, i, j);
    var lines := init + [x];
    assert lines[i] == init[i] && lines[j] == init[j];
    assert NoNameBetween(lines, i, j);
    assert DeclaredAt(lines, k, v, i, j);
  }

  lemma LastNamedExtend(init: seq<string>, x: string, k: string)
    requires LastNamed(init, k) && NameOf(x).None?
    ensures LastNamed(init + [x], k)
  {
    var i :| 0 <= i < |init| && NameOf(init[i]) == Some(k) && NoNameBetween(init, i, |init|);
    var lines := init + [x];
    assert lines[i] == init[i];
    forall t | i < t < |lines|
      ensures NameOf(lines[t]).None?
    {
      if t < |init| {
        assert lines[t] == init[t];
      }
    }
  }

  lemma CommitDeclares(init: seq<string>, x: string, k: string, v: string)
    requires LastNamed(init, k) && VersionOf(x) == Some(v)
    ensures Declared(init + [x], k, v)
  {
    var i :| 0 <= i < |init| && NameOf(init[i]) == Some(k) && NoNameBetween(init, i, |init|);
    var lines := init + [x];
    assert lines[i] == init[i] && lines[|init|] == x;
    assert NoNameBetween(lines, i, |init|);
    assert DeclaredAt(lines, k, v, i, |init|);
  }

  lemma StepProvenance(init: seq<string>, st: ScanState, x: string)
    requires Provenance(init, st)
    ensures Provenance(init + [x], Step(st, x))
  {
    var lines := init + [x];
    var r := Step(st, x);
    forall k | k in st.packages
      ensures Declared(lines, k, st.packages[k])
    {
      DeclaredExtend(init, x, k, st.packages[k]);
    }
    if NameOf(x).Some? {
      assert lines[|init|] == x;
      assert NoNameBetween(lines, |init|, |lines|);
    } else if r.pending != st.pending {
      CommitDeclares(init, x, st.pending.value, VersionOf(x).value);
    } else if r.pending.Some? {
      LastNamedExtend(init, x, r.pending.value);
    }
  }

  lemma {:induction false} ProvenanceHolds(lines: seq<string>)
    ensures Provenance(lines, ParseFrom(Start, lines))
    decreases |lines|
  {
    if lines != [] {
      var init := lines[..|lines| - 1];
      ProvenanceHolds(init);
      StepProvenance(init, ParseFrom(Start, init), lines[|lines| - 1]);
      assert init + [lines[|lines| - 1]] == lines;
    }
  }

  /** Each recorded version is the capture of a `version = ` line that comes
      after a line naming the package, with no other matching name line in between. */
  lemma RecordedValuesAreDeclared(lines: seq<string>)
    ensures forall k :: k in ParseLock(lines) ==>
      exists i, j :: 0 <= i < j < |lines| && NameOf(lines[i]) == Some(k) &&
                     VersionOf(lines[j]) == Some(ParseLock(lines)[k]) &&
                     forall t :: i < t < j ==> NameOf(lines[t]).None?
  {
    ProvenanceHolds(lines);
    forall k | k in ParseLock(lines)
      ensures exists i, j :: 0 <= i < j < |lines| && NameOf(lines[i]) == Some(k) &&
                             VersionOf(lines[j]) == Some(ParseLock(lines)[k]) &&
                             forall t :: i < t < j ==> NameOf(lines[t]).None?
    {
      var i, j :| DeclaredAt(lines, k, ParseLock(lines)[k], i, j);
    }
  }

  /** One package block of a lock file: its name line and the version line
      right after it, each with whatever follows the closing quote (the line
      terminator, say), then the block's other lines (`description = …`, the
      dependency tables, the next `[[package]]` header), none of which declares
      a name. */
  datatype Block = Block(name: string, nameTail: string, version: string, versionTail: string,
                         rest: seq<string>)

  function BlockLines(b: Block): seq<string> {
    [Quoted(NameKey, b.name) + b.nameTail, Quoted(VersionKey, b.version) + b.versionTail] + b.rest
  }

  predicate NoNames(lines: seq<string>) {
    forall i :: 0 <= i < |lines| ==> NameOf(lines[i]).None?
  }

  predicate WellFormedBlock(b: Block) {
    IsCapture(b.name) && IsCapture(b.version) && NoNames(b.rest)
  }

  predicate WellFormedBlocks(blocks: seq<Block>) {
    forall i :: 0 <= i < |blocks| ==> WellFormedBlock(blocks[i])
  }

  /** A lock file made of package blocks, after a preamble (comments, blank lines,
      the first `[[package]]` header). */
  function LockLines(preamble: seq<string>, blocks: seq<Block>): seq<string>
    decreases |blocks|
  {
    if blocks == [] then preamble
    else LockLines(preamble, blocks[..|blocks| - 1]) + BlockLines(blocks[|blocks| - 1])
  }

  /** The dict the blocks describe: the `anemoi-` blocks only, and of two blocks
      with one name the later. */
  function Expected(blocks: seq<Block>): (r: map<string, string>)
    ensures forall k :: k in r ==> StartsWith(k, Prefix)
    ensures forall k :: k in r ==> exists i :: 0 <= i < |blocks| && blocks[i].name == k
    decreases |blocks|
  {
    if blocks == [] then map[]
    else
      var init := blocks[..|blocks| - 1];
      var last := blocks[|blocks| - 1];
      var before := Expected(init);
      assert forall k :: k in before ==> exists i :: 0 <= i < |init| && init[i].name == k && blocks[i].name == k;
      if StartsWith(last.name, Prefix) then before[last.name := last.version] else before
  }

  /** How many blocks carry an `anemoi-` name. */
  function CountAnemoi(blocks: seq<Block>): nat
    decreases |blocks|
  {
    if blocks == [] then 0
    else CountAnemoi(blocks[..|blocks| - 1]) + if StartsWith(blocks[|blocks| - 1].name, Prefix) then 1 else 0
  }

  /** The name and version lines of a block: an `anemoi-` name is committed and
      cleared; any other name is left pending with the dict empty. */
  lemma ParseDeclarations(b: Block)
    requires WellFormedBlock(b)
    ensures ParseFrom(Start, BlockLines(b)[..2]) ==
              if StartsWith(b.name, Prefix) then ScanState(None, map[b.name := b.version])
              else ScanState(Some(b.name), map[])
  {
    var nameLine := Quoted(NameKey, b.name) + b.nameTail;
    var versionLine := Quoted(VersionKey, b.version) + b.versionTail;
    assert BlockLines(b)[..2] == [nameLine, versionLine];
    KeyValueOfDeclaration(NameKey, b.name, b.nameTail);
    KeyValueOfDeclaration(VersionKey, b.version, b.versionTail);
    assert versionLine[0] == 'v';
    assert !IsNameLine(versionLine);
    assert [nameLine, versionLine][..1] == [nameLine] && [nameLine][..0] == [];
    assert ParseFrom(Start, [nameLine]) == ScanState(Some(b.name), map[]);
  }

  /** A whole block: its other lines change nothing after the declarations. */
  lemma ParseOneBlock(b: Block)
    requires WellFormedBlock(b)
    ensures ParseFrom(Start, BlockLines(b)) ==
              if StartsWith(b.name, Prefix) then ScanState(None, map[b.name := b.version])
              else ScanState(Some(b.name), map[])
  {
    var lines := BlockLines(b);
    assert lines == lines[..2] + b.rest;
    ParseFromAppend(Start, lines[..2], b.rest);
    ParseDeclarations(b);
    IgnoredWithoutPendingName(ParseFrom(Start, lines[..2]), b.rest);
  }

  /** Appending a well-formed block records it when its name is an `anemoi-` name. */
  lemma AppendBlock(lines: seq<string>, b: Block)
    requires WellFormedBlock(b)
    ensures ParseLock(lines + BlockLines(b)) ==
              if StartsWith(b.name, Prefix) then ParseLock(lines)[b.name := b.version] else ParseLock(lines)
  {
    var bl := BlockLines(b);
    ParseOneBlock(b);
    KeyValueOfDeclaration(NameKey, b.name, b.nameTail);
    LaterBlockWins(lines, bl);
    var before := ParseLock(lines);
    if StartsWith(b.name, Prefix) {
      assert before + map[b.name := b.version] == before[b.name := b.version];
    } else {
      assert before + map[] == before;
    }
  }

  /** A lock file of well-formed blocks after a preamble that declares no name
      yields exactly the dict the blocks describe. */
  lemma {:induction false} ParseBlocks(preamble: seq<string>, blocks: seq<Block>)
    requires NoNames(preamble) && WellFormedBlocks(blocks)
    ensures ParseLock(LockLines(preamble, blocks)) == Expected(blocks)
    decreases |blocks|
  {
    if blocks == [] {
      IgnoredWithoutPendingName(Start, preamble);
    } else {
      var init := blocks[..|blocks| - 1];
      ParseBlocks(preamble, init);
      AppendBlock(LockLines(preamble, init), blocks[|blocks| - 1]);
    }
  }

  /** With distinct names, the dict has exactly one entry per `anemoi-` block. */
  lemma {:induction false} ExpectedSize(blocks: seq<Block>)
    requires forall i, j :: 0 <= i < j < |blocks| ==> blocks[i].name != blocks[j].name
    ensures |Expected(blocks)| == CountAnemoi(blocks)
    decreases |blocks|
  {
    if blocks != [] {
      var init := blocks[..|blocks| - 1];
      var last := blocks[|blocks| - 1];
      ExpectedSize(init);
      forall k | k in Expected(init)
        ensures k != last.name
      {
        var i :| 0 <= i < |init| && init[i].name == k;
        assert blocks[i].name == k;
      }
    }
  }

  /** Once a block is committed, a second version line before the next name line is ignored. */
  lemma SecondVersionLineIgnored(b: Block, again: string, tail: string)
    requires WellFormedBlock(b) && StartsWith(b.name, Prefix)
    ensures ParseLock(BlockLines(b) + [Quoted(VersionKey, again) + tail]) == map[b.name := b.version]
  {
    var extra := [Quoted(VersionKey, again) + tail];
    ParseOneBlock(b);
    ParseFromAppend(Start, BlockLines(b), extra);
    assert extra[0][0] == 'v';
    IgnoredWithoutPendingName(ScanState(None, map[b.name := b.version]), extra);
  }

  /** Version lines with no name declared before them are all ignored. */
  lemma OrphanVersionLinesIgnored(lines: seq<string>)
    requires NoNames(lines)
    ensures ParseLock(lines) == map[]
  {
    IgnoredWithoutPendingName(Start, lines);
  }

  /** Of an `anemoi-` block followed by another package's block, only the first is kept. */
  lemma OtherPackageDropped(preamble: seq<string>, core: Block, other: Block)
    requires NoNames(preamble) && WellFormedBlock(core) && WellFormedBlock(other)
    requires StartsWith(core.name, Prefix) && !StartsWith(other.name, Prefix)
    ensures ParseLock(LockLines(preamble, [core, other])) == map[core.name := core.version]
  {
    var blocks := [core, other];
    ParseBlocks(preamble, blocks);
    assert blocks[..1] == [core] && blocks[..1][..0] == [];
  }

  /** A line that does not begin with `n` declares no name. */
  lemma NoNameByHead(line: string)
    requires |line| > 0 && line[0] != 'n'
    ensures NameOf(line).None?
  {
    if StartsWith(line, NameKey) {
      StartsWithHead(line, NameKey);
    }
  }

  /** Two blocks laid out as in a lock file: `anemoi-core 1.2.0`, then `other-pkg 9.9.9`. */
  const ExamplePreamble: seq<string> := ["[[package]]\n"]
  const ExampleCore := Block("anemoi-core", "\n", "1.2.0", "\n", ["description = \"\"\n", "\n", "[[package]]\n"])
  const ExampleOther := Block("other-pkg", "\n", "9.9.9", "\n", ["description = \"\"\n"])

  /** Of the example's blocks only the `anemoi-` one is kept. */
  lemma OtherPackagesAreDropped()
    ensures ParseLock(LockLines(ExamplePreamble, [ExampleCore, ExampleOther])) == map["anemoi-core" := "1.2.0"]
  {
    NoNameByHead("description = \"\"\n");
    NoNameByHead("\n");
    NoNameByHead("[[package]]\n");
    assert StartsWith("anemoi-core", Prefix);
    assert "other-pkg"[0] == 'o';
    OtherPackageDropped(ExamplePreamble, ExampleCore, ExampleOther);
  }
}
