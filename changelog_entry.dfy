/** The reStructuredText entry that `update_changelog` writes for one version. */
module ChangelogEntry {
  import opened Text
  import opened Ordering

  const Subtitle := "Anemoi Package Versions"
  const SubtitleRule := "------------------------"

  /** `Version {version} ({date})`. */
  function Title(version: string, date: string): string {
    "Version " + version + " (" + date + ")"
  }

  /** `* **{name}**: ``{version}```. */
  function Bullet(name: string, version: string): string {
    "* **" + name + "**: ``" + version + "``"
  }

  /** The seven lines before the bullets. */
  function EntryHead(version: string, date: string): seq<string> {
    var title := Title(version, date);
    ["", title, Repeat('=', |title|), "", Subtitle, SubtitleRule, ""]
  }

  /** One bullet per key, in the order of `keys`. */
  function Bullets(keys: seq<string>, packages: map<string, string>): (r: seq<string>)
    requires forall k :: k in keys ==> k in packages
    ensures |r| == |keys|
    ensures forall i :: 0 <= i < |keys| ==> r[i] == Bullet(keys[i], packages[keys[i]])
    decreases |keys|
  {
    if keys == [] then []
    else
      var last := keys[|keys| - 1];
      Bullets(keys[..|keys| - 1], packages) + [Bullet(last, packages[last])]
  }

  /** The entry: its head, then the bullets in `sorted(anemoi_packages.keys())` order. */
  ghost function Entry(version: string, date: string, packages: map<string, string>): seq<string> {
    SortedSeqSpec(packages.Keys);
    EntryHead(version, date) + Bullets(SortedSeq(packages.Keys), packages)
  }

  /** The seven head lines: a blank line, the title, an `=` rule exactly as long
      as the title, a blank line, the subtitle, a 24-dash rule, a blank line. */
  lemma EntryHeadLayout(version: string, date: string)
    ensures var h := EntryHead(version, date);
      && |h| == 7
      && h[0] == "" && h[1] == Title(version, date) && h[3] == "" && h[6] == ""
      && |h[2]| == |h[1]| && (forall c :: 0 <= c < |h[2]| ==> h[2][c] == '=')
      && h[4] == Subtitle
      && |h[5]| == 24 && (forall c :: 0 <= c < 24 ==> h[5][c] == '-')
  {
  }

  /** The entry is the head and then one bullet per package, in strictly
      increasing name order. */
  lemma EntryLayout(version: string, date: string, packages: map<string, string>)
    ensures var e := Entry(version, date, packages);
      var keys := SortedSeq(packages.Keys);
      && |e| == 7 + |packages|
      && e[..7] == EntryHead(version, date)
      && StrictlyIncreasing(keys) && |keys| == |packages|
      && (forall k :: k in keys <==> k in packages)
      && forall i :: 0 <= i < |keys| ==> e[7 + i] == Bullet(keys[i], packages[keys[i]])
  {
    SortedSeqSpec(packages.Keys);
  }

  /** The list `entry_lines` as the source builds it: the head, then a bullet
      appended for each package in sorted order. */
  method BuildEntry(version: string, date: string, packages: map<string, string>) returns (entry: seq<string>)
    ensures entry == Entry(version, date, packages)
  {
    var title := Title(version, date);
    entry := ["", title, Repeat('=', |title|), "", Subtitle, SubtitleRule, ""];
    var rest := packages.Keys;
    ghost var done: seq<string> := [];
    assert entry == EntryHead(version, date) + Bullets(done, packages);
    while rest != {}
      invariant rest <= packages.Keys
      invariant forall k :: k in done ==> k in packages
      invariant done + SortedSeq(rest) == SortedSeq(packages.Keys)
      invariant entry == EntryHead(version, date) + Bullets(done, packages)
      decreases rest
    {
      LeastExists(rest);
      var name :| IsLeast(name, rest);
      TakeLeast(done, rest, name, packages.Keys);
      entry := entry + [Bullet(name, packages[name])];
      BulletsSnoc(done, name, packages);
      done := done + [name];
      rest := rest - {name};
    }
    assert done == SortedSeq(packages.Keys);
  }

  /** Moving the least remaining key to the end of the keys already listed keeps the sorted order. */
  lemma TakeLeast(done: seq<string>, rest: set<string>, name: string, keys: set<string>)
    requires IsLeast(name, rest)
    requires done + SortedSeq(rest) == SortedSeq(keys)
    ensures (done + [name]) + SortedSeq(rest - {name}) == SortedSeq(keys)
  {
    SortedSeqStartsWithLeast(name, rest);
  }

  lemma BulletsSnoc(keys: seq<string>, name: string, packages: map<string, string>)
    requires forall k :: k in keys ==> k in packages
    requires name in packages
    ensures Bullets(keys + [name], packages) == Bullets(keys, packages) + [Bullet(name, packages[name])]
  {
    assert (keys + [name])[..|keys|] == keys;
  }

  /** Names and versions as captured from lines of a file: no newline inside. */
  predicate FieldsNewlineFree(packages: map<string, string>) {
    forall k :: k in packages ==> NewlineFree(k) && NewlineFree(packages[k])
  }

  lemma TitleNewlineFree(version: string, date: string)
    requires NewlineFree(version) && NewlineFree(date)
    ensures NewlineFree(Title(version, date))
  {
    assert '\n' !in "Version " && '\n' !in " (" && '\n' !in ")";
  }

  lemma BulletNewlineFree(name: string, version: string)
    requires NewlineFree(name) && NewlineFree(version)
    ensures NewlineFree(Bullet(name, version))
  {
    assert '\n' !in "* **" && '\n' !in "**: ``" && '\n' !in "``";
  }

  lemma HeadNewlineFree(version: string, date: string)
    requires NewlineFree(version) && NewlineFree(date)
    ensures AllNewlineFree(EntryHead(version, date))
  {
    TitleNewlineFree(version, date);
    var title := Title(version, date);
    assert '\n' !in Repeat('=', |title|);
    assert '\n' !in Subtitle && '\n' !in SubtitleRule;
  }

  /** An entry built from newline-free parts has no line holding a newline, so
      the split of its joined text gives its lines back. */
  lemma EntryNewlineFree(version: string, date: string, packages: map<string, string>)
    requires NewlineFree(version) && NewlineFree(date) && FieldsNewlineFree(packages)
    ensures AllNewlineFree(Entry(version, date, packages))
  {
    SortedSeqSpec(packages.Keys);
    var keys := SortedSeq(packages.Keys);
    var head := EntryHead(version, date);
    var bullets := Bullets(keys, packages);
    HeadNewlineFree(version, date);
    forall i | 0 <= i < |bullets|
      ensures NewlineFree(bullets[i])
    {
      BulletNewlineFree(keys[i], packages[keys[i]]);
    }
    assert Entry(version, date, packages) == head + bullets;
  }
}
