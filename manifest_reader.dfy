/** `read_current_version`: the first `version = "..."` line of the manifest. */
module ManifestReader {
  import opened Wrappers
  import opened Text
  import opened Capture

  /** What the reader returns when no line declares a version. */
  const Unknown := "unknown"

  /** The value of the first line that starts with `version = ` and whose
      pattern matches, or `"unknown"` when there is none. */
  function CurrentVersion(lines: seq<string>): (v: string)
    ensures (exists i :: 0 <= i < |lines| && KeyValue(lines[i], VersionKey).Some?) ==>
              exists i :: 0 <= i < |lines| && KeyValue(lines[i], VersionKey) == Some(v) &&
                          forall j :: 0 <= j < i ==> KeyValue(lines[j], VersionKey).None?
    ensures (forall i :: 0 <= i < |lines| ==> KeyValue(lines[i], VersionKey).None?) ==> v == Unknown
  {
    if lines == [] then Unknown
    else
      match KeyValue(lines[0], VersionKey)
      case Some(version) => version
      case None =>
        var v := CurrentVersion(lines[1..]);
        assert forall i :: 0 < i < |lines| ==> lines[i] == lines[1..][i - 1];
        v
  }

  /** `read_current_version` with the file handle replaced by its lines. */
  method ReadCurrentVersion(lines: seq<string>) returns (v: string)
    ensures v == CurrentVersion(lines)
  {
    var i := 0;
    while i < |lines|
      invariant 0 <= i <= |lines|
      invariant CurrentVersion(lines[i..]) == CurrentVersion(lines)
    {
      if StartsWith(lines[i], VersionKey) {
        var m := Search(lines[i], VersionKey);
        if m.Some? {
          return m.value;
        }
      }
      assert lines[i..][1..] == lines[i + 1..];
      i := i + 1;
    }
    return Unknown;
  }
}
