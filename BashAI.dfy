/**
 * The checks and parsers of BashAI/bai.py (print_response is the same in
 * BashAI/bashai.py): reading NAME= and VERSION_ID= out of the text of
 * /etc/os-release, the system information record, and the rule that a reply
 * needs a non-empty Explanation and Command.
 */
module BashAI {
  import opened Wrappers
  import opened Strings
  import TextWrap

  const MaxLineWidth: nat := 80

  /** A key of /etc/os-release that the parser looks for (it holds no '='). */
  predicate IsKey(key: string) {
    '=' !in key
  }

  /**
   * line.split('=')[1].strip('"') for a line that starts with key + "=": the text
   * between the first and the second '=', with surrounding quotes removed.
   */
  function KeyValue(line: string, key: string): (value: string)
    requires IsKey(key) && StartsWith(line, key + "=")
    ensures value == Strip(Split(line[|key| + 1..], '=')[0], {'"'})
    ensures value != [] ==> value[0] != '"' && value[|value| - 1] != '"'
  {
    SplitAfterKey(line, key);
    Strip(Split(line, '=')[1], {'"'})
  }

  /** Piece 1 of line.split('=') is piece 0 of what follows key + "=". */
  lemma SplitAfterKey(line: string, key: string)
    requires IsKey(key) && StartsWith(line, key + "=")
    ensures |Split(line, '=')| >= 2
    ensures Split(line, '=')[1] == Split(line[|key| + 1..], '=')[0]
  {
    assert line[..|key| + 1] == key + "=";
    assert line == key + ['='] + line[|key| + 1..];
    SplitAtFirst(key, '=', line[|key| + 1..]);
  }

  /** Index of the last line that starts with key + "=", or None. */
  function LastKeyLine(lines: seq<string>, key: string): (r: Option<nat>)
    ensures r.Some? ==> r.value < |lines| && StartsWith(lines[r.value], key + "=")
    ensures r.Some? ==> forall j :: r.value < j < |lines| ==> !StartsWith(lines[j], key + "=")
    ensures r.None? <==> forall j :: 0 <= j < |lines| ==> !StartsWith(lines[j], key + "=")
    decreases |lines|
  {
    if lines == [] then None
    else if StartsWith(lines[|lines| - 1], key + "=") then Some(|lines| - 1)
    else LastKeyLine(lines[..|lines| - 1], key)
  }

  /** The value the loop leaves in distro_name (key NAME) or distro_version (key VERSION_ID). */
  function LastKeyValue(lines: seq<string>, key: string): (value: Option<string>)
    requires IsKey(key)
    ensures value.None? <==> forall j :: 0 <= j < |lines| ==> !StartsWith(lines[j], key + "=")
    ensures value.Some? ==> (LastKeyLine(lines, key).Some? &&
      value.value == KeyValue(lines[LastKeyLine(lines, key).value], key))
  {
    match LastKeyLine(lines, key)
    case None => None
    case Some(i) => Some(KeyValue(lines[i], key))
  }

  /** One more line either replaces the value (it starts with key + "=") or leaves it as it was. */
  lemma LastKeyValueStep(lines: seq<string>, i: nat, key: string)
    requires IsKey(key) && i < |lines|
    ensures LastKeyValue(lines[..i + 1], key) ==
      if StartsWith(lines[i], key + "=") then Some(KeyValue(lines[i], key)) else LastKeyValue(lines[..i], key)
  {
    assert lines[..i + 1][..i] == lines[..i];
  }

  /** The loop over os_release.split('\n') in get_system_info. */
  method ParseOsRelease(osRelease: string) returns (distroName: Option<string>, distroVersion: Option<string>)
    ensures distroName == LastKeyValue(Split(osRelease, '\n'), "NAME")
    ensures distroVersion == LastKeyValue(Split(osRelease, '\n'), "VERSION_ID")
  {
    distroName := None;
    distroVersion := None;
    var lines := Split(osRelease, '\n');
    assert "NAME" + "=" == "NAME=" && "VERSION_ID" + "=" == "VERSION_ID=";
    for i := 0 to |lines|
      invariant distroName == LastKeyValue(lines[..i], "NAME")
      invariant distroVersion == LastKeyValue(lines[..i], "VERSION_ID")
    {
      var line := lines[i];
      LastKeyValueStep(lines, i, "NAME");
      LastKeyValueStep(lines, i, "VERSION_ID");
      if StartsWith(line, "NAME=") {
        distroName := Some(KeyValue(line, "NAME"));
      }
      if StartsWith(line, "VERSION_ID=") {
        distroVersion := Some(KeyValue(line, "VERSION_ID"));
      }
    }
    assert lines[..|lines|] == lines;
  }

  /** Surrounding quotes are removed: VERSION_ID="11" gives 11. */
  lemma QuotedValueExample()
    ensures KeyValue("VERSION_ID=\"11\"", "VERSION_ID") == "11"
  {
    var line, v := "VERSION_ID=\"11\"", "\"11\"";
    assert line[..11] == "VERSION_ID=";
    assert line[11..] == v;
    SplitNoSeparator(v, '=');
    assert v[1..] == "11\"";
    assert StripLeft("11\"", {'"'}) == "11\"";
    assert ("11\"")[..2] == "11";
    assert StripRight("11", {'"'}) == "11";
  }

  /** get_system_info's dictionary. */
  datatype SystemInfo = SystemInfo(kernelVersion: string, distroName: Option<string>, distroVersion: Option<string>)

  /**
   * get_system_info, given what `uname -r` and `cat /etc/os-release` printed, or
   * None for a command that failed (CalledProcessError), which makes the whole
   * result None.
   */
  method GetSystemInfo(unameOutput: Option<string>, osReleaseOutput: Option<string>) returns (info: Option<SystemInfo>)
    ensures info.None? <==> unameOutput.None? || osReleaseOutput.None?
    ensures info.Some? ==> info.value == SystemInfo(
      Strip(unameOutput.value, Whitespace),
      LastKeyValue(Split(osReleaseOutput.value, '\n'), "NAME"),
      LastKeyValue(Split(osReleaseOutput.value, '\n'), "VERSION_ID"))
  {
    if unameOutput.None? {
      return None;
    }
    var kernelVersion := Strip(unameOutput.value, Whitespace);
    if osReleaseOutput.None? {
      return None;
    }
    var distroName, distroVersion := ParseOsRelease(osReleaseOutput.value);
    info := Some(SystemInfo(kernelVersion, distroName, distroVersion));
  }

  /** result.get(key, ''): the value is non-empty exactly when the key is present with a non-empty value. */
  function Get(reply: map<string, string>, key: string): (value: string)
    ensures value != "" <==> key in reply && reply[key] != ""
    ensures value != "" ==> value == reply[key]
  {
    if key in reply then reply[key] else ""
  }

  const MissingFieldsError: string := "Response from OpenAI is missing explanation or command."

  /**
   * print_response: fails (sys.exit(1)) unless both Explanation and Command are
   * present and non-empty; otherwise returns Command unchanged.
   */
  function PrintResponse(reply: map<string, string>): (r: Result<string, string>)
    ensures r.Success? <==> Get(reply, "Explanation") != "" && Get(reply, "Command") != ""
    ensures r.Success? ==> "Command" in reply && r.value == reply["Command"]
    ensures r.Failure? ==> r.error == MissingFieldsError
  {
    var explanation := Get(reply, "Explanation");
    var command := Get(reply, "Command");
    if explanation == "" || command == "" then Failure(MissingFieldsError)
    else Success(command)
  }

  /** The notes are always shown: wrap_string(notes, 80) is never empty, and its lines fit 80 columns. */
  lemma NotesLinesNeverEmpty(reply: map<string, string>)
    ensures |TextWrap.Wrap(Get(reply, "Notes"), MaxLineWidth)| >= 1
    ensures forall i :: 0 <= i < |TextWrap.Wrap(Get(reply, "Notes"), MaxLineWidth)| ==>
      |TextWrap.Wrap(Get(reply, "Notes"), MaxLineWidth)[i]| <= MaxLineWidth
  {
  }
}
