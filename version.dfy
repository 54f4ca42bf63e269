/** Which version to download: the channel chosen by the command-line flags
    (downloadsource.py:23, 171-176), an explicit `--version`
    (downloadsource.py:180), or the version-lookup table's answer for the
    channel (`check_omahaproxy`, downloadsource.py:38-56). */
module Version {
  import opened Wrappers

  /** One row of the lookup service's CSV answer: its fields. */
  type Row = seq<string>

  const Platform: string := "linux"

  /** `version_string` before the flags are read. */
  const DefaultChannel: string := "stable"

  const StatusUrlPrefix: string := "https://omahaproxy.appspot.com/all?os=linux&channel="

  /** The status query for one channel: the fixed query prefix, then the channel. */
  function StatusUrl(channel: string): (r: string)
    ensures |r| == |StatusUrlPrefix| + |channel|
    ensures r[..|StatusUrlPrefix|] == StatusUrlPrefix && r[|StatusUrlPrefix|..] == channel
  {
    StatusUrlPrefix + channel
  }

  // ---------------------------------------------------------------------
  // The command line

  /** The parsed command line. `None` is an option not given. */
  datatype Flags = Flags(
    workDir: Option<string>,
    stable: bool,
    beta: bool,
    dev: bool,
    tests: bool,
    version: Option<string>)

  /** Python's truth value of an optional string: given and non-empty. */
  predicate Given(o: Option<string>) {
    o.Some? && o.value != ""
  }

  /** The working directory: the positional argument when given, else the current one. */
  function RootDir(flags: Flags, current: string): (r: string)
    ensures Given(flags.workDir) ==> r == flags.workDir.value && r != ""
    ensures !Given(flags.workDir) ==> r == current
  {
    if Given(flags.workDir) then flags.workDir.value else current
  }

  /** The `if/elif` chain of downloadsource.py:171-176: `--stable` wins over
      `--beta`, which wins over `--dev`; with none of them the channel keeps
      its value. The flags are not mutually exclusive. */
  function SelectChannel(flags: Flags, current: string): (r: string)
    ensures flags.stable || flags.beta || flags.dev ==> r in ["stable", "beta", "dev"]
    ensures r != current ==> r in ["stable", "beta", "dev"]
    ensures !(flags.stable || flags.beta || flags.dev) ==> r == current
  {
    if flags.stable then "stable"
    else if flags.beta then "beta"
    else if flags.dev then "dev"
    else current
  }

  /** With the script's initial channel, the result is one of the three
      channels, and `stable` exactly when `--stable` is given or no channel
      flag is. */
  lemma ChannelFromFlags(flags: Flags)
    ensures SelectChannel(flags, DefaultChannel) in ["stable", "beta", "dev"]
    ensures SelectChannel(flags, DefaultChannel) == "stable" <==>
      flags.stable || !(flags.beta || flags.dev)
    ensures SelectChannel(flags, DefaultChannel) == "beta" <==> !flags.stable && flags.beta
    ensures SelectChannel(flags, DefaultChannel) == "dev" <==>
      !flags.stable && !flags.beta && flags.dev
  {
  }

  // ---------------------------------------------------------------------
  // The lookup table's answer

  /** `[s for s in rows if x in s]`: the rows holding a field equal to `x`,
      in their order. `in` on a list of fields is equality with a field,
      not substring search. */
  function RowsWith(rows: seq<Row>, x: string): (r: seq<Row>)
    ensures |r| <= |rows|
    ensures forall k :: 0 <= k < |r| ==> x in r[k]
    ensures forall row :: row in r <==> row in rows && x in row
  {
    if rows == [] then []
    else (if x in rows[0] then [rows[0]] else []) + RowsWith(rows[1..], x)
  }

  /** A row that survives both filters for `channel`. */
  predicate Listed(row: Row, channel: string) {
    Platform in row && channel in row
  }

  /** The index of the first listed row, or `|rows|`. */
  function FirstListed(rows: seq<Row>, channel: string): (i: nat)
    ensures i <= |rows|
    ensures forall j :: 0 <= j < i ==> !Listed(rows[j], channel)
    ensures i < |rows| ==> Listed(rows[i], channel)
  {
    if rows == [] || Listed(rows[0], channel) then 0
    else
      var i := FirstListed(rows[1..], channel);
      assert forall j :: 0 < j < i + 1 ==> rows[j] == rows[1..][j - 1];
      i + 1
  }

  /** `linux_channel[0][2]` (downloadsource.py:47-49). An empty filter
      result, or a first row with fewer than three fields, raises
      `IndexError`: no version. */
  function LatestVersion(rows: seq<Row>, channel: string): (r: Option<string>)
    ensures r.Some? ==> exists row :: row in rows && Listed(row, channel) && |row| > 2 && row[2] == r.value
    ensures (exists row :: row in rows && Listed(row, channel)) ==> r.Some? || exists row :: row in rows && Listed(row, channel) && |row| < 3
  {
    var linuxChannel := RowsWith(RowsWith(rows, Platform), channel);
    if |linuxChannel| == 0 || |linuxChannel[0]| < 3 then None
    else Some(linuxChannel[0][2])
  }

  /** The two filters keep, first of all, the first listed row. */
  lemma {:induction false} FiltersKeepFirstListed(rows: seq<Row>, channel: string)
    ensures var f := RowsWith(RowsWith(rows, Platform), channel);
      (f == [] <==> FirstListed(rows, channel) == |rows|) &&
      (f != [] ==> f[0] == rows[FirstListed(rows, channel)])
  {
    if rows != [] {
      FiltersKeepFirstListed(rows[1..], channel);
      var r0 := RowsWith(RowsWith(rows, Platform), channel);
      var r1 := RowsWith(RowsWith(rows[1..], Platform), channel);
      if Platform in rows[0] {
        assert RowsWith(rows, Platform) == [rows[0]] + RowsWith(rows[1..], Platform);
        assert ([rows[0]] + RowsWith(rows[1..], Platform))[1..] == RowsWith(rows[1..], Platform);
        if channel in rows[0] {
          assert r0[0] == rows[0];
        } else {
          assert r0 == r1;
        }
      } else {
        assert RowsWith(rows, Platform) == RowsWith(rows[1..], Platform);
      }
    }
  }

  /** The resolved version is field 2 of the first row, in input order, that
      has a field equal to "linux" and a field equal to the channel. */
  lemma LatestVersionIsFirstListed(rows: seq<Row>, channel: string, v: string)
    ensures LatestVersion(rows, channel) == Some(v) <==>
      exists i :: 0 <= i < |rows| && Listed(rows[i], channel) && |rows[i]| > 2 && rows[i][2] == v &&
        forall j :: 0 <= j < i ==> !Listed(rows[j], channel)
  {
    FiltersKeepFirstListed(rows, channel);
    var k := FirstListed(rows, channel);
    if exists i :: 0 <= i < |rows| && Listed(rows[i], channel) && |rows[i]| > 2 && rows[i][2] == v &&
        forall j :: 0 <= j < i ==> !Listed(rows[j], channel) {
      var i :| 0 <= i < |rows| && Listed(rows[i], channel) && |rows[i]| > 2 && rows[i][2] == v &&
        forall j :: 0 <= j < i ==> !Listed(rows[j], channel);
      assert i == k;
    }
  }

  /** No version exactly when no row is listed, or the first listed row is too short. */
  lemma NoVersionFound(rows: seq<Row>, channel: string)
    ensures LatestVersion(rows, channel) == None <==>
      (forall i :: 0 <= i < |rows| ==> !Listed(rows[i], channel)) ||
      |rows[FirstListed(rows, channel)]| < 3
  {
    FiltersKeepFirstListed(rows, channel);
  }

  /** A table with a mac row, a linux stable row and a linux beta row. */
  lemma ExampleTable()
    ensures LatestVersion([["mac", "stable", "100.0"], ["linux", "stable", "101.0"],
                           ["linux", "beta", "102.0"]], "stable") == Some("101.0")
  {
    var rows := [["mac", "stable", "100.0"], ["linux", "stable", "101.0"], ["linux", "beta", "102.0"]];
    assert "linux" !in rows[0];
    assert "stable" !in rows[2];
    LatestVersionIsFirstListed(rows, "stable", "101.0");
  }

  /** A field that only contains "linux" does not match it. */
  lemma FieldsMatchExactly()
    ensures LatestVersion([["linux64", "stable", "1.0"]], "stable") == None
  {
    assert "linux" !in ["linux64", "stable", "1.0"];
  }

  // ---------------------------------------------------------------------
  // The version to download

  /** `args.version if args.version else check_omahaproxy(version_string)`:
      an explicit, non-empty `--version` is used verbatim. */
  function ExplicitVersion(flags: Flags): (r: Option<string>)
    ensures r.Some? <==> Given(flags.version)
    ensures r.Some? ==> r.value == flags.version.value && r.value != ""
  {
    if Given(flags.version) then flags.version else None
  }
}
