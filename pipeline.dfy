/** The download, verify and clean-up state machine of the script, as
    functions from the state before to the outcome and the state after.
    The state is the directory (a map from path to bytes) and the list of
    URLs requested so far; the outside world (the artifact store, the
    version-lookup service, SHA-512 and the operating system's refusal to
    delete a file) is an `Env` value. The methods of `Downloader.Downloader`
    are proved to change their object exactly as these functions say. */
module Pipeline {
  import opened Wrappers
  import opened Text
  import opened Integrity
  import opened Manifest
  import opened Names
  import opened Version

  /** The only Content-Type accepted for a freshly fetched tarball. */
  const TarType: string := "application/x-tar"

  /** What `urlretrieve` gets for a URL: a body and the Content-Type header,
      or an exception raised before any local file is opened (an HTTP error
      status or a failed connection). */
  datatype Reply = Reply(body: Bytes, contentType: Option<string>) | Unreachable

  /** What `urlopen` of the lookup service yields: the CSV rows, or an exception. */
  datatype LookupReply = Table(rows: seq<Row>) | LookupUnreachable

  /** The world the script runs in. `locked` holds the paths whose
      `os.remove` raises (the error is swallowed). */
  datatype Env = Env(
    serve: string -> Reply,
    lookup: string -> LookupReply,
    sha512: Bytes -> HexDigest,
    locked: set<string>)

  datatype State = State(disk: map<string, Bytes>, requests: seq<string>)

  /** Why a run ends early with a non-zero exit status: by `sys.exit(1)` or
      by an uncaught exception. */
  datatype Failure =
    | TransportError     // urlopen or urlretrieve raised
    | NoVersionFound     // no usable row in the lookup table
    | NotOnServers       // a fresh tarball came with the wrong Content-Type
    | ManifestMalformed  // the manifest scan raised IndexError
    | ChecksumMismatch   // the digests differ

  datatype Outcome = Done | Fatal(failure: Failure)

  datatype Step = Step(outcome: Outcome, state: State)

  datatype Resolution = Resolved(version: string) | Unresolved(failure: Failure)

  // ---------------------------------------------------------------------
  // Steps

  /** `remove_file_if_exists`: delete the file if it is there, unless the
      operating system refuses, in which case nothing happens. */
  function RemoveFile(env: Env, s: State, path: string): (r: State)
    ensures r.requests == s.requests
    ensures r.disk.Keys == if path in env.locked then s.disk.Keys else s.disk.Keys - {path}
    ensures forall p :: p in r.disk ==> r.disk[p] == s.disk[p]
  {
    if path in s.disk && path !in env.locked then s.(disk := s.disk - {path}) else s
  }

  /** Step 1 of `download_file_and_compare_hashes` (downloadsource.py:63-78):
      skip a tarball that is present; otherwise fetch it and, if its
      Content-Type is not `application/x-tar`, remove it and fail. */
  function FetchTarball(env: Env, root: string, s: State, name: string): (r: Step)
    ensures r.outcome == Done ==> Path(root, name) in r.state.disk
    ensures r.state.requests == s.requests || r.state.requests == s.requests + [Url(name)]
  {
    var path := Path(root, name);
    if path in s.disk then Step(Done, s)
    else
      var s1 := s.(requests := s.requests + [Url(name)]);
      match env.serve(Url(name))
      case Unreachable => Step(Fatal(TransportError), s1)
      case Reply(body, contentType) =>
        var s2 := s1.(disk := s1.disk[path := body]);
        if contentType != Some(TarType) then Step(Fatal(NotOnServers), RemoveFile(env, s2, path))
        else Step(Done, s2)
  }

  /** Step 2 (downloadsource.py:80-89): skip a manifest that is present;
      otherwise fetch it, whatever its Content-Type. */
  function FetchManifest(env: Env, root: string, s: State, name: string): (r: Step)
    ensures r.outcome == Done ==> Path(root, HashesName(name)) in r.state.disk
    ensures s.disk.Keys <= r.state.disk.Keys
    ensures r.state.requests == s.requests || r.state.requests == s.requests + [Url(HashesName(name))]
  {
    var path := Path(root, HashesName(name));
    if path in s.disk then Step(Done, s)
    else
      var s1 := s.(requests := s.requests + [Url(HashesName(name))]);
      match env.serve(Url(HashesName(name)))
      case Unreachable => Step(Fatal(TransportError), s1)
      case Reply(body, _) => Step(Done, s1.(disk := s1.disk[path := body]))
  }

  /** Step 3 (downloadsource.py:91-111): compare the manifest's digest with
      the tarball's; on a match remove the manifest, on a mismatch remove
      both and fail. A manifest the scan cannot read raises, leaving both. */
  function Verify(env: Env, root: string, s: State, name: string): (r: Step)
    requires Path(root, name) in s.disk && Path(root, HashesName(name)) in s.disk
    ensures r.state.requests == s.requests && r.state.disk.Keys <= s.disk.Keys
    ensures r.outcome in {Done, Fatal(ManifestMalformed), Fatal(ChecksumMismatch)}
    ensures r.outcome == Fatal(ManifestMalformed) ==> r.state == s
    ensures r.outcome == Done ==>
      Path(root, name) in r.state.disk && r.state.disk[Path(root, name)] == s.disk[Path(root, name)] &&
      ExpectedDigest(Decode(s.disk[Path(root, HashesName(name))])) == Some(env.sha512(s.disk[Path(root, name)]))
  {
    TarballAndManifestPathsDiffer(root, name);
    var tar := Path(root, name);
    var man := Path(root, HashesName(name));
    match ExpectedDigest(Decode(s.disk[man]))
    case None => Step(Fatal(ManifestMalformed), s)
    case Some(expected) =>
      if expected == env.sha512(s.disk[tar]) then Step(Done, RemoveFile(env, s, man))
      else Step(Fatal(ChecksumMismatch), RemoveFile(env, RemoveFile(env, s, man), tar))
  }

  /** `download_file_and_compare_hashes(name)`. */
  function ArtifactStep(env: Env, root: string, s: State, name: string): (r: Step)
    ensures r.outcome == Done ==> Path(root, name) in r.state.disk
    ensures s.requests <= r.state.requests && |r.state.requests| <= |s.requests| + 2
  {
    var a := FetchTarball(env, root, s, name);
    if a.outcome.Fatal? then a
    else
      var m := FetchManifest(env, root, a.state, name);
      if m.outcome.Fatal? then m else Verify(env, root, m.state, name)
  }

  /** `download_version(version)` with `args.tests` as `tests`: the second
      artifact only when the first one is done. */
  function VersionStep(env: Env, root: string, s: State, version: string, tests: bool): (r: Step)
    ensures r.outcome == Done ==> ArtifactStep(env, root, s, TarballName(version)).outcome == Done
    ensures s.requests <= r.state.requests
    ensures |r.state.requests| <= |s.requests| + (if tests then 4 else 2)
  {
    var first := ArtifactStep(env, root, s, TarballName(version));
    if first.outcome.Fatal? || !tests then first
    else ArtifactStep(env, root, first.state, TestdataName(version))
  }

  /** `check_omahaproxy(channel)` apart from its request. */
  function Resolve(env: Env, channel: string): (r: Resolution)
    ensures r == Unresolved(TransportError) <==> env.lookup(StatusUrl(channel)).LookupUnreachable?
    ensures r.Unresolved? ==> r.failure in {TransportError, NoVersionFound}
    ensures r.Resolved? ==> env.lookup(StatusUrl(channel)).Table?
    ensures r.Resolved? ==>
      exists row :: row in env.lookup(StatusUrl(channel)).rows && Listed(row, channel) &&
        |row| > 2 && row[2] == r.version
  {
    match env.lookup(StatusUrl(channel))
    case LookupUnreachable => Unresolved(TransportError)
    case Table(rows) =>
      match LatestVersion(rows, channel)
      case None => Unresolved(NoVersionFound)
      case Some(v) => Resolved(v)
  }

  /** The `__main__` block from line 180 on, with the working directory and
      the channel already chosen. */
  function RunStep(env: Env, root: string, channel: string, s: State, flags: Flags): (r: Step)
    ensures s.requests <= r.state.requests
    ensures !Given(flags.version) ==>
      |s.requests| < |r.state.requests| && r.state.requests[|s.requests|] == StatusUrl(channel)
  {
    match ExplicitVersion(flags)
    case Some(v) => VersionStep(env, root, s, v, flags.tests)
    case None =>
      var s1 := s.(requests := s.requests + [StatusUrl(channel)]);
      match Resolve(env, channel)
      case Unresolved(f) => Step(Fatal(f), s1)
      case Resolved(v) => VersionStep(env, root, s1, v, flags.tests)
  }

  // ---------------------------------------------------------------------
  // What one artifact's run guarantees

  /** The tarball bytes the run works with: the file already there, or the body fetched. */
  function TarballBytes(env: Env, root: string, s: State, name: string): Bytes {
    var tar := Path(root, name);
    if tar in s.disk then s.disk[tar]
    else match env.serve(Url(name))
      case Reply(body, _) => body
      case Unreachable => []
  }

  /** The manifest bytes the run works with: the file already there, or the body fetched. */
  function ManifestBytes(env: Env, root: string, s: State, name: string): Bytes {
    var man := Path(root, HashesName(name));
    if man in s.disk then s.disk[man]
    else match env.serve(Url(HashesName(name)))
      case Reply(body, _) => body
      case Unreachable => []
  }

  lemma TarballAndManifestPathsDiffer(root: string, name: string)
    ensures Path(root, name) != Path(root, HashesName(name))
  {
    assert |HashesName(name)| != |name|;
    PathInjective(root, name, HashesName(name));
  }

  /** Skip-if-present: a tarball already in the directory is not fetched
      and never meets the Content-Type check; only a missing manifest is
      fetched. With both files present the artifact step makes no request. */
  lemma PresentTarballIsNotFetched(env: Env, root: string, s: State, name: string)
    requires Path(root, name) in s.disk
    ensures var r := ArtifactStep(env, root, s, name);
      r.state.requests ==
        s.requests + (if Path(root, HashesName(name)) in s.disk then [] else [Url(HashesName(name))]) &&
      r.outcome != Fatal(NotOnServers) &&
      (Path(root, name) in r.state.disk ==> r.state.disk[Path(root, name)] == s.disk[Path(root, name)])
  {
    TarballAndManifestPathsDiffer(root, name);
  }

  /** A manifest already in the directory is not fetched again: the run's only
      request, if any, is the tarball's own. */
  lemma ExistingManifestNotRefetched(env: Env, root: string, s: State, name: string)
    requires Path(root, HashesName(name)) in s.disk
    ensures ArtifactStep(env, root, s, name).state.requests ==
      s.requests + (if Path(root, name) in s.disk then [] else [Url(name)])
  {
    TarballAndManifestPathsDiffer(root, name);
    TarballFrame(env, root, s, name, {Path(root, name)});
  }

  /** Content-type guard: a freshly fetched tarball of the wrong type is
      removed again (unless the system refuses), the run fails, and no
      manifest is fetched. */
  lemma WrongContentTypeRemovesTarball(env: Env, root: string, s: State, name: string)
    requires Path(root, name) !in s.disk
    requires env.serve(Url(name)).Reply? && env.serve(Url(name)).contentType != Some(TarType)
    ensures var r := ArtifactStep(env, root, s, name);
      r.outcome == Fatal(NotOnServers) &&
      r.state.requests == s.requests + [Url(name)] &&
      r.state.disk == if Path(root, name) in env.locked
                      then s.disk[Path(root, name) := env.serve(Url(name)).body]
                      else s.disk
  {
    var tar := Path(root, name);
    assert s.disk[tar := env.serve(Url(name)).body] - {tar} == s.disk;
  }

  /** On a match the tarball stays, holding bytes whose digest is the one
      the manifest records, and the manifest is gone (unless the system
      refuses to delete it). */
  lemma MatchKeepsVerifiedTarball(env: Env, root: string, s: State, name: string)
    requires ArtifactStep(env, root, s, name).outcome == Done
    ensures var r := ArtifactStep(env, root, s, name);
      var tar := Path(root, name);
      var man := Path(root, HashesName(name));
      tar in r.state.disk &&
      r.state.disk[tar] == TarballBytes(env, root, s, name) &&
      ExpectedDigest(Decode(ManifestBytes(env, root, s, name))) == Some(env.sha512(r.state.disk[tar])) &&
      (man !in r.state.disk || man in env.locked)
  {
    TarballAndManifestPathsDiffer(root, name);
  }

  /** On a mismatch both files are gone (unless the system refuses). */
  lemma MismatchRemovesBoth(env: Env, root: string, s: State, name: string)
    requires ArtifactStep(env, root, s, name).outcome == Fatal(ChecksumMismatch)
    ensures var r := ArtifactStep(env, root, s, name);
      var tar := Path(root, name);
      var man := Path(root, HashesName(name));
      (tar !in r.state.disk || tar in env.locked) &&
      (man !in r.state.disk || man in env.locked)
  {
    TarballAndManifestPathsDiffer(root, name);
  }

  /** Once both files are in hand and the manifest yields a digest, the run
      is done exactly when that digest equals SHA-512 of the tarball
      (case-sensitive string equality), and fails with a mismatch otherwise. */
  lemma VerdictIsDigestEquality(env: Env, root: string, s: State, name: string, d: string)
    requires FetchTarball(env, root, s, name).outcome == Done
    requires FetchManifest(env, root, FetchTarball(env, root, s, name).state, name).outcome == Done
    requires ExpectedDigest(Decode(ManifestBytes(env, root, s, name))) == Some(d)
    ensures ArtifactStep(env, root, s, name).outcome == Done <==>
      d == env.sha512(TarballBytes(env, root, s, name))
    ensures ArtifactStep(env, root, s, name).outcome != Done ==>
      ArtifactStep(env, root, s, name).outcome == Fatal(ChecksumMismatch)
  {
    TarballAndManifestPathsDiffer(root, name);
  }

  /** A corrupt tarball never survives a comparison: whenever the tarball is
      in the directory after a run that compared digests, the run is done and
      the tarball's digest is the recorded one (barring a refused deletion). */
  lemma NoCorruptTarballSurvives(env: Env, root: string, s: State, name: string)
    requires Path(root, name) !in env.locked
    requires ArtifactStep(env, root, s, name).outcome in {Done, Fatal(ChecksumMismatch)}
    ensures var r := ArtifactStep(env, root, s, name);
      Path(root, name) in r.state.disk <==>
        ExpectedDigest(Decode(ManifestBytes(env, root, s, name))) ==
          Some(env.sha512(TarballBytes(env, root, s, name)))
  {
    TarballAndManifestPathsDiffer(root, name);
  }

  /** The manifest is transient after a comparison, whichever way it went. */
  lemma ManifestTransient(env: Env, root: string, s: State, name: string)
    requires Path(root, HashesName(name)) !in env.locked
    requires ArtifactStep(env, root, s, name).outcome in {Done, Fatal(ChecksumMismatch)}
    ensures Path(root, HashesName(name)) !in ArtifactStep(env, root, s, name).state.disk
  {
    TarballAndManifestPathsDiffer(root, name);
  }

  /** A manifest the scan cannot read makes the run fail with both files
      left in place, and every later artifact step for that name fails the
      same way without a request. */
  lemma MalformedManifestIsSticky(env: Env, root: string, s: State, name: string)
    requires ArtifactStep(env, root, s, name).outcome == Fatal(ManifestMalformed)
    ensures var r := ArtifactStep(env, root, s, name);
      Path(root, name) in r.state.disk && Path(root, HashesName(name)) in r.state.disk &&
      ArtifactStep(env, root, r.state, name) == r
  {
  }

  /** The requests one artifact's step can append, in order. */
  function Fetches(name: string): seq<seq<string>> {
    [[], [Url(name)], [Url(HashesName(name))], [Url(name), Url(HashesName(name))]]
  }

  /** A fresh tarball of the right type stays in the directory, unverified,
      when the manifest request then raises (the run fails). */
  lemma UnverifiedTarballOnManifestError(env: Env, root: string, s: State, name: string, body: Bytes)
    requires Path(root, name) !in s.disk && Path(root, HashesName(name)) !in s.disk
    requires env.serve(Url(name)) == Reply(body, Some(TarType))
    requires env.serve(Url(HashesName(name))).Unreachable?
    ensures ArtifactStep(env, root, s, name) ==
      Step(Fatal(TransportError),
           State(s.disk[Path(root, name) := body], s.requests + [Url(name), Url(HashesName(name))]))
  {
    TarballAndManifestPathsDiffer(root, name);
  }

  /** Only the artifact's own two files change, and the only requests are
      for those two objects, appended in order: the tarball when it was
      missing, then the manifest when it was missing. */
  lemma OnlyOwnFilesChange(env: Env, root: string, s: State, name: string)
    ensures var r := ArtifactStep(env, root, s, name);
      var own := {Path(root, name), Path(root, HashesName(name))};
      r.state.disk - own == s.disk - own &&
      exists fetched :: fetched in Fetches(name) && r.state.requests == s.requests + fetched
  {
    var own := {Path(root, name), Path(root, HashesName(name))};
    var choices := Fetches(name);
    var a := FetchTarball(env, root, s, name);
    TarballFrame(env, root, s, name, own);
    var first := if Path(root, name) in s.disk then [] else [Url(name)];
    assert first in choices;
    if a.outcome == Done {
      var m := FetchManifest(env, root, a.state, name);
      ManifestFrame(env, root, a.state, name, own);
      var second := if Path(root, HashesName(name)) in a.state.disk then [] else [Url(HashesName(name))];
      var both := first + second;
      assert both in choices by {
        if first == [] { assert both == second; } else if second == [] { assert both == first; }
        else { assert both == choices[3]; }
      }
      assert m.state.requests == s.requests + both;
      if m.outcome == Done {
        VerifyFrame(env, root, m.state, name, own);
      }
    }
  }

  lemma TarballFrame(env: Env, root: string, s: State, name: string, own: set<string>)
    requires Path(root, name) in own
    ensures var a := FetchTarball(env, root, s, name);
      a.state.disk - own == s.disk - own &&
      a.state.requests == s.requests + (if Path(root, name) in s.disk then [] else [Url(name)])
  {
    var path := Path(root, name);
    if path !in s.disk && env.serve(Url(name)).Reply? {
      var d := s.disk[path := env.serve(Url(name)).body];
      assert d - own == s.disk - own;
      assert (d - {path}) - own == s.disk - own;
    }
  }

  lemma ManifestFrame(env: Env, root: string, s: State, name: string, own: set<string>)
    requires Path(root, HashesName(name)) in own
    ensures var m := FetchManifest(env, root, s, name);
      m.state.disk - own == s.disk - own &&
      m.state.requests == s.requests +
        (if Path(root, HashesName(name)) in s.disk then [] else [Url(HashesName(name))])
  {
    var path := Path(root, HashesName(name));
    if path !in s.disk && env.serve(Url(HashesName(name))).Reply? {
      assert s.disk[path := env.serve(Url(HashesName(name))).body] - own == s.disk - own;
    }
  }

  lemma VerifyFrame(env: Env, root: string, s: State, name: string, own: set<string>)
    requires Path(root, name) in s.disk && Path(root, HashesName(name)) in s.disk
    requires Path(root, name) in own && Path(root, HashesName(name)) in own
    ensures var v := Verify(env, root, s, name);
      v.state.disk - own == s.disk - own && v.state.requests == s.requests
  {
    var tar := Path(root, name);
    var man := Path(root, HashesName(name));
    assert (s.disk - {man}) - own == s.disk - own;
    assert ((s.disk - {man}) - {tar}) - own == s.disk - own;
    assert (s.disk - {tar}) - own == s.disk - own;
  }

  /** Re-running after a match fetches the manifest again and never the
      tarball, and reaches the same verdict when the store still serves the
      same manifest. */
  lemma RerunAfterMatch(env: Env, root: string, s: State, name: string)
    requires Path(root, HashesName(name)) !in env.locked
    requires ArtifactStep(env, root, s, name).outcome == Done
    ensures var r := ArtifactStep(env, root, s, name);
      var again := ArtifactStep(env, root, r.state, name);
      again.state.requests == r.state.requests + [Url(HashesName(name))] &&
      (env.serve(Url(HashesName(name))).Reply? &&
       env.serve(Url(HashesName(name))).body == ManifestBytes(env, root, s, name) ==>
         again == r.(state := r.state.(requests := again.state.requests)))
  {
    var r := ArtifactStep(env, root, s, name);
    var tar := Path(root, name);
    var man := Path(root, HashesName(name));
    TarballAndManifestPathsDiffer(root, name);
    MatchKeepsVerifiedTarball(env, root, s, name);
    assert man !in r.state.disk;
    var again := ArtifactStep(env, root, r.state, name);
    if env.serve(Url(HashesName(name))).Reply? &&
       env.serve(Url(HashesName(name))).body == ManifestBytes(env, root, s, name) {
      var body := env.serve(Url(HashesName(name))).body;
      var fetched := r.state.(requests := r.state.requests + [Url(HashesName(name))]);
      var withManifest := fetched.(disk := fetched.disk[man := body]);
      assert withManifest.disk - {man} == r.state.disk;
    }
  }

  // ---------------------------------------------------------------------
  // What a whole run guarantees

  /** A fatal first artifact ends the run: the test data are not attempted. */
  lemma FatalFirstArtifactEndsRun(env: Env, root: string, s: State, version: string, tests: bool)
    requires ArtifactStep(env, root, s, TarballName(version)).outcome.Fatal?
    ensures VersionStep(env, root, s, version, tests) == ArtifactStep(env, root, s, TarballName(version))
  {
  }

  /** The four files of a version, which no other file shares. */
  function VersionFiles(root: string, version: string): set<string> {
    {Path(root, TarballName(version)), Path(root, HashesName(TarballName(version))),
     Path(root, TestdataName(version)), Path(root, HashesName(TestdataName(version)))}
  }

  /** `download_version` changes only the version's four files and requests,
      in order, the tarball's objects and then the test data's, the latter
      only with `--tests` and after the tarball was verified. */
  lemma VersionStepOrder(env: Env, root: string, s: State, version: string, tests: bool)
    ensures var r := VersionStep(env, root, s, version, tests);
      r.state.disk - VersionFiles(root, version) == s.disk - VersionFiles(root, version)
    ensures var first := ArtifactStep(env, root, s, TarballName(version));
      exists f1 :: f1 in Fetches(TarballName(version)) && first.state.requests == s.requests + f1
    ensures var first := ArtifactStep(env, root, s, TarballName(version));
      var r := VersionStep(env, root, s, version, tests);
      exists f2 :: f2 in Fetches(TestdataName(version)) && r.state.requests == first.state.requests + f2 &&
        (f2 != [] ==> tests && first.outcome == Done)
  {
    var tarball := TarballName(version);
    var testdata := TestdataName(version);
    var first := ArtifactStep(env, root, s, tarball);
    OnlyOwnFilesChange(env, root, s, tarball);
    if first.outcome.Fatal? || !tests {
      assert first.state.requests == first.state.requests + [];
      assert [] in Fetches(testdata);
    } else {
      OnlyOwnFilesChange(env, root, first.state, testdata);
    }
    VersionFrame(env, root, s, version, tests);
  }

  lemma VersionFrame(env: Env, root: string, s: State, version: string, tests: bool)
    ensures var r := VersionStep(env, root, s, version, tests);
      r.state.disk - VersionFiles(root, version) == s.disk - VersionFiles(root, version)
  {
    var tarball := TarballName(version);
    var testdata := TestdataName(version);
    var own := VersionFiles(root, version);
    var first := ArtifactStep(env, root, s, tarball);
    OnlyOwnFilesChange(env, root, s, tarball);
    var own1 := {Path(root, tarball), Path(root, HashesName(tarball))};
    assert first.state.disk - own == s.disk - own by {
      assert first.state.disk - own == (first.state.disk - own1) - own;
      assert s.disk - own == (s.disk - own1) - own;
    }
    if first.outcome == Done && tests {
      var r := VersionStep(env, root, s, version, tests);
      OnlyOwnFilesChange(env, root, first.state, testdata);
      var own2 := {Path(root, testdata), Path(root, HashesName(testdata))};
      assert r.state.disk - own == first.state.disk - own by {
        assert r.state.disk - own == (r.state.disk - own2) - own;
        assert first.state.disk - own == (first.state.disk - own2) - own;
      }
    }
  }

  /** Once the tarball is verified it stays, with the bytes that were
      verified, whatever happens to the test data afterwards. */
  lemma VerifiedTarballSurvivesTestdata(env: Env, root: string, s: State, version: string, tests: bool)
    requires ArtifactStep(env, root, s, TarballName(version)).outcome == Done
    ensures var r := VersionStep(env, root, s, version, tests);
      Path(root, TarballName(version)) in r.state.disk &&
      r.state.disk[Path(root, TarballName(version))] == TarballBytes(env, root, s, TarballName(version))
  {
    var tarball := TarballName(version);
    var testdata := TestdataName(version);
    var first := ArtifactStep(env, root, s, tarball);
    MatchKeepsVerifiedTarball(env, root, s, tarball);
    if tests {
      OnlyOwnFilesChange(env, root, first.state, testdata);
      NamesOfVersionDistinct(version);
      PathInjective(root, tarball, testdata);
      PathInjective(root, tarball, HashesName(testdata));
      var own := {Path(root, testdata), Path(root, HashesName(testdata))};
      var last := VersionStep(env, root, s, version, tests).state;
      assert Path(root, tarball) in first.state.disk - own;
      assert (first.state.disk - own)[Path(root, tarball)] == (last.disk - own)[Path(root, tarball)];
    }
  }

  /** A run that succeeds leaves every requested artifact in the directory
      and, where the system allows it, none of their manifests. */
  lemma SuccessfulRunKeepsAllArtifacts(env: Env, root: string, s: State, version: string, tests: bool)
    requires Path(root, HashesName(TarballName(version))) !in env.locked
    requires tests ==> Path(root, HashesName(TestdataName(version))) !in env.locked
    requires VersionStep(env, root, s, version, tests).outcome == Done
    ensures var disk := VersionStep(env, root, s, version, tests).state.disk;
      Path(root, TarballName(version)) in disk && Path(root, HashesName(TarballName(version))) !in disk &&
      (tests ==> Path(root, TestdataName(version)) in disk &&
                 Path(root, HashesName(TestdataName(version))) !in disk)
  {
    var tarball := TarballName(version);
    var first := ArtifactStep(env, root, s, tarball);
    VerifiedTarballSurvivesTestdata(env, root, s, version, tests);
    ManifestTransient(env, root, s, tarball);
    if tests {
      var testdata := TestdataName(version);
      MatchKeepsVerifiedTarball(env, root, first.state, testdata);
      ManifestTransient(env, root, first.state, testdata);
      OnlyOwnFilesChange(env, root, first.state, testdata);
      NamesOfVersionDistinct(version);
      PathInjective(root, HashesName(tarball), testdata);
      PathInjective(root, HashesName(tarball), HashesName(testdata));
      var own := {Path(root, testdata), Path(root, HashesName(testdata))};
      var last := VersionStep(env, root, s, version, tests).state;
      assert Path(root, HashesName(tarball)) !in first.state.disk - own;
      assert Path(root, HashesName(tarball)) !in last.disk - own;
    }
  }

  /** An explicit `--version` is used verbatim and no lookup happens. */
  lemma ExplicitVersionSkipsLookup(env: Env, root: string, channel: string, s: State, flags: Flags)
    requires Given(flags.version)
    ensures RunStep(env, root, channel, s, flags) == VersionStep(env, root, s, flags.version.value, flags.tests)
  {
  }

  /** Without `--version` the lookup is the first request, and a table with
      no usable row ends the run before any download. */
  lemma NoVersionMeansNoDownload(env: Env, root: string, channel: string, s: State, flags: Flags)
    requires !Given(flags.version)
    requires env.lookup(StatusUrl(channel)).Table?
    requires LatestVersion(env.lookup(StatusUrl(channel)).rows, channel) == None
    ensures RunStep(env, root, channel, s, flags) ==
      Step(Fatal(NoVersionFound), State(s.disk, s.requests + [StatusUrl(channel)]))
  {
  }

  /** A fresh download of `version` without `--tests` whose manifest records
      the tarball's digest: the two objects are fetched in order, the
      tarball is kept, the manifest is gone, and the run succeeds. */
  lemma FreshDownloadMatches(env: Env, root: string, s: State, version: string,
                             body: Bytes, manifest: Bytes)
    requires Path(root, TarballName(version)) !in s.disk
    requires Path(root, HashesName(TarballName(version))) !in s.disk
    requires Path(root, HashesName(TarballName(version))) !in env.locked
    requires env.serve(Url(TarballName(version))) == Reply(body, Some(TarType))
    requires env.serve(Url(HashesName(TarballName(version)))).Reply?
    requires env.serve(Url(HashesName(TarballName(version)))).body == manifest
    requires Decode(manifest) == ManifestText([[Algorithm, env.sha512(body)]])
    ensures VersionStep(env, root, s, version, false) ==
      Step(Done, State(s.disk[Path(root, TarballName(version)) := body],
                       s.requests + [Url(TarballName(version)), Url(HashesName(TarballName(version)))]))
  {
    var name := TarballName(version);
    var tar := Path(root, name);
    var man := Path(root, HashesName(name));
    TarballAndManifestPathsDiffer(root, name);
    HexDigestIsToken(env.sha512(body));
    assert IsToken(Algorithm) by {
      assert forall i :: 0 <= i < |Algorithm| ==> !IsSpace(Algorithm[i]);
    }
    var records := [[Algorithm, env.sha512(body)]];
    assert Supplies(records[0], env.sha512(body));
    PublishedManifestDigest(records, env.sha512(body));
    assert s.disk[tar := body][man := manifest] - {man} == s.disk[tar := body];
  }

  /** The same download when the manifest records another digest: the run
      fails and neither file is left behind. */
  lemma FreshDownloadMismatches(env: Env, root: string, s: State, version: string,
                                body: Bytes, manifest: Bytes, d: string)
    requires Path(root, TarballName(version)) !in s.disk
    requires Path(root, HashesName(TarballName(version))) !in s.disk
    requires Path(root, TarballName(version)) !in env.locked
    requires Path(root, HashesName(TarballName(version))) !in env.locked
    requires env.serve(Url(TarballName(version))) == Reply(body, Some(TarType))
    requires env.serve(Url(HashesName(TarballName(version)))).Reply?
    requires env.serve(Url(HashesName(TarballName(version)))).body == manifest
    requires IsToken(d) && d != env.sha512(body)
    requires Decode(manifest) == ManifestText([[Algorithm, d]])
    ensures VersionStep(env, root, s, version, false) ==
      Step(Fatal(ChecksumMismatch),
           State(s.disk, s.requests + [Url(TarballName(version)), Url(HashesName(TarballName(version)))]))
  {
    var name := TarballName(version);
    var tar := Path(root, name);
    var man := Path(root, HashesName(name));
    TarballAndManifestPathsDiffer(root, name);
    assert IsToken(Algorithm) by {
      assert forall i :: 0 <= i < |Algorithm| ==> !IsSpace(Algorithm[i]);
    }
    var records := [[Algorithm, d]];
    assert Supplies(records[0], d);
    PublishedManifestDigest(records, d);
    assert s.disk[tar := body][man := manifest] - {man} - {tar} == s.disk;
  }
}
