/** The script's imperative core: the module globals `chromium_root_dir` and
    `version_string`, the directory under the working directory and the
    requests the script has made, updated step by step by
    `download_file_and_compare_hashes`, `download_version`,
    `remove_file_if_exists`, `check_omahaproxy` and the `__main__` block.
    Each method is proved to change the object exactly as the matching
    function of `Pipeline` says; the guarantees are proved about those. */
module Downloader {
  import opened Wrappers
  import opened Text
  import opened Integrity
  import opened Manifest
  import opened Names
  import opened Version
  import opened Pipeline

  class Downloader {
    /** The artifact store, the lookup service, SHA-512 and the file system's refusals. */
    const env: Env
    /** `chromium_root_dir` */
    var root: string
    /** `version_string` */
    var channel: string
    /** The files, keyed by path. */
    var disk: map<string, Bytes>
    /** Every URL opened so far, in order. */
    var requests: seq<string>

    function Snapshot(): State
      reads this
    {
      State(disk, requests)
    }

    /** The module as loaded: the current directory and the stable channel
      (downloadsource.py:22-23), over a directory that already holds `files`. */
    constructor (env: Env, files: map<string, Bytes>)
      ensures this.env == env
      ensures root == "." && channel == DefaultChannel
      ensures disk == files && requests == []
    {
      this.env := env;
      root := ".";
      channel := DefaultChannel;
      disk := files;
      requests := [];
    }

    /** `remove_file_if_exists(filename)` (downloadsource.py:123-130). */
    method RemoveFileIfExists(filename: string)
      modifies this`disk
      ensures Snapshot() == RemoveFile(env, old(Snapshot()), Path(root, filename))
    {
      var filepath := Path(root, filename);
      if filepath in disk {
        // os.remove; an exception is swallowed and the file stays
        if filepath !in env.locked {
          disk := disk - {filepath};
        }
      }
    }

    /** `urlretrieve(Url(name), path)`: one request; the body lands in `path`
      unless the request raised. */
    method Retrieve(name: string, path: string) returns (reply: Reply)
      modifies this`disk, this`requests
      ensures reply == env.serve(Url(name))
      ensures requests == old(requests) + [Url(name)]
      ensures disk == if reply.Reply? then old(disk)[path := reply.body] else old(disk)
    {
      requests := requests + [Url(name)];
      reply := env.serve(Url(name));
      if reply.Reply? {
        disk := disk[path := reply.body];
      }
    }

    /** `download_file_and_compare_hashes(file_to_download)` (downloadsource.py:59-113). */
    method DownloadFileAndCompareHashes(fileToDownload: string) returns (outcome: Outcome)
      modifies this`disk, this`requests
      ensures Step(outcome, Snapshot()) == ArtifactStep(env, root, old(Snapshot()), fileToDownload)
    {
      var hashesFile := HashesName(fileToDownload);
      var tarballLocalFile := Path(root, fileToDownload);
      if tarballLocalFile !in disk {
        var info := Retrieve(fileToDownload, tarballLocalFile);
        if info.Unreachable? {
          return Fatal(TransportError);
        }
        if info.contentType != Some(TarType) {
          RemoveFileIfExists(fileToDownload);
          return Fatal(NotOnServers);
        }
      }
      ghost var fetched := Snapshot();
      assert FetchTarball(env, root, old(Snapshot()), fileToDownload) == Step(Done, fetched);

      var hashesLocalFile := Path(root, hashesFile);
      if hashesLocalFile !in disk {
        var info := Retrieve(hashesFile, hashesLocalFile);
        if info.Unreachable? {
          return Fatal(TransportError);
        }
      }
      assert FetchManifest(env, root, fetched, fileToDownload) == Step(Done, Snapshot());

      var sha512sum := ReadExpectedDigest(Decode(disk[hashesLocalFile]));
      if sha512sum.None? {
        return Fatal(ManifestMalformed);
      }
      ghost var blocks;
      var hexdigest;
      hexdigest, blocks := StreamDigest(env.sha512, disk[tarballLocalFile]);
      if sha512sum.value == hexdigest {
        RemoveFileIfExists(hashesFile);
        outcome := Done;
      } else {
        RemoveFileIfExists(hashesFile);
        RemoveFileIfExists(fileToDownload);
        outcome := Fatal(ChecksumMismatch);
      }
    }

    /** `download_version(version)` with `args.tests` as `tests`
      (downloadsource.py:115-120); a fatal first artifact ends the run. */
    method DownloadVersion(version: string, tests: bool) returns (outcome: Outcome)
      modifies this`disk, this`requests
      ensures Step(outcome, Snapshot()) == VersionStep(env, root, old(Snapshot()), version, tests)
    {
      outcome := DownloadFileAndCompareHashes(TarballName(version));
      if outcome.Fatal? {
        return;
      }
      if tests {
        outcome := DownloadFileAndCompareHashes(TestdataName(version));
      }
    }

    /** `check_omahaproxy(version_string)` (downloadsource.py:38-56): one
      request to the lookup service, then the row filter. */
    method CheckOmahaproxy() returns (r: Resolution)
      modifies this`requests
      ensures requests == old(requests) + [StatusUrl(channel)]
      ensures r == Resolve(env, channel)
    {
      requests := requests + [StatusUrl(channel)];
      match env.lookup(StatusUrl(channel))
      case LookupUnreachable =>
        r := Unresolved(TransportError);
      case Table(statusReader) =>
        var version := LatestVersion(statusReader, channel);
        if version.None? {
          r := Unresolved(NoVersionFound);
        } else {
          r := Resolved(version.value);
        }
    }

    /** The `__main__` block after argument parsing (downloadsource.py:168-182). */
    method Run(args: Flags) returns (outcome: Outcome)
      modifies this
      ensures root == RootDir(args, old(root)) && channel == SelectChannel(args, old(channel))
      ensures Step(outcome, Snapshot()) == RunStep(env, root, channel, old(Snapshot()), args)
    {
      root := RootDir(args, root);
      channel := SelectChannel(args, channel);
      var chromiumVersion := ExplicitVersion(args);
      if chromiumVersion.None? {
        var resolved := CheckOmahaproxy();
        if resolved.Unresolved? {
          return Fatal(resolved.failure);
        }
        chromiumVersion := Some(resolved.version);
      }
      outcome := DownloadVersion(chromiumVersion.value, args.tests);
    }
  }
}
