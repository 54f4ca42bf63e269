# A verified model of the Chromium source tarball downloader

`downloadsource.py` downloads the Chromium source tarball for a version
(and, with `--tests`, the test-data tarball) from the public artifact store.
It checks each tarball against the SHA-512 digest in the `.hashes` manifest
published beside it. A successful run leaves each verified tarball and
removes its manifest. A failed run exits with a non-zero status. What a
failed run leaves behind depends on where it failed; the bullets below list
the cases. The
version is either given with `--version` or looked up for a release channel
(stable, beta or dev) in the version-lookup service's CSV table.

This project models that core in Dafny and proves what it guarantees:

- `Text`: the byte contents of files and how Python reads them. This covers
  text-mode decoding, `readline()` with universal newlines (`\n`, `\r` and
  `\r\n` each end a line) and `str.split()` with no argument.
- `Integrity`: the streaming SHA-512 computation over 65536-byte blocks.
  SHA-512 itself is a function parameter.
- `Manifest`: the `while True` scan for the first `sha512` line.
- `Names`: tarball, manifest, URL and path names.
- `Version`: the channel chosen by the flags, the explicit `--version`, and
  the lookup table's row filter.
- `Pipeline`: the download, verify and clean-up state machine, as functions
  from a state (the files under the working directory, and the URLs
  requested so far) to an outcome and a new state. It also holds the lemmas
  about them.
- `Downloader`: a class holding the script's mutable globals
  (`chromium_root_dir`, `version_string`), the directory and the request log.
  Its methods do what the script's functions do, step by step.
  `RemoveFileIfExists`, `DownloadFileAndCompareHashes`, `DownloadVersion` and
  `Run` are proved to change the object exactly as `Pipeline.RemoveFile`,
  `ArtifactStep`, `VersionStep` and `RunStep` say. `Retrieve` has no
  `Pipeline` counterpart: it logs one request and stores the
  served body, unless the request raised.
  `CheckOmahaproxy` logs the lookup request and returns what
  `Pipeline.Resolve` gives.

The outside world is an `Env` value with four parts:

- `serve` is what `urlretrieve` gets for a URL: a body and a Content-Type,
  or an exception raised before any file is created.
- `lookup` is what the lookup service answers.
- `sha512` is the hash function.
- `locked` is the set of paths whose `os.remove` raises. The script swallows
  that error, so such a file stays.

### Behaviour as the code has it

The model follows the code in these places, where a looser reading of the
script's purpose would say otherwise:

- The lookup filter `"linux" in s and channel in s` tests a list of fields.
  That is equality with a whole field, not substring search
  (`Version.FieldsMatchExactly`).
- A first matching row with fewer than three fields raises `IndexError`.
  So does an empty filter result. Both are modelled as "no version". The
  `version == 0` branch can never be taken.
- The manifest scan does not degrade gracefully. Three cases raise
  `IndexError`, and the run then fails with both files left in place:
  - a blank line before the `sha512` line;
  - the end of the file before the `sha512` line;
  - a line holding `sha512` alone.

  Every later artifact step for that name fails the same way without a
  request (`Pipeline.MalformedManifestIsSticky`). A later run of the whole
  script still makes its lookup request first when `--version` is not
  given, and the lookup may resolve to another version. The manifest is therefore only
  transient after an actual digest comparison.
- If a fresh tarball of the right type arrives and the manifest request
  then raises, the run fails with the tarball left in place, unverified
  (`Pipeline.UnverifiedTarballOnManifestError`).
- With `--tests`, once the first tarball is verified, a failure on the test
  data leaves that tarball in place with the bytes that were verified
  (`Pipeline.VerifiedTarballSurvivesTestdata`).
- A tarball that was already present is still verified. A mismatch deletes
  it. Only a freshly fetched tarball is checked for Content-Type.
- `--stable`, `--beta` and `--dev` are not mutually exclusive. The `if/elif`
  chain gives stable > beta > dev.
- An empty `--version ""` or work directory `""` counts as not given
  (Python truthiness).
- After a successful run the manifest is gone. So a re-run fetches the
  manifest again, though never the tarball, and verifies again
  (`Pipeline.RerunAfterMatch`). With both files present, the artifact step
  makes no request. Without `--version`, the run still makes its lookup
  request first.

## Model

| member | source | states |
|---|---|---|
| `Text.ReadLine` | downloadsource.py:94 | one `readline()` yields the text up to the first `\n` or `\r` (or the end of the file), and the cursor moves past that break: two characters for `\r\n`, one for any other break, none at the end of the file |
| `Text.Lines` | downloadsource.py:94 | the successive `readline()` results hold no line break; which lines they are is proved in `Text.LinesOfTerminate` when every line ends in a break, and a last line with no break is covered by `Text.ReadLine`'s contract, which takes it to the end of the text |
| `Text.Decode` | downloadsource.py:92 | decoding keeps the length and maps each byte to the character with the same code; this agrees with the locale's text decoding for ASCII bytes only |
| `Text.LinesOfTerminate` | downloadsource.py:94 | lines ended by any mix of `\n`, `\r` and `\r\n` read back unchanged (unless a `\r` ending is directly followed by an empty `\n`-ended line, which reads as one `\r\n`) |
| `Text.MixedEndings` | downloadsource.py:94 | `"a\r\nb\rc\n"` reads as the three lines `a`, `b`, `c` |
| `Text.LinesOfJoinLines` | downloadsource.py:94 | reading a text written line by line with `readline()` gives back exactly those lines |
| `Text.FieldsOfJoin` | downloadsource.py:94 | `split()` of whitespace-free tokens joined by spaces gives back exactly those tokens |
| `Text.FieldsAfterBlank` | downloadsource.py:94 | whitespace at the start of a line yields no field |
| `Text.FieldsOfSpacedToken` | downloadsource.py:94 | after leading whitespace, a token followed by any non-empty run of whitespace (tabs, several spaces) is the next field, and the rest splits on its own |
| `Text.FieldsOfSpaced` | downloadsource.py:94 | `split()` of fields laid out with any whitespace before, between (non-empty) and after them gives back exactly those fields |
| `Text.TabsAndRuns` | downloadsource.py:94 | `" sha512\t\t ab "` splits into `sha512` and `ab` |
| `Text.Fields` | downloadsource.py:94 | every field `split()` yields is non-empty and holds no whitespace; which fields they are is proved in `Text.FieldsOfSpaced` |
| `Text.FieldsEmptyIffBlank` | downloadsource.py:94-95 | a line splits into no field exactly when it is all whitespace |
| `Integrity.Read` | downloadsource.py:102 | `f.read(size)` at a cursor returns the next `size` bytes, or what is left when fewer remain |
| `Integrity.Blocks` | downloadsource.py:102 | the `iter(..., b"")` loop yields no block exactly for an empty file, and never more blocks than bytes |
| `Integrity.StreamDigest` | downloadsource.py:100-103 | feeding the hasher the 65536-byte blocks read until the empty block gives SHA-512 of the whole file; the blocks read are `Blocks(data, 65536)` and concatenate to the file |
| `Integrity.ConcatBlocks` | downloadsource.py:102 | for any positive block size the blocks concatenate to exactly the file contents |
| `Integrity.BlocksShape` | downloadsource.py:102 | every block is non-empty and at most the block size, and all but the last are full |
| `Integrity.DigestIndependentOfBlockSize` | downloadsource.py:100-103 | any two positive block sizes give the same digest, namely SHA-512 of the file |
| `Integrity.HexDigestIsToken` | downloadsource.py:104 | a hex digest is a single whitespace-free field |
| `Manifest.FirstDigest` | downloadsource.py:93-99 | the scan over the lines in file order yields, when it yields anything, a single whitespace-free field |
| `Manifest.ExpectedDigest` | downloadsource.py:92-99 | a digest found in the manifest is a single whitespace-free field, and some line of the manifest text supplies it as `sha512 <digest>` |
| `Manifest.ReadExpectedDigest` | downloadsource.py:93-99 | the cursor loop over `readline().split()` returns exactly the expected digest of the manifest text |
| `Manifest.FirstDigestFound` | downloadsource.py:93-99 | the scan yields `d` if and only if some line has field 0 `sha512` and field 1 `d`, and every earlier line has a first field other than `sha512` |
| `Manifest.FirstDigestMissing` | downloadsource.py:94-99 | the scan fails if and only if the file ends first, or a line with no field or with `sha512` alone comes before any digest line |
| `Manifest.FirstDigestAtStop` | downloadsource.py:93-99 | the scan's result depends only on the first line it does not skip |
| `Manifest.BlankLineStopsScan` | downloadsource.py:94-97 | a blank line before any `sha512` line makes the scan fail even when a digest line follows |
| `Manifest.ScanStep` | downloadsource.py:94-99 | one `readline().split()` either decides the scan or moves the cursor forward with the outcome unchanged |
| `Manifest.RecordsOfManifestText` | downloadsource.py:94 | a manifest written one record per line reads back as those records |
| `Manifest.RecordsOfLaidOutText` | downloadsource.py:94 | a manifest whose records are spaced with any whitespace and whose lines end with any of `\n`, `\r`, `\r\n` reads back as those records |
| `Manifest.LaidOutManifestDigest` | downloadsource.py:93-99 | for such a manifest, the digest read is field 1 of the first record whose field 0 is `sha512`, if and only if that record has a field 1 |
| `Manifest.TabbedCrLfManifest` | downloadsource.py:93-99 | the line `sha512<TAB><digest> ` ended by `\r\n` yields the digest |
| `Manifest.PublishedManifestDigest` | downloadsource.py:93-99 | for a published manifest, the digest read is field 1 of the first record whose field 0 is `sha512`, if and only if that record has a field 1 |
| `Names.TarballName` | downloadsource.py:117 | the tarball's name is `chromium-`, the version, then `.tar.xz` |
| `Names.TestdataName` | downloadsource.py:120 | the test-data tarball's name is `chromium-`, the version, then `-testdata.tar.xz` |
| `Names.HashesName` | downloadsource.py:61 | the manifest's name is the artifact's name followed by `.hashes` |
| `Names.Url` | downloadsource.py:67 | the URL fetched for an object is the bucket's base URL followed by the object's name |
| `Names.Path` | downloadsource.py:63 | the local path is the working directory, one `/`, then the name |
| `Names.NamesOfVersionDistinct` | downloadsource.py:117-120 | a version's two tarballs and their two manifests are four different names |
| `Names.PathInjective` | downloadsource.py:63 | different names give different paths under the same root |
| `Version.StatusUrl` | downloadsource.py:41 | the status query is the fixed query prefix followed by the channel, so the channel can be read back from it |
| `Version.RootDir` | downloadsource.py:168-169 | a non-empty work directory argument replaces the root; otherwise the root is kept |
| `Version.SelectChannel` | downloadsource.py:171-176 | with a channel flag the result is one of the three channels; without one the channel is kept |
| `Version.ChannelFromFlags` | downloadsource.py:171-177 | the channel is stable exactly when `--stable` is given or no channel flag is; otherwise beta beats dev |
| `Version.RowsWith` | downloadsource.py:47 | a row is kept if and only if it is one of the input rows and has a field equal to the value searched for |
| `Version.LatestVersion` | downloadsource.py:45-49 | a version found is field 2 of an input row holding `linux` and the channel; if some row holds both, either a version is found or some such row is too short |
| `Version.FiltersKeepFirstListed` | downloadsource.py:47-48 | the two list comprehensions are empty exactly when no row is listed; otherwise they start with the first listed row in input order |
| `Version.LatestVersionIsFirstListed` | downloadsource.py:45-49 | the version is `v` if and only if the first row with fields `linux` and the channel has at least three fields and field 2 is `v` |
| `Version.NoVersionFound` | downloadsource.py:47-49 | there is no version exactly when no row is listed or the first listed row is too short |
| `Version.ExampleTable` | downloadsource.py:46-49 | a mac row, a linux stable row "101.0" and a linux beta row resolve stable to "101.0" |
| `Version.FieldsMatchExactly` | downloadsource.py:47 | a field `linux64` does not match `linux` |
| `Version.ExplicitVersion` | downloadsource.py:180 | a version is given exactly when `--version` is non-empty, and it is that string |
| `Pipeline.RemoveFile` | downloadsource.py:123-130 | the request log is unchanged; the path leaves the directory unless its deletion is refused; no other file changes and no bytes change |
| `Pipeline.FetchTarball` | downloadsource.py:63-78 | when the tarball step succeeds, the tarball is present |
| `Pipeline.FetchManifest` | downloadsource.py:80-89 | when the manifest step succeeds, the manifest is present, and no file disappears |
| `Pipeline.Verify` | downloadsource.py:91-111 | no request is made and no file appears; the outcome is done, manifest malformed or checksum mismatch; a malformed manifest changes nothing; when done, the tarball is kept unchanged and its SHA-512 is the recorded digest |
| `Pipeline.ArtifactStep` | downloadsource.py:59-113 | when done, the tarball is present; the request log only grows, by at most two URLs |
| `Pipeline.ExistingManifestNotRefetched` | downloadsource.py:80-81 | when the manifest is already in the directory, the artifact step's only request is the tarball's own, and only when the tarball is missing |
| `Pipeline.PresentTarballIsNotFetched` | downloadsource.py:63-66 | a present tarball is not fetched and is never Content-Type checked; only a missing manifest is requested; whatever the outcome, the tarball is either gone or unchanged |
| `Pipeline.WrongContentTypeRemovesTarball` | downloadsource.py:66-78 | a fresh tarball whose Content-Type is not `application/x-tar` fails the run; the directory is as before unless deletion is refused; no manifest is requested |
| `Pipeline.MatchKeepsVerifiedTarball` | downloadsource.py:104-106 | on a match the tarball is present with the bytes used; its SHA-512 is the manifest's digest; the manifest is gone unless deletion is refused |
| `Pipeline.MismatchRemovesBoth` | downloadsource.py:107-111 | on a mismatch neither file remains unless its deletion is refused |
| `Pipeline.VerdictIsDigestEquality` | downloadsource.py:104-111 | once both files are in hand and a digest is read, the run succeeds if and only if the digest equals SHA-512 of the tarball; otherwise it fails as a mismatch |
| `Pipeline.NoCorruptTarballSurvives` | downloadsource.py:91-111 | after a comparison the tarball is present if and only if its digest is the recorded one |
| `Pipeline.ManifestTransient` | downloadsource.py:104-110 | after a comparison, either way, the manifest is gone |
| `Pipeline.MalformedManifestIsSticky` | downloadsource.py:91-99 | an unreadable manifest fails the artifact step with both files in place; every later artifact step for that name gives the same result with no request |
| `Pipeline.UnverifiedTarballOnManifestError` | downloadsource.py:72-86 | a fresh tarball of the right type followed by a failed manifest request ends the run with the tarball stored, unverified |
| `Pipeline.OnlyOwnFilesChange` | downloadsource.py:59-113 | no other file changes; the only requests, appended in order, are the tarball and then the manifest |
| `Pipeline.RerunAfterMatch` | downloadsource.py:80-106 | a re-run after a match requests only the manifest; with the same manifest it reaches the same result |
| `Pipeline.VersionStep` | downloadsource.py:115-120 | a successful run verified the tarball; the request log only grows, by at most two URLs per artifact |
| `Pipeline.VersionStepOrder` | downloadsource.py:115-120 | only the version's four files change; the requests are the tarball's objects, then the test data's, and the latter only with `--tests` after a verified tarball |
| `Pipeline.FatalFirstArtifactEndsRun` | downloadsource.py:115-120 | a fatal first artifact ends the run; the test data are not attempted |
| `Pipeline.SuccessfulRunKeepsAllArtifacts` | downloadsource.py:115-120 | a successful run leaves every requested tarball present and none of their manifests |
| `Pipeline.VerifiedTarballSurvivesTestdata` | downloadsource.py:115-120 | once the tarball is verified it stays with the verified bytes, whatever happens to the test data |
| `Pipeline.Resolve` | downloadsource.py:38-56 | a transport error exactly when the lookup raises; otherwise the failure is no version; a version found is field 2 of a table row holding `linux` and the channel |
| `Pipeline.RunStep` | downloadsource.py:180-182 | the request log only grows; without `--version`, the first new request is the lookup for the channel |
| `Pipeline.ExplicitVersionSkipsLookup` | downloadsource.py:180 | a non-empty `--version` is used verbatim with no lookup request |
| `Pipeline.NoVersionMeansNoDownload` | downloadsource.py:180-182 | with no usable lookup row the run fails; it makes only the lookup request and changes no file |
| `Pipeline.FreshDownloadMatches` | downloadsource.py:59-111 | a fresh download whose manifest records the tarball's digest fetches both objects in order, keeps the tarball, drops the manifest and succeeds |
| `Pipeline.FreshDownloadMismatches` | downloadsource.py:59-111 | the same download with a different recorded digest fails and leaves the directory as before |
| `Downloader.Downloader.constructor` | downloadsource.py:22-23 | the script starts in the current directory on the stable channel with no request made |
| `Downloader.Downloader.RemoveFileIfExists` | downloadsource.py:123-130 | deletes the file if present and deletable; otherwise nothing changes and nothing fails |
| `Downloader.Downloader.Retrieve` | downloadsource.py:70-73 | one request is logged; the served body is stored at the path unless the request raised |
| `Downloader.Downloader.DownloadFileAndCompareHashes` | downloadsource.py:59-113 | the outcome and the new directory and request log are exactly `Pipeline.ArtifactStep` of the old state |
| `Downloader.Downloader.DownloadVersion` | downloadsource.py:115-120 | the outcome and new state are exactly `Pipeline.VersionStep` of the old state |
| `Downloader.Downloader.CheckOmahaproxy` | downloadsource.py:38-56 | one lookup request for the channel is logged; the result is the filtered table's version or the failure |
| `Downloader.Downloader.Run` | downloadsource.py:168-182 | the root and channel are set from the flags; the outcome and new state are exactly `Pipeline.RunStep` |

## Left out

- Local file-system failures are not modelled. The model assumes:
  - the work directory exists and is writable, so the file opens inside
    `urlretrieve` (lines 72, 86) cannot fail;
  - the tarball opens for reading (line 101).

  On a real system a failed open raises, no file is created, and the run
  fails. In the model the body is always stored.
- `Env.locked`: open-file deletion rules are not modelled. `locked` is one
  set of paths for the whole run, and a path in it is refused at every
  deletion. The deletions at lines 106 and 109-110 run while both files are
  still open, inside the `with` blocks of lines 92 and 101. The deletion at
  line 77 runs after `urlretrieve` has closed the tarball. So the model
  cannot describe a system that refuses to delete only open files: that
  system would refuse the cleanup at lines 106 and 109-110 but allow the
  one at line 77.
- HTTP transport (`urlopen`, `urlretrieve`, `urlcleanup`): network I/O. It is
  an oracle that returns a body and a Content-Type, or raises before any
  local file is opened.
- A transfer that fails part-way and leaves a partial file: this needs a
  model of streaming I/O. A request either completes or creates no file.
- Files left by an interrupted download: this depends on signals and
  concurrency, and nothing in the code handles it.
- The SHA-512 algorithm: a foreign call. It is a function parameter.
- The `TqdmUpTo` progress bar: UI rendering.
- argparse/optparse setup and `locale.setlocale`: CLI plumbing. The model
  starts from the parsed flag values. The optparse branch is not modelled
  because the argparse import never fails on Python 3.
- The CSV tokenizer and the UTF-8 decoding of the lookup answer: library
  calls. The lookup answer is already a sequence of rows of fields.
- Decoding a manifest with a locale encoding: not modelled. A manifest byte
  becomes one character, which agrees with any ASCII-compatible encoding on
  ASCII manifests. Non-ASCII whitespace in `str.split()` is not modelled.
- `print` diagnostics and the unused `latest` variable (line 181): no
  effect on state.
- `sys.exit` and uncaught exceptions: both become a `Fatal` outcome with a
  reason.
- The "Cannot compare hashes" branch (lines 112-113): it cannot run in the
  model, because a retrieve that returns has always created the file. The
  model has no branch for it.
- Directories named like an artifact (`os.path.isfile` is false for them):
  the directory holds files only.
- Two instances of the script running at once on the same directory: the
  code has no concurrency.
