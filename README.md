# AirFirmwareDL download-and-verify core, modelled in Dafny

AirFirmwareDL fetches the two firmware packages (left and right earpiece) of one version of
the S505 "cc ultra" earphones (AB1562AE chip) over HTTP, stores them under a folder named
after the version in the working directory, and compares their SHA-256 digests with the
values of a `checksums.json` manifest. This project models the script's core and proves
properties of it:

- **Artifact naming** (`naming.dfy`, module `Naming`): the version catalog, the URL of each
  package, POSIX `os.path.basename` / `os.path.join`, and the local paths that are checked
  for existence and downloaded to.
- **Checksum comparison** (`checksums.dfy`, module `Checksums`): `compare_checksums` on a
  parsed manifest, and the match label the result printer would show.
- **File system** (`filesystem.dfy`, module `FileSystem`): directories and files as a value
  `FsState`, held in place by the class `FileSystem` whose methods `MakeDirs`,
  `OpenForWrite` and `Append` stand for `os.makedirs`, `open(…, 'wb')` and `file.write`.
- **Download** (`download.dfy`, module `Download`): the control flow of `download_file`
  against an abstract server response, with the chunk loop as a method.
- **Digest** (`sha.dfy`, module `Sha`): the 4096-byte read loop of `calculate_sha256`.
- **Orchestration** (`workflow.dfy`, module `Workflow`): version input (`str.strip`,
  catalog check, the listing order), the skip/download/verify decision of `main`, and
  lemmas about whole runs: rejection, idempotence, both downloads attempted, verification
  only after two successes.

External parts are parameters: the working directory is `cwd`; the HTTP server is a
function `server: Path -> Response` from URL to response; SHA-256 is a function
`digest: Bytes -> string`; the lines typed at the prompts are the strings `first` and
`second`. `base.dfy` (module `Base`) holds the shared byte, path and option types.

Behaviour as the code has it:

- Digests are compared with case-sensitive string equality (`ComparisonIsCaseSensitive`).
- A version or side missing from the manifest gives `False`, never `None`. So the printer's
  "Not available" branch cannot be reached (`NotAvailableUnreachable`).
- There is one catalog, for one model. The local folder is `cwd/version`; the model name
  plays no part in it.
- A missing or zero `content-length` makes `download_file` return `False` before the file
  is opened. A negative or other non-zero length is accepted, because only `== 0` is tested.
  A header that `int()` cannot parse raises `ValueError`, which the generic handler turns
  into `False`.
- A stream that fails part-way leaves the bytes written so far in the file and returns
  `False` (`InterruptedLeavesPartialFile`).
- `os.makedirs` raises if a file already stands at the version folder's path. That
  exception reaches `main`'s generic handler, which ends the run (`FolderNotCreated`).
- The `while True` loop of `main` never runs its body twice, because every branch of the
  body ends in `return` or `break`. It is modelled as straight-line code.

## Model

| member | source | states |
|---|---|---|
| `Naming.LastSlash` | AirFirmwareDownloader.py:97 | the index `basename` cuts at: a '/' with no '/' after it, or -1 when there is none |
| `Naming.Basename` | AirFirmwareDownloader.py:97 | the result is a suffix of the path with no '/', and it starts at the path's start or right after a '/' |
| `Naming.Join` | AirFirmwareDownloader.py:94-98 | `os.path.join`: an absolute second part is the whole result; otherwise the result is the first part, then one '/' unless the first part is empty or already ends in '/', then the second part (its length pins this down, so `Join("/", v)` is `"/" + v`) |
| `Naming.FileUrl` | AirFirmwareDownloader.py:136-137 | the package URL: `BASE_URL`, the version, `_fota/`, then the package name; its basename and injectivity are stated by `BasenameOfFileUrl` and `FileUrlInjective` |
| `Naming.PackageName` | AirFirmwareDownloader.py:97 | the literal package file name for a version and side; stated slash-free and injective by `PackageNameHasNoSlash` and `PackageNameInjective` |
| `Naming.VersionFolder` | AirFirmwareDownloader.py:122 | `os.path.join(os.getcwd(), version)`, through `Join` |
| `Naming.ConstructFilePath` | AirFirmwareDownloader.py:92-98 | `construct_file_path`: the working directory, the version and the URL's basename joined; `CheckedPathIsDownloadPath` and `FilePathInjective` state what it yields |
| `Naming.DownloadPath` | AirFirmwareDownloader.py:139-140 | the download target in `main`: the version folder joined with the URL's basename; equal to `ConstructFilePath` by `CheckedPathIsDownloadPath` |
| `Naming.AvailableVersionsAreDigits` | AirFirmwareDownloader.py:19-24 | every catalog key is a non-empty string of decimal digits |
| `Naming.BasenameAfterSeparator` | AirFirmwareDownloader.py:97 | the basename of a path whose last '/' comes right before a slash-free name is that name |
| `Naming.BasenameOfJoin` | AirFirmwareDownloader.py:139-140 | joining a non-empty slash-free name onto any folder keeps that name as the basename |
| `Naming.PackageNameHasNoSlash` | AirFirmwareDownloader.py:97 | for a slash-free version the package name is non-empty and contains no '/' |
| `Naming.BasenameOfFileUrl` | AirFirmwareDownloader.py:136-140 | the basename of a package URL is the literal `S505_cc%20ultra_AB1562AE_V310.6.505.{v}_{side}_FotaPackage.bin`, with `%20` not decoded |
| `Naming.CheckedPathIsDownloadPath` | AirFirmwareDownloader.py:92-98 | `construct_file_path(v, side)` equals `join(version_folder, basename(url))` from `main`, and both are the version folder joined with the literal package name |
| `Naming.DigitsBeforeUnderscore` | AirFirmwareDownloader.py:97 | two digit strings each followed by a text starting with '_' can only be split one way |
| `Naming.SideTailInjective` | AirFirmwareDownloader.py:97 | the text after the version determines the side |
| `Naming.PackageNameInjective` | AirFirmwareDownloader.py:97 | for digit-only versions, equal package names mean equal version and side |
| `Naming.FileUrlInjective` | AirFirmwareDownloader.py:136-137 | for digit-only versions, URL construction is injective over (version, side) |
| `Naming.FilePathInjective` | AirFirmwareDownloader.py:92-98 | for digit-only versions, local paths are injective over (version, side), so no two packages share a file |
| `Naming.SidesDifferOnlyInToken` | AirFirmwareDownloader.py:136-137 | the left and right URLs of a version are the same text around `left` and `right` |
| `Checksums.Expected` | AirFirmwareDownloader.py:74-79 | the manifest value `checksums.get(version, …).get(side)`, None when either key is missing; `CompareChecksums` states each flag in the same terms |
| `Checksums.CompareChecksums` | AirFirmwareDownloader.py:72-80 | echoes both digests; each match flag holds exactly when the version key and the side key exist and the stored string equals the digest |
| `Checksums.MissingEntryIsMismatch` | AirFirmwareDownloader.py:74-79 | an absent version gives two false flags; an absent side gives a false flag for that side |
| `Checksums.ComparisonIsCaseSensitive` | AirFirmwareDownloader.py:78 | for every version, digest and manifest: a digest that differs from the stored one but agrees with it after ASCII lower-casing does not match, on either side |
| `Checksums.CaseVariantExample` | AirFirmwareDownloader.py:78 | the case-variant premise can be met: "ab" and "AB" agree after lower-casing, and "ab" against a stored "AB" is no match |
| `Checksums.Label` | AirFirmwareDownloader.py:88-89 | "Not available" exactly for None, "Match" exactly for true |
| `Checksums.NotAvailableUnreachable` | AirFirmwareDownloader.py:78-89 | no flag from `compare_checksums` is shown as "Not available"; a missing version shows "No match" |
| `FileSystem.FsState.Exists` | AirFirmwareDownloader.py:126 | `os.path.exists`: the path is a directory or a file |
| `FileSystem.FsState.IsFile` | AirFirmwareDownloader.py:126 | `os.path.isfile`: the path is a file |
| `FileSystem.FsState.MakeDirs` | AirFirmwareDownloader.py:134 | fails exactly when a file stands at the path; otherwise adds the directory, leaves files alone and keeps the no-path-is-both invariant |
| `FileSystem.FsState.OpenForWrite` | AirFirmwareDownloader.py:54 | fails exactly on a directory; otherwise the file exists and is empty, and the invariant is kept |
| `FileSystem.FileSystem.MakeDirs` | AirFirmwareDownloader.py:134 | the object's new state is the value-level `MakeDirs` of its old state, or the old state when it fails |
| `FileSystem.FileSystem.OpenForWrite` | AirFirmwareDownloader.py:54 | the object's new state is the value-level `OpenForWrite` of its old state, or the old state when it fails |
| `FileSystem.FileSystem.Append` | AirFirmwareDownloader.py:57 | the file's contents grow by exactly the data written; nothing else changes |
| `Download.Written` | AirFirmwareDownloader.py:55-57 | the bytes the `if chunk:` loop writes; equal to `Concat` by `WrittenIsConcat` |
| `Download.SizeKnown` | AirFirmwareDownloader.py:45-48 | the `content-length` header is present, parses as an integer, and is not 0 |
| `Download.Opens` | AirFirmwareDownloader.py:42-54 | the file is opened: the server answered, the status is a success, the size is known and the target is not a directory; `DownloadSpec` changes nothing otherwise |
| `Download.Succeeds` | AirFirmwareDownloader.py:42-60 | the response gets `download_file` to `return True` apart from the target: reachable, success status, size known, stream not cut off; `DownloadOutcome` ties it to the result |
| `Download.DownloadSpec` | AirFirmwareDownloader.py:39-65 | no open, no change and no progress unless the reply arrived with a success status, a non-zero size and a non-directory target; `True` exactly when the response succeeds and the target is not a directory; directories and other files untouched |
| `Download.ConcatSnoc` | AirFirmwareDownloader.py:55-57 | appending one chunk appends its bytes and adds its length |
| `Download.WrittenIsConcat` | AirFirmwareDownloader.py:55-58 | skipping empty chunks loses nothing: the written bytes are the concatenation of all chunks, and their count is the sum of the chunk lengths |
| `Download.DownloadOutcome` | AirFirmwareDownloader.py:42-65 | `True` exactly for a reachable server, a success status, a non-zero size, a non-directory target and an uninterrupted stream; a failure before the open changes nothing; on success the file holds the body in order and the progress counter equals the sum of the chunk lengths |
| `Download.InterruptedLeavesPartialFile` | AirFirmwareDownloader.py:54-65 | a stream that fails after the open reports `False` and leaves the bytes received so far in the file |
| `Download.DownloadFile` | AirFirmwareDownloader.py:39-65 | the chunk loop's result, final file system and progress counter are those of `DownloadSpec` |
| `Sha.Update` | AirFirmwareDownloader.py:36 | `sha256.update(chunk)`: the state has absorbed the chunk after what it held |
| `Sha.HexDigest` | AirFirmwareDownloader.py:37 | `hexdigest()`: the digest of everything absorbed |
| `Sha.CalculateSha256` | AirFirmwareDownloader.py:31-37 | folding the 4096-byte reads gives the digest of the whole file; no result when the file does not exist |
| `Workflow.IsSpace` | AirFirmwareDownloader.py:107 | the characters for which Python's `str.isspace()` holds, which `strip()` removes |
| `Workflow.TrimStart` | AirFirmwareDownloader.py:107 | removes exactly the longest leading whitespace run |
| `Workflow.TrimEnd` | AirFirmwareDownloader.py:107 | removes exactly the longest trailing whitespace run |
| `Workflow.Strip` | AirFirmwareDownloader.py:107 | the result is no longer than the input and neither starts nor ends with whitespace |
| `Workflow.TrimStartPadded` | AirFirmwareDownloader.py:107 | whitespace before text that does not start with whitespace is removed, and only that |
| `Workflow.TrimEndPadded` | AirFirmwareDownloader.py:107 | whitespace after text that does not end with whitespace is removed, and only that |
| `Workflow.StripPadded` | AirFirmwareDownloader.py:107 | stripping whitespace-padded text gives back exactly the text |
| `Workflow.LexLess` | AirFirmwareDownloader.py:111 | Python's `<` on strings, by code point, which `sorted` uses |
| `Workflow.VersionListing` | AirFirmwareDownloader.py:111 | the listing holds exactly the catalog keys, in strictly descending string order |
| `Workflow.SelectVersion` | AirFirmwareDownloader.py:107-119 | only catalog keys proceed, and the key taken is the stripped first line, or the stripped second line when the first strips to empty; a catalog key on either prompt is taken; an unknown first line, or an empty first line followed by an empty or unknown second line, is rejected |
| `Workflow.PaddedVersionAccepted` | AirFirmwareDownloader.py:107-117 | a catalog version typed with surrounding whitespace is accepted |
| `Workflow.RunSpec` | AirFirmwareDownloader.py:100-162 | rejected exactly when the version is not selected; only a fetching run changes the file system; a fetching run creates the version folder, leaves every file other than its two targets unchanged, and verifies exactly when both downloads succeeded; the invariant is kept |
| `Workflow.AlreadyPresent` | AirFirmwareDownloader.py:126 | the skip test: the version folder exists and both `construct_file_path` results are files |
| `Workflow.Proceed` | AirFirmwareDownloader.py:121-155 | after acceptance: the run skips exactly when the pair is present, ends in `FolderNotCreated` exactly when it is not and a file stands at the version folder's path, and changes the file system only when downloading; then the folder is created, only the two targets may change, and verification happens exactly after two successes |
| `Workflow.FetchBoth` | AirFirmwareDownloader.py:136-153 | always ends in a fetch outcome; a report exists exactly when both downloads succeeded; directories untouched; every file other than the two targets unchanged |
| `Workflow.Run` | AirFirmwareDownloader.py:100-162 | the outcome and final file system of `main` are those of `RunSpec` |
| `Workflow.RunVersion` | AirFirmwareDownloader.py:121-134 | the outcome and final file system after acceptance are those of `Proceed` |
| `Workflow.DownloadAndVerify` | AirFirmwareDownloader.py:136-155 | the outcome and final file system after folder creation are those of `FetchBoth` |
| `Workflow.TargetsDistinct` | AirFirmwareDownloader.py:139-140 | for a digit-only version, the left and right targets are different files |
| `Workflow.FetchBothOutcome` | AirFirmwareDownloader.py:143-153 | each side succeeds exactly when its own response does and its target is not a directory; the right file never depends on the left response; a report compares the digests of the two bodies sent |
| `Workflow.SkipWhenPresent` | AirFirmwareDownloader.py:126-132 | when the folder and both files exist, nothing changes and the report is over the files on disk, whatever the server would answer |
| `Workflow.FetchedRunIsFetchBoth` | AirFirmwareDownloader.py:117-146 | a run downloads exactly when the version is accepted, the pair is not present and the folder can be created |
| `Workflow.ReportCoversDownloadedBodies` | AirFirmwareDownloader.py:146-151 | after two successful downloads the report compares the digests of exactly the two bodies the server sent |
| `Workflow.RightDownloadIndependentOfLeft` | AirFirmwareDownloader.py:143-144 | the right download is attempted and behaves the same whatever the left response was |
| `Workflow.SecondRunReusesDownload` | AirFirmwareDownloader.py:126-155 | after a run that downloaded and verified both files, a second run for the same version, with any server, changes nothing and reproduces the report |
| `Workflow.OtherVersionUntouched` | AirFirmwareDownloader.py:121-155 | a run for one version leaves every package file of any other digit-only version present and unchanged |

## Left out

- HTTP transport (`requests.get`, `raise_for_status`, `iter_content`): a foreign network client. It is the `server` parameter and the `Response` value. The chunk boundaries of `iter_content(chunk_size=8192)` are whatever the response lists.
- SHA-256 (`hashlib`): a foreign library. `digest` is an uninterpreted parameter, so the empty-file digest value is not stated.
- `load_checksums` and `json.load`: foreign parsing. The manifest is an already-parsed `map<string, map<string, string>>`, so manifest values that are not strings are not modelled.
- The real file system: replaced by `FsState`. `os.makedirs` creating missing parent folders is not modelled; only the version folder is added. Permission, disk-full and other OS errors are not modelled. `open` failing for a missing parent folder is not modelled, because `main` always creates the folder first.
- `Download.DownloadFile`: the `version` argument of `download_file` only labels the progress bar, so it is dropped.
- The `tqdm` progress bar is modelled only by its byte counter. Its rendering and its `total` are not modelled.
- `colorama` colours, `print_ascii_welcome`, and the text printed by `print_comparison_results` and `main`: presentation only. The match-label decision is kept as `Label`.
- `input()` prompting: the typed lines are parameters. `Workflow.IsSpace` lists the characters for which Python's `str.isspace()` holds, as published for Python 3.
- `KeyboardInterrupt`, and `main`'s generic exception handler beyond the `os.makedirs` case: process-level interrupt handling. Every modelled run ends.
- Several catalogs for several models, and case-insensitive or unknown-valued comparison: the code has none of these.
