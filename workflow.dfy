/**
 * The decision flow of `main`: read a version, reject it unless it is in the catalog, reuse
 * an existing download, otherwise create the version folder, attempt both downloads and
 * verify only when both succeeded. The prompts, the screen output and the `input()` calls
 * are outside the model; the lines typed are parameters, and so are the working directory,
 * the HTTP server (a function from URL to `Response`) and SHA-256 (`digest`).
 *
 * The `while True` loop of `main` runs its body once: every branch of the body ends in
 * `return` or `break`, so it is modelled as straight-line code.
 */
module Workflow {
  import opened Base
  import opened Naming
  import opened Checksums
  import opened FileSystem
  import opened Download
  import opened Sha

  /** The characters for which Python's `str.isspace()` holds, which `str.strip()` removes. */
  predicate IsSpace(c: char) {
    ('\t' <= c <= '\r') || ('\U{1C}' <= c <= ' ') || c == '\U{85}' || c == '\U{A0}' ||
    c == '\U{1680}' || ('\U{2000}' <= c <= '\U{200A}') || c == '\U{2028}' || c == '\U{2029}' ||
    c == '\U{202F}' || c == '\U{205F}' || c == '\U{3000}'
  }

  /** `s.lstrip()`: drops the longest all-whitespace prefix. */
  function TrimStart(s: string): (r: string)
    ensures |r| <= |s| && r == s[|s| - |r|..]
    ensures r == [] || !IsSpace(r[0])
    ensures forall i :: 0 <= i < |s| - |r| ==> IsSpace(s[i])
  {
    if s != [] && IsSpace(s[0]) then TrimStart(s[1..]) else s
  }

  /** `s.rstrip()`: drops the longest all-whitespace suffix. */
  function TrimEnd(s: string): (r: string)
    ensures |r| <= |s| && r == s[..|r|]
    ensures r == [] || !IsSpace(r[|r| - 1])
    ensures forall i :: |r| <= i < |s| ==> IsSpace(s[i])
  {
    if s != [] && IsSpace(s[|s| - 1]) then TrimEnd(s[..|s| - 1]) else s
  }

  /** `s.strip()`. */
  function Strip(s: string): (r: string)
    ensures |r| <= |s|
    ensures r == [] || (!IsSpace(r[0]) && !IsSpace(r[|r| - 1]))
  {
    TrimEnd(TrimStart(s))
  }

  lemma {:induction false} TrimStartPadded(pre: string, t: string)
    requires forall i :: 0 <= i < |pre| ==> IsSpace(pre[i])
    requires t == [] || !IsSpace(t[0])
    ensures TrimStart(pre + t) == t
  {
    if pre != [] {
      assert (pre + t)[0] == pre[0];
      assert (pre + t)[1..] == pre[1..] + t;
      TrimStartPadded(pre[1..], t);
    }
  }

  lemma {:induction false} TrimEndPadded(t: string, post: string)
    requires forall i :: 0 <= i < |post| ==> IsSpace(post[i])
    requires t == [] || !IsSpace(t[|t| - 1])
    ensures TrimEnd(t + post) == t
  {
    if post != [] {
      var s := t + post;
      assert s[|s| - 1] == post[|post| - 1];
      assert s[..|s| - 1] == t + post[..|post| - 1];
      TrimEndPadded(t, post[..|post| - 1]);
    }
  }

  /** Whitespace typed around a word is removed, and nothing of the word itself. */
  lemma StripPadded(pre: string, w: string, post: string)
    requires forall i :: 0 <= i < |pre| ==> IsSpace(pre[i])
    requires forall i :: 0 <= i < |post| ==> IsSpace(post[i])
    requires w == [] || (!IsSpace(w[0]) && !IsSpace(w[|w| - 1]))
    ensures Strip(pre + w + post) == w
  {
    if w == [] {
      assert pre + w + post == (pre + post) + [];
      forall i | 0 <= i < |pre + post| ensures IsSpace((pre + post)[i]) {
        if i >= |pre| { assert (pre + post)[i] == post[i - |pre|]; }
      }
      TrimStartPadded(pre + post, []);
    } else {
      assert pre + w + post == pre + (w + post);
      TrimStartPadded(pre, w + post);
      TrimEndPadded(w, post);
    }
  }

  /** Python's `<` on strings: code-point order, a proper prefix first. */
  predicate LexLess(a: string, b: string) {
    if a == [] then b != []
    else if b == [] then false
    else if a[0] != b[0] then a[0] < b[0]
    else LexLess(a[1..], b[1..])
  }

  /** `sorted(AVAILABLE_VERSIONS.keys(), reverse=True)`, the order the version listing shows. */
  function VersionListing(): (r: seq<string>)
    ensures forall v :: v in r <==> v in AvailableVersions
    ensures forall i, j :: 0 <= i < j < |r| ==> LexLess(r[j], r[i])
  {
    ["153", "152", "135", "133"]
  }

  /**
   * The version `main` settles on: the first line stripped, or, when that is empty (the
   * listing is shown), the second line stripped; None when it is empty or not in the catalog.
   */
  function SelectVersion(first: string, second: string): (r: Option<string>)
    ensures r.Some? ==> r.value in AvailableVersions && r.value != ""
    ensures Strip(first) == "" && Strip(second) == "" ==> r.None?
    ensures Strip(first) != "" && Strip(first) !in AvailableVersions ==> r.None?
    ensures Strip(first) in AvailableVersions ==> r == Some(Strip(first))
    ensures r.Some? ==> r.value == if Strip(first) == "" then Strip(second) else Strip(first)
    ensures Strip(first) == "" && Strip(second) in AvailableVersions ==> r == Some(Strip(second))
    ensures Strip(first) == "" && Strip(second) !in AvailableVersions ==> r.None?
  {
    assert "" !in AvailableVersions;
    var versionInput := if Strip(first) == "" then Strip(second) else Strip(first);
    if versionInput == "" || versionInput !in AvailableVersions then None else Some(versionInput)
  }

  /** A catalog version typed with surrounding whitespace is accepted on the first prompt. */
  lemma PaddedVersionAccepted(pre: string, v: string, post: string, second: string)
    requires v in AvailableVersions
    requires forall i :: 0 <= i < |pre| ==> IsSpace(pre[i])
    requires forall i :: 0 <= i < |post| ==> IsSpace(post[i])
    ensures SelectVersion(pre + v + post, second) == Some(v)
  {
    AvailableVersionsAreDigits(v);
    StripPadded(pre, v, post);
  }

  /** How one run of `main` ends. */
  datatype Outcome =
    | InvalidVersion                                  // "Invalid version provided. Exiting..."
    | AlreadyDownloaded(version: string, report: Comparison)
    | Fetched(version: string, leftOk: bool, rightOk: bool, verified: Option<Comparison>)
    | FolderNotCreated(version: string)               // `os.makedirs` raised; main's handler returns

  datatype RunResult = RunResult(outcome: Outcome, fs: FsState)

  /** One run of `main` on file system `fs`. */
  function RunSpec(fs: FsState, cwd: Path, first: string, second: string, manifest: Manifest,
                   server: Path -> Response, digest: Bytes -> string): (r: RunResult)
    ensures r.outcome.InvalidVersion? <==> SelectVersion(first, second).None?
    ensures !r.outcome.Fetched? ==> r.fs == fs
    ensures r.outcome.Fetched? ==> (r.outcome.verified.Some? <==> r.outcome.leftOk && r.outcome.rightOk)
    ensures r.outcome.Fetched? ==> r.fs.dirs == fs.dirs + {VersionFolder(cwd, r.outcome.version)}
    ensures r.outcome.Fetched? ==> OthersUnchanged(fs, r.fs, cwd, r.outcome.version)
    ensures fs.WellFormed() ==> r.fs.WellFormed()
  {
    match SelectVersion(first, second)
    case None => RunResult(InvalidVersion, fs)
    case Some(version) => Proceed(fs, cwd, version, manifest, server, digest)
  }

  /** The idempotence test of `main`: the version folder exists and both package files are files. */
  predicate AlreadyPresent(fs: FsState, cwd: Path, version: string) {
    && fs.Exists(VersionFolder(cwd, version))
    && fs.IsFile(ConstructFilePath(cwd, version, Left))
    && fs.IsFile(ConstructFilePath(cwd, version, Right))
  }

  /** Every file of `fs` other than the two package targets of `version` is still there, unchanged, in `fs'`. */
  predicate OthersUnchanged(fs: FsState, fs': FsState, cwd: Path, version: string) {
    forall p :: p in fs.files && p != DownloadPath(cwd, version, Left) && p != DownloadPath(cwd, version, Right) ==>
      p in fs'.files && fs'.files[p] == fs.files[p]
  }

  /** The part of `main` after `version` has been accepted. */
  function Proceed(fs: FsState, cwd: Path, version: string, manifest: Manifest,
                   server: Path -> Response, digest: Bytes -> string): (r: RunResult)
    ensures !r.outcome.InvalidVersion? && r.outcome.version == version
    ensures !r.outcome.Fetched? ==> r.fs == fs
    ensures r.outcome.Fetched? ==> (r.outcome.verified.Some? <==> r.outcome.leftOk && r.outcome.rightOk)
    ensures r.outcome.Fetched? ==> r.fs.dirs == fs.dirs + {VersionFolder(cwd, version)}
    ensures r.outcome.AlreadyDownloaded? <==> AlreadyPresent(fs, cwd, version)
    ensures r.outcome.FolderNotCreated? <==> !AlreadyPresent(fs, cwd, version) && VersionFolder(cwd, version) in fs.files
    ensures r.outcome.Fetched? ==> OthersUnchanged(fs, r.fs, cwd, version)
    ensures fs.WellFormed() ==> r.fs.WellFormed()
  {
    var leftPath := ConstructFilePath(cwd, version, Left);
    var rightPath := ConstructFilePath(cwd, version, Right);
    if AlreadyPresent(fs, cwd, version) then
      var report := CompareChecksums(version, digest(fs.files[leftPath]), digest(fs.files[rightPath]), manifest);
      RunResult(AlreadyDownloaded(version, report), fs)
    else
      match fs.MakeDirs(VersionFolder(cwd, version))
      case None => RunResult(FolderNotCreated(version), fs)
      case Some(fs1) => FetchBoth(fs1, cwd, version, manifest, server, digest)
  }

  /** Both downloads, in order, into the version folder, then verification if both succeeded. */
  function FetchBoth(fs: FsState, cwd: Path, version: string, manifest: Manifest,
                     server: Path -> Response, digest: Bytes -> string): (r: RunResult)
    ensures r.outcome.Fetched? && r.outcome.version == version
    ensures r.outcome.verified.Some? <==> r.outcome.leftOk && r.outcome.rightOk
    ensures r.fs.dirs == fs.dirs
    ensures OthersUnchanged(fs, r.fs, cwd, version)
    ensures fs.WellFormed() ==> r.fs.WellFormed()
  {
    var leftUrl := FileUrl(version, Left);
    var rightUrl := FileUrl(version, Right);
    var leftTarget := DownloadPath(cwd, version, Left);
    var rightTarget := DownloadPath(cwd, version, Right);
    var left := DownloadSpec(fs, leftTarget, server(leftUrl));
    var right := DownloadSpec(left.fs, rightTarget, server(rightUrl));
    var report :=
      if left.ok && right.ok then
        Some(CompareChecksums(version, digest(right.fs.files[leftTarget]), digest(right.fs.files[rightTarget]), manifest))
      else None;
    RunResult(Fetched(version, left.ok, right.ok, report), right.fs)
  }

  /** `main`. */
  method Run(fs: FileSystem, cwd: Path, first: string, second: string, manifest: Manifest,
             server: Path -> Response, digest: Bytes -> string) returns (outcome: Outcome)
    modifies fs
    ensures RunResult(outcome, fs.View()) == RunSpec(old(fs.View()), cwd, first, second, manifest, server, digest)
  {
    var versionInput := Strip(first);
    if versionInput == "" {
      // the versions are listed in the order of VersionListing() and a second line is read
      versionInput := Strip(second);
    }
    if versionInput == "" || versionInput !in AvailableVersions {
      return InvalidVersion;
    }
    outcome := RunVersion(fs, cwd, versionInput, manifest, server, digest);
  }

  /** `main` from `version = version_input` on. */
  method RunVersion(fs: FileSystem, cwd: Path, version: string, manifest: Manifest,
                    server: Path -> Response, digest: Bytes -> string) returns (outcome: Outcome)
    modifies fs
    ensures RunResult(outcome, fs.View()) == Proceed(old(fs.View()), cwd, version, manifest, server, digest)
  {
    var versionFolder := Join(cwd, version);
    var leftFilePath := ConstructFilePath(cwd, version, Left);
    var rightFilePath := ConstructFilePath(cwd, version, Right);

    ghost var before := fs.View();
    if fs.View().Exists(versionFolder) && fs.View().IsFile(leftFilePath) && fs.View().IsFile(rightFilePath) {
      assert AlreadyPresent(before, cwd, version);
      var leftSha := CalculateSha256(fs, leftFilePath, digest);
      var rightSha := CalculateSha256(fs, rightFilePath, digest);
      outcome := AlreadyDownloaded(version, CompareChecksums(version, leftSha.value, rightSha.value, manifest));
      assert RunResult(outcome, before) == Proceed(before, cwd, version, manifest, server, digest);
      return;
    }

    var created := fs.MakeDirs(versionFolder);
    if !created {
      return FolderNotCreated(version);
    }
    outcome := DownloadAndVerify(fs, cwd, version, manifest, server, digest);
  }

  /** `main` from the creation of the version folder on. */
  method DownloadAndVerify(fs: FileSystem, cwd: Path, version: string, manifest: Manifest,
                           server: Path -> Response, digest: Bytes -> string) returns (outcome: Outcome)
    modifies fs
    ensures RunResult(outcome, fs.View()) == FetchBoth(old(fs.View()), cwd, version, manifest, server, digest)
  {
    var versionFolder := Join(cwd, version);
    var leftFileUrl := FileUrl(version, Left);
    var rightFileUrl := FileUrl(version, Right);
    var leftFilePath := Join(versionFolder, Basename(leftFileUrl));
    var rightFilePath := Join(versionFolder, Basename(rightFileUrl));

    var leftDownloaded, leftProgress := DownloadFile(fs, server, leftFileUrl, leftFilePath);
    var rightDownloaded, rightProgress := DownloadFile(fs, server, rightFileUrl, rightFilePath);

    if leftDownloaded && rightDownloaded {
      var leftSha := CalculateSha256(fs, leftFilePath, digest);
      var rightSha := CalculateSha256(fs, rightFilePath, digest);
      outcome := Fetched(version, true, true, Some(CompareChecksums(version, leftSha.value, rightSha.value, manifest)));
    } else {
      outcome := Fetched(version, leftDownloaded, rightDownloaded, None);
    }
  }

  /** The left and right targets of one version are different files. */
  lemma TargetsDistinct(cwd: Path, version: string)
    requires IsDigits(version)
    ensures DownloadPath(cwd, version, Left) != DownloadPath(cwd, version, Right)
  {
    DigitsHaveNoSlash(version);
    CheckedPathIsDownloadPath(cwd, version, Left);
    CheckedPathIsDownloadPath(cwd, version, Right);
    if DownloadPath(cwd, version, Left) == DownloadPath(cwd, version, Right) {
      FilePathInjective(cwd, version, Left, version, Right);
    }
  }

  /**
   * What the two downloads do: each side succeeds exactly when its own response does and its
   * target is not a directory, the right file never depends on the left response, and a
   * verification compares the digests of the two bodies the server sent.
   */
  lemma FetchBothOutcome(fs: FsState, cwd: Path, version: string, manifest: Manifest,
                         server: Path -> Response, digest: Bytes -> string)
    requires IsDigits(version)
    ensures var o := FetchBoth(fs, cwd, version, manifest, server, digest).outcome;
      o.leftOk <==> Succeeds(server(FileUrl(version, Left))) && DownloadPath(cwd, version, Left) !in fs.dirs
    ensures var o := FetchBoth(fs, cwd, version, manifest, server, digest).outcome;
      o.rightOk <==> Succeeds(server(FileUrl(version, Right))) && DownloadPath(cwd, version, Right) !in fs.dirs
    ensures var r := FetchBoth(fs, cwd, version, manifest, server, digest);
      var target := DownloadPath(cwd, version, Right);
      var response := server(FileUrl(version, Right));
      && (target in r.fs.files <==> target in fs.files || Opens(fs, target, response))
      && (target in r.fs.files ==>
            r.fs.files[target] == if Opens(fs, target, response) then Body(response) else fs.files[target])
    ensures var r := FetchBoth(fs, cwd, version, manifest, server, digest);
      var leftBody := Body(server(FileUrl(version, Left)));
      var rightBody := Body(server(FileUrl(version, Right)));
      r.outcome.verified.Some? ==>
        && DownloadPath(cwd, version, Left) in r.fs.files
        && DownloadPath(cwd, version, Right) in r.fs.files
        && r.fs.files[DownloadPath(cwd, version, Left)] == leftBody
        && r.fs.files[DownloadPath(cwd, version, Right)] == rightBody
        && r.outcome.verified.value == CompareChecksums(version, digest(leftBody), digest(rightBody), manifest)
  {
    var leftTarget := DownloadPath(cwd, version, Left);
    var rightTarget := DownloadPath(cwd, version, Right);
    var leftResponse := server(FileUrl(version, Left));
    var rightResponse := server(FileUrl(version, Right));
    TargetsDistinct(cwd, version);
    var left := DownloadSpec(fs, leftTarget, leftResponse);
    DownloadOutcome(fs, leftTarget, leftResponse);
    DownloadOutcome(left.fs, rightTarget, rightResponse);
    if rightResponse.Reply? {
      WrittenIsConcat(rightResponse.chunks);
    }
  }

  /** When the folder and both files exist, nothing is downloaded and the files on disk are verified. */
  lemma SkipWhenPresent(fs: FsState, cwd: Path, first: string, second: string, manifest: Manifest,
                        server: Path -> Response, digest: Bytes -> string, version: string)
    requires SelectVersion(first, second) == Some(version)
    requires fs.Exists(VersionFolder(cwd, version))
    requires fs.IsFile(ConstructFilePath(cwd, version, Left)) && fs.IsFile(ConstructFilePath(cwd, version, Right))
    ensures RunSpec(fs, cwd, first, second, manifest, server, digest) ==
      RunResult(AlreadyDownloaded(version, CompareChecksums(version,
        digest(fs.files[ConstructFilePath(cwd, version, Left)]),
        digest(fs.files[ConstructFilePath(cwd, version, Right)]), manifest)), fs)
  {
  }

  /**
   * A run downloads exactly when the version is accepted, the pair is not already on disk
   * and the version folder can be created; the rest of the run is then `FetchBoth`.
   */
  lemma FetchedRunIsFetchBoth(fs: FsState, cwd: Path, first: string, second: string, manifest: Manifest,
                              server: Path -> Response, digest: Bytes -> string)
    ensures RunSpec(fs, cwd, first, second, manifest, server, digest).outcome.Fetched? <==>
      && SelectVersion(first, second).Some?
      && !AlreadyPresent(fs, cwd, SelectVersion(first, second).value)
      && fs.MakeDirs(VersionFolder(cwd, SelectVersion(first, second).value)).Some?
    ensures RunSpec(fs, cwd, first, second, manifest, server, digest).outcome.Fetched? ==>
      var version := RunSpec(fs, cwd, first, second, manifest, server, digest).outcome.version;
      && SelectVersion(first, second) == Some(version)
      && IsDigits(version)
      && RunSpec(fs, cwd, first, second, manifest, server, digest) ==
           FetchBoth(fs.MakeDirs(VersionFolder(cwd, version)).value, cwd, version, manifest, server, digest)
  {
    if SelectVersion(first, second).Some? {
      AvailableVersionsAreDigits(SelectVersion(first, second).value);
    }
  }

  /**
   * When both downloads succeed, the report compares the digests of exactly the two
   * bodies the server sent.
   */
  lemma ReportCoversDownloadedBodies(fs: FsState, cwd: Path, first: string, second: string, manifest: Manifest,
                                     server: Path -> Response, digest: Bytes -> string)
    requires RunSpec(fs, cwd, first, second, manifest, server, digest).outcome.Fetched?
    requires RunSpec(fs, cwd, first, second, manifest, server, digest).outcome.verified.Some?
    ensures var o := RunSpec(fs, cwd, first, second, manifest, server, digest).outcome;
      o.verified.value == CompareChecksums(o.version,
        digest(Body(server(FileUrl(o.version, Left)))),
        digest(Body(server(FileUrl(o.version, Right)))), manifest)
  {
    FetchedRunIsFetchBoth(fs, cwd, first, second, manifest, server, digest);
    var version := SelectVersion(first, second).value;
    FetchBothOutcome(fs.MakeDirs(VersionFolder(cwd, version)).value, cwd, version, manifest, server, digest);
  }

  /**
   * The right download is attempted whatever happened to the left one: two servers that
   * answer the right URL alike give the same right result and the same right file.
   */
  lemma RightDownloadIndependentOfLeft(fs: FsState, cwd: Path, first: string, second: string, manifest: Manifest,
                                       server1: Path -> Response, server2: Path -> Response,
                                       digest: Bytes -> string, version: string)
    requires SelectVersion(first, second) == Some(version)
    requires server1(FileUrl(version, Right)) == server2(FileUrl(version, Right))
    requires RunSpec(fs, cwd, first, second, manifest, server1, digest).outcome.Fetched?
    ensures var r1 := RunSpec(fs, cwd, first, second, manifest, server1, digest);
      var r2 := RunSpec(fs, cwd, first, second, manifest, server2, digest);
      var rightTarget := DownloadPath(cwd, version, Right);
      && r2.outcome.Fetched?
      && r1.outcome.rightOk == r2.outcome.rightOk
      && (rightTarget in r1.fs.files <==> rightTarget in r2.fs.files)
      && (rightTarget in r1.fs.files ==> r1.fs.files[rightTarget] == r2.fs.files[rightTarget])
  {
    FetchedRunIsFetchBoth(fs, cwd, first, second, manifest, server1, digest);
    var fs1 := fs.MakeDirs(VersionFolder(cwd, version)).value;
    FetchedRunIsFetchBoth(fs, cwd, first, second, manifest, server2, digest);
    FetchBothOutcome(fs1, cwd, version, manifest, server1, digest);
    FetchBothOutcome(fs1, cwd, version, manifest, server2, digest);
  }

  /**
   * Idempotence: after a run that downloaded both files, a second run for the same version
   * (with any server, even one that cannot be reached) downloads nothing, changes nothing
   * and reproduces the report.
   */
  lemma SecondRunReusesDownload(fs: FsState, cwd: Path, first: string, second: string, manifest: Manifest,
                                server: Path -> Response, digest: Bytes -> string,
                                first2: string, second2: string, server2: Path -> Response)
    requires var o := RunSpec(fs, cwd, first, second, manifest, server, digest).outcome;
      o.Fetched? && o.verified.Some? && SelectVersion(first2, second2) == Some(o.version)
    ensures var r1 := RunSpec(fs, cwd, first, second, manifest, server, digest);
      RunSpec(r1.fs, cwd, first2, second2, manifest, server2, digest) ==
        RunResult(AlreadyDownloaded(r1.outcome.version, r1.outcome.verified.value), r1.fs)
  {
    var r1 := RunSpec(fs, cwd, first, second, manifest, server, digest);
    var version := r1.outcome.version;
    FetchedRunIsFetchBoth(fs, cwd, first, second, manifest, server, digest);
    var fs1 := fs.MakeDirs(VersionFolder(cwd, version)).value;
    FetchBothOutcome(fs1, cwd, version, manifest, server, digest);
    DigitsHaveNoSlash(version);
    CheckedPathIsDownloadPath(cwd, version, Left);
    CheckedPathIsDownloadPath(cwd, version, Right);
    assert r1.fs.Exists(VersionFolder(cwd, version));
    SkipWhenPresent(r1.fs, cwd, first2, second2, manifest, server2, digest, version);
  }

  /**
   * A run for one version leaves the package files of every other version alone: local
   * paths are injective over (version, side), and a run touches only its own two targets.
   */
  lemma OtherVersionUntouched(fs: FsState, cwd: Path, first: string, second: string, manifest: Manifest,
                              server: Path -> Response, digest: Bytes -> string, other: string, side: Side)
    requires IsDigits(other)
    requires SelectVersion(first, second) != Some(other)
    requires ConstructFilePath(cwd, other, side) in fs.files
    ensures var r := RunSpec(fs, cwd, first, second, manifest, server, digest);
      && ConstructFilePath(cwd, other, side) in r.fs.files
      && r.fs.files[ConstructFilePath(cwd, other, side)] == fs.files[ConstructFilePath(cwd, other, side)]
  {
    var r := RunSpec(fs, cwd, first, second, manifest, server, digest);
    if r.outcome.Fetched? {
      var version := r.outcome.version;
      var p := ConstructFilePath(cwd, other, side);
      AvailableVersionsAreDigits(version);
      DigitsHaveNoSlash(version);
      CheckedPathIsDownloadPath(cwd, version, Left);
      CheckedPathIsDownloadPath(cwd, version, Right);
      if p == DownloadPath(cwd, version, Left) {
        FilePathInjective(cwd, other, side, version, Left);
      } else if p == DownloadPath(cwd, version, Right) {
        FilePathInjective(cwd, other, side, version, Right);
      }
    }
  }
}
