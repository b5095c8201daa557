/**
 * Artifact naming: the firmware catalog, the URL of each earpiece's package,
 * and the local path a package is checked at and downloaded to
 * (`BASE_URL`, `AVAILABLE_VERSIONS`, `construct_file_path` and the inline
 * URL and path building in `main`).
 */
module Naming {
  import opened Base

  /** `BASE_URL`: everything of a package URL up to the version digits. */
  const BaseUrl: string := "http://twsfota.198509.xyz/tws_fota_bin/S505/AB1562AE/S505_cc%20ultra_AB1562AE_V310.6.505."

  /** The fixed text of a package file name before the version digits. */
  const PackagePrefix: string := "S505_cc%20ultra_AB1562AE_V310.6.505."

  /** The fixed text of a package file name after the side token. */
  const PackageSuffix: string := "_FotaPackage.bin"

  /** `AVAILABLE_VERSIONS`: version id to the line shown in the version listing. */
  const AvailableVersions: map<string, string> := map[
    "153" := "Version 153 is available.",
    "152" := "Version 152 is available.",
    "135" := "Version 135 is available.",
    "133" := "Version 133 is available."
  ]

  /** The earpiece a package is for; the source passes it as the string "left" or "right". */
  datatype Side = Left | Right {
    function Token(): string {
      match this
      case Left => "left"
      case Right => "right"
    }
  }

  /** The package URL, as the f-strings of `main` and `construct_file_path` build it. */
  function FileUrl(version: string, side: Side): string {
    BaseUrl + version + "_fota/" + PackagePrefix + version + "_" + side.Token() + PackageSuffix
  }

  /** The expected local file name: the URL's last segment, with `%20` left as it is. */
  function PackageName(version: string, side: Side): string {
    PackagePrefix + version + "_" + side.Token() + PackageSuffix
  }

  /** Python's `str.rfind('/')`: the index of the last '/', or -1 when there is none. */
  function LastSlash(s: string): (r: int)
    ensures -1 <= r < |s|
    ensures 0 <= r ==> s[r] == '/'
    ensures forall j :: r < j < |s| ==> s[j] != '/'
  {
    if s == [] then -1
    else if s[|s| - 1] == '/' then |s| - 1
    else LastSlash(s[..|s| - 1])
  }

  /** `os.path.basename` (POSIX): the part of `p` after its last '/'. */
  function Basename(p: string): (r: string)
    ensures |r| <= |p| && r == p[|p| - |r|..]
    ensures '/' !in r
    ensures |r| == |p| || p[|p| - |r| - 1] == '/'
  {
    p[LastSlash(p) + 1..]
  }

  /** `os.path.join(a, b)` (POSIX): an absolute `b` replaces `a`; otherwise a '/' is put between them unless `a` is empty or already ends in one. */
  function Join(a: string, b: string): (r: string)
    ensures |b| <= |r| && r[|r| - |b|..] == b
    ensures (b == [] || b[0] != '/') ==> |a| <= |r| && r[..|a|] == a
    ensures (b == [] || b[0] != '/') && a != [] && a[|a| - 1] != '/' ==> r == a + "/" + b
    ensures |b| > 0 && b[0] == '/' ==> r == b
    ensures (b == [] || b[0] != '/') ==> |r| == |a| + |b| + (if a == [] || a[|a| - 1] == '/' then 0 else 1)
  {
    if |b| > 0 && b[0] == '/' then b
    else if a == [] || a[|a| - 1] == '/' then a + b
    else a + "/" + b
  }

  /** `version_folder` in `main`: `os.path.join(os.getcwd(), version)`. */
  function VersionFolder(cwd: Path, version: string): Path {
    Join(cwd, version)
  }

  /** `construct_file_path`: `os.path.join(cwd, version, basename(url))`, which joins left to right. */
  function ConstructFilePath(cwd: Path, version: string, side: Side): Path {
    Join(Join(cwd, version), Basename(FileUrl(version, side)))
  }

  /** The path `main` downloads to: `os.path.join(version_folder, os.path.basename(url))`. */
  function DownloadPath(cwd: Path, version: string, side: Side): Path {
    Join(VersionFolder(cwd, version), Basename(FileUrl(version, side)))
  }

  /** A version id made of decimal digits only, as every key of `AvailableVersions` is. */
  predicate IsDigits(s: string) {
    forall i :: 0 <= i < |s| ==> '0' <= s[i] <= '9'
  }

  lemma AvailableVersionsAreDigits(v: string)
    requires v in AvailableVersions
    ensures IsDigits(v) && v != ""
  {
  }

  /** Basename of a path whose last separator stands right before `n`. */
  lemma BasenameAfterSeparator(p: string, n: string)
    requires '/' !in n
    requires p == [] || p[|p| - 1] == '/'
    ensures Basename(p + n) == n
  {
    var s := p + n;
    var r := LastSlash(s);
    forall j | |p| <= j < |s| ensures s[j] != '/' {
      assert s[j] == n[j - |p|];
    }
    if p != [] {
      assert s[|p| - 1] == '/';
    }
    assert r == |p| - 1;
    assert s[|p|..] == n;
  }

  /** Joining a plain file name onto any directory keeps the name as the basename. */
  lemma BasenameOfJoin(a: string, n: string)
    requires n != [] && '/' !in n
    ensures Basename(Join(a, n)) == n
  {
    assert n[0] in n;
    if a == [] || a[|a| - 1] == '/' {
      BasenameAfterSeparator(a, n);
    } else {
      assert Join(a, n) == (a + "/") + n;
      BasenameAfterSeparator(a + "/", n);
    }
  }

  lemma NoSlashInConcat(a: string, b: string)
    requires '/' !in a && '/' !in b
    ensures '/' !in a + b
  {
  }

  lemma DigitsHaveNoSlash(v: string)
    requires IsDigits(v)
    ensures '/' !in v
  {
  }

  lemma PackageNameHasNoSlash(version: string, side: Side)
    requires '/' !in version
    ensures PackageName(version, side) != [] && '/' !in PackageName(version, side)
  {
  }

  /** The basename rule applied to a package URL yields the literal package name. */
  lemma BasenameOfFileUrl(version: string, side: Side)
    requires '/' !in version
    ensures Basename(FileUrl(version, side)) == PackageName(version, side)
  {
    PackageNameHasNoSlash(version, side);
    var dir := BaseUrl + version + "_fota/";
    assert FileUrl(version, side) == dir + PackageName(version, side);
    assert dir[|dir| - 1] == '/';
    BasenameAfterSeparator(dir, PackageName(version, side));
  }

  /**
   * The path whose existence `main` checks is the path it downloads to, and both are
   * the version folder joined with the literal package name.
   */
  lemma CheckedPathIsDownloadPath(cwd: Path, version: string, side: Side)
    requires '/' !in version
    ensures ConstructFilePath(cwd, version, side) == DownloadPath(cwd, version, side)
    ensures DownloadPath(cwd, version, side) == Join(VersionFolder(cwd, version), PackageName(version, side))
    ensures Basename(ConstructFilePath(cwd, version, side)) == PackageName(version, side)
  {
    BasenameOfFileUrl(version, side);
    PackageNameHasNoSlash(version, side);
    BasenameOfJoin(VersionFolder(cwd, version), PackageName(version, side));
  }

  /** Digit strings followed by an underscore split uniquely. */
  lemma DigitsBeforeUnderscore(a: string, x: string, b: string, y: string)
    requires IsDigits(a) && IsDigits(b)
    requires x != [] && x[0] == '_' && y != [] && y[0] == '_'
    requires a + x == b + y
    ensures a == b && x == y
  {
    assert a == (a + x)[..|a|] && b == (b + y)[..|b|];
    assert x == (a + x)[|a|..] && y == (b + y)[|b|..];
  }

  lemma CancelPrefix(p: string, x: string, y: string)
    requires p + x == p + y
    ensures x == y
  {
    assert x == (p + x)[|p|..] && y == (p + y)[|p|..];
  }

  /** What follows the version digits in a package name. */
  function SideTail(side: Side): string {
    "_" + side.Token() + PackageSuffix
  }

  lemma PackageNameSplit(version: string, side: Side)
    ensures PackageName(version, side) == PackagePrefix + (version + SideTail(side))
  {
  }

  lemma SideTailInjective(s1: Side, s2: Side)
    requires SideTail(s1) == SideTail(s2)
    ensures s1 == s2
  {
    assert SideTail(s1)[1] == s1.Token()[0];
    assert SideTail(s2)[1] == s2.Token()[0];
  }

  /** Distinct (version, side) pairs of digit-only versions give distinct package names. */
  lemma PackageNameInjective(v1: string, s1: Side, v2: string, s2: Side)
    requires IsDigits(v1) && IsDigits(v2)
    requires PackageName(v1, s1) == PackageName(v2, s2)
    ensures v1 == v2 && s1 == s2
  {
    PackageNameSplit(v1, s1);
    PackageNameSplit(v2, s2);
    CancelPrefix(PackagePrefix, v1 + SideTail(s1), v2 + SideTail(s2));
    DigitsBeforeUnderscore(v1, SideTail(s1), v2, SideTail(s2));
    SideTailInjective(s1, s2);
  }

  /** URL construction is injective over (version, side) for digit-only versions. */
  lemma FileUrlInjective(v1: string, s1: Side, v2: string, s2: Side)
    requires IsDigits(v1) && IsDigits(v2)
    requires FileUrl(v1, s1) == FileUrl(v2, s2)
    ensures v1 == v2 && s1 == s2
  {
    DigitsHaveNoSlash(v1);
    DigitsHaveNoSlash(v2);
    BasenameOfFileUrl(v1, s1);
    BasenameOfFileUrl(v2, s2);
    PackageNameInjective(v1, s1, v2, s2);
  }

  /** Local paths are injective too, so no two (version, side) pairs share a file. */
  lemma FilePathInjective(cwd: Path, v1: string, s1: Side, v2: string, s2: Side)
    requires IsDigits(v1) && IsDigits(v2)
    requires ConstructFilePath(cwd, v1, s1) == ConstructFilePath(cwd, v2, s2)
    ensures v1 == v2 && s1 == s2
  {
    DigitsHaveNoSlash(v1);
    DigitsHaveNoSlash(v2);
    CheckedPathIsDownloadPath(cwd, v1, s1);
    CheckedPathIsDownloadPath(cwd, v2, s2);
    PackageNameInjective(v1, s1, v2, s2);
  }

  /** For one version, the left and right URLs agree everywhere except in the side token. */
  lemma SidesDifferOnlyInToken(version: string)
    ensures exists stem, tail ::
      FileUrl(version, Left) == stem + "left" + tail && FileUrl(version, Right) == stem + "right" + tail
  {
    var stem := BaseUrl + version + "_fota/" + PackagePrefix + version + "_";
    var tail := PackageSuffix;
    assert FileUrl(version, Left) == stem + "left" + tail && FileUrl(version, Right) == stem + "right" + tail;
  }
}
