/** Checksum comparison: `compare_checksums` and the match column of `print_comparison_results`. */
module Checksums {
  import opened Base
  import opened Naming

  /** The parsed `checksums.json`: version id to side name ("left"/"right") to expected hex digest. */
  type Manifest = map<string, map<string, string>>

  /** The dictionary `compare_checksums` returns. */
  datatype Comparison = Comparison(
    leftFileChecksum: string,
    rightFileChecksum: string,
    leftMatch: bool,
    rightMatch: bool)

  /**
   * `checksums.get(version, {"left": None, "right": None}).get(side)`: the expected digest,
   * or None when the version or the side is missing (the default dictionary holds only None).
   */
  function Expected(manifest: Manifest, version: string, side: Side): Option<string> {
    var entry := if version in manifest then manifest[version] else map[];
    if side.Token() in entry then Some(entry[side.Token()]) else None
  }

  /** `compare_checksums`: exact, case-sensitive string equality against the manifest entry. */
  function CompareChecksums(version: string, leftDigest: string, rightDigest: string, manifest: Manifest): (r: Comparison)
    ensures r.leftFileChecksum == leftDigest && r.rightFileChecksum == rightDigest
    ensures r.leftMatch <==> version in manifest && "left" in manifest[version] && manifest[version]["left"] == leftDigest
    ensures r.rightMatch <==> version in manifest && "right" in manifest[version] && manifest[version]["right"] == rightDigest
  {
    Comparison(leftDigest, rightDigest,
      Expected(manifest, version, Left) == Some(leftDigest),
      Expected(manifest, version, Right) == Some(rightDigest))
  }

  /** A missing version entry or a missing side gives a plain mismatch, never an unknown. */
  lemma MissingEntryIsMismatch(version: string, leftDigest: string, rightDigest: string, manifest: Manifest)
    ensures version !in manifest ==>
      !CompareChecksums(version, leftDigest, rightDigest, manifest).leftMatch &&
      !CompareChecksums(version, leftDigest, rightDigest, manifest).rightMatch
    ensures version in manifest && "left" !in manifest[version] ==>
      !CompareChecksums(version, leftDigest, rightDigest, manifest).leftMatch
    ensures version in manifest && "right" !in manifest[version] ==>
      !CompareChecksums(version, leftDigest, rightDigest, manifest).rightMatch
  {
  }

  /** ASCII lower-casing, used only to state which digests differ in letter case alone. */
  function Lower(s: string): string {
    seq(|s|, i requires 0 <= i < |s| => if 'A' <= s[i] <= 'Z' then (s[i] as int + 32) as char else s[i])
  }

  /**
   * A digest that differs from the stored one only in letter case does not match: the
   * comparison is plain string equality, with no case folding.
   */
  lemma ComparisonIsCaseSensitive(version: string, leftDigest: string, rightDigest: string, manifest: Manifest)
    ensures version in manifest && "left" in manifest[version] &&
            manifest[version]["left"] != leftDigest && Lower(manifest[version]["left"]) == Lower(leftDigest) ==>
              !CompareChecksums(version, leftDigest, rightDigest, manifest).leftMatch
    ensures version in manifest && "right" in manifest[version] &&
            manifest[version]["right"] != rightDigest && Lower(manifest[version]["right"]) == Lower(rightDigest) ==>
              !CompareChecksums(version, leftDigest, rightDigest, manifest).rightMatch
  {
  }

  /** Such digests exist: "ab" and "AB" agree after lower-casing and still do not match. */
  lemma CaseVariantExample()
    ensures Lower("AB") == Lower("ab")
    ensures !CompareChecksums("153", "ab", "", map["153" := map["left" := "AB", "right" := "CD"]]).leftMatch
  {
    assert Lower("AB") == "ab";
    assert Lower("ab") == "ab";
  }

  /** The three texts `print_comparison_results` can show for a match flag. */
  datatype MatchLabel = Match | NoMatch | NotAvailable

  /** `'Match' if m else 'No match' if m is not None else 'Not available'`, with Python's None as `None`. */
  function Label(m: Option<bool>): (r: MatchLabel)
    ensures r == NotAvailable <==> m == None
    ensures r == Match <==> m == Some(true)
  {
    match m
    case Some(true) => Match
    case Some(false) => NoMatch
    case None => NotAvailable
  }

  /**
   * The "Not available" label cannot be shown for a result of `CompareChecksums`. The fact
   * comes from the match flags having type `bool`: Python's `==` between a string and any
   * value (including the None that `.get` yields for a missing key) gives True or False,
   * never None, so the printer only ever sees `Some(b)`.
   */
  lemma NotAvailableUnreachable(version: string, leftDigest: string, rightDigest: string, manifest: Manifest)
    ensures Label(Some(CompareChecksums(version, leftDigest, rightDigest, manifest).leftMatch)) != NotAvailable
    ensures Label(Some(CompareChecksums(version, leftDigest, rightDigest, manifest).rightMatch)) != NotAvailable
    ensures version !in manifest ==>
      Label(Some(CompareChecksums(version, leftDigest, rightDigest, manifest).leftMatch)) == NoMatch
  {
  }
}
