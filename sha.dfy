/**
 * `calculate_sha256`: the file is read in 4096-byte chunks and each chunk is folded into a
 * running hash state. SHA-256 itself is not modelled: `digest` stands for the hex digest of
 * a byte string, and the hash state is represented by the bytes absorbed so far, which is
 * all that `sha256.update` calls determine (updating with `a` then `b` equals updating with `a + b`).
 */
module Sha {
  import opened Base
  import opened FileSystem

  /** The read size of `f.read(4096)`. */
  const ChunkSize: nat := 4096

  /** A `hashlib.sha256()` object. */
  datatype HashState = HashState(absorbed: Bytes)

  /** `sha256.update(chunk)`. */
  function Update(state: HashState, chunk: Bytes): HashState {
    HashState(state.absorbed + chunk)
  }

  /** `sha256.hexdigest()`. */
  function HexDigest(state: HashState, digest: Bytes -> string): string {
    digest(state.absorbed)
  }

  /**
   * `calculate_sha256(path)`: None when `open(path, "rb")` raises (no such file); otherwise
   * the digest of the whole file, however it was split into reads.
   */
  method CalculateSha256(fs: FileSystem, path: Path, digest: Bytes -> string) returns (hex: Option<string>)
    ensures hex == if path in fs.files then Some(digest(fs.files[path])) else None
  {
    if path !in fs.files {
      return None;
    }
    var contents := fs.files[path];
    var sha256 := HashState([]);
    var pos := 0;
    while true
      invariant 0 <= pos <= |contents|
      invariant sha256.absorbed == contents[..pos]
      decreases |contents| - pos
    {
      var end := if pos + ChunkSize <= |contents| then pos + ChunkSize else |contents|;
      var chunk := contents[pos..end];
      if chunk == [] {
        break;
      }
      assert contents[..end] == contents[..pos] + chunk;
      sha256 := Update(sha256, chunk);
      pos := end;
    }
    assert contents[..pos] == contents;
    hex := Some(HexDigest(sha256, digest));
  }
}
