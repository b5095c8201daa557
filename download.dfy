/**
 * `download_file` with the HTTP transport abstracted: the server's answer to a GET of a URL
 * is a `Response` value, and the body arrives as a sequence of chunks.
 */
module Download {
  import opened Base
  import opened FileSystem

  /** The `content-length` header as `int(response.headers.get('content-length', 0))` sees it. */
  datatype ContentLength =
    | Missing             // no header: the default 0
    | Malformed           // a header `int()` cannot parse: ValueError
    | Declared(n: int)    // a header that parses to n

  /** What `requests.get(url, stream=True)` and the body stream yield. */
  datatype Response =
    | ConnectionFailed    // `requests.get` raised before any response
    | Reply(
        statusOk: bool,                 // false: `raise_for_status` raises HTTPError
        contentLength: ContentLength,
        chunks: seq<Bytes>,             // what `iter_content(chunk_size=8192)` yields, in order
        interrupted: bool)              // the stream raises after yielding `chunks`

  /** The observable effect of one call: its return value, the new file system, and the progress counter. */
  datatype Transfer = Transfer(ok: bool, fs: FsState, progress: nat)

  /** The body bytes `download_file` writes: the non-empty chunks, in order (`if chunk: file.write(chunk)`). */
  function Written(chunks: seq<Bytes>): Bytes {
    if chunks == [] then []
    else
      var last := chunks[|chunks| - 1];
      Written(chunks[..|chunks| - 1]) + (if last != [] then last else [])
  }

  /** Reference definition: the plain concatenation of all chunks. */
  function Concat(chunks: seq<Bytes>): Bytes {
    if chunks == [] then [] else chunks[0] + Concat(chunks[1..])
  }

  /** All the body bytes a response carries; none when the request failed. */
  function Body(response: Response): Bytes {
    if response.Reply? then Concat(response.chunks) else []
  }

  /** Reference definition: the sum of the chunk lengths. */
  function TotalLength(chunks: seq<Bytes>): nat {
    if chunks == [] then 0 else |chunks[0]| + TotalLength(chunks[1..])
  }

  /** Whether the size check lets the download through (`if total_size == 0: return False`). */
  predicate SizeKnown(length: ContentLength) {
    length.Declared? && length.n != 0
  }

  /** Whether `download_file` gets as far as opening the destination file. */
  predicate Opens(fs: FsState, path: Path, response: Response) {
    response.Reply? && response.statusOk && SizeKnown(response.contentLength) && path !in fs.dirs
  }

  /** Whether a response lets a download run to completion: it arrived, with a success status and a non-zero size, and the stream did not fail. */
  predicate Succeeds(response: Response) {
    response.Reply? && response.statusOk && SizeKnown(response.contentLength) && !response.interrupted
  }

  /** `download_file(url, path, version)` against a server that answers `response`. */
  function DownloadSpec(fs: FsState, path: Path, response: Response): (r: Transfer)
    ensures !Opens(fs, path, response) ==> r == Transfer(false, fs, 0)
    ensures r.ok <==> Succeeds(response) && path !in fs.dirs
    ensures path in r.fs.files <==> path in fs.files || Opens(fs, path, response)
    ensures r.fs.dirs == fs.dirs && fs.files.Keys <= r.fs.files.Keys
    ensures forall p :: p in fs.files && p != path ==> r.fs.files[p] == fs.files[p]
    ensures fs.WellFormed() ==> r.fs.WellFormed()
  {
    if !Opens(fs, path, response) then Transfer(false, fs, 0)
    else
      var body := Written(response.chunks);
      Transfer(!response.interrupted, fs.(files := fs.files[path := body]), |body|)
  }

  lemma {:induction false} ConcatSnoc(chunks: seq<Bytes>, c: Bytes)
    ensures Concat(chunks + [c]) == Concat(chunks) + c
    ensures TotalLength(chunks + [c]) == TotalLength(chunks) + |c|
  {
    if chunks != [] {
      assert (chunks + [c])[1..] == chunks[1..] + [c];
      ConcatSnoc(chunks[1..], c);
    }
  }

  /** Skipping empty chunks loses nothing: the file holds every byte of the body, and the progress count is the body's length. */
  lemma {:induction false} WrittenIsConcat(chunks: seq<Bytes>)
    ensures Written(chunks) == Concat(chunks)
    ensures |Written(chunks)| == TotalLength(chunks)
  {
    if chunks != [] {
      var init := chunks[..|chunks| - 1];
      var last := chunks[|chunks| - 1];
      WrittenIsConcat(init);
      assert chunks == init + [last];
      ConcatSnoc(init, last);
    }
  }

  /** The outcome of `download_file`, case by case. */
  lemma DownloadOutcome(fs: FsState, path: Path, response: Response)
    ensures DownloadSpec(fs, path, response).ok <==>
      response.Reply? && response.statusOk && SizeKnown(response.contentLength) &&
      path !in fs.dirs && !response.interrupted
    ensures response.ConnectionFailed? || !response.statusOk || !SizeKnown(response.contentLength) ==>
      DownloadSpec(fs, path, response).fs == fs
    ensures DownloadSpec(fs, path, response).ok ==>
      DownloadSpec(fs, path, response).fs.files[path] == Concat(response.chunks) &&
      DownloadSpec(fs, path, response).progress == TotalLength(response.chunks)
  {
    if response.Reply? {
      WrittenIsConcat(response.chunks);
    }
  }

  /** An interrupted stream leaves the bytes delivered so far in the file and reports failure. */
  lemma InterruptedLeavesPartialFile(fs: FsState, path: Path, response: Response)
    requires Opens(fs, path, response) && response.interrupted
    ensures !DownloadSpec(fs, path, response).ok
    ensures DownloadSpec(fs, path, response).fs.files[path] == Concat(response.chunks)
  {
    WrittenIsConcat(response.chunks);
  }

  /** `download_file`: fetch `url` from `server` and stream its body into `path`. */
  method DownloadFile(fs: FileSystem, server: Path -> Response, url: Path, path: Path) returns (ok: bool, progress: nat)
    modifies fs
    ensures Transfer(ok, fs.View(), progress) == DownloadSpec(old(fs.View()), path, server(url))
  {
    var response := server(url);
    if response.ConnectionFailed? || !response.statusOk {
      return false, 0;
    }
    var totalSize: int;
    match response.contentLength {
      case Malformed => return false, 0;
      case Missing => totalSize := 0;
      case Declared(n) => totalSize := n;
    }
    if totalSize == 0 {
      return false, 0;
    }
    var isOpen := fs.OpenForWrite(path);
    if !isOpen {
      return false, 0;
    }
    var chunks := response.chunks;
    progress := 0;
    var i := 0;
    while i < |chunks|
      invariant 0 <= i <= |chunks|
      invariant fs.dirs == old(fs.dirs)
      invariant fs.files == old(fs.files)[path := Written(chunks[..i])]
      invariant progress == |Written(chunks[..i])|
    {
      var chunk := chunks[i];
      assert chunks[..i + 1][..i] == chunks[..i];
      assert Written(chunks[..i + 1]) == Written(chunks[..i]) + (if chunk != [] then chunk else []);
      if chunk != [] {
        fs.Append(path, chunk);
        progress := progress + |chunk|;
        assert fs.files == old(fs.files)[path := Written(chunks[..i]) + chunk];
      } else {
        assert Written(chunks[..i + 1]) == Written(chunks[..i]);
      }
      i := i + 1;
    }
    assert chunks[..i] == chunks;
    ok := !response.interrupted;
  }
}
