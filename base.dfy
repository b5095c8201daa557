/** Types shared by the modules of the firmware-downloader model. */
module Base {

  /** One octet of a file or of an HTTP body. */
  newtype byte = b: int | 0 <= b < 256

  /** The contents of a file, or one chunk of a response body. */
  type Bytes = seq<byte>

  /** A file-system path or a URL, as a Python `str`. */
  type Path = string

  datatype Option<+T> = None | Some(value: T)
}
