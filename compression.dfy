/** The boundary both search loops share: the `browser-image-compression`
    library, seen only through what it is given and what it returns. */
module Compression {

  datatype Option<+T> = None | Some(value: T)

  /** A browser File or Blob: its name and its bytes. */
  datatype File = File(name: string, data: seq<bv8>) {
    /** `file.size`, the number of bytes. */
    function Size(): nat { |data| }
  }

  /** The options object handed to `imageCompression`. */
  datatype Options = Options(
    maxSizeMB: real,
    maxWidthOrHeight: Option<nat>,
    useWebWorker: bool,
    initialQuality: real)

  /** What one `await imageCompression(file, options)` produces: a new file,
      or an exception carrying `err.message`. */
  datatype EncodeOutcome = Encoded(file: File) | Threw(message: string)

  /** The encoder as an uninterpreted, deterministic function. */
  type Encoder = (File, Options) -> EncodeOutcome

  /** One call of the encoder: the file it was handed and the options. */
  datatype Call = Call(input: File, options: Options)

  /** Bytes in one megabyte, as both call sites convert `MB * 1024 * 1024`. */
  const BYTES_PER_MB: real := 1048576.0

  function Outcome(encode: Encoder, c: Call): EncodeOutcome {
    encode(c.input, c.options)
  }

  /** The quality a call asked for. */
  function Quality(c: Call): real {
    c.options.initialQuality
  }

  /** The file a call produced; only defined for a call that did not throw. */
  function Candidate(encode: Encoder, c: Call): File
    requires Outcome(encode, c).Encoded?
  {
    Outcome(encode, c).file
  }

  predicate AllEncoded(encode: Encoder, calls: seq<Call>) {
    forall i :: 0 <= i < |calls| ==> Outcome(encode, calls[i]).Encoded?
  }

  /** `file.size > targetBytes`: the file is over the byte target. */
  predicate Exceeds(f: File, targetBytes: real) {
    f.Size() as real > targetBytes
  }
}
