/**
 * The environment of the object layer: the SHA-1 digest, the zlib codec and
 * the filesystem, each reduced to what the object layer relies on.
 */
module Store {
  import opened Wrappers
  import opened Bytes
  import opened Paths

  /** A SHA-1 digest: 20 bytes. */
  type Digest = d: seq<byte> | |d| == 20 witness seq(20, i => 0)

  /** The digest engine (`crypto/sha1`), taken as a parameter: any total function to 20 bytes. */
  type Sha1 = seq<byte> -> Digest

  /**
   * What a zlib reader yields: the bytes it produces before it stops, and
   * whether it stopped at a clean end of stream (`io.EOF`) rather than at a
   * corrupt or truncated one.
   */
  datatype Inflated = Inflated(data: seq<byte>, complete: bool)

  /**
   * The codec (`compress/zlib`). `compress` is what a writer that is written
   * to and then closed has emitted; `unclosed` is what it has emitted when it
   * is written to and never closed, so that the compressor still holds back
   * what it buffers. `decompress` is `None` when `zlib.NewReader` rejects the
   * stream header.
   */
  datatype Codec = Codec(
    compress: seq<byte> -> seq<byte>,
    unclosed: seq<byte> -> seq<byte>,
    decompress: seq<byte> -> Option<Inflated>)

  /** Decompressing what was compressed gives back the same bytes and a clean end of stream. */
  ghost predicate Lossless(z: Codec)
  {
    forall x :: z.decompress(z.compress(x)) == Some(Inflated(x, true))
  }

  /**
   * A stream whose writer was never closed is unfinished: it has a valid
   * header, inflates to at most a prefix of what was written, and ends in an
   * error rather than at a clean end of stream.
   */
  ghost predicate UnclosedIsTruncated(z: Codec)
  {
    forall x :: z.decompress(z.unclosed(x)).Some? &&
      !z.decompress(z.unclosed(x)).value.complete &&
      z.decompress(z.unclosed(x)).value.data <= x
  }

  /** `x` is small enough that the compressor buffers all of it: an unclosed writer has emitted only the stream header. */
  ghost predicate HeldBack(z: Codec, x: seq<byte>)
  {
    z.decompress(z.unclosed(x)) == Some(Inflated([], false))
  }

  /** The errors of the object layer: one per error path of the source that the model keeps. */
  datatype Error =
    | InvalidHash                 // "invalid hash given"
    | OpenFile(path: Path)        // "open file: ..."
    | CreateZlibReader(path: Path) // "create zlib reader: ..."
    | ReadByte(atEof: bool)       // "read byte: ..." (io.EOF, or the stream's error)
    | Mkdir(path: Path)           // "mkdir: ..."
    | CreateFile(path: Path)      // "create blob file: ..."

  /** The filesystem: the directories that exist and the regular files with their bytes. */
  datatype Fs = Fs(dirs: set<Path>, files: map<Path, seq<byte>>)

  /** No path is both a directory and a regular file. */
  predicate Wf(fs: Fs)
  {
    fs.dirs !! fs.files.Keys
  }

  /** What `os.Open` hands back. */
  datatype File = Regular(bytes: seq<byte>) | Directory

  /** `os.MkdirAll(d)`: fails when `d` exists as a regular file; a no-op when it is already a directory. */
  function MkdirAll(fs: Fs, d: Path): (r: Result<Fs, Error>)
    ensures r.Failure? <==> d in fs.files
    ensures r.Failure? ==> r.error == Mkdir(d)
    ensures r.Success? ==> r.value.files == fs.files && r.value.dirs == fs.dirs + {d}
    ensures r.Success? && Wf(fs) ==> Wf(r.value)
  {
    if d in fs.files then Failure(Mkdir(d)) else Success(fs.(dirs := fs.dirs + {d}))
  }

  /**
   * `os.Create(p)` followed by writing `bytes`: fails when `p` is a directory,
   * otherwise creates or truncates the file and leaves it holding `bytes`.
   */
  function Create(fs: Fs, p: Path, bytes: seq<byte>): (r: Result<Fs, Error>)
    ensures r.Failure? <==> p in fs.dirs
    ensures r.Failure? ==> r.error == CreateFile(p)
    ensures r.Success? ==> r.value.dirs == fs.dirs && r.value.files == fs.files[p := bytes]
    ensures r.Success? && Wf(fs) ==> Wf(r.value)
  {
    if p in fs.dirs then Failure(CreateFile(p)) else Success(fs.(files := fs.files[p := bytes]))
  }

  /** `os.Open(p)`: a directory opens as well as a regular file; anything else is an error. */
  function Open(fs: Fs, p: Path): (r: Result<File, Error>)
    ensures r.Failure? <==> p !in fs.files && p !in fs.dirs
    ensures r.Failure? ==> r.error == OpenFile(p)
    ensures p in fs.files ==> r == Success(Regular(fs.files[p]))
    ensures Wf(fs) && p in fs.dirs ==> r == Success(Directory)
  {
    if p in fs.files then Success(Regular(fs.files[p]))
    else if p in fs.dirs then Success(Directory)
    else Failure(OpenFile(p))
  }

  /**
   * `zlib.NewReader(f)`: reading the stream header out of a directory fails,
   * and so does a header the codec rejects.
   */
  function NewReader(z: Codec, f: File, p: Path): (r: Result<Inflated, Error>)
    ensures r.Success? <==> f.Regular? && z.decompress(f.bytes).Some?
    ensures r.Success? ==> z.decompress(f.bytes) == Some(r.value)
    ensures r.Failure? ==> r.error == CreateZlibReader(p)
  {
    match f
    case Directory => Failure(CreateZlibReader(p))
    case Regular(bytes) =>
      match z.decompress(bytes)
      case None => Failure(CreateZlibReader(p))
      case Some(s) => Success(s)
  }

  /**
   * Opening `p` and wrapping it in a zlib reader: only a regular file with a
   * stream header the codec accepts gets through. A missing path is an open
   * error; a directory, or a rejected header, is a zlib-reader error.
   */
  function OpenInflated(fs: Fs, z: Codec, p: Path): (r: Result<Inflated, Error>)
    ensures r.Success? <==> p in fs.files && z.decompress(fs.files[p]).Some?
    ensures r.Success? ==> z.decompress(fs.files[p]) == Some(r.value)
    ensures p !in fs.files && p !in fs.dirs ==> r == Failure(OpenFile(p))
    ensures (p in fs.files || p in fs.dirs) && r.Failure? ==> r == Failure(CreateZlibReader(p))
  {
    match Open(fs, p)
    case Failure(e) => Failure(e)
    case Success(f) => NewReader(z, f, p)
  }

  /** A file written by `Create` with compressed bytes reads back as exactly those bytes. */
  lemma CreateThenOpen(fs: Fs, z: Codec, p: Path, x: seq<byte>)
    requires Lossless(z)
    requires Create(fs, p, z.compress(x)).Success?
    ensures OpenInflated(Create(fs, p, z.compress(x)).value, z, p) == Success(Inflated(x, true))
  {
  }
}
