/**
 * cmd/mygit/main.go: `cat-file`, which prints the body of a stored object,
 * and `hash-object`, which stores a file as a blob and prints its name.
 */
module MyGit {
  import opened Wrappers
  import opened Bytes
  import Hex
  import opened Paths
  import opened Store

  const BLOB: seq<byte> := [98, 108, 111, 98]  // "blob"

  /** The blob header `"blob <size>\0"`, as `fmt.Sprintf("blob %d\u0000", size)` writes it: it ends in its only NUL. */
  function BlobHeader(size: nat): (h: seq<byte>)
    ensures |h| == |BLOB| + |Decimal(size)| + 2
    ensures h[|h| - 1] == NUL && NUL !in h[..|h| - 1]
  {
    DecimalHasNoNulOrSpace(size);
    var h := BLOB + [SPACE] + Decimal(size) + [NUL];
    assert h[..|h| - 1] == BLOB + [SPACE] + Decimal(size);
    h
  }

  /** What `cat-file` prints of a decompressed object: the bytes after its first NUL, if it has one. */
  function StripHeader(data: seq<byte>): (r: Option<seq<byte>>)
    ensures r.None? <==> NUL !in data
    ensures r.Some? ==> |r.value| < |data|
    ensures r.Some? ==> data == data[..|data| - |r.value| - 1] + [NUL] + r.value
    ensures r.Some? ==> NUL !in data[..|data| - |r.value| - 1]
  {
    if data == [] then None
    else if data[0] == NUL then Some(data[1..])
    else
      var r := StripHeader(data[1..]);
      assert data == [data[0]] + data[1..];
      assert r.Some? ==> data[..|data| - |r.value| - 1] == [data[0]] + data[1..][..|data| - |r.value| - 2];
      r
  }

  /** Whatever precedes the first NUL is dropped with it, and all that follows is kept. */
  lemma {:induction false} StripHeaderSplit(head: seq<byte>, body: seq<byte>)
    requires NUL !in head
    ensures StripHeader(head + [NUL] + body) == Some(body)
  {
    if head == [] {
      assert (head + [NUL] + body)[1..] == body;
    } else {
      assert (head + [NUL] + body)[1..] == head[1..] + [NUL] + body;
      StripHeaderSplit(head[1..], body);
    }
  }

  /**
   * Stripping a prefix of `head + [NUL] + body`, where `head` has no NUL,
   * yields at most a prefix of `body`: a stream cut short loses the end of
   * the body, never the header boundary.
   */
  lemma {:induction false} StripTruncated(head: seq<byte>, body: seq<byte>, data: seq<byte>)
    requires NUL !in head && data <= head + [NUL] + body
    requires StripHeader(data).Some?
    ensures StripHeader(data).value <= body
  {
    assert data != [];
    var whole := head + [NUL] + body;
    assert data[0] == whole[0];
    if head == [] {
      assert whole[1..] == body;
      assert data[1..] <= body;
    } else {
      assert whole[1..] == head[1..] + [NUL] + body;
      assert data[1..] <= whole[1..];
      StripTruncated(head[1..], body, data[1..]);
    }
  }

  /** The encoded blob: its header, then the contents; stripping the header, as `cat-file` does, gives back exactly the contents. */
  function EncodeBlob(contents: seq<byte>): (e: seq<byte>)
    ensures StripHeader(e) == Some(contents)
  {
    var h := BlobHeader(|contents|);
    assert h == h[..|h| - 1] + [NUL];
    StripHeaderSplit(h[..|h| - 1], contents);
    h + contents
  }

  /** The name of a blob: the hex rendering of the digest of the whole encoding. */
  function BlobId(sha1: Sha1, contents: seq<byte>): (hex: seq<byte>)
    ensures |hex| == 40 && Hex.IsLowerHex(hex)
  {
    Hex.Encode(sha1(EncodeBlob(contents)))
  }

  /** A file holding "hello\n" is encoded as "blob 6\0hello\n", and cat-file strips it back. */
  lemma HelloBlob()
    ensures EncodeBlob([104, 101, 108, 108, 111, 10]) == BLOB + [SPACE, 54, NUL] + [104, 101, 108, 108, 111, 10]
    ensures StripHeader(BLOB + [SPACE, 54, NUL] + [104, 101, 108, 108, 111, 10]) == Some([104, 101, 108, 108, 111, 10])
  {
    assert EncodeBlob([104, 101, 108, 108, 111, 10]) == BLOB + [SPACE, 54, NUL] + [104, 101, 108, 108, 111, 10];
  }

  /**
   * `catFile(w, hash)`. The result's value is what reaches `w`; on every error
   * nothing does. A hash of the wrong length is refused before the filesystem
   * is touched. Otherwise the object file is opened and inflated, bytes are
   * read one at a time up to and including the first NUL, and the remainder is
   * copied; the copy's own error is ignored.
   */
  method CatFile(fs: Fs, z: Codec, hash: seq<byte>) returns (r: Result<seq<byte>, Error>)
    ensures |hash| != 40 ==> r == Failure(InvalidHash)
    ensures |hash| == 40 ==>
      match OpenInflated(fs, z, ObjectPath(hash))
      case Failure(e) => r == Failure(e)
      case Success(s) =>
        match StripHeader(s.data)
        case Some(body) => r == Success(body)
        case None => r == Failure(ReadByte(s.complete))
  {
    if |hash| != 40 {
      return Failure(InvalidHash);
    }
    var path := Join(Join(OBJECTS_DIR, hash[..2]), hash[2..]);
    ObjectLocation(hash);
    var f := Open(fs, path);
    if f.Failure? {
      return Failure(f.error);
    }
    var zlr := NewReader(z, f.value, path);
    if zlr.Failure? {
      return Failure(zlr.error);
    }
    var data := zlr.value.data;
    var i := 0;
    while true
      invariant 0 <= i <= |data|
      invariant StripHeader(data[i..]) == StripHeader(data)
      decreases |data| - i
    {
      if i == |data| {
        return Failure(ReadByte(zlr.value.complete));
      }
      var b := data[i];
      i := i + 1;
      if b == NUL {
        break;
      }
    }
    return Success(data[i..]);
  }

  /**
   * `hashBlob(filePath)` as written, given the file's contents (the file is
   * assumed not to change while it is read). The buffer gets the header and
   * then the contents; the digest is taken over the whole buffer, the same
   * buffer is what goes into the zlib writer, and the hex name returned is the
   * one whose first two characters name the directory and the rest the file.
   * The zlib writer is never closed, so the file holds what an unclosed
   * writer has emitted.
   */
  method HashBlob(fs: Fs, z: Codec, sha1: Sha1, contents: seq<byte>) returns (r: Result<seq<byte>, Error>, fs': Fs)
    ensures var hex := BlobId(sha1, contents);
      && (ObjectDir(hex) in fs.files ==> r == Failure(Mkdir(ObjectDir(hex))) && fs' == fs)
      && (ObjectDir(hex) !in fs.files && ObjectPath(hex) in fs.dirs ==>
            r == Failure(CreateFile(ObjectPath(hex))) && fs' == fs.(dirs := fs.dirs + {ObjectDir(hex)}))
      && (ObjectDir(hex) !in fs.files && ObjectPath(hex) !in fs.dirs ==>
            r == Success(hex) &&
            fs' == Fs(fs.dirs + {ObjectDir(hex)}, fs.files[ObjectPath(hex) := z.unclosed(EncodeBlob(contents))]))
    ensures Wf(fs) ==> Wf(fs')
  {
    var size := |contents|;
    var header := BLOB + [SPACE] + Decimal(size) + [NUL];
    var buf: seq<byte> := [];
    buf := buf + header;
    buf := buf + contents;
    assert buf == EncodeBlob(contents);

    var hex := Hex.Encode(sha1(buf));
    ObjectLocation(hex);
    var blobPath := Join(OBJECTS_DIR, hex[..2]);
    var made := MkdirAll(fs, blobPath);
    if made.Failure? {
      return Failure(made.error), fs;
    }
    blobPath := Join(blobPath, hex[2..]);
    var created := Create(made.value, blobPath, z.unclosed(buf));
    if created.Failure? {
      return Failure(created.error), made.value;
    }
    return Success(hex), created.value;
  }

  /** `hashBlob` corrected to close its zlib writer after writing, as `saveCompressed` does: the file holds the finished stream. */
  method HashBlobClosed(fs: Fs, z: Codec, sha1: Sha1, contents: seq<byte>) returns (r: Result<seq<byte>, Error>, fs': Fs)
    ensures var hex := BlobId(sha1, contents);
      && (ObjectDir(hex) in fs.files ==> r == Failure(Mkdir(ObjectDir(hex))) && fs' == fs)
      && (ObjectDir(hex) !in fs.files && ObjectPath(hex) in fs.dirs ==>
            r == Failure(CreateFile(ObjectPath(hex))) && fs' == fs.(dirs := fs.dirs + {ObjectDir(hex)}))
      && (ObjectDir(hex) !in fs.files && ObjectPath(hex) !in fs.dirs ==>
            r == Success(hex) &&
            fs' == Fs(fs.dirs + {ObjectDir(hex)}, fs.files[ObjectPath(hex) := z.compress(EncodeBlob(contents))]))
    ensures Wf(fs) ==> Wf(fs')
  {
    var size := |contents|;
    var header := BLOB + [SPACE] + Decimal(size) + [NUL];
    var buf: seq<byte> := [];
    buf := buf + header;
    buf := buf + contents;
    assert buf == EncodeBlob(contents);

    var hex := Hex.Encode(sha1(buf));
    ObjectLocation(hex);
    var blobPath := Join(OBJECTS_DIR, hex[..2]);
    var made := MkdirAll(fs, blobPath);
    if made.Failure? {
      return Failure(made.error), fs;
    }
    blobPath := Join(blobPath, hex[2..]);
    var created := Create(made.value, blobPath, z.compress(buf));
    if created.Failure? {
      return Failure(created.error), made.value;
    }
    return Success(hex), created.value;
  }

  /**
   * `hash-object` (with the writer closed) then `cat-file` on the name it
   * printed: when the object was written, printing it shows exactly the
   * original contents.
   */
  method HashObjectThenCatFile(fs: Fs, z: Codec, sha1: Sha1, contents: seq<byte>) returns (shown: Result<seq<byte>, Error>)
    requires Lossless(z)
    ensures var hex := BlobId(sha1, contents);
      shown.Success? <==> ObjectDir(hex) !in fs.files && ObjectPath(hex) !in fs.dirs
    ensures shown.Success? ==> shown.value == contents
  {
    var hashed, fs' := HashBlobClosed(fs, z, sha1, contents);
    if hashed.Failure? {
      return Failure(hashed.error);
    }
    shown := CatFile(fs', z, hashed.value);
  }

  /**
   * `hash-object` as written, then `cat-file` on the name it printed. The
   * stream in the object file is unfinished, so at best a prefix of the
   * contents is shown; and when the compressor held back the whole blob,
   * cat-file fails with a stream error before it reaches the end of the
   * header.
   */
  method HashObjectThenCatFileAsWritten(fs: Fs, z: Codec, sha1: Sha1, contents: seq<byte>) returns (shown: Result<seq<byte>, Error>)
    requires UnclosedIsTruncated(z)
    ensures shown.Success? ==> shown.value <= contents
    ensures var hex := BlobId(sha1, contents);
      ObjectDir(hex) !in fs.files && ObjectPath(hex) !in fs.dirs && HeldBack(z, EncodeBlob(contents)) ==>
        shown == Failure(ReadByte(false))
  {
    var hashed, fs' := HashBlob(fs, z, sha1, contents);
    if hashed.Failure? {
      return Failure(hashed.error);
    }
    shown := CatFile(fs', z, hashed.value);
    if shown.Success? {
      var h := BlobHeader(|contents|);
      var data := z.decompress(z.unclosed(EncodeBlob(contents))).value.data;
      assert h == h[..|h| - 1] + [NUL];
      assert EncodeBlob(contents) == h[..|h| - 1] + [NUL] + contents;
      StripTruncated(h[..|h| - 1], contents, data);
    }
  }
}
