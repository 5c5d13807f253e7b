# Object framing of a small git clone

This project models the object layer of a minimal git implementation written in
Go: how a loose object is laid out as bytes and where it is stored.

- `hash-object` (`hashBlob`) builds the blob encoding `"blob " ++ decimal(size) ++ NUL ++ contents`.
  It hashes those bytes with SHA-1 and names the object by the lower-case hex of the digest.
  It then creates `.git/objects/<hex[0:2]>` and passes the encoding to a zlib writer on the file `<hex[2:]>` inside it.
  It never closes that writer, so the stream in the file is left unfinished (see "## Findings").
- `cat-file` (`catFile`) refuses a hash string that is not 40 bytes long.
  Otherwise it opens and inflates the object file, skips everything up to and including the first NUL, and copies the rest to its writer.
- The helpers of the later revision (`utils.go`) are also modelled:
  - `headerValid` checks a header by splitting it on spaces;
  - `hash` and `hashToString` compute and render the digest;
  - `saveCompressed` and `getDecompressedObject` are the store's write and read paths.

Modules, leaf first:

- `Wrappers`: `Option` and `Result`.
- `Bytes`: the byte type. A Go string is a byte string, so every string here (hash strings, headers, paths) is a `seq<byte>`. The module also holds decimal rendering (fmt's `%d`) and its inverse.
- `Hex`: `encoding/hex` encoding, with a decoder that serves as its inverse.
- `Paths`: `path.Join` and the object directory and file of a hex name.
- `Store`: the environment.
  - SHA-1 is a parameter `Sha1`, a total function to 20 bytes.
  - zlib is a parameter `Codec`. `compress` is what a writer emits once it is closed. `unclosed` is what it has emitted when it is never closed.
  - The predicate `Lossless` says that decompressing a closed writer's output gives the same bytes back; the round-trip members require it.
  - The predicate `UnclosedIsTruncated` says that an unclosed writer's output inflates to at most a prefix of the input and never ends cleanly. `HeldBack` says that only the stream header was emitted.
  - The filesystem is a value `Fs`: the set of directories, plus a map from path to file bytes. `Wf` says that no path is both; every operation that writes preserves it.
  - `os.MkdirAll`, `os.Create`, `os.Open` and `zlib.NewReader` are functions on these values.
  - A zlib reader yields `Inflated(data, complete)`: the bytes it produced, and whether it ended at a clean end of stream. The flag records whether a read error is `io.EOF` or a stream error.
- `Utils`: cmd/mygit/utils.go.
- `MyGit`: cmd/mygit/main.go. The writer `w` of `catFile` is the method's result: the bytes that reach `w`. No bytes are written on any error path, which is true of the source too.

Behaviour of the code that the model keeps as written:

- `catFile` checks only the length of the hash string, not that it is hex.
- `catFile` does not validate the header it skips.
- A missing object is reported as an "open file" error.
- An object that is a directory opens successfully, and the zlib reader then fails.
- `catFile` succeeds even when the stream breaks after the NUL, because `io.Copy`'s error is discarded. The model then returns the bytes produced before the break.

## Model

| member | source | states |
|---|---|---|
| Bytes.Decimal | cmd/mygit/main.go:68-69 | the size field is at least one decimal digit, with a leading zero only for a size of 0 |
| Bytes.DecimalRoundTrip | cmd/mygit/main.go:69 | reading the size field back as a number gives the size that was written |
| Bytes.DecimalHasNoNulOrSpace | cmd/mygit/main.go:69 | the size field contains neither a NUL nor a space |
| Hex.Encode | cmd/mygit/main.go:82 | the rendering has two characters per byte, all lower-case hex digits |
| Hex.EncodeDigits | cmd/mygit/main.go:82 | byte `i` is rendered at positions `2i` and `2i+1`, high nibble first |
| Hex.DecodeEncode | cmd/mygit/utils.go:41-43 | decoding a rendering gives back the digest bytes |
| Hex.EncodeDecode | cmd/mygit/utils.go:41-43 | every decodable string is the rendering of what it decodes to |
| Hex.EncodeInjective | cmd/mygit/utils.go:41-43 | different digests get different hex names |
| Paths.Join | cmd/mygit/main.go:25 | `path.Join` of two elements: the directory is a prefix and the name a suffix of the result, with one `/` between them exactly when both are non-empty |
| Paths.ObjectLocation | cmd/mygit/main.go:25 | the readers' three-element `path.Join` and the writers' two-step join name the same file, `.git/objects/<hex[:2]>/<hex[2:]>`; the writers' first step names the fan-out directory |
| Paths.ShortLocation | cmd/mygit/utils.go:71 | for a two-character hash the reader's path is the fan-out directory itself |
| Paths.ObjectPathSplit | cmd/mygit/main.go:25 | for a 40-character hash, the directory part is 2 characters and the file name 38, at fixed offsets |
| Paths.ObjectPathInjective | cmd/mygit/main.go:84-90 | hashes of equal length share a file only when they are equal |
| Store.MkdirAll | cmd/mygit/main.go:86-88 | creating a directory fails exactly when a regular file has that path; otherwise it adds the directory, leaves files unchanged and keeps `Wf` |
| Store.Create | cmd/mygit/main.go:90-101 | creating a file fails exactly when the path is a directory; otherwise the file holds exactly the written bytes, nothing else changes, and `Wf` is kept |
| Store.Open | cmd/mygit/main.go:27-30 | opening fails exactly when the path is neither a file nor a directory; a file opens with its bytes, and a directory opens too |
| Store.NewReader | cmd/mygit/main.go:33-36 | a zlib reader is made exactly for a regular file whose stream header the codec accepts; otherwise it is a "create zlib reader" error |
| Store.OpenInflated | cmd/mygit/utils.go:73-81 | opening and inflating succeeds exactly for a regular file with an accepted header; a missing path is "open file", a directory or rejected header is "create zlib reader" |
| Store.CreateThenOpen | cmd/mygit/utils.go:61-62 | under a lossless codec, a file written with compressed bytes opens and inflates to exactly those bytes |
| Utils.Split | cmd/mygit/utils.go:15 | `strings.Split` with a one-byte separator always yields at least one part (the empty string gives one empty part) |
| Utils.SplitSpec | cmd/mygit/utils.go:15 | joining the parts of `strings.Split` gives back the string; no part holds a space; there is one more part than there are spaces |
| Utils.HeaderValid | cmd/mygit/utils.go:14-25 | an accepted header has exactly one space, and it begins with the expected type followed by that space |
| Utils.HeaderValidIff | cmd/mygit/utils.go:14-25 | a header is valid for `t` exactly when it is `t`, one space and a second field, with no other space |
| Utils.HeaderNeedsOneSpace | cmd/mygit/utils.go:15-18 | a header with no space, or with two or more spaces, is rejected |
| Utils.HeaderIgnoresSize | cmd/mygit/utils.go:15-24 | the second field is never inspected |
| Utils.HeaderAcceptsAnySize | cmd/mygit/utils.go:15-24 | "tree abc" and "tree " are both accepted for type "tree" |
| Utils.HeaderRejectsExamples | cmd/mygit/utils.go:15-18 | "tree" and "tree a b" are rejected for type "tree" |
| Utils.KindSizeHeader | cmd/mygit/utils.go:14-25 | `kind + " " + decimal(n)`, for a kind without spaces, is accepted for `kind` and for no other type |
| Utils.Hash | cmd/mygit/utils.go:35-39 | the digest is the SHA-1 parameter `sha1` applied to the input bytes, by design: a 20-byte value that depends on those bytes alone |
| Utils.HashToString | cmd/mygit/utils.go:41-43 | two lower-case hex characters per digest byte |
| Utils.DigestName | cmd/mygit/utils.go:35-43 | a digest is named by 40 lower-case hex characters; two names agree exactly when the digests agree |
| Utils.SaveCompressed | cmd/mygit/utils.go:45-68 | creates `.git/objects/<hex[:2]>`, then writes the compressed data to `<hex[2:]>` in it. It fails with "mkdir" when that directory name is a file, and with "create blob file" when the object path is a directory or, for a one-byte digest, is the directory itself; it keeps `Wf` |
| Utils.GetDecompressedObject | cmd/mygit/utils.go:70-87 | opens and inflates `.git/objects/<hash[:2]>/<hash[2:]>`, or the fan-out directory for a two-character hash; there is no length check beyond the two characters slicing needs |
| Utils.SaveThenGet | cmd/mygit/utils.go:45-87 | under a lossless codec, after a successful save, the reader finds exactly the saved bytes under the hex name of the digest |
| Utils.SaveIdempotent | cmd/mygit/utils.go:45-68 | saving the same bytes again under the same digest succeeds and changes nothing |
| Utils.SavedOnlyUnderItsName | cmd/mygit/utils.go:47-53 | a save adds no object under any other name of the same length |
| MyGit.BlobId | cmd/mygit/main.go:80-82 | the returned name is 40 lower-case hex characters |
| MyGit.BlobHeader | cmd/mygit/main.go:68-69 | the header `"blob <size>\0"` ends in a NUL and holds no other NUL |
| MyGit.StripHeader | cmd/mygit/main.go:39-51 | nothing is found exactly when the stream has no NUL; otherwise the result is the suffix after a NUL with no NUL before it |
| MyGit.StripHeaderSplit | cmd/mygit/main.go:39-51 | the header up to the first NUL is dropped together with that NUL, and everything after it is kept |
| MyGit.StripTruncated | cmd/mygit/main.go:39-51 | stripping a truncated encoding gives at most a prefix of the body |
| MyGit.EncodeBlob | cmd/mygit/main.go:67-78 | the encoding is the header then the contents; stripping the header, as cat-file does, gives exactly the contents |
| MyGit.HelloBlob | cmd/mygit/main.go:69 | "hello\n" is encoded as "blob 6\0hello\n" and strips back to "hello\n" |
| MyGit.CatFile | cmd/mygit/main.go:20-53 | a hash that is not 40 bytes is refused without touching the filesystem. Open and zlib errors are passed on. Otherwise the output is exactly the bytes after the first NUL; with no NUL it is a "read byte" error (EOF or stream error) and nothing is written |
| MyGit.HashBlob | cmd/mygit/main.go:55-104 | as written: the digest is taken over the whole blob encoding, and the same bytes go into the zlib writer, which is never closed, so the file holds the unclosed writer's output. The returned hex names the directory (first 2 characters) and the file (the rest). The "mkdir" and "create blob file" errors occur as for `saveCompressed`; `Wf` is kept |
| MyGit.HashBlobClosed | cmd/mygit/main.go:55-104 | corrected: as `HashBlob`, but the writer is closed, so the file holds the finished compressed encoding |
| MyGit.HashObjectThenCatFileAsWritten | cmd/mygit/main.go:20-104 | as written: cat-file on the printed name shows at most a prefix of the contents. When the compressor held back the whole blob, it fails with a "read byte" stream error |
| MyGit.HashObjectThenCatFile | cmd/mygit/main.go:20-104 | with the corrected writer and a lossless codec: cat-file on the name printed by a successful hash-object shows exactly the original contents, and hash-object succeeds exactly when neither path is in the way |

## Findings

| source | as written | input that shows it | evidently intended | confidence | as-written member | corrected member |
|---|---|---|---|---|---|---|
| cmd/mygit/main.go:98-103 | the zlib writer is written to but never closed or flushed, so the object file holds an unfinished stream; for a small blob it is only the 2-byte zlib header | `hash-object` on a file holding "hello\n", then `cat-file -p` on the printed name: the reader hits an unexpected end of stream before the NUL | close the writer after writing, as `saveCompressed` does at cmd/mygit/utils.go:65, so that cat-file shows the contents back | medium; not executed, rests on how compress/flate buffers small inputs | MyGit.HashObjectThenCatFileAsWritten | MyGit.HashObjectThenCatFile |

## Left out

- SHA-1 itself (`crypto/sha1`): it is the parameter `Sha1`. Its determinism is that of any function; collision resistance is not modelled.
- zlib itself (`compress/zlib`): it is the parameter `Codec`. `Lossless` and `UnclosedIsTruncated` state, as preconditions, what the object layer relies on. How much an unclosed writer emits for a given input is not modelled: `HeldBack` names the case where it is only the header. Stream framing, checksums and buffering (`bufio`) are not modelled.
- MyGit.HashObjectThenCatFile: the round trip holds only for the corrected, closed writer (`HashBlobClosed`). For the source as written, see "## Findings" and `HashObjectThenCatFileAsWritten`.
- Utils.SaveCompressed: on an empty digest the source panics at `hex[:2]`. The model requires at least one digest byte instead; every SHA-1 digest has 20.
- Paths.Join: `path.Join`'s lexical cleaning (of `.` and `..` elements, repeated slashes and a trailing slash) is not modelled. It changes nothing for hex names, but `catFile` also accepts 40-byte strings containing `/` or `.`, and one that ends in `/` opens a different path in the source than in the model. `os.Open` also rejects a path that holds a NUL byte, which gives an "open file" error; `Fs` does not exclude such paths, so for them the model may open a file where the source fails.
- Filesystem effects beyond the `Fs` value are not modelled: permissions, I/O errors of reading, writing and closing, the Stat call, and parent directories that `os.MkdirAll` would also create. This also covers the `hashBlob` errors on opening or statting the input file: the contents are a parameter.
- Store.MkdirAll: in the model the directory needs no parent. `.git/objects` is assumed to exist from `init`.
- MyGit.HashBlob: the file is assumed not to change while it is read, so the size in the header equals the number of bytes copied.
- MyGit.HashBlob: the "write header" error branch cannot be taken, because `bytes.Buffer.WriteString` never returns an error. It is not modelled.
- MyGit.CatFile: writing to `w` is assumed to succeed. The source discards `io.Copy`'s result anyway.
- Releasing files and zlib readers (`f.Close`, `zlr.Close`, `objFile.Close`, `blobFile.Close`) is not modelled. `saveCompressed`'s deferred `zlw.Close` is modelled through its effect: the file holds `z.compress(data)`.
- CLI glue is not modelled: `main`, the `init` scaffolding and HEAD file, and both `ensureArgsLen` functions (they call `os.Exit`).
- Tree and commit objects are not modelled: they are not implemented in these two files.
