/**
 * cmd/mygit/utils.go: header validation, digests and their hex names, and
 * the object store's write and read paths.
 */
module Utils {
  import opened Wrappers
  import opened Bytes
  import Hex
  import opened Paths
  import opened Store

  /** `strings.Split(s, sep)` for a one-byte separator. */
  function Split(s: seq<byte>, sep: byte): (parts: seq<seq<byte>>)
    ensures |parts| >= 1
  {
    if s == [] then [[]]
    else
      var rest := Split(s[1..], sep);
      if s[0] == sep then [[]] + rest else [[s[0]] + rest[0]] + rest[1..]
  }

  /** `strings.Join(parts, sep)`, the inverse of `Split`. */
  function JoinWith(parts: seq<seq<byte>>, sep: byte): seq<byte>
  {
    if parts == [] then [] else if |parts| == 1 then parts[0] else parts[0] + [sep] + JoinWith(parts[1..], sep)
  }

  /** Splitting loses nothing, no part holds the separator, and there is one part more than separators. */
  lemma {:induction false} SplitSpec(s: seq<byte>, sep: byte)
    ensures JoinWith(Split(s, sep), sep) == s
    ensures forall k :: 0 <= k < |Split(s, sep)| ==> sep !in Split(s, sep)[k]
    ensures |Split(s, sep)| == Count(s, sep) + 1
  {
    if s != [] {
      SplitSpec(s[1..], sep);
      var rest := Split(s[1..], sep);
      var parts := Split(s, sep);
      if s[0] == sep {
        assert parts[1..] == rest;
        assert JoinWith(parts, sep) == [] + [sep] + JoinWith(rest, sep);
      } else {
        assert parts[0] == [s[0]] + rest[0];
        assert parts[1..] == rest[1..];
        if |rest| == 1 {
          assert JoinWith(parts, sep) == [s[0]] + rest[0];
        } else {
          assert JoinWith(rest, sep) == rest[0] + [sep] + JoinWith(rest[1..], sep);
          assert JoinWith(parts, sep) == ([s[0]] + rest[0]) + [sep] + JoinWith(rest[1..], sep);
        }
        forall k | 0 <= k < |parts| ensures sep !in parts[k] {
          if k > 0 { assert parts[k] == rest[k]; }
        }
      }
      assert s == [s[0]] + s[1..];
    }
  }

  /** A separator-free string splits into itself alone. */
  lemma {:induction false} SplitFree(s: seq<byte>, sep: byte)
    requires sep !in s
    ensures Split(s, sep) == [s]
  {
    if s != [] {
      SplitFree(s[1..], sep);
      assert s == [s[0]] + s[1..];
    }
  }

  /** Splitting after a separator-free prefix and one separator. */
  lemma {:induction false} SplitAfter(t: seq<byte>, sep: byte, b: seq<byte>)
    requires sep !in t
    ensures Split(t + [sep] + b, sep) == [t] + Split(b, sep)
  {
    if t == [] {
      assert t + [sep] + b == [sep] + b;
      assert ([sep] + b)[1..] == b;
    } else {
      assert (t + [sep] + b)[1..] == t[1..] + [sep] + b;
      SplitAfter(t[1..], sep, b);
      assert t == [t[0]] + t[1..];
    }
  }

  /**
   * `headerValid(expectedType, have)`: `have` split on " " has exactly two
   * parts and the first is `expectedType`. The second part is not inspected.
   */
  predicate HeaderValid(expectedType: seq<byte>, have: seq<byte>): (ok: bool)
    ensures ok ==> Count(have, SPACE) == 1
    ensures ok ==> |expectedType| < |have| && have[..|expectedType|] == expectedType && have[|expectedType|] == SPACE
  {
    SplitSpec(have, SPACE);
    var split := Split(have, SPACE);
    assert |split| == 2 ==> split[1..] == [split[1]] && have == split[0] + [SPACE] + split[1];
    |split| == 2 && split[0] == expectedType
  }

  /**
   * A header is valid for `t` exactly when it is `t`, one space and a second
   * field, with no other space anywhere.
   */
  lemma HeaderValidIff(t: seq<byte>, h: seq<byte>)
    ensures HeaderValid(t, h) <==> exists b :: h == t + [SPACE] + b && SPACE !in t && SPACE !in b
  {
    if HeaderValid(t, h) {
      SplitSpec(h, SPACE);
      var parts := Split(h, SPACE);
      assert parts[1..] == [parts[1]];
      assert h == t + [SPACE] + parts[1];
      assert SPACE !in parts[0] && SPACE !in parts[1];
    }
    if exists b :: h == t + [SPACE] + b && SPACE !in t && SPACE !in b {
      var b :| h == t + [SPACE] + b && SPACE !in t && SPACE !in b;
      SplitAfter(t, SPACE, b);
      SplitFree(b, SPACE);
    }
  }

  /** A header without a space, or with more than one, is rejected whatever the expected type. */
  lemma HeaderNeedsOneSpace(t: seq<byte>, h: seq<byte>)
    requires Count(h, SPACE) != 1
    ensures !HeaderValid(t, h)
  {
    SplitSpec(h, SPACE);
  }

  /** The second field is never looked at: any two space-free second fields are judged alike. */
  lemma HeaderIgnoresSize(t: seq<byte>, b1: seq<byte>, b2: seq<byte>)
    requires SPACE !in b1 && SPACE !in b2
    ensures HeaderValid(t, t + [SPACE] + b1) == HeaderValid(t, t + [SPACE] + b2)
  {
    HeaderValidIff(t, t + [SPACE] + b1);
    HeaderValidIff(t, t + [SPACE] + b2);
  }

  const TREE: seq<byte> := [116, 114, 101, 101]  // "tree"

  /** The second field may be anything space-free, even empty: "tree abc" and "tree " are trees. */
  lemma HeaderAcceptsAnySize()
    ensures HeaderValid(TREE, TREE + [SPACE] + [97, 98, 99])
    ensures HeaderValid(TREE, TREE + [SPACE])
  {
    HeaderValidIff(TREE, TREE + [SPACE] + [97, 98, 99]);
    assert TREE + [SPACE] == TREE + [SPACE] + [];
    HeaderValidIff(TREE, TREE + [SPACE] + []);
  }

  /** "tree" (no space) and "tree a b" (two spaces) are not trees. */
  lemma HeaderRejectsExamples()
    ensures !HeaderValid(TREE, TREE)
    ensures !HeaderValid(TREE, TREE + [SPACE, 97, SPACE, 98])
  {
    CountZero(TREE, SPACE);
    HeaderNeedsOneSpace(TREE, TREE);
    var tail: seq<byte> := [SPACE, 97, SPACE, 98];
    assert tail[1..] == [97, SPACE, 98] && tail[1..][1..] == [SPACE, 98];
    assert Count([SPACE, 98], SPACE) == 1 by {
      assert [SPACE, 98][1..] == [98];
      assert Count([98], SPACE) == 0 by { assert [98 as byte][1..] == []; }
    }
    CountAppend(TREE, tail, SPACE);
    HeaderNeedsOneSpace(TREE, TREE + [SPACE, 97, SPACE, 98]);
  }

  /**
   * A header `kind + " " + decimal(n)` with a space-free kind is valid for
   * `kind` and for no other expected type.
   */
  lemma KindSizeHeader(kind: seq<byte>, n: nat, t: seq<byte>)
    requires SPACE !in kind
    ensures HeaderValid(t, kind + [SPACE] + Decimal(n)) <==> t == kind
  {
    var h := kind + [SPACE] + Decimal(n);
    DecimalHasNoNulOrSpace(n);
    SplitAfter(kind, SPACE, Decimal(n));
    SplitFree(Decimal(n), SPACE);
    assert Split(h, SPACE) == [kind, Decimal(n)];
  }

  /** `hash(data)`: the SHA-1 digest of `data`, a function of those bytes alone. */
  function Hash(sha1: Sha1, data: seq<byte>): (d: Digest)
  {
    sha1(data)
  }

  /** `hashToString(h)`: lower-case hex, two characters per byte. */
  function HashToString(h: seq<byte>): (s: seq<byte>)
    ensures |s| == 2 * |h| && Hex.IsLowerHex(s)
    ensures forall i :: 0 <= i < |h| ==> s[2 * i] == Hex.Digit(h[i] / 16) && s[2 * i + 1] == Hex.Digit(h[i] % 16)
  {
    Hex.EncodeDigits(h);
    Hex.Encode(h)
  }

  /** A digest is named by 40 lower-case hex characters, and different digests by different names. */
  lemma DigestName(sha1: Sha1, x: seq<byte>, y: seq<byte>)
    ensures |HashToString(Hash(sha1, x))| == 40 && Hex.IsLowerHex(HashToString(Hash(sha1, x)))
    ensures HashToString(Hash(sha1, x)) == HashToString(Hash(sha1, y)) <==> Hash(sha1, x) == Hash(sha1, y)
  {
    if HashToString(Hash(sha1, x)) == HashToString(Hash(sha1, y)) {
      Hex.EncodeInjective(Hash(sha1, x), Hash(sha1, y));
    }
  }

  /**
   * `saveCompressed(hash, data)`: make the fan-out directory `hex[:2]`, then
   * create `hex[2:]` inside it holding the compressed `data`. Slicing
   * `hex[:2]` needs at least one digest byte.
   */
  function SaveCompressed(fs: Fs, z: Codec, hash: seq<byte>, data: seq<byte>): (r: (Option<Error>, Fs))
    requires |hash| >= 1
    ensures var hex := HashToString(hash);
      && (ObjectDir(hex) in fs.files ==> r == (Some(Mkdir(ObjectDir(hex))), fs))
      && (ObjectDir(hex) !in fs.files && |hash| == 1 ==>
            r == (Some(CreateFile(ObjectDir(hex))), fs.(dirs := fs.dirs + {ObjectDir(hex)})))
      && (ObjectDir(hex) !in fs.files && |hash| > 1 && ObjectPath(hex) in fs.dirs ==>
            r == (Some(CreateFile(ObjectPath(hex))), fs.(dirs := fs.dirs + {ObjectDir(hex)})))
      && (ObjectDir(hex) !in fs.files && |hash| > 1 && ObjectPath(hex) !in fs.dirs ==>
            r == (None, Fs(fs.dirs + {ObjectDir(hex)}, fs.files[ObjectPath(hex) := z.compress(data)])))
    ensures Wf(fs) ==> Wf(r.1)
  {
    var hex := HashToString(hash);
    var objPath := Join(OBJECTS_DIR, hex[..2]);
    match MkdirAll(fs, objPath)
    case Failure(e) => (Some(e), fs)
    case Success(fs1) =>
      var filePath := Join(objPath, hex[2..]);
      match Create(fs1, filePath, z.compress(data))
      case Failure(e) => (Some(e), fs1)
      case Success(fs2) => (None, fs2)
  }

  /**
   * `getDecompressedObject(hash)`: open `hash[:2]/hash[2:]` under the object
   * directory and wrap it in a zlib reader. There is no length check: slicing
   * needs at least two characters, and exactly two name the directory itself.
   */
  function GetDecompressedObject(fs: Fs, z: Codec, hash: seq<byte>): (r: Result<Inflated, Error>)
    requires |hash| >= 2
    ensures |hash| > 2 ==> r == OpenInflated(fs, z, ObjectPath(hash))
    ensures |hash| == 2 ==> r == OpenInflated(fs, z, ObjectDir(hash))
  {
    var path := Join(Join(OBJECTS_DIR, hash[..2]), hash[2..]);
    OpenInflated(fs, z, path)
  }

  /**
   * Save then get: reading an object back by the hex name of its digest
   * yields exactly the bytes saved, ending cleanly.
   */
  lemma SaveThenGet(fs: Fs, z: Codec, hash: seq<byte>, data: seq<byte>)
    requires Lossless(z) && |hash| >= 1
    requires SaveCompressed(fs, z, hash, data).0.None?
    ensures GetDecompressedObject(SaveCompressed(fs, z, hash, data).1, z, HashToString(hash)) == Success(Inflated(data, true))
  {
    var hex := HashToString(hash);
    ObjectLocation(hex);
    assert ObjectPath(hex) in SaveCompressed(fs, z, hash, data).1.files;
  }

  /** Saving the same bytes under the same digest again succeeds and changes nothing. */
  lemma SaveIdempotent(fs: Fs, z: Codec, hash: seq<byte>, data: seq<byte>)
    requires |hash| >= 1
    requires SaveCompressed(fs, z, hash, data).0.None?
    ensures SaveCompressed(SaveCompressed(fs, z, hash, data).1, z, hash, data) == SaveCompressed(fs, z, hash, data)
  {
    var hex := HashToString(hash);
    var fs1 := SaveCompressed(fs, z, hash, data).1;
    ObjectLocation(hex);
    assert ObjectDir(hex) != ObjectPath(hex) by {
      assert |ObjectDir(hex)| < |ObjectPath(hex)|;
    }
    assert fs1.dirs + {ObjectDir(hex)} == fs1.dirs;
    assert fs1.files[ObjectPath(hex) := z.compress(data)] == fs1.files;
  }

  /** A saved object is found by the reader and by no other name of the same length. */
  lemma SavedOnlyUnderItsName(fs: Fs, z: Codec, hash: seq<byte>, data: seq<byte>, other: seq<byte>)
    requires |hash| >= 2 && |other| == 2 * |hash|
    requires SaveCompressed(fs, z, hash, data).0.None?
    requires other != HashToString(hash) && ObjectPath(other) !in fs.files && ObjectPath(other) !in fs.dirs
    ensures GetDecompressedObject(SaveCompressed(fs, z, hash, data).1, z, other) == Failure(OpenFile(ObjectPath(other)))
  {
    var hex := HashToString(hash);
    ObjectLocation(hex);
    if ObjectPath(other) == ObjectPath(hex) {
      ObjectPathInjective(other, hex);
    }
    assert |ObjectDir(hex)| < |ObjectPath(other)|;
  }
}
