/**
 * Object locations. An object whose hex name is `hex` lives in the directory
 * `.git/objects/<hex[0:2]>` under the file name `hex[2:]`.
 */
module Paths {
  import opened Bytes

  type Path = seq<byte>

  const OBJECTS_DIR: Path := Ascii(".git/objects")

  /**
   * `path.Join` of two elements: empty elements are dropped and the rest are
   * joined with '/'. The lexical cleaning of "." and ".." elements and of
   * repeated or trailing slashes is not modelled.
   */
  function Join(dir: Path, name: Path): (p: Path)
    ensures |p| == |dir| + |name| + (if dir == [] || name == [] then 0 else 1)
    ensures dir <= p && p[|p| - |name|..] == name
    ensures dir != [] && name != [] ==> p[|dir|] == SLASH
  {
    if dir == [] then name else if name == [] then dir else dir + [SLASH] + name
  }

  /** The fan-out directory of an object: `.git/objects/<hex[0:2]>`. */
  function ObjectDir(hex: Path): Path
    requires |hex| >= 2
  {
    OBJECTS_DIR + [SLASH] + hex[..2]
  }

  /** The file of an object: `.git/objects/<hex[0:2]>/<hex[2:]>`. */
  function ObjectPath(hex: Path): Path
    requires |hex| > 2
  {
    ObjectDir(hex) + [SLASH] + hex[2..]
  }

  /**
   * `path.Join(".git/objects", hex[:2], hex[2:])`, as the readers build it, and
   * the two-step join of the writers (first the directory, then the file
   * inside it) both name `ObjectPath(hex)`.
   */
  lemma ObjectLocation(hex: Path)
    requires |hex| > 2
    ensures Join(OBJECTS_DIR, hex[..2]) == ObjectDir(hex)
    ensures Join(Join(OBJECTS_DIR, hex[..2]), hex[2..]) == ObjectPath(hex)
    ensures Join(ObjectDir(hex), hex[2..]) == ObjectPath(hex)
  {
  }

  /** For a two-character name the join stops at the fan-out directory. */
  lemma ShortLocation(hex: Path)
    requires |hex| == 2
    ensures Join(Join(OBJECTS_DIR, hex[..2]), hex[2..]) == ObjectDir(hex)
  {
  }

  /**
   * For a 40-character hash the directory part has 2 characters and the file
   * name 38, at fixed offsets, so the path determines the hash.
   */
  lemma ObjectPathSplit(hex: Path)
    requires |hex| == 40
    ensures |ObjectPath(hex)| == |OBJECTS_DIR| + 42
    ensures ObjectPath(hex)[|OBJECTS_DIR| + 1..|OBJECTS_DIR| + 3] == hex[..2]
    ensures ObjectPath(hex)[|OBJECTS_DIR| + 4..] == hex[2..] && |hex[2..]| == 38
  {
    var d := |OBJECTS_DIR|;
    var p := ObjectPath(hex);
    assert p == OBJECTS_DIR + [SLASH] + hex[..2] + [SLASH] + hex[2..];
    assert p[d + 1..d + 3] == hex[..2];
    assert p[d + 4..] == hex[2..];
  }

  /** Distinct hashes of the same length are stored in distinct files. */
  lemma ObjectPathInjective(a: Path, b: Path)
    requires |a| == |b| > 2
    requires ObjectPath(a) == ObjectPath(b)
    ensures a == b
  {
    var d := |OBJECTS_DIR|;
    assert ObjectPath(a) == OBJECTS_DIR + [SLASH] + a[..2] + [SLASH] + a[2..];
    assert ObjectPath(b) == OBJECTS_DIR + [SLASH] + b[..2] + [SLASH] + b[2..];
    assert a[..2] == ObjectPath(a)[d + 1..d + 3] == b[..2];
    assert a[2..] == ObjectPath(a)[d + 4..] == b[2..];
    assert a == a[..2] + a[2..];
    assert b == b[..2] + b[2..];
  }
}
