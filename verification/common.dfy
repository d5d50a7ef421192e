/**
 * Values shared by every converter: optional results, raw bytes, planar
 * points, and the two string rules every converter uses to name its
 * output: the case-insensitive suffix test on file names and the
 * root/extension split of a file name.
 */
module Common {

  datatype Option<+T> = None | Some(value: T)

  /** One byte of a file as read in binary mode. */
  newtype byte = x: int | 0 <= x < 256

  /** A coordinate pair; x is the longitude (or easting), y the latitude. */
  datatype Point = Point(x: real, y: real)

  /** ASCII lower-casing of one character; other characters are kept. */
  function LowerChar(c: char): (r: char)
    ensures 'A' <= c <= 'Z' ==> 'a' <= r <= 'z' && r as int == c as int + 32
    ensures !('A' <= c <= 'Z') ==> r == c
  {
    if 'A' <= c <= 'Z' then (c as int + 32) as char else c
  }

  function Lower(s: string): (r: string)
    ensures |r| == |s|
    ensures forall i :: 0 <= i < |s| ==> r[i] == LowerChar(s[i])
  {
    seq(|s|, i requires 0 <= i < |s| => LowerChar(s[i]))
  }

  /** `name.lower().endswith(suffix)` for a lower-case suffix. */
  predicate EndsWithLower(name: string, suffix: string)
  {
    |suffix| <= |name| && Lower(name)[|name| - |suffix|..] == suffix
  }

  /** Index of the last occurrence of `c` in `s`, or -1 (Python's `rfind`). */
  function LastIndexOf(s: string, c: char): (r: int)
    ensures -1 <= r < |s|
    ensures r >= 0 ==> s[r] == c
    ensures forall i :: r < i < |s| ==> s[i] != c
  {
    if s == [] then -1
    else if s[|s| - 1] == c then |s| - 1
    else LastIndexOf(s[..|s| - 1], c)
  }

  /**
   * `os.path.splitext(p)` on a POSIX path: the extension starts at the
   * last dot of the last path component, unless every character of that
   * component before the dot is itself a dot (".profile" has no extension).
   */
  function SplitExt(p: string): (parts: (string, string))
    ensures parts.0 + parts.1 == p
    ensures parts.1 == [] || (parts.1[0] == '.' && '.' !in parts.1[1..] && '/' !in parts.1)
    ensures parts.1 != [] ==> exists i :: 0 <= i < |parts.0| && parts.0[i] != '.' && '/' !in parts.0[i..]
    ensures parts.1 != [] <==> exists i :: LastIndexOf(p, '/') < i < LastIndexOf(p, '.') && p[i] != '.'
    ensures parts.1 != [] ==> |parts.0| == LastIndexOf(p, '.')
  {
    var sep := LastIndexOf(p, '/');
    var dot := LastIndexOf(p, '.');
    if dot > sep && exists i :: sep + 1 <= i < dot && p[i] != '.' then
      assert p[..dot] + p[dot..] == p;
      assert forall k :: 0 <= k < |p[dot..]| ==> p[dot..][k] == p[dot + k];
      (p[..dot], p[dot..])
    else
      (p, [])
  }

  /** The base name of an output: `os.path.splitext(name)[0]`. */
  function Stem(name: string): string
  {
    SplitExt(name).0
  }
}
