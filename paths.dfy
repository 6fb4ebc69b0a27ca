/** The parts of `pathlib.Path` and `os.path` that the scripts use: a path's
    parts, its final component, `suffix`, `stem`, `str(p)` and
    `os.path.join`. */
module Paths {
  import opened Text

  /** A path, as the sequence `p.parts`. */
  datatype DocPath = DocPath(parts: seq<string>)

  /** `p.name`: the final component, or "" for a path without parts. */
  function Name(p: DocPath): string {
    if p.parts == [] then "" else p.parts[|p.parts| - 1]
  }

  /** `s.rfind(c)`: the last index holding `c`, or -1. */
  function RFind(s: string, c: char): (i: int)
    ensures -1 <= i < |s|
    ensures 0 <= i ==> s[i] == c
    ensures forall j :: i < j < |s| ==> s[j] != c
    decreases |s|
  {
    if s == [] then -1
    else if s[|s| - 1] == c then |s| - 1
    else RFind(s[..|s| - 1], c)
  }

  /** Position of the dot that starts the suffix: the last dot, when it is
      neither the first nor the last character of the name. */
  predicate HasSuffixDot(name: string) {
    0 < RFind(name, '.') < |name| - 1
  }

  /** `p.suffix`: from the last dot of the name on, or "" when that dot is
      missing, leads the name or ends it. */
  function Suffix(p: DocPath): string {
    var n := Name(p);
    if HasSuffixDot(n) then n[RFind(n, '.')..] else ""
  }

  /** `p.stem`: the name without its suffix. */
  function Stem(p: DocPath): string {
    var n := Name(p);
    if HasSuffixDot(n) then n[..RFind(n, '.')] else n
  }

  /** A path's name is its stem followed by its suffix; the suffix is empty
      or a dot followed by at least one character, none of them a dot. */
  lemma StemSuffix(p: DocPath)
    ensures Stem(p) + Suffix(p) == Name(p)
    ensures Suffix(p) == [] || (|Suffix(p)| >= 2 && Suffix(p)[0] == '.' && '.' !in Suffix(p)[1..])
  {
    var n := Name(p);
    if HasSuffixDot(n) {
      assert n[..RFind(n, '.')] + n[RFind(n, '.')..] == n;
    }
  }

  /** `str(p)`: the parts joined with "/". */
  function PathStr(p: DocPath): string {
    JoinParts(p.parts)
  }

  function JoinParts(parts: seq<string>): string
    decreases |parts|
  {
    if parts == [] then ""
    else if |parts| == 1 then parts[0]
    else JoinParts(parts[..|parts| - 1]) + "/" + parts[|parts| - 1]
  }

  /** `os.path.join(a, b)` on POSIX. */
  function Join(a: string, b: string): (r: string)
    ensures EndsWith(r, b)
  {
    if b != [] && b[0] == '/' then b
    else if a == [] || EndsWith(a, "/") then a + b
    else a + "/" + b
  }
}
