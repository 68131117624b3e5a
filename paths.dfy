/**
  The parts of Python's path handling the modelled code relies on:
  `str.rfind`, `str.split`, `PurePosixPath.name`, `PurePosixPath.suffix`
  and `os.path.splitext`, on POSIX paths (separator '/').
*/
module Paths {
  import opened Text

  /** `s.rfind(c)`: the index of the last `c` in `s`, or -1. */
  function LastIndexOf(s: string, c: char): (r: int)
    ensures -1 <= r < |s|
    ensures r >= 0 ==> s[r] == c
    ensures forall k :: r < k < |s| ==> s[k] != c
  {
    if s == [] then -1
    else if s[|s| - 1] == c then |s| - 1
    else LastIndexOf(s[..|s| - 1], c)
  }

  /** Two texts of equal length with `c` at the same positions have their last `c` at the same index. */
  lemma LastIndexOfSamePositions(s: string, t: string, c: char)
    requires |s| == |t|
    requires forall k :: 0 <= k < |s| ==> (s[k] == c <==> t[k] == c)
    ensures LastIndexOf(s, c) == LastIndexOf(t, c)
  {
  }

  /** Putting a text without `c` in front shifts the last `c` by its length. */
  lemma LastIndexOfAfterPrefix(p: string, s: string, c: char)
    requires c !in p
    ensures LastIndexOf(p + s, c) == if LastIndexOf(s, c) < 0 then -1 else |p| + LastIndexOf(s, c)
  {
    assert forall k :: 0 <= k < |p| ==> (p + s)[k] == p[k];
    assert forall k :: 0 <= k < |s| ==> (p + s)[|p| + k] == s[k];
  }

  /** `s.split(sep)`: the pieces between separators, from first to last. */
  function Split(s: string, sep: char): seq<string> {
    var i := LastIndexOf(s, sep);
    if i < 0 then [s] else Split(s[..i], sep) + [s[i + 1..]]
  }

  /** There is at least one piece, and no piece holds the separator. */
  lemma {:induction false} SplitPieces(s: string, sep: char)
    ensures |Split(s, sep)| >= 1
    ensures forall k :: 0 <= k < |Split(s, sep)| ==> sep !in Split(s, sep)[k]
  {
    var i := LastIndexOf(s, sep);
    if i >= 0 {
      SplitPieces(s[..i], sep);
      var last := s[i + 1..];
      assert forall k :: 0 <= k < |last| ==> last[k] == s[i + 1 + k];
      var parts := Split(s, sep);
      assert forall k :: 0 <= k < |parts| - 1 ==> parts[k] == Split(s[..i], sep)[k];
    }
  }

  /** The components `PurePosixPath` keeps: empty and "." components are dropped. */
  function ProperParts(parts: seq<string>): seq<string> {
    if parts == [] then []
    else
      var rest := ProperParts(parts[..|parts| - 1]);
      var last := parts[|parts| - 1];
      if last == "" || last == "." then rest else rest + [last]
  }

  /** The kept components are components of the path, and none is empty or ".". */
  lemma {:induction false} ProperPartsShape(parts: seq<string>)
    ensures forall k :: 0 <= k < |ProperParts(parts)| ==>
      ProperParts(parts)[k] in parts && ProperParts(parts)[k] != "" && ProperParts(parts)[k] != "."
  {
    if parts != [] {
      var init := parts[..|parts| - 1];
      ProperPartsShape(init);
      assert forall x :: x in init ==> x in parts;
    }
  }

  /** `PurePosixPath(path).name`: the final component, or "" when there is none. */
  function Name(path: string): (r: string)
    ensures '/' !in r && r != "."
  {
    var parts := ProperParts(Split(path, '/'));
    SplitPieces(path, '/');
    ProperPartsShape(Split(path, '/'));
    if parts == [] then "" else parts[|parts| - 1]
  }

  /** A text that is a single proper component is its own name. */
  lemma NameOfComponent(s: string)
    requires s != "" && s != "." && '/' !in s
    ensures Name(s) == s
  {
    assert LastIndexOf(s, '/') == -1;
    assert Split(s, '/') == [s];
    assert ProperParts([s]) == ProperParts([]) + [s];
  }

  /** A proper component after a '/' is the name, whatever comes before it. */
  lemma NameAfterSlash(dir: string, n: string)
    requires n != "" && n != "." && '/' !in n
    ensures Name(dir + "/" + n) == n
  {
    var s := dir + "/" + n;
    assert s[|dir|] == '/';
    assert forall k :: |dir| < k < |s| ==> s[k] == n[k - |dir| - 1];
    assert LastIndexOf(s, '/') == |dir|;
    assert s[..|dir|] == dir && s[|dir| + 1..] == n;
    var pieces := Split(s, '/');
    assert pieces == Split(dir, '/') + [n];
    assert pieces[..|pieces| - 1] == Split(dir, '/');
  }

  /** `PurePath.suffix` of a name: from its final dot, unless that dot is the first or the last character. */
  function Suffix(name: string): (r: string)
    ensures r == "" || (|r| >= 2 && r[0] == '.' && '.' !in r[1..])
  {
    var i := LastIndexOf(name, '.');
    if 0 < i < |name| - 1 then
      assert forall k :: 1 <= k < |name| - i ==> name[i..][k] == name[i + k];
      name[i..]
    else ""
  }

  predicate OnlyDots(s: string) {
    forall k :: 0 <= k < |s| ==> s[k] == '.'
  }

  /**
    `os.path.splitext(p)` on POSIX: splits off the text from the last dot of
    the final component, unless only dots precede that dot in the component.
  */
  function SplitExt(p: string): (r: (string, string))
    ensures r.0 + r.1 == p
  {
    var sepIndex := LastIndexOf(p, '/');
    var dotIndex := LastIndexOf(p, '.');
    if dotIndex > sepIndex && !OnlyDots(p[sepIndex + 1..dotIndex]) then (p[..dotIndex], p[dotIndex..])
    else (p, "")
  }

  /** The text from the last dot onwards, or "" when there is no dot. */
  function FromLastDot(s: string): (r: string)
    ensures |r| <= |s| && r == s[|s| - |r|..]
  {
    var i := LastIndexOf(s, '.');
    if i < 0 then "" else s[i..]
  }

  /** A prefix without dots does not change the text from the last dot onwards, except where there is none. */
  lemma FromLastDotAfterPrefix(p: string, s: string)
    requires '.' !in p && '.' in s
    ensures FromLastDot(p + s) == FromLastDot(s)
  {
    LastIndexOfAfterPrefix(p, s, '.');
    var d := LastIndexOf(s, '.');
    assert (p + s)[|p| + d..] == s[d..];
  }

  /** The text after the last dot (the second half of `s.rsplit('.', 1)`), or "" when there is no dot. */
  function AfterLastDot(s: string): (r: string)
    ensures |r| <= |s| && r == s[|s| - |r|..]
  {
    var i := LastIndexOf(s, '.');
    if i < 0 then "" else s[i + 1..]
  }

  /** A text with a dot is its part before the last dot, the dot, and the part after it. */
  lemma DotSplit(s: string)
    requires '.' in s
    ensures var d := LastIndexOf(s, '.');
      && 0 <= d && d == |s| - |AfterLastDot(s)| - 1 && AfterLastDot(s) == s[d + 1..]
      && s == s[..d] + "." + AfterLastDot(s) && s[d..] == "." + AfterLastDot(s)
  {
    var k :| 0 <= k < |s| && s[k] == '.';
    LastIndexOfAtLeast(s, '.', k);
    SplitAround(s, LastIndexOf(s, '.'));
  }

  /** A character occurs in a text exactly when the text has a last occurrence of it. */
  lemma InIffLastIndexOf(s: string, c: char)
    ensures c in s <==> LastIndexOf(s, c) >= 0
  {
    if c in s {
      var k :| 0 <= k < |s| && s[k] == c;
      LastIndexOfAtLeast(s, c, k);
    }
  }

  /** The last `c` is at or after any `c`. */
  lemma LastIndexOfAtLeast(s: string, c: char, k: nat)
    requires k < |s| && s[k] == c
    ensures LastIndexOf(s, c) >= k
  {
  }

  /** A text is its part before a dot, the dot, and its part after the dot. */
  lemma SplitAround(s: string, d: nat)
    requires d < |s| && s[d] == '.'
    ensures s == s[..d] + "." + s[d + 1..] && s[d..] == "." + s[d + 1..]
  {
    assert s[d..] == [s[d]] + s[d + 1..];
    assert s == s[..d] + s[d..];
  }
}
