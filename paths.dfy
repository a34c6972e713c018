/** File-name handling used to pick a document type: Python's
    `os.path.splitext` (POSIX flavour, `/` as the only separator) and the
    `str.lower` applied to its extension. */
module Paths {

  const SEP: char := '/'
  const EXTSEP: char := '.'

  /** Python's `s.rfind(c)`: the index of the last `c` in `s`, or -1. */
  function LastIndexOf(s: string, c: char): (i: int)
    ensures -1 <= i < |s|
    ensures i >= 0 ==> s[i] == c
    ensures forall j :: i < j < |s| ==> s[j] != c
  {
    if s == [] then -1
    else if s[|s| - 1] == c then |s| - 1
    else LastIndexOf(s[..|s| - 1], c)
  }

  /** A well-formed extension: a dot followed by characters that are neither a
      dot nor a separator. */
  predicate ValidExt(e: string)
  {
    |e| > 0 && e[0] == EXTSEP && forall k :: 1 <= k < |e| ==> e[k] != EXTSEP && e[k] != SEP
  }

  /** The last path component of `root` contains a character that is not a dot,
      so a dot that follows `root` is not a leading dot of the base name. */
  predicate HasStem(root: string)
  {
    exists k :: 0 <= k < |root| && root[k] != EXTSEP && root[k] != SEP &&
      forall j :: k < j < |root| ==> root[j] != SEP
  }

  /** `os.path.splitext(p)`: the extension is everything from the last dot that
      comes after the last separator, provided some character between that
      separator and the dot is not a dot; otherwise the extension is empty. */
  function SplitExt(p: string): (r: (string, string))
    ensures r.0 + r.1 == p
    ensures r.1 == "" || (ValidExt(r.1) && HasStem(r.0))
  {
    var sep := LastIndexOf(p, SEP);
    var dot := LastIndexOf(p, EXTSEP);
    if dot > sep && exists k :: sep + 1 <= k < dot && p[k] != EXTSEP then
      assert ValidExt(p[dot..]);
      (p[..dot], p[dot..])
    else
      (p, "")
  }

  /** The only way to cut `p` into a stem-carrying root and a well-formed
      extension is the cut `SplitExt` makes; together with the postcondition of
      `SplitExt` this characterises its result completely. */
  lemma SplitExtUnique(p: string, root: string, ext: string)
    requires p == root + ext && ValidExt(ext) && HasStem(root)
    ensures SplitExt(p) == (root, ext)
  {
    var dot := LastIndexOf(p, EXTSEP);
    var sep := LastIndexOf(p, SEP);
    var n := |root|;
    assert p[n] == EXTSEP;
    assert forall j :: n < j < |p| ==> p[j] != EXTSEP by {
      forall j | n < j < |p| ensures p[j] != EXTSEP { assert p[j] == ext[j - n]; }
    }
    assert dot == n;
    var k :| 0 <= k < n && root[k] != EXTSEP && root[k] != SEP &&
      forall j :: k < j < n ==> root[j] != SEP;
    assert forall j :: k <= j < |p| ==> p[j] != SEP by {
      forall j | k <= j < |p| ensures p[j] != SEP {
        if j < n { assert p[j] == root[j]; } else { assert p[j] == ext[j - n]; }
      }
    }
    assert sep < k;
    assert p[k] == root[k];
    assert sep + 1 <= k < dot && p[k] != EXTSEP;
    assert p[..dot] == root && p[dot..] == ext;
  }

  /** Python's `str.lower`, restricted to ASCII letters. */
  function LowerChar(c: char): (d: char)
    ensures (d == EXTSEP) == (c == EXTSEP) && (d == SEP) == (c == SEP)
    ensures 'A' <= c <= 'Z' ==> d as int == c as int + 32
    ensures !('A' <= c <= 'Z') ==> d == c
  {
    if 'A' <= c <= 'Z' then (c as int + 32) as char else c
  }

  function Lower(s: string): (r: string)
    ensures |r| == |s| && forall i :: 0 <= i < |s| ==> r[i] == LowerChar(s[i])
  {
    seq(|s|, i requires 0 <= i < |s| => LowerChar(s[i]))
  }

  lemma LowerSplit(a: string, b: string)
    ensures Lower(a + b) == Lower(a) + Lower(b)
  {
    assert forall i :: 0 <= i < |a + b| ==> Lower(a + b)[i] == (Lower(a) + Lower(b))[i];
  }

  /** Lower-casing keeps exactly the dots and separators, so it keeps both
      the shape of an extension and the presence of a stem. */
  lemma LowerKeepsShape(s: string)
    ensures ValidExt(Lower(s)) == ValidExt(s)
    ensures HasStem(Lower(s)) == HasStem(s)
  {
    var l := Lower(s);
    if HasStem(s) {
      var k :| 0 <= k < |s| && s[k] != EXTSEP && s[k] != SEP &&
        forall j :: k < j < |s| ==> s[j] != SEP;
      assert l[k] != EXTSEP && l[k] != SEP && forall j :: k < j < |l| ==> l[j] != SEP;
    }
    if HasStem(l) {
      var k :| 0 <= k < |l| && l[k] != EXTSEP && l[k] != SEP &&
        forall j :: k < j < |l| ==> l[j] != SEP;
      assert s[k] != EXTSEP && s[k] != SEP && forall j :: k < j < |s| ==> s[j] != SEP;
    }
  }

  /** Taking the extension commutes with lower-casing: the extension of the
      lower-cased name is the lower-cased extension of the name. */
  lemma ExtOfLower(p: string)
    ensures SplitExt(Lower(p)).1 == Lower(SplitExt(p).1)
  {
    var (root, ext) := SplitExt(p);
    if ext != "" {
      LowerSplit(root, ext);
      LowerKeepsShape(root);
      LowerKeepsShape(ext);
      SplitExtUnique(Lower(p), Lower(root), ext := Lower(ext));
    }
  }
}
