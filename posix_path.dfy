/**
  POSIX `os.path.splitext`: split a path into a base and an extension.

  The extension starts at the last '.' of the final path component (the
  part after the last '/'), provided that dot is not one of the
  component's leading dots; otherwise the extension is empty. The base
  followed by the extension is always the original path.
 */
module PosixPath {

  /** Index of the last occurrence of c in s, or -1 when c does not occur (Python's rfind). */
  function LastIndexOf(s: string, c: char): (r: int)
    ensures -1 <= r < |s|
    ensures r >= 0 ==> s[r] == c
    ensures forall j :: r < j < |s| ==> s[j] != c
  {
    if |s| == 0 then -1
    else if s[|s| - 1] == c then |s| - 1
    else LastIndexOf(s[..|s| - 1], c)
  }

  /** The contract of LastIndexOf pins down its result. */
  lemma LastIndexOfUnique(s: string, c: char, r: int)
    requires -1 <= r < |s|
    requires r >= 0 ==> s[r] == c
    requires forall j :: r < j < |s| ==> s[j] != c
    ensures LastIndexOf(s, c) == r
  {
  }

  /** Some character of p at an index in [lo, hi) is not a '.'. */
  predicate HasNonDotIn(p: string, lo: int, hi: int)
    requires 0 <= lo <= hi <= |p|
  {
    exists i :: lo <= i < hi && p[i] != '.'
  }

  /** splitext on a POSIX path. */
  function SplitExt(p: string): (r: (string, string))
    ensures r.0 + r.1 == p
    ensures r.1 == [] || r.1[0] == '.'
    ensures forall i :: 0 <= i < |r.1| ==> r.1[i] != '/'
    ensures forall i :: 1 <= i < |r.1| ==> r.1[i] != '.'
  {
    var sep := LastIndexOf(p, '/');
    var dot := LastIndexOf(p, '.');
    if dot > sep && HasNonDotIn(p, sep + 1, dot) then (p[..dot], p[dot..]) else (p, [])
  }

  /**
    The extension may start at index i of p: p[i] is a dot, nothing after
    it is a dot or a slash, and the same path component holds a character
    other than '.' before it.
   */
  ghost predicate ExtStartsAt(p: string, i: int) {
    && 0 <= i < |p|
    && p[i] == '.'
    && (forall j :: i < j < |p| ==> p[j] != '.' && p[j] != '/')
    && (exists j :: 0 <= j < i && p[j] != '.' && p[j] != '/'
                     && forall l :: j < l < i ==> p[l] != '/')
  }

  /**
    SplitExt against its reference definition: the extension is non-empty
    exactly when some index can start one, and then the split is made there.
   */
  lemma SplitExtSpec(p: string)
    ensures SplitExt(p).1 != [] <==> exists i :: ExtStartsAt(p, i)
    ensures forall i :: ExtStartsAt(p, i) ==> SplitExt(p) == (p[..i], p[i..])
  {
    var sep := LastIndexOf(p, '/');
    var dot := LastIndexOf(p, '.');
    forall i | ExtStartsAt(p, i)
      ensures SplitExt(p) == (p[..i], p[i..])
    {
      assert dot == i;
      var j :| 0 <= j < i && p[j] != '.' && p[j] != '/' && forall l :: j < l < i ==> p[l] != '/';
      assert sep < j;
      assert HasNonDotIn(p, sep + 1, dot);
    }
    if SplitExt(p).1 != [] {
      assert dot > sep && HasNonDotIn(p, sep + 1, dot);
      assert ExtStartsAt(p, dot);
    }
  }

  /** A file name "stem.suffix" with a plain stem, in any directory, splits at its one dot. */
  lemma SplitExtOfSimpleName(dir: string, stem: string, suffix: string)
    requires |stem| >= 1
    requires forall i :: 0 <= i < |stem| ==> stem[i] != '.' && stem[i] != '/'
    requires forall i :: 0 <= i < |suffix| ==> suffix[i] != '.' && suffix[i] != '/'
    ensures SplitExt(dir + stem + "." + suffix) == (dir + stem, "." + suffix)
  {
    var p := dir + stem + "." + suffix;
    var d := |dir| + |stem|;
    assert p[|dir|] == stem[0];
    assert ExtStartsAt(p, d);
    SplitExtSpec(p);
    assert p[..d] == dir + stem && p[d..] == "." + suffix;
  }

  /** Image paths split before their extension. */
  lemma SplitExtExamples()
    ensures SplitExt("photos/cat.png") == ("photos/cat", ".png")
    ensures SplitExt("icons/logo.jpg") == ("icons/logo", ".jpg")
  {
    SplitExtOfSimpleName("photos/", "cat", "png");
    assert "photos/" + "cat" + "." + "png" == "photos/cat.png";
    assert "photos/" + "cat" == "photos/cat" && "." + "png" == ".png";
    SplitExtOfSimpleName("icons/", "logo", "jpg");
    assert "icons/" + "logo" + "." + "jpg" == "icons/logo.jpg";
    assert "icons/" + "logo" == "icons/logo" && "." + "jpg" == ".jpg";
  }

  /** A leading dot and a dot in a directory name do not start an extension. */
  lemma SplitExtExamplesWithoutExt()
    ensures SplitExt(".bashrc") == (".bashrc", "")
    ensures SplitExt("a.b/c") == ("a.b/c", "")
  {
  }
}
