/** `os.path.splitext` as the POSIX flavour of Python's `os.path` defines it:
    separator `/`, no alternative separator, extension separator `.`. */
module PosixPath {

  /** Index of the last `c` in `s`, or -1 when there is none (`str.rfind`). */
  function RFind(s: string, c: char): (r: int)
    ensures -1 <= r < |s|
    ensures r >= 0 ==> s[r] == c
    ensures forall i :: r < i < |s| ==> s[i] != c
  {
    if s == [] then -1
    else if s[|s| - 1] == c then |s| - 1
    else RFind(s[..|s| - 1], c)
  }

  /** The three properties of `RFind` determine it. */
  lemma RFindUnique(s: string, c: char, r: int)
    requires -1 <= r < |s|
    requires r >= 0 ==> s[r] == c
    requires forall i :: r < i < |s| ==> s[i] != c
    ensures RFind(s, c) == r
  {
  }

  /** Some character of `s[lo..hi]` is not a dot. */
  predicate HasNonDot(s: string, lo: int, hi: int)
    requires 0 <= lo <= hi <= |s|
  {
    exists i :: lo <= i < hi && s[i] != '.'
  }

  /** `os.path.splitext(p)`: the extension is the text from the last dot of
      the final path component on, provided that component has something
      other than dots before that dot; otherwise it is empty. */
  function SplitExt(p: string): (r: (string, string))
    ensures r.0 + r.1 == p
    ensures r.1 == [] || (r.1[0] == '.' && '.' !in r.1[1..] && '/' !in r.1)
  {
    var sepIndex := RFind(p, '/');
    var dotIndex := RFind(p, '.');
    if dotIndex > sepIndex && HasNonDot(p, sepIndex + 1, dotIndex) then
      assert forall i :: 0 <= i < |p[dotIndex..]| ==> p[dotIndex..][i] == p[dotIndex + i];
      (p[..dotIndex], p[dotIndex..])
    else
      (p, [])
  }

  /** The file name without its last extension (`os.path.splitext(p)[0]`). */
  function Stem(p: string): (stem: string)
    ensures |stem| <= |p| && stem == p[..|stem|]
  {
    SplitExt(p).0
  }

  /** A name without dots has no extension. */
  lemma SplitExtNoDot(p: string)
    requires '.' !in p
    ensures SplitExt(p) == (p, [])
  {
  }

  /** An extension: a dot followed by anything but dots and separators. */
  predicate IsExtension(ext: string) {
    ext != [] && ext[0] == '.' && '.' !in ext[1..] && '/' !in ext
  }

  /** Appending text without `c` does not move the last `c`. */
  lemma RFindAppend(x: string, y: string, c: char)
    requires c !in y
    ensures RFind(x + y, c) == RFind(x, c)
  {
    var p, r := x + y, RFind(x, c);
    forall i | r < i < |p| ensures p[i] != c {
      if i < |x| {
        assert p[i] == x[i];
      } else {
        assert p[i] == y[i - |x|];
      }
    }
    assert r >= 0 ==> p[r] == x[r];
    RFindUnique(p, c, r);
  }

  /** `SplitExt` cuts at the last dot once that dot is known to follow the
      last separator with something other than dots between them. */
  lemma SplitExtAt(p: string, dot: int)
    requires RFind(p, '.') == dot && dot > RFind(p, '/')
    requires HasNonDot(p, RFind(p, '/') + 1, dot)
    ensures SplitExt(p) == (p[..dot], p[dot..])
  {
  }

  /** The dot that opens an appended extension is the last dot. */
  lemma RFindExtensionDot(x: string, ext: string)
    requires IsExtension(ext)
    ensures RFind(x + ext, '.') == |x|
  {
    assert ext == ['.'] + ext[1..];
    assert x + ext == (x + ['.']) + ext[1..];
    RFindAppend(x + ['.'], ext[1..], '.');
    RFindUnique(x + ['.'], '.', |x|);
  }

  /** A character other than a dot stays one when text is appended. */
  lemma HasNonDotAppend(x: string, y: string, lo: int)
    requires 0 <= lo <= |x| && HasNonDot(x, lo, |x|)
    ensures HasNonDot(x + y, lo, |x|)
  {
    var w :| lo <= w < |x| && x[w] != '.';
    assert (x + y)[w] == x[w];
  }

  /** Appending an extension to a name whose last component has something
      other than dots makes exactly that the extension. */
  lemma SplitExtAppend(x: string, ext: string)
    requires IsExtension(ext)
    requires HasNonDot(x, RFind(x, '/') + 1, |x|)
    ensures SplitExt(x + ext) == (x, ext)
  {
    var p := x + ext;
    RFindExtensionDot(x, ext);
    RFindAppend(x, ext, '/');
    HasNonDotAppend(x, ext, RFind(x, '/') + 1);
    SplitExtAt(p, |x|);
    assert p[..|x|] == x && p[|x|..] == ext;
  }

  /** `splitext` finds an extension exactly when the path is a name whose
      last component holds something other than dots, followed by an
      extension; a last component that is only dots before its last dot
      (`.bashrc`, `a/.profile`, `..`) has none. */
  lemma SplitExtHasExtension(p: string)
    ensures SplitExt(p).1 != [] <==>
      exists x, ext :: p == x + ext && IsExtension(ext) && HasNonDot(x, RFind(x, '/') + 1, |x|)
  {
    if SplitExt(p).1 != [] {
      SplitExtForm(p);
    }
    forall x, ext | p == x + ext && IsExtension(ext) && HasNonDot(x, RFind(x, '/') + 1, |x|)
      ensures SplitExt(p).1 != []
    {
      SplitExtAppend(x, ext);
    }
  }

  /** A found extension splits the path the way `SplitExtAppend` builds it. */
  lemma SplitExtForm(p: string)
    requires SplitExt(p).1 != []
    ensures exists x, ext :: p == x + ext && IsExtension(ext) && HasNonDot(x, RFind(x, '/') + 1, |x|)
  {
    SplitExtFound(p);
    var dot := RFind(p, '.');
    var x, ext := p[..dot], p[dot..];
    assert p == x + ext;
  }

  /** The last `c` before `k` is the last `c` of all when none follows. */
  lemma RFindPrefix(p: string, c: char, k: nat)
    requires RFind(p, c) < k <= |p|
    ensures RFind(p[..k], c) == RFind(p, c)
  {
    var r := RFind(p, c);
    forall i | r < i < k ensures p[..k][i] != c { }
    RFindUnique(p[..k], c, r);
  }

  /** When `splitext` finds an extension, the cut meets the terms of
      `SplitExtAppend`. */
  lemma SplitExtFound(p: string)
    requires SplitExt(p).1 != []
    ensures var dot := RFind(p, '.');
      && 0 <= dot
      && IsExtension(p[dot..])
      && HasNonDot(p[..dot], RFind(p[..dot], '/') + 1, dot)
  {
    var dot, sep := RFind(p, '.'), RFind(p, '/');
    assert dot > sep && HasNonDot(p, sep + 1, dot);
    RFindPrefix(p, '/', dot);
    var w :| sep + 1 <= w < dot && p[w] != '.';
    assert p[..dot][w] == p[w];
  }

  /** A file whose name starts with its only dot has no extension. */
  lemma SplitExtDotFile()
    ensures SplitExt(".bashrc") == (".bashrc", "")
  {
    RFindUnique(".bashrc", '.', 0);
    RFindUnique(".bashrc", '/', -1);
  }
}
