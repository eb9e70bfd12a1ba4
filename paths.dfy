/** Path handling of the walk: `os.path.splitext`, `os.path.join` (POSIX) and the test
    that decides which walked files become glyphs. */
module Paths {
  import opened ByteStrings

  /** `s.rfind(c)`: the index of the last `c`, or -1. */
  function RFind(s: Bytes, c: Byte): (r: int)
    ensures -1 <= r < |s|
    ensures r >= 0 ==> s[r] == c
    ensures forall j :: r < j < |s| ==> s[j] != c
  {
    if s == [] then -1
    else if s[|s| - 1] == c then |s| - 1
    else RFind(s[..|s| - 1], c)
  }

  /** Some byte of `p[lo..hi]` is not a dot. */
  predicate HasNonDot(p: Bytes, lo: int, hi: int)
    requires 0 <= lo && hi <= |p|
  {
    exists j :: lo <= j < hi && p[j] != '.'
  }

  /** `os.path.splitext(p)` (POSIX): the extension starts at the last dot after the last
      slash, and only if some non-dot byte comes before that dot within the last path
      component; otherwise the extension is empty. */
  function SplitExt(p: Bytes): (Bytes, Bytes) {
    var sepIndex := RFind(p, '/');
    var dotIndex := RFind(p, '.');
    if dotIndex > sepIndex && HasNonDot(p, sepIndex + 1, dotIndex) then
      (p[..dotIndex], p[dotIndex..])
    else
      (p, [])
  }

  /** The two parts of `splitext` put back together give the path, and a non-empty
      extension is one dot followed by bytes that are neither dots nor slashes. */
  lemma SplitExtParts(p: Bytes)
    ensures SplitExt(p).0 + SplitExt(p).1 == p
    ensures var ext := SplitExt(p).1;
            ext == [] || (ext[0] == '.' && '.' !in ext[1..] && '/' !in ext)
  {
    var sepIndex := RFind(p, '/');
    var dotIndex := RFind(p, '.');
    if dotIndex > sepIndex && HasNonDot(p, sepIndex + 1, dotIndex) {
      assert p[..dotIndex] + p[dotIndex..] == p;
      var ext := p[dotIndex..];
      forall k | 0 <= k < |ext| ensures ext[k] != '/' && (k > 0 ==> ext[k] != '.') {
        assert ext[k] == p[dotIndex + k];
      }
    }
  }

  /** Line 58: the walked file becomes a glyph when `ext in ['.svg', '.eps']`. */
  predicate IsVectorSource(filename: Bytes) {
    SplitExt(filename).1 in [".svg", ".eps"]
  }

  /** Line 59: the file's `<switch>` tags are stripped when `ext in ['.svg']`. */
  predicate IsSvgSource(filename: Bytes) {
    SplitExt(filename).1 == ".svg"
  }

  /** `os.path.join(dirname, filename)` (POSIX, two arguments). */
  function Join(dirname: Bytes, filename: Bytes): Bytes {
    if |filename| > 0 && filename[0] == '/' then filename
    else if dirname == [] || dirname[|dirname| - 1] == '/' then dirname + filename
    else dirname + "/" + filename
  }

  /** The joined path ends with the file name, and it is the directory, a slash and the
      name whenever the name is relative and the directory does not end with a slash. */
  lemma JoinEndsWithName(dirname: Bytes, filename: Bytes)
    ensures var r := Join(dirname, filename);
            |filename| <= |r| && r[|r| - |filename|..] == filename
    ensures (filename == [] || filename[0] != '/') && dirname != [] && dirname[|dirname| - 1] != '/' ==>
              Join(dirname, filename) == dirname + ['/'] + filename
  {
    var r := Join(dirname, filename);
    if !(|filename| > 0 && filename[0] == '/') {
      assert r[|r| - |filename|..] == filename;
    }
  }

  /** For a walked file name (no slash): it is accepted exactly when it ends with the
      case-sensitive `.svg` or `.eps` and some byte before that suffix is not a dot. */
  lemma {:induction false} VectorSourceIff(f: Bytes)
    requires '/' !in f
    ensures IsVectorSource(f) <==>
            |f| >= 4 && (f[|f| - 4..] == ".svg" || f[|f| - 4..] == ".eps") && HasNonDot(f, 0, |f| - 4)
    ensures IsVectorSource(f) ==> SplitExt(f) == (f[..|f| - 4], f[|f| - 4..])
  {
    var sepIndex := RFind(f, '/');
    var dotIndex := RFind(f, '.');
    assert sepIndex == -1;
    SplitExtParts(f);
    var ext := SplitExt(f).1;
    if IsVectorSource(f) {
      assert dotIndex > sepIndex && HasNonDot(f, sepIndex + 1, dotIndex);
      assert ext == f[dotIndex..];
      assert |f| - dotIndex == 4;
    }
    if |f| >= 4 && (f[|f| - 4..] == ".svg" || f[|f| - 4..] == ".eps") && HasNonDot(f, 0, |f| - 4) {
      var suffix := f[|f| - 4..];
      assert f[|f| - 4] == suffix[0] == '.';
      assert '.' !in suffix[1..];
      forall j | |f| - 4 < j < |f| ensures f[j] != '.' {
        assert f[j] == suffix[1..][j - (|f| - 3)];
      }
      assert dotIndex == |f| - 4;
    }
  }

  /** A walked name that does not start with a dot and ends with `.svg` is an SVG
      source. */
  lemma SvgNameAccepted(f: Bytes)
    requires '/' !in f && |f| > 4 && f[0] != '.' && f[|f| - 4..] == ".svg"
    ensures IsVectorSource(f) && IsSvgSource(f) && SplitExt(f).0 == f[..|f| - 4]
  {
    VectorSourceIff(f);
  }

  /** The name of an accepted file, `splitext(filename)[0]`, is never empty. */
  lemma VectorSourceHasName(f: Bytes)
    requires IsVectorSource(f)
    ensures |SplitExt(f).0| >= 1 && HasNonDot(SplitExt(f).0, 0, |SplitExt(f).0|)
  {
    var sepIndex := RFind(f, '/');
    var dotIndex := RFind(f, '.');
    var j :| sepIndex + 1 <= j < dotIndex && f[j] != '.';
    assert SplitExt(f).0[j] == f[j];
  }

  /** Names the walk accepts: a plain SVG, and an EPS whose name holds another dot. */
  lemma AcceptedExamples(lower: Bytes, double: Bytes)
    requires lower == "home.svg" && double == "arrow.left.eps"
    ensures IsVectorSource(lower) && IsSvgSource(lower) && SplitExt(lower).0 == "home"
    ensures IsVectorSource(double) && !IsSvgSource(double) && SplitExt(double).0 == "arrow.left"
  {
    VectorSourceIff(lower);
    VectorSourceIff(double);
    assert lower[0] != '.';
    assert double[0] != '.';
    var d := RFind(lower, '.');
    assert lower[4] == '.' && d >= 4;
    var e := RFind(double, '.');
    assert double[10] == '.' && e >= 10;
  }

  /** Names the walk skips: the match is case-sensitive, and a name of dots before the
      suffix has no extension at all. */
  lemma RejectedExamples(upper: Bytes, hidden: Bytes, dotted: Bytes)
    requires upper == "home.SVG" && hidden == ".svg" && dotted == "..svg"
    ensures !IsVectorSource(upper) && !IsVectorSource(hidden) && !IsVectorSource(dotted)
  {
    VectorSourceIff(upper);
    VectorSourceIff(hidden);
    VectorSourceIff(dotted);
    assert !HasNonDot(dotted, 0, 1);
  }
}
