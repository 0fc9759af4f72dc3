/**
 * Path strings as POSIX `os.path` sees them: `'/'`-separated, compared as
 * plain strings (no normalisation).  `splitext`, `basename` and `join`, the
 * extension filter `is_image_file` shared by the three organiser scripts,
 * and the suffix filter of the uploader.
 */
module Paths {

  type Path = string

  /** Index of the last occurrence of `c` in `s`, or -1 (Python's `str.rfind`). */
  function RFind(s: string, c: char): (r: int)
    ensures -1 <= r < |s|
    ensures r >= 0 ==> s[r] == c
    ensures forall i :: r < i < |s| ==> s[i] != c
  {
    if |s| == 0 then -1
    else if s[|s| - 1] == c then |s| - 1
    else RFind(s[..|s| - 1], c)
  }

  /** The last occurrence is determined by the two properties RFind ensures. */
  lemma RFindUnique(s: string, c: char, k: int)
    requires -1 <= k < |s|
    requires k >= 0 ==> s[k] == c
    requires forall i :: k < i < |s| ==> s[i] != c
    ensures RFind(s, c) == k
  {
  }

  /** Searching a concatenation finds the occurrence in the right part first. */
  lemma RFindAppend(a: string, b: string, c: char)
    ensures RFind(a + b, c) == if RFind(b, c) >= 0 then |a| + RFind(b, c) else RFind(a, c)
  {
    var k := if RFind(b, c) >= 0 then |a| + RFind(b, c) else RFind(a, c);
    forall i | k < i < |a + b| ensures (a + b)[i] != c {
      if i >= |a| {
        assert (a + b)[i] == b[i - |a|];
      } else {
        assert (a + b)[i] == a[i];
      }
    }
    RFindUnique(a + b, c, k);
  }

  /** Some character of `p[lo..hi]` is not a dot. */
  predicate HasNonDot(p: string, lo: int, hi: int)
    requires 0 <= lo <= hi <= |p|
  {
    exists i | lo <= i < hi :: p[i] != '.'
  }

  /**
   * `os.path.splitext`: the extension runs from the last dot of the last
   * path component to the end, provided that dot is preceded (within the
   * component) by some character other than a dot; otherwise it is empty.
   */
  function SplitExt(p: Path): (Path, Path)
  {
    var sep := RFind(p, '/');
    var dot := RFind(p, '.');
    if dot > sep && HasNonDot(p, sep + 1, dot) then (p[..dot], p[dot..]) else (p, "")
  }

  function Root(p: Path): Path { SplitExt(p).0 }

  function Ext(p: Path): Path { SplitExt(p).1 }

  /** A non-empty extension: one dot and then no further dot or separator. */
  predicate IsExtension(e: string)
  {
    |e| >= 1 && e[0] == '.' && forall i :: 1 <= i < |e| ==> e[i] != '.' && e[i] != '/'
  }

  /** The last path component of `r` holds some character other than a dot. */
  predicate NamedComponent(r: string)
  {
    HasNonDot(r, RFind(r, '/') + 1, |r|)
  }

  /** `splitext` loses nothing, and what it splits off is a real extension. */
  lemma SplitExtParts(p: Path)
    ensures Root(p) + Ext(p) == p
    ensures Ext(p) == "" || (IsExtension(Ext(p)) && NamedComponent(Root(p)))
  {
    var sep := RFind(p, '/');
    var dot := RFind(p, '.');
    if dot > sep && HasNonDot(p, sep + 1, dot) {
      var r, e := p[..dot], p[dot..];
      assert r + e == p;
      forall i | 1 <= i < |e| ensures e[i] != '.' && e[i] != '/' {
        assert e[i] == p[dot + i];
      }
      forall i | sep < i < |r| ensures r[i] != '/' {
        assert r[i] == p[i];
      }
      RFindUnique(r, '/', sep);
      var w :| sep + 1 <= w < dot && p[w] != '.';
      assert r[w] != '.';
    }
  }

  /**
   * `splitext` never cuts into the directory part: a prefix that ends in a
   * separator is also a prefix of the root.
   */
  lemma RootKeepsDirectory(q: Path, p: Path)
    requires q <= p && (q == "" || q[|q| - 1] == '/')
    ensures q <= Root(p)
  {
    if q != "" {
      assert p[|q| - 1] == '/';
    }
  }

  /** Appending a name part with an extension to `r` splits back into the two. */
  lemma SplitAtExtension(r: string, e: string)
    requires IsExtension(e)
    requires NamedComponent(r)
    ensures SplitExt(r + e) == (r, e)
  {
    var p := r + e;
    RFindAppend(r, e, '/');
    RFindAppend(r, e, '.');
    assert RFind(e, '/') == -1;
    RFindUnique(e, '.', 0);
    var sep := RFind(r, '/');
    assert RFind(p, '/') == sep;
    assert RFind(p, '.') == |r|;
    var w :| sep + 1 <= w < |r| && r[w] != '.';
    assert p[w] == r[w];
    assert HasNonDot(p, sep + 1, |r|);
    assert p[..|r|] == r && p[|r|..] == e;
  }

  /** Appending a part without dots or separators to a path without an extension gives none. */
  lemma NoExtensionAppend(s: string, t: string)
    requires Ext(s) == ""
    requires forall i :: 0 <= i < |t| ==> t[i] != '.' && t[i] != '/'
    ensures SplitExt(s + t) == (s + t, "")
  {
    RFindAppend(s, t, '/');
    RFindAppend(s, t, '.');
    RFindUnique(t, '/', -1);
    RFindUnique(t, '.', -1);
    var sep := RFind(s, '/');
    var dot := RFind(s, '.');
    if dot > sep {
      HasNonDotPrefix(s, t, sep + 1, dot);
    }
  }

  /** Whether a range holds a non-dot does not depend on what follows it. */
  lemma HasNonDotPrefix(s: string, t: string, lo: int, hi: int)
    requires 0 <= lo <= hi <= |s|
    ensures HasNonDot(s + t, lo, hi) == HasNonDot(s, lo, hi)
  {
    if HasNonDot(s + t, lo, hi) {
      var w :| lo <= w < hi && (s + t)[w] != '.';
      assert s[w] == (s + t)[w];
    }
    if HasNonDot(s, lo, hi) {
      var w :| lo <= w < hi && s[w] != '.';
      assert s[w] == (s + t)[w];
    }
  }

  lemma HasNonDotShift(dir: string, name: string, lo: int, hi: int)
    requires 0 <= lo <= hi <= |name|
    ensures HasNonDot(dir + name, |dir| + lo, |dir| + hi) == HasNonDot(name, lo, hi)
  {
    var p := dir + name;
    if HasNonDot(name, lo, hi) {
      var w :| lo <= w < hi && name[w] != '.';
      assert p[|dir| + w] == name[w];
    }
    if HasNonDot(p, |dir| + lo, |dir| + hi) {
      var w :| |dir| + lo <= w < |dir| + hi && p[w] != '.';
      assert name[w - |dir|] == p[w];
    }
  }

  /** The extension of a path is the extension of its last component. */
  lemma ExtOfLastComponent(dir: string, name: string)
    requires dir == "" || dir[|dir| - 1] == '/'
    requires RFind(name, '/') == -1
    ensures Ext(dir + name) == Ext(name)
  {
    var p := dir + name;
    RFindAppend(dir, name, '/');
    RFindAppend(dir, name, '.');
    if dir != "" {
      RFindUnique(dir, '/', |dir| - 1);
    }
    var sepP, dotP := RFind(p, '/'), RFind(p, '.');
    var dotN := RFind(name, '.');
    assert sepP == |dir| - 1;
    if dotN >= 0 {
      assert dotP == |dir| + dotN;
      HasNonDotShift(dir, name, 0, dotN);
      assert p[dotP..] == name[dotN..];
    } else {
      assert dotP < |dir|;
      assert dir != "" ==> dir[|dir| - 1] != '.';
      assert dotP <= sepP;
    }
  }

  /** `os.path.basename`: everything after the last separator. */
  function Basename(p: Path): Path
  {
    p[RFind(p, '/') + 1..]
  }

  /** A string without `c` has no last occurrence of it. */
  lemma RFindAbsent(s: string, c: char)
    requires forall i :: 0 <= i < |s| ==> s[i] != c
    ensures RFind(s, c) == -1
  {
    RFindUnique(s, c, -1);
  }

  lemma BasenameHasNoSeparator(p: Path)
    ensures forall i :: 0 <= i < |Basename(p)| ==> Basename(p)[i] != '/'
  {
    SuffixAvoids(p, '/', RFind(p, '/'), Basename(p));
  }

  /** Everything after position `k` avoids `c` when no later index holds it. */
  lemma SuffixAvoids(s: string, c: char, k: int, t: string)
    requires -1 <= k < |s| && t == s[k + 1..]
    requires forall i :: k < i < |s| ==> s[i] != c
    ensures forall i :: 0 <= i < |t| ==> t[i] != c
  {
    forall i | 0 <= i < |t| ensures t[i] != c {
      assert t[i] == s[k + 1 + i];
    }
  }

  /** A path is its directory part, ending in a separator, followed by its basename. */
  lemma BasenameSplits(p: Path)
    ensures p == p[..RFind(p, '/') + 1] + Basename(p)
    ensures var dir := p[..RFind(p, '/') + 1]; dir == "" || dir[|dir| - 1] == '/'
    ensures RFind(Basename(p), '/') == -1
  {
    BasenameHasNoSeparator(p);
    RFindAbsent(Basename(p), '/');
  }

  /** A path that does not start at the root. */
  predicate Relative(p: Path)
  {
    |p| == 0 || p[0] != '/'
  }

  /**
   * `os.path.join` of two parts: an absolute second part replaces the
   * first; otherwise the result is the first part, at most one separator,
   * and the second part.
   */
  function Join(a: Path, b: Path): (r: Path)
    ensures !Relative(b) ==> r == b
    ensures Relative(b) ==> a <= r && |a| + |b| <= |r| <= |a| + 1 + |b| && r[|r| - |b|..] == b
    ensures Relative(b) && |r| > |a| + |b| ==> r[|a|] == '/'
  {
    if |b| > 0 && b[0] == '/' then b
    else if a == "" || a[|a| - 1] == '/' then a + b
    else a + "/" + b
  }

  /** Joining a relative part is joining it onto the first part's directory form. */
  lemma JoinSplits(a: Path, b: Path)
    requires Relative(b)
    ensures Join(a, b) == Join(a, "") + b
    ensures Join(a, "") == "" || Join(a, "")[|Join(a, "")| - 1] == '/'
  {
  }

  /** Joining a separator-free name onto a directory keeps the name's extension. */
  lemma ExtOfJoin(a: Path, b: Path)
    requires RFind(b, '/') == -1
    ensures Ext(Join(a, b)) == Ext(b)
  {
    if |b| > 0 {
      assert b[0] != '/';
    }
    if a == "" || a[|a| - 1] == '/' {
      ExtOfLastComponent(a, b);
    } else {
      var pre := a + "/";
      assert Join(a, b) == pre + b;
      ExtOfLastComponent(pre, b);
    }
  }

  /** The separator-free name at the end of a path stays its basename after a join. */
  lemma BasenameOfJoin(a: Path, b: Path)
    requires forall i :: 0 <= i < |b| ==> b[i] != '/'
    requires |b| > 0
    ensures Basename(Join(a, b)) == b
  {
    var p := Join(a, b);
    var pre := if a == "" || a[|a| - 1] == '/' then a else a + "/";
    assert p == pre + b;
    RFindAppend(pre, b, '/');
    RFindUnique(b, '/', -1);
    if pre != "" {
      assert pre[|pre| - 1] == '/';
      RFindUnique(pre, '/', |pre| - 1);
    }
    assert p[|pre|..] == b;
  }

  function LowerChar(c: char): char
  {
    if IsUpper(c) then (c as int + 32) as char else c
  }

  /** `str.lower`, on the ASCII letters (see README for why that suffices here). */
  function Lower(s: string): (r: string)
    ensures |r| == |s|
    ensures forall i :: 0 <= i < |r| ==> !IsUpper(r[i])
    ensures forall i :: 0 <= i < |s| && !IsUpper(s[i]) ==> r[i] == s[i]
    ensures forall i :: 0 <= i < |s| && IsUpper(s[i]) ==> r[i] as int == s[i] as int + 32
  {
    seq(|s|, i requires 0 <= i < |s| => LowerChar(s[i]))
  }

  predicate IsUpper(c: char)
  {
    'A' <= c <= 'Z'
  }

  /** Lower-casing twice is lower-casing once. */
  lemma LowerIdempotent(s: string)
    ensures Lower(Lower(s)) == Lower(s)
  {
  }

  lemma LowerAppend(a: string, b: string)
    ensures Lower(a + b) == Lower(a) + Lower(b)
  {
    assert forall i | 0 <= i < |a + b| :: Lower(a + b)[i] == (Lower(a) + Lower(b))[i];
  }

  /** The extensions the organiser scripts recognise (`img_formats`), lower case. */
  predicate IsFormat(e: string)
  {
    e == ".png" || e == ".jpg" || e == ".jpeg"
  }

  /** `is_image_file`: the lower-cased `splitext` extension is a recognised format. */
  predicate IsImageFile(p: Path)
  {
    IsFormat(Lower(Ext(p)))
  }

  /**
   * The same filter stated as a suffix test: `p` ends in one of the formats
   * (any case) and what precedes it has a non-dot character in its last
   * path component.
   */
  predicate EndsInImageFormat(p: Path)
  {
    SuffixIsFormat(p, 4) || SuffixIsFormat(p, 5)
  }

  /** The last `n` characters of `p` are a format, preceded by a named component. */
  predicate SuffixIsFormat(p: Path, n: nat)
  {
    n <= |p| && IsFormat(Lower(p[|p| - n..])) && NamedComponent(p[..|p| - n])
  }

  lemma FormatIsExtension(e: string)
    requires IsFormat(Lower(e))
    ensures IsExtension(e) && 4 <= |e| <= 5
  {
    var l := Lower(e);
    assert l[0] == LowerChar(e[0]);
    forall i | 1 <= i < |e| ensures e[i] != '.' && e[i] != '/' {
      assert l[i] == LowerChar(e[i]);
    }
  }

  lemma ImageFileEndsInFormat(p: Path)
    requires IsImageFile(p)
    ensures SuffixIsFormat(p, |Ext(p)|)
    ensures |Ext(p)| == 4 || |Ext(p)| == 5
  {
    SplitExtParts(p);
    FormatIsExtension(Ext(p));
    var n := |Ext(p)|;
    assert p[|p| - n..] == Ext(p) && p[..|p| - n] == Root(p);
  }

  lemma FormatSuffixIsImageFile(p: Path, n: nat)
    requires SuffixIsFormat(p, n)
    ensures IsImageFile(p)
  {
    var r, e := p[..|p| - n], p[|p| - n..];
    FormatIsExtension(e);
    assert r + e == p;
    SplitAtExtension(r, e);
  }

  /** `is_image_file` is exactly the suffix test. */
  lemma IsImageFileIsSuffixTest(p: Path)
    ensures IsImageFile(p) <==> EndsInImageFormat(p)
  {
    if IsImageFile(p) {
      ImageFileEndsInFormat(p);
    }
    if SuffixIsFormat(p, 4) {
      FormatSuffixIsImageFile(p, 4);
    }
    if SuffixIsFormat(p, 5) {
      FormatSuffixIsImageFile(p, 5);
    }
  }

  /** A sample decision of `is_image_file`: the case of the extension does not matter. */
  lemma UpperCaseExtensionIsImage()
    ensures IsImageFile("a.JPG")
  {
    assert Lower(".JPG") == ".jpg";
    assert "a.JPG"[..1] == "a" && "a.JPG"[1..] == ".JPG";
    RFindUnique("a", '/', -1);
    assert NamedComponent("a");
    FormatSuffixIsImageFile("a.JPG", 4);
  }

  /** A sample decision of `is_image_file`: the directory part does not matter. */
  lemma NestedJpegIsImage()
    ensures IsImageFile("/photos/x.jpeg")
  {
    var p := "/photos/x.jpeg";
    assert p[..9] == "/photos/x" && p[9..] == ".jpeg";
    RFindUnique("/photos/x", '/', 7);
    assert "/photos/x"[8] != '.';
    assert NamedComponent("/photos/x");
    FormatSuffixIsImageFile(p, 5);
  }

  /** Another extension and a bare format name do not qualify. */
  lemma NonImageExamples()
    ensures !IsImageFile("a.gif")
    ensures !IsImageFile("jpg")
  {
    IsImageFileIsSuffixTest("a.gif");
    assert "a.gif"[1..] == ".gif" && "a.gif"[..] == "a.gif";
    IsImageFileIsSuffixTest("jpg");
  }

  /** A hidden file named like an extension has no extension, so it does not qualify. */
  lemma HiddenFileNotImage()
    ensures !IsImageFile("/photos/.jpg")
  {
    var p := "/photos/.jpg";
    IsImageFileIsSuffixTest(p);
    assert p[8..] == ".jpg" && p[7..] == "/.jpg";
    assert p[..8] == "/photos/";
    RFindUnique("/photos/", '/', 7);
    assert !NamedComponent("/photos/");
  }

  predicate EndsWith(s: string, suffix: string)
  {
    |suffix| <= |s| && s[|s| - |suffix|..] == suffix
  }

  /**
   * The uploader's test `name.lower().endswith(("png", "jpg", "jpeg"))`:
   * a bare suffix, no dot required.
   */
  predicate UploadQualifies(name: string)
  {
    var l := Lower(name);
    EndsWith(l, "png") || EndsWith(l, "jpg") || EndsWith(l, "jpeg")
  }

  /** A suffix of the lower-cased string is the lower-cased suffix. */
  lemma LowerSuffix(s: string, n: nat)
    requires n <= |s|
    ensures Lower(s)[|s| - n..] == Lower(s[|s| - n..])
  {
  }

  /** The extension `splitext` finds is a suffix of the basename. */
  lemma ExtensionEndsBasename(p: Path)
    ensures |Ext(p)| <= |Basename(p)|
    ensures Basename(p)[|Basename(p)| - |Ext(p)|..] == Ext(p)
  {
    SplitExtParts(p);
    var r, e := Root(p), Ext(p);
    if e != "" {
      RFindAppend(r, e, '/');
      RFindUnique(e, '/', -1);
      assert p == r + e;
      var sep := RFind(r, '/');
      assert RFind(p, '/') == sep;
      assert p[sep + 1..] == r[sep + 1..] + e;
    }
  }

  /**
   * Every file the organisers treat as an image also qualifies for upload
   * by its basename.
   */
  lemma ImageFileQualifiesForUpload(p: Path)
    requires IsImageFile(p)
    ensures UploadQualifies(Basename(p))
  {
    ExtensionEndsBasename(p);
    var b := Basename(p);
    var e := Ext(p);
    LowerSuffix(b, |e|);
    var le := Lower(e);
    assert EndsWith(Lower(b), le);
    EndsWithTail(Lower(b), le);
    assert le[1..] == "png" || le[1..] == "jpg" || le[1..] == "jpeg";
  }

  lemma EndsWithTail(s: string, suffix: string)
    requires |suffix| >= 1 && EndsWith(s, suffix)
    ensures EndsWith(s, suffix[1..])
  {
    assert s[|s| - |suffix[1..]|..] == s[|s| - |suffix|..][1..];
  }

  /** The converse fails: the uploader requires no dot before the suffix. */
  lemma UploadNeedsNoDot()
    ensures UploadQualifies("xjpg") && !IsImageFile("xjpg")
  {
    BareSuffixQualifies();
    BareSuffixNotImage();
  }

  lemma BareSuffixQualifies()
    ensures UploadQualifies("xjpg")
  {
    assert Lower("xjpg") == "xjpg";
    assert "xjpg"[1..] == "jpg";
  }

  lemma BareSuffixNotImage()
    ensures !IsImageFile("xjpg")
  {
    IsImageFileIsSuffixTest("xjpg");
    assert "xjpg"[..] == "xjpg" && "xjpg"[0..] == "xjpg";
  }
}
