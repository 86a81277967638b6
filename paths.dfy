/** The file-name decomposition of a filesystem path in generic format, as
    `std::filesystem::path::filename()` and `extension()` define it in C++17
    ([fs.path.decompose] of ISO/IEC 14882:2017), and the program's whitelist of
    supported image files built on it (main.cpp, CheckSupportedExt). */
module Paths {

  const Separator: char := '/'

  /** The index of the last occurrence of `c` in `s`, or -1 when there is none. */
  function LastIndexOf(s: string, c: char): (r: int)
    ensures -1 <= r < |s|
    decreases |s|
  {
    if s == [] then -1
    else if s[|s| - 1] == c then |s| - 1
    else LastIndexOf(s[..|s| - 1], c)
  }

  /** `LastIndexOf` finds an occurrence of `c`, and none follows it. */
  lemma {:induction false} LastIndexOfSpec(s: string, c: char)
    ensures var r := LastIndexOf(s, c);
      && (r >= 0 ==> s[r] == c)
      && forall k :: r < k < |s| ==> s[k] != c
    decreases |s|
  {
    if s != [] && s[|s| - 1] != c {
      LastIndexOfSpec(s[..|s| - 1], c);
    }
  }

  /** The index of a last occurrence is determined by what it promises. */
  lemma LastIndexOfUnique(s: string, c: char, r: int)
    requires -1 <= r < |s| && (r >= 0 ==> s[r] == c)
    requires forall k :: r < k < |s| ==> s[k] != c
    ensures LastIndexOf(s, c) == r
  {
    LastIndexOfSpec(s, c);
  }

  /** The last component of the path: everything after the last separator
      (empty when the path ends in a separator). */
  function FileName(p: string): string
  {
    p[LastIndexOf(p, Separator) + 1..]
  }

  /** The last component is a suffix of the path free of separators. */
  lemma FileNameShape(p: string)
    ensures var f := FileName(p);
      Separator !in f && |f| <= |p| && p[|p| - |f|..] == f
  {
    LastIndexOfSpec(p, Separator);
  }

  /** The extension: the suffix of the file name from its rightmost period,
      empty when the file name is "." or "..", has no period, or has a period
      only as its first character (a dot-file). */
  function Extension(p: string): string
  {
    var f := FileName(p);
    if f == "." || f == ".." then ""
    else
      var k := LastIndexOf(f, '.');
      if k <= 0 then "" else f[k..]
  }

  /** The image extensions the program processes, compared byte for byte. */
  const SupportedExtensions: seq<string> :=
    [".jpg", ".jpeg", ".png", ".tif", ".tiff", ".bmp", ".webp", ".avif"]

  /** Whether the path names a file the program treats as a supported image. */
  predicate CheckSupportedExt(p: string)
  {
    var ext := Extension(p);
    ext == ".jpg" || ext == ".jpeg" || ext == ".png" ||
    ext == ".tif" || ext == ".tiff" || ext == ".bmp" ||
    ext == ".webp" || ext == ".avif"
  }

  /** `f` ends with `e` and has at least one character before it. */
  predicate EndsWithAfterStem(f: string, e: string)
  {
    |f| > |e| && f[|f| - |e|..] == e
  }

  /** The extension, characterised without reference to how it is computed:
      it is empty exactly for ".", ".." and file names with no period past the
      first character; otherwise it is a proper suffix of the file name that
      starts with the only period it contains. */
  lemma ExtensionShape(p: string)
    ensures var f, e := FileName(p), Extension(p);
      && (e == [] <==> f == ".." || forall k :: 1 <= k < |f| ==> f[k] != '.')
      && (e != [] ==> EndsWithAfterStem(f, e) && e[0] == '.' && '.' !in e[1..])
  {
    var f := FileName(p);
    var k := LastIndexOf(f, '.');
    LastIndexOfSpec(f, '.');
    if f != "." && f != ".." && k > 0 {
      assert f[k..][1..] == f[k + 1..];
      assert f[|f| - |f[k..]|..] == f[k..];
    }
  }

  /** Every whitelisted extension is a period followed by letters only. */
  lemma SupportedExtensionForm(e: string)
    requires e in SupportedExtensions
    ensures |e| >= 2 && e[0] == '.' && '.' !in e[1..] && Separator !in e
  {
  }

  /** The whitelist test is membership of the extension in the list. */
  lemma CheckIsMembership(p: string)
    ensures CheckSupportedExt(p) <==> Extension(p) in SupportedExtensions
  {
  }

  /** A path is accepted exactly when its file name ends with one of the
      whitelisted extensions and has at least one character before it. */
  lemma SupportedIffSuffix(p: string)
    ensures CheckSupportedExt(p) <==>
      exists e :: e in SupportedExtensions && EndsWithAfterStem(FileName(p), e)
  {
    var f := FileName(p);
    CheckIsMembership(p);
    if CheckSupportedExt(p) {
      var e := Extension(p);
      ExtensionShape(p);
      assert e in SupportedExtensions && EndsWithAfterStem(f, e);
    }
    if e :| e in SupportedExtensions && EndsWithAfterStem(f, e) {
      SupportedExtensionForm(e);
      SuffixIsExtension(f, e, p);
    }
  }

  /** A proper suffix that starts with the only period it contains is the
      extension. */
  lemma SuffixIsExtension(f: string, e: string, p: string)
    requires f == FileName(p)
    requires EndsWithAfterStem(f, e) && |e| >= 2 && e[0] == '.' && '.' !in e[1..]
    ensures Extension(p) == e
  {
    var i := |f| - |e|;
    assert f[i] == '.';
    forall k | i < k < |f| ensures f[k] != '.' {
      assert f[k] == e[1..][k - i - 1];
    }
    LastIndexOfUnique(f, '.', i);
    assert f != "." && f != ".." by { assert |f| >= 3; }
  }

  /** Appending a whitelisted extension to a path makes it accepted exactly
      when the path's own last component is not empty. */
  lemma AppendSupported(p: string, e: string)
    requires e in SupportedExtensions
    ensures CheckSupportedExt(p + e) <==> FileName(p) != []
  {
    SupportedExtensionForm(e);
    FileNameAppend(p, e);
    var f := FileName(p + e);
    assert f[|f| - |e|..] == e;
    if FileName(p) != [] {
      SupportedIffSuffix(p + e);
    } else {
      ExtensionShape(p + e);
      assert f == e;
      assert Extension(p + e) == [];
    }
  }

  /** Only the final extension counts: a path whose file name ends with a
      period and characters that do not form a whitelisted extension is
      rejected, whatever comes before (for instance "a.png.bak", or "a." whose
      extension is the lone period). */
  lemma LastExtensionOnly(p: string, e: string)
    requires |e| >= 1 && e[0] == '.' && '.' !in e[1..] && Separator !in e
    requires e !in SupportedExtensions
    ensures !CheckSupportedExt(p + e)
  {
    FileNameAppend(p, e);
    var f := FileName(p + e);
    assert f[|f| - |e|..] == e;
    if |e| == 1 {
      ExtensionShape(p + e);
      var x := Extension(p + e);
      if x != [] {
        assert x[|x| - 1] == f[|f| - 1] == '.';
      }
    } else if FileName(p) != [] {
      SuffixIsExtension(f, e, p + e);
    } else {
      ExtensionShape(p + e);
      assert f == e;
    }
    CheckIsMembership(p + e);
  }

  /** Appending text without a separator extends the last component. */
  lemma FileNameAppend(p: string, t: string)
    requires Separator !in t
    ensures FileName(p + t) == FileName(p) + t
  {
    var q := p + t;
    var i := LastIndexOf(p, Separator);
    LastIndexOfSpec(p, Separator);
    forall k | i < k < |q| ensures q[k] != Separator {
      if k >= |p| {
        assert q[k] == t[k - |p|];
      }
    }
    LastIndexOfUnique(q, Separator, i);
    assert q[i + 1..] == p[i + 1..] + t;
  }

  /** A last component without a period has no extension. */
  lemma NoPeriodRejected(p: string)
    requires '.' !in FileName(p)
    ensures !CheckSupportedExt(p)
  {
    ExtensionShape(p);
  }

  /** A dot-file, a last component whose only period is its first character,
      has no extension. */
  lemma DotFileRejected(p: string)
    requires |FileName(p)| >= 1 && FileName(p)[0] == '.' && '.' !in FileName(p)[1..]
    ensures !CheckSupportedExt(p)
  {
    var f := FileName(p);
    ExtensionShape(p);
    forall k | 1 <= k < |f| ensures f[k] != '.' {
      assert f[k] == f[1..][k - 1];
    }
  }

  /** A separator followed by a name gives that name as the last component. */
  lemma FileNameAfterSeparator(dir: string, name: string)
    requires Separator !in name
    ensures FileName(dir + "/" + name) == name
  {
    FileNameSeparatorEnd(dir);
    FileNameAppend(dir + "/", name);
  }

  /** Only the last extension counts: "a.tar.png" is an image. */
  lemma AcceptsDoubleExtension(dir: string)
    ensures CheckSupportedExt(dir + "/" + "a.tar" + ".png")
  {
    FileNameAfterSeparator(dir, "a.tar");
    AppendSupported(dir + "/" + "a.tar", ".png");
  }

  /** Only the last extension counts: "a.png.bak" is not an image. */
  lemma RejectsLaterExtension(dir: string)
    ensures !CheckSupportedExt(dir + "/" + "a.png" + ".bak")
  {
    LastExtensionOnly(dir + "/" + "a.png", ".bak");
  }

  /** The comparison is case-sensitive: "photo.JPG" is not an image. */
  lemma RejectsUpperCase(dir: string)
    ensures !CheckSupportedExt(dir + "/" + "photo" + ".JPG")
  {
    LastExtensionOnly(dir + "/" + "photo", ".JPG");
  }

  /** A dot-file such as ".png" has no extension. */
  lemma RejectsDotFile(dir: string)
    ensures !CheckSupportedExt(dir + "/" + ".png")
  {
    FileNameAfterSeparator(dir, ".png");
    DotFileRejected(dir + "/" + ".png");
  }

  /** A name without a period, such as "png", has no extension. */
  lemma RejectsNoPeriod(dir: string)
    ensures !CheckSupportedExt(dir + "/" + "png")
  {
    FileNameAfterSeparator(dir, "png");
    NoPeriodRejected(dir + "/" + "png");
  }

  /** A path ending in a separator has an empty last component. */
  lemma FileNameSeparatorEnd(p: string)
    ensures FileName(p + "/") == []
  {
    LastIndexOfUnique(p + "/", Separator, |p|);
  }
}
