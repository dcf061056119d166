/** The name of the mask file written for an input image
    (transformer.py:32-43): the input's base name with `_mask` inserted
    between its stem and its extension, following the POSIX rules of
    Python's os.path.basename and os.path.splitext. */
module MaskName {

  /** Path separator and extension separator of POSIX paths. */
  const Sep: char := '/'
  const ExtSep: char := '.'

  /** Text inserted in front of the extension. */
  const MaskSuffix: string := "_mask"

  /** str.rfind for one character: the index of its last occurrence, or -1. */
  function RFind(s: string, ch: char): (i: int)
    ensures -1 <= i < |s|
    ensures 0 <= i ==> s[i] == ch
    ensures forall j :: i < j < |s| ==> s[j] != ch
  {
    if s == [] then -1
    else if s[|s| - 1] == ch then |s| - 1
    else RFind(s[..|s| - 1], ch)
  }

  /** The contract of RFind pins its result down: any index with the same
      two properties is the one RFind returns. */
  lemma RFindUnique(s: string, ch: char, i: int)
    requires -1 <= i < |s|
    requires 0 <= i ==> s[i] == ch
    requires forall j :: i < j < |s| ==> s[j] != ch
    ensures RFind(s, ch) == i
  {
  }

  /** os.path.basename: everything after the last separator. */
  function Basename(path: string): (name: string)
    ensures Sep !in name
    ensures |name| <= |path| && path[|path| - |name|..] == name
    ensures |name| < |path| ==> path[|path| - |name| - 1] == Sep
  {
    path[RFind(path, Sep) + 1..]
  }

  /** Some character in path[lo..hi] is not an extension separator. */
  predicate HasNonDot(path: string, lo: int, hi: int)
    requires 0 <= lo <= hi <= |path|
  {
    exists i :: lo <= i < hi && path[i] != ExtSep
  }

  /** The last path component of `path` holds a dot with some non-dot
      character before it in that component. */
  predicate HasExtensionDot(path: string)
  {
    var sep := RFind(path, Sep);
    exists d :: sep < d < |path| && path[d] == ExtSep && HasNonDot(path, sep + 1, d)
  }

  /** Such a dot exists exactly when the last dot of the path lies in its
      last component and is preceded there by a non-dot character. */
  lemma LastDotDecides(path: string)
    ensures var sep := RFind(path, Sep);
            var dot := RFind(path, ExtSep);
            HasExtensionDot(path) <==> dot > sep && HasNonDot(path, sep + 1, dot)
  {
    var sep := RFind(path, Sep);
    var dot := RFind(path, ExtSep);
    if HasExtensionDot(path) {
      var d :| sep < d < |path| && path[d] == ExtSep && HasNonDot(path, sep + 1, d);
      assert d <= dot;
      var i :| sep + 1 <= i < d && path[i] != ExtSep;
      assert HasNonDot(path, sep + 1, dot);
    }
  }

  /** The text from the last dot on, when that dot follows the last
      separator, is one dot followed by neither dot nor separator. */
  lemma TailFromLastDot(path: string, sep: int, dot: int)
    requires sep == RFind(path, Sep) && dot == RFind(path, ExtSep) && sep < dot
    ensures path[dot..][0] == ExtSep
    ensures ExtSep !in path[dot..][1..] && Sep !in path[dot..]
  {
    assert forall j :: 0 <= j < |path| - dot - 1 ==> path[dot..][1..][j] == path[dot + 1 + j];
    assert forall j :: 0 <= j < |path| - dot ==> path[dot..][j] == path[dot + j];
  }

  /** os.path.splitext: splits at the last dot of the last path component,
      unless every character of that component before the dot is a dot
      too (a leading dot names a hidden file, not an extension). */
  function SplitExt(path: string): (parts: (string, string))
    ensures parts.0 + parts.1 == path
    ensures parts.1 == [] || (parts.1[0] == ExtSep && ExtSep !in parts.1[1..] && Sep !in parts.1)
    ensures parts.1 != [] <==> HasExtensionDot(path)
  {
    var sep := RFind(path, Sep);
    var dot := RFind(path, ExtSep);
    LastDotDecides(path);
    if dot > sep && HasNonDot(path, sep + 1, dot) then
      TailFromLastDot(path, sep, dot);
      (path[..dot], path[dot..])
    else
      (path, [])
  }

  /** get_maskfilename. */
  function MaskFileName(filename: string): (name: string)
    ensures Sep !in name
    ensures |name| == |Basename(filename)| + |MaskSuffix|
    ensures !HasExtensionDot(Basename(filename)) ==> name == Basename(filename) + MaskSuffix
  {
    var (stem, ext) := SplitExt(Basename(filename));
    stem + MaskSuffix + ext
  }

  /** The mask name splits back into the input's stem followed by `_mask`,
      and the input's extension: the mask file keeps the image's type, and
      removing the suffix recovers the input's base name. */
  lemma MaskFileNameSplits(filename: string)
    ensures var (stem, ext) := SplitExt(Basename(filename));
            && SplitExt(MaskFileName(filename)) == (stem + MaskSuffix, ext)
            && stem + ext == Basename(filename)
  {
    var (stem, ext) := SplitExt(Basename(filename));
    if ext != [] {
      SplitWithExtension(stem, ext);
    } else {
      SplitWithoutExtension(Basename(filename));
    }
  }

  /** A stem followed by `_mask` and a one-dot extension splits at that dot. */
  lemma SplitWithExtension(stem: string, ext: string)
    requires Sep !in stem && ext != [] && ext[0] == ExtSep && ExtSep !in ext[1..] && Sep !in ext
    ensures SplitExt(stem + MaskSuffix + ext) == (stem + MaskSuffix, ext)
  {
    var name := stem + MaskSuffix + ext;
    var d := |stem| + |MaskSuffix|;
    assert name[d..] == ext;
    assert forall j :: d < j < |name| ==> name[j] == ext[1..][j - d - 1];
    RFindUnique(name, Sep, -1);
    RFindUnique(name, ExtSep, d);
    assert name[d - 1] == 'k';
    assert HasNonDot(name, 0, d);
    assert name[..d] == stem + MaskSuffix;
  }

  /** A base name without an extension still has none once `_mask` is added. */
  lemma SplitWithoutExtension(base: string)
    requires Sep !in base && SplitExt(base).1 == []
    ensures SplitExt(base + MaskSuffix) == (base + MaskSuffix, [])
  {
    var name := base + MaskSuffix;
    var d := RFind(base, ExtSep);
    assert forall j :: |base| <= j < |name| ==> name[j] == MaskSuffix[j - |base|];
    RFindUnique(name, Sep, -1);
    RFindUnique(base, Sep, -1);
    RFindUnique(name, ExtSep, d);
    if d > -1 {
      assert !HasNonDot(base, 0, d);
      assert forall i :: 0 <= i < d ==> name[i] == base[i];
      assert !HasNonDot(name, 0, d);
    }
  }

  /** Worked cases: a plain file name splits at its dot, and with several
      dots only the last one splits. */
  lemma SplitExtLastDotExamples()
    ensures SplitExt("img.tif") == ("img", ".tif")
    ensures SplitExt("a.b.c") == ("a.b", ".c")
  {
    var p := "img.tif";
    RFindUnique(p, Sep, -1);
    RFindUnique(p, ExtSep, 3);
    assert p[0] != ExtSep;
    assert HasNonDot(p, 0, 3);
    assert p[..3] == "img" && p[3..] == ".tif";
    var q := "a.b.c";
    RFindUnique(q, Sep, -1);
    RFindUnique(q, ExtSep, 3);
    assert q[0] != ExtSep;
    assert HasNonDot(q, 0, 3);
    assert q[..3] == "a.b" && q[3..] == ".c";
  }

  /** Worked case: a leading dot names a hidden file, not an extension. */
  lemma SplitExtHiddenFileExample()
    ensures SplitExt(".bashrc") == (".bashrc", "")
  {
    RFindUnique(".bashrc", Sep, -1);
    RFindUnique(".bashrc", ExtSep, 0);
  }

  /** Worked case: the directory part is dropped, even one holding a dot. */
  lemma MaskFileNameExample()
    ensures MaskFileName("/data/dir.d/field.tif") == "field_mask.tif"
  {
    var path := "/data/dir.d/field.tif";
    RFindUnique(path, Sep, 11);
    assert path[12..] == "field.tif";
    var base := "field.tif";
    assert Basename(path) == base;
    RFindUnique(base, Sep, -1);
    RFindUnique(base, ExtSep, 5);
    assert base[0] != ExtSep;
    assert HasNonDot(base, 0, 5);
    assert base[..5] == "field" && base[5..] == ".tif";
    assert SplitExt(base) == ("field", ".tif");
  }

  /** Worked case: a name without an extension just gains `_mask`. */
  lemma MaskFileNameNoExtensionExample()
    ensures MaskFileName("dir.d/README") == "README_mask"
  {
    var path := "dir.d/README";
    RFindUnique(path, Sep, 5);
    assert path[6..] == "README";
    assert Basename(path) == "README";
    RFindUnique("README", Sep, -1);
    RFindUnique("README", ExtSep, -1);
  }
}
