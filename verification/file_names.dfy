/**
 The two file-name helpers: removeHwamExtension, which the decoder uses to
 name its output, and exrtactFileName, which main uses to name the output
 of both directions.
 */
module FileNames {
  import opened Strings

  /** The extension the encoder appends to the name of its output. */
  const HwamExtension: string := ".hwam"

  /** removeHwamExtension: everything before the last '.', or the whole name if there is none. */
  function RemoveHwamExtension(filename: string): (r: string)
    ensures '.' !in filename ==> r == filename
    ensures '.' in filename ==>
      |r| < |filename| && r == filename[..|r|] && filename[|r|] == '.' && '.' !in filename[|r| + 1..]
  {
    match FindLastOf(filename, '.')
    case None => filename
    case Some(lastDot) => Substr(filename, 0, lastDot)
  }

  /** Cutting at the last '.' undoes appending a '.' and an extension without a '.'. */
  lemma RemoveExtensionAfterAppend(s: string, extension: string)
    requires '.' !in extension
    ensures RemoveHwamExtension(s + "." + extension) == s
  {
    var t := s + "." + extension;
    assert t[|s|] == '.';
    assert t[|s| + 1..] == extension;
    assert t[..|s|] == s;
  }

  /** The decoder recovers the name the encoder started from. */
  lemma RemoveHwamExtensionUndoesAppend(s: string)
    ensures RemoveHwamExtension(s + HwamExtension) == s
  {
    assert s + HwamExtension == s + "." + "hwam";
    RemoveExtensionAfterAppend(s, "hwam");
  }

  /**
   exrtactFileName: from just after the last '/' (or from 0 if there is
   none), take size() - 1 characters. The count is clipped at the end of
   the string, so after a '/' the whole rest is taken; without a '/' the
   last char (one byte) is lost; for the empty string size() - 1 wraps to npos.
   The position of the last '.' is looked up too, but never used.
   */
  function ExtractFileName(fileName: string): (r: string)
    requires |fileName| <= SizeMax
    ensures '/' !in r
    ensures '/' in fileName ==>
      |r| < |fileName| && fileName[|fileName| - |r| - 1] == '/' && r == fileName[|fileName| - |r|..]
    ensures '/' !in fileName && |fileName| > 0 ==> r == fileName[..|fileName| - 1]
    ensures |fileName| == 0 ==> r == ""
  {
    var lastSlash := match FindLastOf(fileName, '/')
      case None => 0
      case Some(slash) => slash + 1;
    var lastDot := match FindLastOf(fileName, '.')
      case None => |fileName|
      case Some(dot) => dot;
    Substr(fileName, lastSlash, SizeSub(|fileName|, 1))
  }

  /** The last component of a path: the characters after its last '/'. */
  function BaseName(path: string): string {
    if |path| == 0 || path[|path| - 1] == '/' then ""
    else BaseName(path[..|path| - 1]) + [path[|path| - 1]]
  }

  /** BaseName is the '/'-free suffix that is the whole path or follows a '/'. */
  lemma {:induction false} BaseNameIsLastComponent(path: string)
    ensures '/' !in BaseName(path)
    ensures |BaseName(path)| <= |path| && BaseName(path) == path[|path| - |BaseName(path)|..]
    ensures |BaseName(path)| < |path| ==> path[|path| - |BaseName(path)| - 1] == '/'
  {
    if |path| > 0 && path[|path| - 1] != '/' {
      var init := path[..|path| - 1];
      BaseNameIsLastComponent(init);
      assert init[|init| - |BaseName(init)|..] + [path[|path| - 1]] == path[|path| - |BaseName(path)|..];
    }
  }

  /** A name without '/' is its own last component. */
  lemma {:induction false} BaseNameWithoutSlash(name: string)
    requires '/' !in name
    ensures BaseName(name) == name
  {
    if |name| > 0 {
      BaseNameWithoutSlash(name[..|name| - 1]);
      assert name[..|name| - 1] + [name[|name| - 1]] == name;
    }
  }

  /** Two '/'-free suffixes that are the whole path or follow a '/' are the same. */
  lemma LastComponentUnique(path: string, a: string, b: string)
    requires |a| <= |path| && a == path[|path| - |a|..] && '/' !in a
    requires |a| < |path| ==> path[|path| - |a| - 1] == '/'
    requires |b| <= |path| && b == path[|path| - |b|..] && '/' !in b
    requires |b| < |path| ==> path[|path| - |b| - 1] == '/'
    ensures a == b
  {
  }

  /** With a '/' in the path, exrtactFileName returns its last component. */
  lemma ExtractFileNameAfterSlash(path: string)
    requires |path| <= SizeMax && '/' in path
    ensures ExtractFileName(path) == BaseName(path)
  {
    BaseNameIsLastComponent(path);
    LastComponentUnique(path, ExtractFileName(path), BaseName(path));
  }

  /** Without a '/', exrtactFileName returns the path minus its last char (one byte). */
  lemma ExtractFileNameWithoutSlash(path: string)
    requires |path| <= SizeMax && '/' !in path && |path| > 0
    ensures BaseName(path) == path
    ensures ExtractFileName(path) == path[..|path| - 1]
  {
    BaseNameIsLastComponent(path);
    LastComponentUnique(path, path, BaseName(path));
  }

  /** exrtactFileName on "a.txt" gives "a.tx". */
  lemma ExtractFileNameDropsLastCharacter()
    ensures ExtractFileName("a.txt") == "a.tx"
    ensures BaseName("a.txt") == "a.txt"
  {
    ExtractFileNameWithoutSlash("a.txt");
  }

  /**
   exrtactFileName as evidently intended: everything after the last '/',
   taking all the characters that remain.
   */
  function ExtractFileNameFixed(fileName: string): (r: string)
    ensures r == BaseName(fileName)
  {
    var lastSlash := match FindLastOf(fileName, '/')
      case None => 0
      case Some(slash) => slash + 1;
    var r := Substr(fileName, lastSlash, |fileName| - lastSlash);
    BaseNameIsLastComponent(fileName);
    LastComponentUnique(fileName, r, BaseName(fileName));
    r
  }

  /** Appending ".hwam" to a name without '/' gives a name without '/'. */
  lemma HwamNameHasNoSlash(name: string)
    requires '/' !in name
    ensures '/' !in name + HwamExtension
  {
  }

  /**
   The output names of the two directions, as written: encoding a file at
   path writes ExtractFileName(path) + ".hwam"; decoding that file writes
   the same name without ".hwam". So the restored file is named
   ExtractFileName(path), which misses the last byte when the path has
   no '/'.
   */
  lemma RestoredNameAsWritten(path: string)
    requires |path| + |HwamExtension| <= SizeMax
    ensures RemoveHwamExtension(ExtractFileName(ExtractFileName(path) + HwamExtension)) == ExtractFileName(path)
  {
    var name := ExtractFileName(path);
    var encoded := name + HwamExtension;
    assert '/' !in encoded;
    assert ExtractFileName(encoded) == name + ".hwa";
    RemoveExtensionAfterAppend(name, "hwa");
    assert name + ".hwa" == name + "." + "hwa";
  }

  /** With the corrected helper, decoding restores the last component of the original path. */
  lemma RestoredNameFixed(path: string)
    ensures RemoveHwamExtension(ExtractFileNameFixed(ExtractFileNameFixed(path) + HwamExtension)) == BaseName(path)
  {
    var name := ExtractFileNameFixed(path);
    BaseNameIsLastComponent(path);
    assert '/' !in name;
    var encoded := name + HwamExtension;
    HwamNameHasNoSlash(name);
    BaseNameWithoutSlash(encoded);
    assert ExtractFileNameFixed(encoded) == encoded;
    RemoveHwamExtensionUndoesAppend(name);
  }
}
