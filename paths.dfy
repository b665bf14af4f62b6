/** Path helpers of Utils.cpp: formatPath, combinePath, getFileNameFromPath (the
    hand-written branch), getDirectoryNameFromPath, getExtensionPartOfFileName and
    getFilePartOfFileName. */
module Paths {
  import opened Strings

  datatype Result<T> = Success(value: T) | Failure(message: string)

  /** A path segment: no separator of either kind. */
  predicate IsPlainName(s: string)
  {
    '/' !in s && '\\' !in s
  }

  /** std::string::substr(pos, count): the count is clamped to what is left. */
  function Substr(s: string, pos: nat, count: nat): (r: string)
    requires pos <= |s|
    ensures |r| <= count && pos + |r| <= |s| && r == s[pos..pos + |r|]
    ensures pos + count <= |s| ==> r == s[pos..pos + count]
    ensures pos + count >= |s| ==> r == s[pos..]
  {
    if pos + count <= |s| then s[pos..pos + count] else s[pos..]
  }

  /** Utils::formatPath: every '\' becomes '/'. */
  function FormatPath(p: string): (r: string)
    ensures |r| == |p| && '\\' !in r
    ensures forall k {:trigger r[k]} :: 0 <= k < |p| ==> r[k] == if p[k] == '\\' then '/' else p[k]
  {
    ReplacedChar(p, '\\', '/')
  }

  lemma FormatPathIdempotent(p: string)
    ensures FormatPath(FormatPath(p)) == FormatPath(p)
  {
  }

  /** A path with no '\' is already formatted. */
  lemma FormatPathNoop(p: string)
    requires '\\' !in p
    ensures FormatPath(p) == p
  {
  }

  lemma FormatPathAppend(a: string, b: string)
    ensures FormatPath(a + b) == FormatPath(a) + FormatPath(b)
  {
  }

  // ---------------------------------------------------------------------------
  // combinePath
  // ---------------------------------------------------------------------------

  /** Utils::combinePath: an empty side gives the other side unchanged; two
      non-empty sides are joined into a path without '\'. */
  function CombinePath(a: string, b: string): (r: string)
    ensures |a| == 0 ==> r == b
    ensures |b| == 0 ==> r == a
    ensures |a| > 0 && |b| > 0 ==> '\\' !in r
  {
    if |a| == 0 || |b| == 0 then a + b
    else
      TrimmedIsSlice(FormatPath(a), '/');
      TrimmedIsSlice(FormatPath(b), '/');
      Trimmed(FormatPath(a), '/') + "/" + Trimmed(FormatPath(b), '/')
  }

  /** When both sides are non-empty the result is two '/'-free-at-the-ends,
      '\'-free parts joined by exactly one '/'; each part is the side with its
      separators normalised and its leading and trailing '/' cut off. */
  lemma CombinePathJoinsOnce(a: string, b: string)
    requires |a| > 0 && |b| > 0
    ensures exists x, y :: CombinePath(a, b) == x + "/" + y && IsJoinPart(a, x) && IsJoinPart(b, y)
  {
    var x, y := Trimmed(FormatPath(a), '/'), Trimmed(FormatPath(b), '/');
    TrimmedIsSlice(FormatPath(a), '/');
    TrimmedIsSlice(FormatPath(b), '/');
    assert IsJoinPart(a, x) && IsJoinPart(b, y);
  }

  /** `part` is what combinePath keeps of `side`. */
  ghost predicate IsJoinPart(side: string, part: string)
  {
    (exists i :: IsTrimSlice(FormatPath(side), '/', part, i))
    && (part == [] || (part[0] != '/' && part[|part| - 1] != '/'))
  }

  /** Two names with no separators at all are joined with one '/'. */
  lemma CombinePlainNames(a: string, b: string)
    requires |a| > 0 && |b| > 0 && '\\' !in a && '\\' !in b
    requires a[0] != '/' && a[|a| - 1] != '/' && b[0] != '/' && b[|b| - 1] != '/'
    ensures CombinePath(a, b) == a + "/" + b
  {
    FormatPathNoop(a);
    FormatPathNoop(b);
    TrimmedNoop(a, '/');
    TrimmedNoop(b, '/');
  }

  /** Separators around plain names are dropped and one '/' joins them. */
  lemma CombineWrappedNames(x: string, y: string)
    requires |x| > 0 && |y| > 0 && IsPlainName(x) && IsPlainName(y)
    ensures CombinePath("/" + x + "/", "/" + y) == x + "/" + y
  {
    var a, b := "/" + x + "/", "/" + y;
    assert IsTrimSlice(a, '/', x, 1);
    assert IsTrimSlice(b, '/', y, 1);
    FormatPathNoop(a);
    FormatPathNoop(b);
    TrimmedUnique(a, '/', x, 1);
    TrimmedUnique(b, '/', y, 1);
  }

  /** A leading '/' of the directory side is dropped too: an absolute POSIX
      directory `/x` combined with a name gives the relative path `x/name`. */
  lemma CombineDropsRoot(x: string, name: string)
    requires |x| > 0 && |name| > 0 && IsPlainName(x) && IsPlainName(name)
    ensures CombinePath("/" + x, name) == x + "/" + name
  {
    var a := "/" + x;
    assert IsTrimSlice(a, '/', x, 1);
    FormatPathNoop(a);
    FormatPathNoop(name);
    TrimmedUnique(a, '/', x, 1);
    TrimmedNoop(name, '/');
  }

  lemma CombineAbsoluteRootExample(a: string, b: string)
    requires a == "/r" && b == "f"
    ensures CombinePath(a, b) == "r/f"
  {
    var x: string := "r";
    assert a == "/" + x;
    CombineDropsRoot(x, b);
  }

  lemma CombinePathExample(a: string, b: string)
    requires a == "/a/" && b == "/b"
    ensures CombinePath(a, b) == "a/b"
  {
    var x, y: string := "a", "b";
    assert a == "/" + x + "/" && b == "/" + y;
    CombineWrappedNames(x, y);
  }

  // ---------------------------------------------------------------------------
  // getFileNameFromPath, getDirectoryNameFromPath
  // ---------------------------------------------------------------------------

  /** Utils::getFileNameFromPath, hand-written branch: the text after the last
      separator; a path without separator is returned as given. Either way the
      result holds no separator. */
  function GetFileNameFromPath(name: string): (r: string)
    ensures IsPlainName(r)
  {
    var l2 := FormatPath(name);
    match RFindChar(l2, '/')
    case Some(tldOff) => Substr(l2, tldOff + 1, |l2| - tldOff + 1)
    case None =>
      assert l2 == name by {
        forall k | 0 <= k < |name| ensures l2[k] == name[k] {
          assert l2[k] != '/';
        }
      }
      name
  }

  /** The base name is a suffix of the formatted path, and the
      whole path when it has no separator. */
  lemma FileNameIsBaseName(name: string)
    ensures var r := GetFileNameFromPath(name);
      |r| <= |name| && r == FormatPath(name)[|name| - |r|..]
      && ('/' !in FormatPath(name) ==> r == name)
  {
    var l2 := FormatPath(name);
    if '/' !in l2 {
      forall k | 0 <= k < |name| ensures l2[k] == name[k] {
        assert l2[k] != '/';
      }
      assert l2 == name;
    }
  }

  /** A '\'-free path ending in "/" and a plain name splits at that '/'. */
  lemma SplitAtLastSlash(x: string, name: string)
    requires '\\' !in x && IsPlainName(name)
    ensures GetFileNameFromPath(x + "/" + name) == name
    ensures GetDirectoryNameFromPath(x + "/" + name) == x
  {
    var p := x + "/" + name;
    assert '\\' !in p;
    FormatPathNoop(p);
    forall k | |x| < k < |p| ensures p[k] != '/' {
      assert p[k] == name[k - |x| - 1];
    }
    RFindCharAt(p, '/', |x|);
    assert p[|x| + 1..] == name;
    assert p[..|x|] == x;
  }

  lemma GetFileNameExample(p: string)
    requires p == "dir/sub/file.txt"
    ensures GetFileNameFromPath(p) == "file.txt"
  {
    var x, name: string := "dir/sub", "file.txt";
    assert p == x + "/" + name;
    SplitAtLastSlash(x, name);
  }

  /** The base name of `dir` combined with a plain name is that name. */
  lemma GetFileNameOfCombine(dir: string, name: string)
    requires |dir| > 0 && |name| > 0 && IsPlainName(name)
    ensures GetFileNameFromPath(CombinePath(dir, name)) == name
    ensures GetDirectoryNameFromPath(CombinePath(dir, name)) == Trimmed(FormatPath(dir), '/')
  {
    var x := Trimmed(FormatPath(dir), '/');
    FormatPathNoop(name);
    TrimmedNoop(name, '/');
    assert CombinePath(dir, name) == x + "/" + name;
    SplitAtLastSlash(x, name);
  }

  /** Utils::getDirectoryNameFromPath: everything before the last separator; a
      path without separator comes back formatted. (The source also computes the
      file name here and does not use it.) */
  function GetDirectoryNameFromPath(pathName: string): (r: string)
    ensures |r| <= |pathName| && r == FormatPath(pathName)[..|r|]
  {
    var formattedPath := FormatPath(pathName);
    match RFindChar(formattedPath, '/')
    case Some(x) => formattedPath[..x]
    case None => formattedPath
  }

  /** The directory and the file name of a path rebuild it. */
  lemma DirectoryAndFileNameRebuildPath(p: string)
    ensures '/' in FormatPath(p) ==> GetDirectoryNameFromPath(p) + "/" + GetFileNameFromPath(p) == FormatPath(p)
    ensures '/' !in FormatPath(p) ==> GetDirectoryNameFromPath(p) == FormatPath(p)
  {
    var fp := FormatPath(p);
    if '/' in fp {
      var x := RFindChar(fp, '/').value;
      FormatPathIdempotent(p);
      assert GetFileNameFromPath(p) == fp[x + 1..];
      assert fp == fp[..x] + "/" + fp[x + 1..];
    }
  }

  // ---------------------------------------------------------------------------
  // getExtensionPartOfFileName, getFilePartOfFileName
  // ---------------------------------------------------------------------------

  /** Utils::getExtensionPartOfFileName: from the last '.' of the base name on,
      dot included; "" when the base name has no '.'. */
  function GetExtensionPartOfFileName(name: string): (r: string)
    ensures var fileName := GetFileNameFromPath(name);
      ('.' !in fileName ==> r == "")
      && ('.' in fileName ==>
            |r| > 0 && r[0] == '.' && '.' !in r[1..] && |r| <= |fileName| && r == fileName[|fileName| - |r|..])
  {
    var fileName := GetFileNameFromPath(name);
    match RFindChar(fileName, '.')
    case Some(x) =>
      var ext := Substr(fileName, x, |fileName| - x);
      assert ext == fileName[x..];
      assert forall k :: 1 <= k < |ext| ==> ext[k] == fileName[x + k];
      ext
    case None => ""
  }

  lemma GetExtensionExample(p: string)
    requires p == "dir/sub/file.txt"
    ensures GetExtensionPartOfFileName(p) == ".txt"
  {
    GetFileNameExample(p);
    var f := GetFileNameFromPath(p);
    assert f[4] == '.' && f[4..] == ".txt";
    RFindCharAt(f, '.', 4);
  }

  /** Utils::getFilePartOfFileName: everything before the last '.'; a name
      without '.' is the source's "Incorrect file name" exception. */
  function GetFilePartOfFileName(fileName: string): (r: Result<string>)
    ensures r.Failure? <==> '.' !in fileName
    ensures r.Success? ==>
      (|r.value| < |fileName| && fileName[|r.value|] == '.'
       && '.' !in fileName[|r.value| + 1..]
       && r.value + fileName[|r.value|..] == fileName)
  {
    match RFindChar(fileName, '.')
    case None =>
      Failure("Exception: Incorrect file name, no extension given or incorrect extension.")
    case Some(off) =>
      var part := Substr(fileName, 0, off);
      assert forall k :: off + 1 <= k < |fileName| ==> fileName[k] != '.';
      assert '.' !in fileName[off + 1..];
      assert part + fileName[off..] == fileName;
      Success(part)
  }

  /** For a base name with a '.', the file part and the extension rebuild it. */
  lemma FilePartAndExtensionRebuildName(f: string)
    requires IsPlainName(f) && '.' in f
    ensures GetFilePartOfFileName(f).Success?
    ensures GetFilePartOfFileName(f).value + GetExtensionPartOfFileName(f) == f
  {
    FormatPathNoop(f);
    assert GetFileNameFromPath(f) == f;
  }
}
