/** Utils::getAllFilesOrDirs, getAllFiles, getAllDirs and findFile, over an
    in-memory directory tree in place of opendir/readdir/stat. */
module FileSearch {
  import opened Strings
  import opened Paths

  /** A directory entry. A directory's children are in readdir order; an
      unreadable directory is one opendir fails on. */
  datatype Entry =
    | File(name: string, mtime: int)
    | Dir(name: string, readable: bool, children: seq<Entry>)

  /** An element of a listing: the path built for the entry, and the entry the
      path names. */
  datatype Listed = Listed(path: string, node: Entry)

  /** A file found by the search: its path and its modification time. */
  datatype Hit = Hit(path: string, mtime: int)

  /** readdir's "." and ".." entries, which the listing skips. */
  predicate IsDotName(name: string)
  {
    name == ".." || name == "."
  }

  /** `e` goes into a listing of files (`wantFiles`) or of directories. */
  predicate Listable(e: Entry, wantFiles: bool)
  {
    !IsDotName(e.name) && e.File? == wantFiles
  }

  // ---------------------------------------------------------------------------
  // getAllFilesOrDirs
  // ---------------------------------------------------------------------------

  /** What the readdir loop of getAllFilesOrDirs has collected once it has read
      the first `n` entries of `children`. */
  function ListingPrefix(dirPath: string, children: seq<Entry>, wantFiles: bool, n: nat): (r: seq<Listed>)
    requires n <= |children|
    ensures |r| <= n
    ensures forall k :: 0 <= k < |r| ==> r[k].node.File? == wantFiles
  {
    if n == 0 then []
    else
      var init, last := ListingPrefix(dirPath, children, wantFiles, n - 1), children[n - 1];
      if Listable(last, wantFiles)
      then init + [Listed(CombinePath(dirPath, last.name), last)]
      else init
  }

  /** What the readdir loop of getAllFilesOrDirs collects from `children`, in
      readdir order. */
  function Listing(dirPath: string, children: seq<Entry>, wantFiles: bool): seq<Listed>
  {
    ListingPrefix(dirPath, children, wantFiles, |children|)
  }

  lemma {:induction false} ListingPrefixMembers(dirPath: string, children: seq<Entry>, wantFiles: bool, n: nat)
    requires n <= |children|
    ensures forall k :: 0 <= k < |ListingPrefix(dirPath, children, wantFiles, n)| ==>
      ListingPrefix(dirPath, children, wantFiles, n)[k].node in children
  {
    if n > 0 {
      var r, init := ListingPrefix(dirPath, children, wantFiles, n), ListingPrefix(dirPath, children, wantFiles, n - 1);
      ListingPrefixMembers(dirPath, children, wantFiles, n - 1);
      forall k | 0 <= k < |r| ensures r[k].node in children {
        if k < |init| {
          assert r[k] == init[k];
        } else {
          assert r[k].node == children[n - 1];
        }
      }
    }
  }

  /** Every listed entry is one of the directory's children. */
  lemma ListingMembers(dirPath: string, children: seq<Entry>, wantFiles: bool)
    ensures forall k :: 0 <= k < |Listing(dirPath, children, wantFiles)| ==>
      Listing(dirPath, children, wantFiles)[k].node in children
  {
    ListingPrefixMembers(dirPath, children, wantFiles, |children|);
  }

  lemma {:induction false} ListingPrefixPaths(dirPath: string, children: seq<Entry>, wantFiles: bool, n: nat, k: nat)
    requires n <= |children| && k < |ListingPrefix(dirPath, children, wantFiles, n)|
    ensures ListingPrefix(dirPath, children, wantFiles, n)[k].path
      == CombinePath(dirPath, ListingPrefix(dirPath, children, wantFiles, n)[k].node.name)
  {
    var r, init := ListingPrefix(dirPath, children, wantFiles, n), ListingPrefix(dirPath, children, wantFiles, n - 1);
    if k < |init| {
      ListingPrefixPaths(dirPath, children, wantFiles, n - 1, k);
      assert r[k] == init[k];
    } else {
      assert r[k] == Listed(CombinePath(dirPath, children[n - 1].name), children[n - 1]);
    }
  }

  /** Each listed path is the directory's path combined with the entry's name. */
  lemma ListingPaths(dirPath: string, children: seq<Entry>, wantFiles: bool, k: nat)
    requires k < |Listing(dirPath, children, wantFiles)|
    ensures Listing(dirPath, children, wantFiles)[k].path
      == CombinePath(dirPath, Listing(dirPath, children, wantFiles)[k].node.name)
  {
    ListingPrefixPaths(dirPath, children, wantFiles, |children|, k);
  }

  lemma {:induction false} ListingPrefixComplete(dirPath: string, children: seq<Entry>, wantFiles: bool, n: nat, j: nat)
    requires j < n <= |children| && Listable(children[j], wantFiles)
    ensures Listed(CombinePath(dirPath, children[j].name), children[j]) in ListingPrefix(dirPath, children, wantFiles, n)
  {
    if j < n - 1 {
      ListingPrefixComplete(dirPath, children, wantFiles, n - 1, j);
    }
  }

  /** Every entry of the right kind, other than "." and "..", is listed. */
  lemma ListingComplete(dirPath: string, children: seq<Entry>, wantFiles: bool, c: Entry)
    requires c in children && Listable(c, wantFiles)
    ensures Listed(CombinePath(dirPath, c.name), c) in Listing(dirPath, children, wantFiles)
  {
    var j :| 0 <= j < |children| && children[j] == c;
    ListingPrefixComplete(dirPath, children, wantFiles, |children|, j);
  }

  /** The listing so far depends only on the entries read so far. */
  lemma {:induction false} ListingPrefixAgree(dirPath: string, a: seq<Entry>, b: seq<Entry>, wantFiles: bool, n: nat)
    requires n <= |a| && n <= |b| && a[..n] == b[..n]
    ensures ListingPrefix(dirPath, a, wantFiles, n) == ListingPrefix(dirPath, b, wantFiles, n)
  {
    if n > 0 {
      assert a[n - 1] == a[..n][n - 1] == b[..n][n - 1] == b[n - 1];
      assert a[..n - 1] == a[..n][..n - 1] == b[..n][..n - 1] == b[..n - 1];
      ListingPrefixAgree(dirPath, a, b, wantFiles, n - 1);
    }
  }

  /** One more directory entry extends the listing by at most that entry. */
  lemma ListingSnoc(dirPath: string, children: seq<Entry>, c: Entry, wantFiles: bool)
    ensures Listing(dirPath, children + [c], wantFiles)
      == Listing(dirPath, children, wantFiles) + if Listable(c, wantFiles) then [Listed(CombinePath(dirPath, c.name), c)] else []
  {
    var n := |children|;
    assert (children + [c])[..n] == children[..n];
    ListingPrefixAgree(dirPath, children + [c], children, wantFiles, n);
  }

  /** Utils::getAllFilesOrDirs: the output starts empty; false (and nothing
      listed) when the directory cannot be opened. */
  method GetAllFilesOrDirs(dir: string, node: Entry, bFiles: bool) returns (ok: bool, dirs: seq<Listed>)
    ensures ok <==> node.Dir? && node.readable
    ensures dirs == if ok then Listing(dir, node.children, bFiles) else []
  {
    dirs := [];
    if node.Dir? && node.readable {
      var entries := node.children;
      var i := 0;
      while i < |entries|
        invariant 0 <= i <= |entries|
        invariant dirs == ListingPrefix(dir, entries, bFiles, i)
      {
        var add := ListEntry(dir, entries[i], bFiles);
        dirs := dirs + add;
        i := i + 1;
      }
      ok := true;
    } else {
      ok := false;
    }
  }

  /** The body of the readdir loop of getAllFilesOrDirs: what one entry adds. */
  method ListEntry(dir: string, e: Entry, bFiles: bool) returns (add: seq<Listed>)
    ensures add == if Listable(e, bFiles) then [Listed(CombinePath(dir, e.name), e)] else []
  {
    add := [];
    var name := e.name;
    if !Equals(name, "..") && !Equals(name, ".") {
      var nameFull := CombinePath(dir, name);
      if !bFiles && e.Dir? {
        add := [Listed(nameFull, e)];
      } else if bFiles && e.File? {
        add := [Listed(nameFull, e)];
      }
    }
  }

  /** Utils::getAllFiles. */
  method GetAllFiles(dir: string, node: Entry) returns (ok: bool, files: seq<Listed>)
    ensures ok <==> node.Dir? && node.readable
    ensures files == if ok then Listing(dir, node.children, true) else []
  {
    ok, files := GetAllFilesOrDirs(dir, node, true);
  }

  /** Utils::getAllDirs. */
  method GetAllDirs(dir: string, node: Entry) returns (ok: bool, dirs: seq<Listed>)
    ensures ok <==> node.Dir? && node.readable
    ensures dirs == if ok then Listing(dir, node.children, false) else []
  {
    ok, dirs := GetAllFilesOrDirs(dir, node, false);
  }

  // ---------------------------------------------------------------------------
  // What findFile searches for and in which order
  // ---------------------------------------------------------------------------

  /** A file listing as found files (the mtime stands for getLastModifyTime). */
  function Hits(files: seq<Listed>): (r: seq<Hit>)
    requires forall k :: 0 <= k < |files| ==> files[k].node.File?
    ensures |r| == |files|
    ensures forall k :: 0 <= k < |r| ==> r[k] == Hit(files[k].path, files[k].node.mtime)
  {
    if files == [] then [] else [Hit(files[0].path, files[0].node.mtime)] + Hits(files[1..])
  }

  /** The file's base name is the one searched for. */
  predicate NamedBy(h: Hit, target: string)
  {
    GetFileNameFromPath(h.path) == target
  }

  /** The first hit whose base name is `target`. */
  function FirstHit(hits: seq<Hit>, target: string): (r: Option<Hit>)
    ensures r.None? <==> forall k :: 0 <= k < |hits| ==> !NamedBy(hits[k], target)
    ensures r.Some? ==> r.value in hits && NamedBy(r.value, target)
  {
    if hits == [] then None
    else if NamedBy(hits[0], target) then Some(hits[0])
    else FirstHit(hits[1..], target)
  }

  lemma {:induction false} FirstHitAt(hits: seq<Hit>, target: string, i: nat)
    requires i < |hits| && NamedBy(hits[i], target)
    requires forall k :: 0 <= k < i ==> !NamedBy(hits[k], target)
    ensures FirstHit(hits, target) == Some(hits[i])
  {
    if i > 0 {
      assert !NamedBy(hits[0], target);
      FirstHitAt(hits[1..], target, i - 1);
    }
  }

  lemma {:induction false} FirstHitAppend(a: seq<Hit>, b: seq<Hit>, target: string)
    ensures FirstHit(a + b, target) == if FirstHit(a, target).Some? then FirstHit(a, target) else FirstHit(b, target)
  {
    if a == [] {
      assert a + b == b;
    } else {
      assert (a + b)[1..] == a[1..] + b;
      FirstHitAppend(a[1..], b, target);
    }
  }

  /** The search findFile performs from directory `e` at `dirPath`: the first
      matching file directly in `e`, else the first match in its subdirectories,
      taken in listing order. */
  function Search(target: string, dirPath: string, e: Entry): (r: Option<Hit>)
    ensures r.Some? ==> NamedBy(r.value, target)
    decreases e, 1
  {
    if !(e.Dir? && e.readable) then None
    else
      var here := FirstHit(Hits(Listing(dirPath, e.children, true)), target);
      if here.Some? then here
      else
        ListingMembers(dirPath, e.children, false);
        SearchEach(target, e, Listing(dirPath, e.children, false), 0)
  }

  /** Every listed entry of `dirs` is a child of `parent`. */
  predicate ChildDirs(parent: Entry, dirs: seq<Listed>)
  {
    forall k :: 0 <= k < |dirs| ==> parent.Dir? && dirs[k].node in parent.children
  }

  /** The search through the listed subdirectories `dirs` of `parent`, from the
      `j`-th on. */
  function SearchEach(target: string, parent: Entry, dirs: seq<Listed>, j: nat): (r: Option<Hit>)
    requires j <= |dirs| && ChildDirs(parent, dirs)
    ensures r.Some? ==> NamedBy(r.value, target)
    decreases parent, 0, |dirs| - j
  {
    if j == |dirs| then None
    else
      var first := Search(target, dirs[j].path, dirs[j].node);
      if first.Some? then first else SearchEach(target, parent, dirs, j + 1)
  }

  /** Every file reachable from `e`: its own files, then (depth first) those of
      each subdirectory in listing order. */
  function AllFiles(dirPath: string, e: Entry): seq<Hit>
    decreases e, 1
  {
    if !(e.Dir? && e.readable) then []
    else
      ListingMembers(dirPath, e.children, false);
      Hits(Listing(dirPath, e.children, true)) + AllFilesEach(e, Listing(dirPath, e.children, false), 0)
  }

  function AllFilesEach(parent: Entry, dirs: seq<Listed>, j: nat): seq<Hit>
    requires j <= |dirs| && ChildDirs(parent, dirs)
    decreases parent, 0, |dirs| - j
  {
    if j == |dirs| then []
    else AllFiles(dirs[j].path, dirs[j].node) + AllFilesEach(parent, dirs, j + 1)
  }

  /** The search returns the first file named `target` among all reachable files. */
  lemma {:induction false} SearchIsFirstHit(target: string, dirPath: string, e: Entry)
    decreases e, 1
    ensures Search(target, dirPath, e) == FirstHit(AllFiles(dirPath, e), target)
  {
    if e.Dir? && e.readable {
      var files := Hits(Listing(dirPath, e.children, true));
      var dirs := Listing(dirPath, e.children, false);
      ListingMembers(dirPath, e.children, false);
      SearchEachIsFirstHit(target, e, dirs, 0);
      FirstHitAppend(files, AllFilesEach(e, dirs, 0), target);
    }
  }

  lemma {:induction false} SearchEachIsFirstHit(target: string, parent: Entry, dirs: seq<Listed>, j: nat)
    requires j <= |dirs| && ChildDirs(parent, dirs)
    decreases parent, 0, |dirs| - j
    ensures SearchEach(target, parent, dirs, j) == FirstHit(AllFilesEach(parent, dirs, j), target)
  {
    if j < |dirs| {
      SearchIsFirstHit(target, dirs[j].path, dirs[j].node);
      SearchEachIsFirstHit(target, parent, dirs, j + 1);
      FirstHitAppend(AllFiles(dirs[j].path, dirs[j].node), AllFilesEach(parent, dirs, j + 1), target);
    }
  }

  /** A found file is a reachable file with the searched base name; nothing is
      found exactly when no reachable file has that base name. */
  lemma SearchSoundAndComplete(target: string, dirPath: string, e: Entry)
    ensures Search(target, dirPath, e).Some? ==>
      Search(target, dirPath, e).value in AllFiles(dirPath, e)
      && NamedBy(Search(target, dirPath, e).value, target)
    ensures Search(target, dirPath, e).None? <==>
      forall k :: 0 <= k < |AllFiles(dirPath, e)| ==> !NamedBy(AllFiles(dirPath, e)[k], target)
  {
    SearchIsFirstHit(target, dirPath, e);
  }

  /** A file that is the only one with its base name under the tree is found. */
  lemma SearchFindsOnlyMatch(target: string, dirPath: string, e: Entry, i: nat)
    requires i < |AllFiles(dirPath, e)| && NamedBy(AllFiles(dirPath, e)[i], target)
    requires forall k :: 0 <= k < |AllFiles(dirPath, e)| && k != i ==> !NamedBy(AllFiles(dirPath, e)[k], target)
    ensures Search(target, dirPath, e) == Some(AllFiles(dirPath, e)[i])
  {
    SearchIsFirstHit(target, dirPath, e);
    FirstHitAt(AllFiles(dirPath, e), target, i);
  }

  /** A directory's own files come before everything in its subdirectories, so a
      match among them is found without entering a subdirectory. */
  lemma FilesBeforeSubdirectories(target: string, dirPath: string, e: Entry)
    requires e.Dir? && e.readable
    ensures var files := Hits(Listing(dirPath, e.children, true));
      |files| <= |AllFiles(dirPath, e)| && AllFiles(dirPath, e)[..|files|] == files
      && (FirstHit(files, target).Some? ==> Search(target, dirPath, e) == FirstHit(files, target))
  {
    var files := Hits(Listing(dirPath, e.children, true));
    ListingMembers(dirPath, e.children, false);
    assert AllFiles(dirPath, e) == files + AllFilesEach(e, Listing(dirPath, e.children, false), 0);
  }

  /** For a listed file with a plain, non-empty name under a non-empty directory
      path, matching by base name is matching by the entry's name. */
  lemma ListedBaseName(dirPath: string, children: seq<Entry>, wantFiles: bool, k: nat)
    requires |dirPath| > 0 && k < |Listing(dirPath, children, wantFiles)|
    requires |Listing(dirPath, children, wantFiles)[k].node.name| > 0
    requires IsPlainName(Listing(dirPath, children, wantFiles)[k].node.name)
    ensures GetFileNameFromPath(Listing(dirPath, children, wantFiles)[k].path)
      == Listing(dirPath, children, wantFiles)[k].node.name
  {
    var l := Listing(dirPath, children, wantFiles)[k];
    ListingPaths(dirPath, children, wantFiles, k);
    GetFileNameOfCombine(dirPath, l.node.name);
  }

  // ---------------------------------------------------------------------------
  // FileInfo and findFile
  // ---------------------------------------------------------------------------

  /** The search record findFile fills in. */
  class FileInfo {
    var found: bool
    var path: string
    var modified: int
    var fileWithoutPath: string

    constructor (found0: bool, path0: string, modified0: int, fileWithoutPath0: string)
      ensures found == found0 && path == path0 && modified == modified0
      ensures fileWithoutPath == fileWithoutPath0
    {
      found := found0;
      path := path0;
      modified := modified0;
      fileWithoutPath := fileWithoutPath0;
    }
  }

  /** The base name findFile looks for: `fileWithoutPath`, or when that is empty
      the base name of `path`. */
  function TargetName(fileWithoutPath: string, path: string): (r: string)
    ensures |fileWithoutPath| > 0 ==> r == fileWithoutPath
    ensures |fileWithoutPath| == 0 ==> r == GetFileNameFromPath(path)
  {
    if |fileWithoutPath| == 0 then GetFileNameFromPath(path) else fileWithoutPath
  }

  /** The loop of findFile over a directory's files: the first file whose base
      name is `target`, with its modification time. */
  method FirstMatch(files: seq<Listed>, target: string) returns (m: Option<Hit>)
    requires forall k :: 0 <= k < |files| ==> files[k].node.File?
    ensures m == FirstHit(Hits(files), target)
  {
    var i := 0;
    while i < |files|
      invariant 0 <= i <= |files|
      invariant forall k :: 0 <= k < i ==> GetFileNameFromPath(files[k].path) != target
    {
      var fileNoPath := GetFileNameFromPath(files[i].path);
      if Equals(fileNoPath, target) {
        FirstHitAt(Hits(files), target, i);
        return Some(Hit(files[i].path, files[i].node.mtime));
      }
      i := i + 1;
    }
    return None;
  }

  /** Utils::findFile: nothing happens once `found` is set; otherwise the search
      result is recorded, and a failed search leaves `found`, `path` and
      `modified` as they were. */
  method FindFile(inf: FileInfo, searchRoot: string, root: Entry)
    modifies inf
    decreases root, 1
    ensures old(inf.found) ==>
      (inf.found && inf.path == old(inf.path)
       && inf.modified == old(inf.modified) && inf.fileWithoutPath == old(inf.fileWithoutPath))
    ensures !old(inf.found) ==> inf.fileWithoutPath == TargetName(old(inf.fileWithoutPath), old(inf.path))
    ensures !old(inf.found) ==>
      (if inf.found then Some(Hit(inf.path, inf.modified)) else None) == Search(inf.fileWithoutPath, searchRoot, root)
    ensures !inf.found ==> inf.path == old(inf.path) && inf.modified == old(inf.modified)
  {
    if inf.found {
      return;
    }
    ghost var path0 := inf.path;
    if |inf.fileWithoutPath| == 0 {
      inf.fileWithoutPath := GetFileNameFromPath(inf.path);
    }
    ghost var target := inf.fileWithoutPath;
    assert target == TargetName(old(inf.fileWithoutPath), path0);
    assert TargetName(target, inf.path) == target;
    var okFiles, files := GetAllFiles(searchRoot, root);
    var m := FirstMatch(files, inf.fileWithoutPath);
    if m.Some? {
      inf.found := true;
      inf.modified := m.value.mtime;
      inf.path := m.value.path;
      return;
    }
    var okDirs, dirs := GetAllDirs(searchRoot, root);
    SearchPastFiles(target, searchRoot, root, dirs);
    FindFileInDirs(inf, root, dirs);
  }

  /** When no file of a directory matches, the search goes on in its
      subdirectories; an unreadable directory has none. */
  lemma SearchPastFiles(target: string, dirPath: string, e: Entry, dirs: seq<Listed>)
    requires dirs == if e.Dir? && e.readable then Listing(dirPath, e.children, false) else []
    requires e.Dir? && e.readable ==> FirstHit(Hits(Listing(dirPath, e.children, true)), target).None?
    ensures ChildDirs(e, dirs)
    ensures Search(target, dirPath, e) == SearchEach(target, e, dirs, 0)
  {
    if e.Dir? && e.readable {
      ListingMembers(dirPath, e.children, false);
    }
  }

  /** The loop of findFile over the subdirectories: findFile on each in turn, a
      call after the file is found doing nothing. */
  method FindFileInDirs(inf: FileInfo, root: Entry, dirs: seq<Listed>)
    requires ChildDirs(root, dirs)
    requires !inf.found ==> TargetName(inf.fileWithoutPath, inf.path) == inf.fileWithoutPath
    modifies inf
    decreases root, 0
    ensures inf.fileWithoutPath == old(inf.fileWithoutPath)
    ensures old(inf.found) ==> inf.found && inf.path == old(inf.path) && inf.modified == old(inf.modified)
    ensures !old(inf.found) ==>
      (if inf.found then Some(Hit(inf.path, inf.modified)) else None)
      == SearchEach(inf.fileWithoutPath, root, dirs, 0)
    ensures !inf.found ==> inf.path == old(inf.path) && inf.modified == old(inf.modified)
  {
    ghost var target := inf.fileWithoutPath;
    ghost var found0 := inf.found;
    var j := 0;
    while j < |dirs|
      invariant 0 <= j <= |dirs|
      invariant inf.fileWithoutPath == target
      invariant found0 ==> inf.found && inf.path == old(inf.path) && inf.modified == old(inf.modified)
      invariant !found0 ==>
        (if inf.found then Some(Hit(inf.path, inf.modified)) else SearchEach(target, root, dirs, j))
        == SearchEach(target, root, dirs, 0)
      invariant !inf.found ==> inf.path == old(inf.path) && inf.modified == old(inf.modified)
      invariant !inf.found ==> TargetName(target, inf.path) == target
    {
      ghost var first := Search(target, dirs[j].path, dirs[j].node);
      assert SearchEach(target, root, dirs, j)
        == if first.Some? then first else SearchEach(target, root, dirs, j + 1);
      ghost var wasFound := inf.found;
      FindFile(inf, dirs[j].path, dirs[j].node);
      assert !wasFound ==> inf.fileWithoutPath == target;
      j := j + 1;
    }
  }

  // ---------------------------------------------------------------------------
  // Example: root/{a/{target}, b/{other}}
  // ---------------------------------------------------------------------------

  /** A path segment combinePath keeps as it is. */
  predicate IsSegment(s: string)
  {
    |s| > 0 && IsPlainName(s) && !IsDotName(s)
  }

  /** A readable directory holding just the file `target` yields that file. */
  lemma SearchSingleFile(target: string, dirPath: string, name: string, t: int)
    requires IsSegment(target) && |dirPath| > 0
    ensures Search(target, dirPath, Dir(name, true, [File(target, t)]))
      == Some(Hit(CombinePath(dirPath, target), t))
  {
    var f, p := File(target, t), CombinePath(dirPath, target);
    assert Listing(dirPath, [f], true) == [Listed(p, f)] by {
      assert ListingPrefix(dirPath, [f], true, 0) == [];
    }
    assert FirstHit(Hits([Listed(p, f)]), target) == Some(Hit(p, t)) by {
      assert NamedBy(Hit(p, t), target) by {
        GetFileNameOfCombine(dirPath, target);
      }
      assert Hits([Listed(p, f)]) == [Hit(p, t)];
    }
  }

  /** Segments combine into the path with one '/' between them. */
  lemma CombineSegments(root: string, a: string, target: string)
    requires |root| > 0 && |a| > 0 && |target| > 0
    requires IsPlainName(root) && IsPlainName(a) && IsPlainName(target)
    ensures CombinePath(root, a) == root + "/" + a
    ensures CombinePath(CombinePath(root, a), target) == root + "/" + a + "/" + target
  {
    var pa := root + "/" + a;
    assert CombinePath(root, a) == pa by {
      CombinePlainNames(root, a);
    }
    assert CombinePath(pa, target) == pa + "/" + target by {
      assert '\\' !in pa && pa[0] == root[0] && pa[|pa| - 1] == a[|a| - 1];
      CombinePlainNames(pa, target);
    }
  }

  /** The search in a readable directory with no files and the subdirectories
      `d1` and `d2`: `d1` first, then `d2`. */
  lemma SearchTwoSubdirectories(target: string, dirPath: string, name: string, d1: Entry, d2: Entry)
    requires d1.Dir? && d2.Dir? && !IsDotName(d1.name) && !IsDotName(d2.name)
    ensures var p1, p2 := CombinePath(dirPath, d1.name), CombinePath(dirPath, d2.name);
      Search(target, dirPath, Dir(name, true, [d1, d2]))
      == if Search(target, p1, d1).Some? then Search(target, p1, d1) else Search(target, p2, d2)
  {
    var e := Dir(name, true, [d1, d2]);
    var dirs := [Listed(CombinePath(dirPath, d1.name), d1), Listed(CombinePath(dirPath, d2.name), d2)];
    assert ListingPrefix(dirPath, [d1, d2], false, 1) == [dirs[0]];
    assert Listing(dirPath, [d1, d2], false) == dirs;
    assert ListingPrefix(dirPath, [d1, d2], true, 1) == [];
    assert Listing(dirPath, [d1, d2], true) == [];
    assert SearchEach(target, e, dirs, 1) == Search(target, dirs[1].path, d2);
    assert Search(target, dirPath, e) == SearchEach(target, e, dirs, 0);
  }

  /** In root/{a/{target}, b/{other}} the search finds root/a/target, whatever
      `other` is called: the first subdirectory in readdir order is searched
      first. */
  lemma SearchFirstSubdirectoryFirst(root: string, a: string, b: string, target: string, other: string, t1: int, t2: int)
    requires IsSegment(root) && IsSegment(a) && IsSegment(b) && IsSegment(target)
    ensures var tree := Dir(root, true, [Dir(a, true, [File(target, t1)]), Dir(b, true, [File(other, t2)])]);
      Search(target, root, tree) == Some(Hit(root + "/" + a + "/" + target, t1))
  {
    var da, db := Dir(a, true, [File(target, t1)]), Dir(b, true, [File(other, t2)]);
    SearchTwoSubdirectories(target, root, root, da, db);
    CombineSegments(root, a, target);
    SearchSingleFile(target, CombinePath(root, a), a, t1);
  }
}
