/** The directory indexes of FS.cpp and the calls that consult them. */
module FileSystem {
  import opened Paths

  /** One entry of the torrent's file storage: its path has no leading slash. */
  datatype File = File(path: string, size: nat)

  /** The three global containers. */
  datatype Index = Index(dirmap: set<string>, filenames: set<string>, entries: map<string, set<string>>)

  datatype Attr = IsDir | IsFile(size: nat) | NoEntry

  function Comps(files: seq<File>, i: nat): seq<string>
    requires i < |files|
  {
    Split(files[i].path)
  }

  /** `d` is the directory that the first `j` components of file `i` name; the last
      component names the file itself. */
  predicate DirAt(files: seq<File>, i: int, j: int, d: string) {
    0 <= i < |files| && 0 <= j < |Comps(files, i)| && d == DirPath(Comps(files, i)[..j])
  }

  predicate FileAt(files: seq<File>, i: int, f: string) {
    0 <= i < |files| && f == DirPath(Comps(files, i))
  }

  predicate NameAt(files: seq<File>, i: int, j: int, d: string, name: string) {
    DirAt(files, i, j, d) && name == Comps(files, i)[j]
  }

  predicate Listed(entries: map<string, set<string>>, d: string, name: string) {
    d in entries && name in entries[d]
  }

  /** The three containers describe the same tree. */
  ghost predicate Describes(ix: Index, files: seq<File>) {
    (forall d :: d in ix.dirmap <==> KnownDir(files, d)) &&
    (forall f :: f in ix.filenames <==> KnownFile(files, f)) &&
    (forall d, name :: Listed(ix.entries, d, name) <==> KnownName(files, d, name))
  }

  ghost predicate KnownDir(files: seq<File>, d: string) { exists i, j :: DirAt(files, i, j, d) }

  ghost predicate KnownFile(files: seq<File>, f: string) { exists i :: FileAt(files, i, f) }

  ghost predicate KnownName(files: seq<File>, d: string, name: string) {
    exists i, j :: NameAt(files, i, j, d, name)
  }

  // What the loop of init_bitfs has inserted: the directories of the first `j` + 1
  // prefixes of one component list, the names of its first `j` components, and all that
  // the first `n` files insert.

  function DirSet(cs: seq<string>, j: nat): set<string>
    requires j < |cs|
  {
    if j == 0 then {"/"} else DirSet(cs, j - 1) + {DirPath(cs[..j])}
  }

  function NameSet(cs: seq<string>, j: nat): set<(string, string)>
    requires j <= |cs|
  {
    if j == 0 then {} else NameSet(cs, j - 1) + {(DirPath(cs[..j - 1]), cs[j - 1])}
  }

  function Inserted(files: seq<File>, n: nat): (set<string>, set<string>, set<(string, string)>)
    requires n <= |files|
  {
    if n == 0 then ({}, {}, {})
    else
      var (dirs, names, listed) := Inserted(files, n - 1);
      var cs := Comps(files, n - 1);
      (dirs + DirSet(cs, |cs| - 1), names + {DirPath(cs)}, listed + NameSet(cs, |cs|))
  }

  lemma {:induction false} DirSetHas(files: seq<File>, i: nat, j: nat, d: string)
    requires i < |files| && j < |Comps(files, i)|
    ensures d in DirSet(Comps(files, i), j) <==> exists k :: k <= j && DirAt(files, i, k, d)
  {
    assert DirAt(files, i, j, DirPath(Comps(files, i)[..j]));
    if j == 0 {
    } else {
      DirSetHas(files, i, j - 1, d);
    }
  }

  lemma {:induction false} NameSetHas(files: seq<File>, i: nat, j: nat, d: string, name: string)
    requires i < |files| && j <= |Comps(files, i)|
    ensures (d, name) in NameSet(Comps(files, i), j) <==> exists k :: k < j && NameAt(files, i, k, d, name)
  {
    if j == 0 {
    } else {
      var cs := Comps(files, i);
      assert NameAt(files, i, j - 1, DirPath(cs[..j - 1]), cs[j - 1]);
      NameSetHas(files, i, j - 1, d, name);
    }
  }

  lemma {:induction false} DirInserted(files: seq<File>, n: nat, i: nat, j: nat, d: string)
    requires i < n <= |files| && DirAt(files, i, j, d)
    ensures d in Inserted(files, n).0
    decreases n
  {
    if i < n - 1 {
      DirInserted(files, n - 1, i, j, d);
    } else {
      DirSetHas(files, i, |Comps(files, i)| - 1, d);
    }
  }

  lemma {:induction false} InsertedDir(files: seq<File>, n: nat, d: string) returns (i: nat, j: nat)
    requires n <= |files| && d in Inserted(files, n).0
    ensures i < n && DirAt(files, i, j, d)
  {
    if d in Inserted(files, n - 1).0 {
      i, j := InsertedDir(files, n - 1, d);
    } else {
      i := n - 1;
      DirSetHas(files, i, |Comps(files, i)| - 1, d);
      j :| DirAt(files, i, j, d);
    }
  }

  lemma {:induction false} FileInserted(files: seq<File>, n: nat, i: nat, f: string)
    requires i < n <= |files| && FileAt(files, i, f)
    ensures f in Inserted(files, n).1
    decreases n
  {
    if i < n - 1 {
      FileInserted(files, n - 1, i, f);
    }
  }

  lemma {:induction false} InsertedFile(files: seq<File>, n: nat, f: string) returns (i: nat)
    requires n <= |files| && f in Inserted(files, n).1
    ensures i < n && FileAt(files, i, f)
  {
    if f in Inserted(files, n - 1).1 {
      i := InsertedFile(files, n - 1, f);
    } else {
      i := n - 1;
    }
  }

  lemma {:induction false} NameInserted(files: seq<File>, n: nat, i: nat, j: nat, d: string, name: string)
    requires i < n <= |files| && NameAt(files, i, j, d, name)
    ensures (d, name) in Inserted(files, n).2
    decreases n
  {
    if i < n - 1 {
      NameInserted(files, n - 1, i, j, d, name);
    } else {
      NameSetHas(files, i, |Comps(files, i)|, d, name);
    }
  }

  lemma {:induction false} InsertedName(files: seq<File>, n: nat, d: string, name: string) returns (i: nat, j: nat)
    requires n <= |files| && (d, name) in Inserted(files, n).2
    ensures i < n && NameAt(files, i, j, d, name)
  {
    if (d, name) in Inserted(files, n - 1).2 {
      i, j := InsertedName(files, n - 1, d, name);
    } else {
      i := n - 1;
      NameSetHas(files, i, |Comps(files, i)|, d, name);
      j :| NameAt(files, i, j, d, name);
    }
  }

  lemma AllDirs(files: seq<File>, d: string)
    ensures d in Inserted(files, |files|).0 <==> KnownDir(files, d)
  {
    if d in Inserted(files, |files|).0 {
      var i, j := InsertedDir(files, |files|, d);
    }
    if KnownDir(files, d) {
      var i, j :| DirAt(files, i, j, d);
      DirInserted(files, |files|, i, j, d);
    }
  }

  lemma AllFiles(files: seq<File>, f: string)
    ensures f in Inserted(files, |files|).1 <==> KnownFile(files, f)
  {
    if f in Inserted(files, |files|).1 {
      var i := InsertedFile(files, |files|, f);
    }
    if KnownFile(files, f) {
      var i :| FileAt(files, i, f);
      FileInserted(files, |files|, i, f);
    }
  }

  lemma AllNames(files: seq<File>, d: string, name: string)
    ensures (d, name) in Inserted(files, |files|).2 <==> KnownName(files, d, name)
  {
    if (d, name) in Inserted(files, |files|).2 {
      var i, j := InsertedName(files, |files|, d, name);
    }
    if KnownName(files, d, name) {
      var i, j :| NameAt(files, i, j, d, name);
      NameInserted(files, |files|, i, j, d, name);
    }
  }

  // ------------------------------------------------- the calls, as functions

  /** The key getattr and readdir look up. */
  function DirKey(path: string): string { if path == "/" then path else path + "/" }

  /** get_file_index: the first file whose path is `filepath + 1`. */
  function FileIndex(files: seq<File>, filepath: string): (idx: int)
    requires filepath != ""
    ensures -1 <= idx < |files|
    ensures idx >= 0 ==> files[idx].path == filepath[1..]
    ensures forall i | 0 <= i < |files| :: files[i].path == filepath[1..] ==> 0 <= idx <= i
  {
    FirstFile(files, filepath[1..], 0)
  }

  function FirstFile(files: seq<File>, path: string, from: nat): (idx: int)
    requires from <= |files|
    ensures -1 <= idx < |files|
    ensures idx >= 0 ==> from <= idx && files[idx].path == path
    ensures forall i | from <= i < |files| :: files[i].path == path ==> 0 <= idx <= i
    decreases |files| - from
  {
    if from == |files| then -1
    else if files[from].path == path then from
    else FirstFile(files, path, from + 1)
  }

  function Open(ix: Index, path: string): bool { path + "/" in ix.filenames }

  function GetAttr(ix: Index, files: seq<File>, path: string): Attr {
    if DirKey(path) in ix.dirmap then IsDir
    else if DirKey(path) in ix.filenames && path != "" && FileIndex(files, path) >= 0 then
      IsFile(files[FileIndex(files, path)].size)
    else NoEntry
  }

  /** readdir: the names given to the filler; none when it answers -ENOENT. */
  function ReadDir(ix: Index, path: string): set<string> {
    if DirKey(path) in ix.dirmap && DirKey(path) in ix.entries then ix.entries[DirKey(path)] else {}
  }

  // --------------------------------------------------------------- the class

  class FS {
    var files: seq<File>
    var dirmap: set<string>
    var filenames: set<string>
    var entries: map<string, set<string>>

    constructor (files: seq<File>)
      ensures this.files == files && Ix() == Index({}, {}, map[])
    {
      this.files := files;
      dirmap, filenames, entries := {}, {}, map[];
    }

    function Ix(): Index
      reads this
    {
      Index(dirmap, filenames, entries)
    }

    /** `entries[d].insert(name)` */
    method InsertEntry(d: string, name: string)
      modifies this`entries
      ensures forall d', name' ::
                Listed(entries, d', name') <==> Listed(old(entries), d', name') || (d' == d && name' == name)
    {
      entries := entries[d := (if d in entries then entries[d] else {}) + {name}];
    }

    /** The loop of init_bitfs that fills in the directory map. */
    method FillDirectoryMap()
      requires Ix() == Index({}, {}, map[])
      modifies this`dirmap, this`filenames, this`entries
      ensures Describes(Ix(), files)
    {
      for i := 0 to |files|
        invariant dirmap == Inserted(files, i).0
        invariant filenames == Inserted(files, i).1
        invariant forall d, name :: Listed(entries, d, name) <==> (d, name) in Inserted(files, i).2
      {
        FillFile(Split(files[i].path));
      }
      forall d ensures d in dirmap <==> KnownDir(files, d) { AllDirs(files, d); }
      forall f ensures f in filenames <==> KnownFile(files, f) { AllFiles(files, f); }
      forall d, name ensures Listed(entries, d, name) <==> KnownName(files, d, name) { AllNames(files, d, name); }
    }

    /** One round of that loop. */
    method FillFile(strs: seq<string>)
      requires strs != []
      modifies this`dirmap, this`filenames, this`entries
      ensures dirmap == old(dirmap) + DirSet(strs, |strs| - 1)
      ensures filenames == old(filenames) + {DirPath(strs)}
      ensures forall d, name ::
                Listed(entries, d, name) <==> Listed(old(entries), d, name) || (d, name) in NameSet(strs, |strs|)
    {
      var dirpath := "/";
      dirmap := dirmap + {"/"};
      var j := 0;
      while j != |strs| - 1
        invariant 0 <= j < |strs| && dirpath == DirPath(strs[..j])
        invariant dirmap == old(dirmap) + DirSet(strs, j)
        invariant filenames == old(filenames)
        invariant forall d, name ::
                    Listed(entries, d, name) <==> Listed(old(entries), d, name) || (d, name) in NameSet(strs, j)
        decreases |strs| - j
      {
        InsertEntry(dirpath, strs[j]);
        assert strs[..j + 1][..j] == strs[..j];
        dirpath := dirpath + strs[j];
        dirpath := dirpath + "/";
        dirmap := dirmap + {dirpath};
        j := j + 1;
      }
      filenames := filenames + {dirpath + strs[j] + "/"};
      InsertEntry(dirpath, strs[j]);
    }

    method GetFileIndex(filepath: string) returns (idx: int)
      requires filepath != ""
      ensures idx == FileIndex(files, filepath)
    {
      idx := -1;
      for i := 0 to |files|
        invariant idx == -1 && FirstFile(files, filepath[1..], 0) == FirstFile(files, filepath[1..], i)
      {
        if filepath[1..] == files[i].path {
          return i;
        }
      }
    }

    method GetAttributes(path: string) returns (r: Attr)
      requires Describes(Ix(), files)
      ensures r == GetAttr(Ix(), files, path)
    {
      var strpath := path;
      if path != "/" {
        strpath := strpath + "/";
      }
      if strpath in dirmap {
        r := IsDir;
      } else if strpath in filenames {
        FileKeyIsIndexed(Ix(), files, path);
        var idx := GetFileIndex(path);
        r := IsFile(files[idx].size);
      } else {
        r := NoEntry;
      }
    }

    /** readdir: whether the directory is known (else -ENOENT), and the names filled in. */
    method ReadDirectory(path: string) returns (found: bool, names: set<string>)
      requires Describes(Ix(), files)
      ensures found <==> DirKey(path) in dirmap
      ensures names == ReadDir(Ix(), path)
      ensures found ==> names != {}
    {
      var strpath := path;
      if path != "/" {
        strpath := strpath + "/";
      }
      if strpath !in dirmap {
        return false, {};
      }
      var i, j :| DirAt(files, i, j, strpath);
      assert NameAt(files, i, j, strpath, Comps(files, i)[j]);
      assert Listed(entries, strpath, Comps(files, i)[j]);
      return true, entries[strpath];
    }
  }

  // ---------------------------------------------------------------- theorems

  lemma FileKey(files: seq<File>, i: nat, path: string)
    requires i < |files|
    ensures FileAt(files, i, path + "/") <==> path == "/" + files[i].path
  {
    SplitRebuilds(files[i].path);
    if FileAt(files, i, path + "/") {
      assert path == (path + "/")[..|path|];
      assert "/" + files[i].path == ("/" + files[i].path + "/")[..1 + |files[i].path|];
    }
  }

  /** `open` succeeds exactly on the paths that begin with "/" and that get_file_index
      knows; without the leading slash get_file_index ignores the first character. */
  lemma OpenIffIndexed(ix: Index, files: seq<File>, path: string)
    requires Describes(ix, files) && path != ""
    ensures Open(ix, path) <==> path[0] == '/' && FileIndex(files, path) != -1
  {
    if Open(ix, path) {
      var i :| FileAt(files, i, path + "/");
      FileKey(files, i, path);
      assert files[i].path == path[1..];
    }
    if path[0] == '/' && FileIndex(files, path) != -1 {
      var i := FileIndex(files, path);
      assert path == "/" + files[i].path;
      FileKey(files, i, path);
    }
  }

  /** getattr never asks for the size of file -1. */
  lemma FileKeyIsIndexed(ix: Index, files: seq<File>, path: string)
    requires Describes(ix, files) && DirKey(path) in ix.filenames
    ensures path != "" && path != "/" && FileIndex(files, path) != -1
  {
    var i :| FileAt(files, i, DirKey(path));
    SplitRebuilds(files[i].path);
    assert |DirKey(path)| >= 2;
    assert path == DirKey(path)[..|path|];
    FileKey(files, i, path);
    assert files[i].path == path[1..];
  }

  /** The components of `a` are a proper prefix of those of `b`. */
  predicate ProperPrefix(a: string, b: string) {
    |Split(a)| < |Split(b)| && Split(b)[..|Split(a)|] == Split(a)
  }

  lemma DirAtPath(files: seq<File>, path: string)
    ensures (exists i, j :: DirAt(files, i, j, "/" + path + "/")) <==>
            (exists k :: 0 <= k < |files| && ProperPrefix(path, files[k].path))
  {
    var cs := Split(path);
    SplitRebuilds(path);
    forall i, j | DirAt(files, i, j, "/" + path + "/") ensures ProperPrefix(path, files[i].path) {
      DirPathInjective(Comps(files, i)[..j], cs);
    }
    forall k | 0 <= k < |files| && ProperPrefix(path, files[k].path)
      ensures DirAt(files, k, |cs|, "/" + path + "/")
    {
    }
  }

  /** A file is seen as a regular file, with the size of the first file of that path, exactly
      when its path is not empty and not a component prefix of another path; otherwise it is
      seen as a directory. */
  lemma FileVisibleIff(ix: Index, files: seq<File>, i: nat)
    requires Describes(ix, files) && i < |files|
    ensures var attr := GetAttr(ix, files, "/" + files[i].path);
            var hidden := files[i].path == "" ||
                          exists k :: 0 <= k < |files| && ProperPrefix(files[i].path, files[k].path);
            if hidden then attr == IsDir
            else attr == IsFile(files[FileIndex(files, "/" + files[i].path)].size)
  {
    var path := "/" + files[i].path;
    FileKey(files, i, path);
    if files[i].path == "" {
      assert DirAt(files, i, 0, "/");
    } else {
      DirAtPath(files, files[i].path);
      assert path[1..] == files[i].path;
      assert DirKey(path) == "/" + files[i].path + "/";
    }
  }

  /** The path FUSE forms for a name listed in a directory. */
  function Child(path: string, name: string): string {
    if path == "/" then path + name else path + "/" + name
  }

  /** What getattr answers on every path: a directory, a regular file with the size of the
      first file of that path, or no entry. */
  lemma GetAttrIff(ix: Index, files: seq<File>, path: string)
    requires Describes(ix, files)
    ensures GetAttr(ix, files, path).IsDir? <==> KnownDir(files, DirKey(path))
    ensures GetAttr(ix, files, path).NoEntry? <==>
            !KnownDir(files, DirKey(path)) && !KnownFile(files, DirKey(path))
    ensures GetAttr(ix, files, path).IsFile? ==>
              path != "" && 0 <= FileIndex(files, path) &&
              GetAttr(ix, files, path).size == files[FileIndex(files, path)].size
  {
    if DirKey(path) in ix.filenames {
      FileKeyIsIndexed(ix, files, path);
    }
  }

  /** readdir lists exactly the names of the directory asked for. */
  lemma ReadDirIff(ix: Index, files: seq<File>, path: string, name: string)
    requires Describes(ix, files)
    ensures name in ReadDir(ix, path) <==> KnownName(files, DirKey(path), name)
  {
    var d := DirKey(path);
    if KnownName(files, d, name) {
      var i, j :| NameAt(files, i, j, d, name);
      assert DirAt(files, i, j, d);
      assert Listed(ix.entries, d, name);
    }
    if name in ReadDir(ix, path) {
      assert Listed(ix.entries, d, name);
    }
  }

  /** Every name that readdir lists resolves through getattr; below the root, and at the
      root for non-empty names, to the very directory or file the name was listed for. */
  lemma ListedNamesResolve(ix: Index, files: seq<File>, path: string, name: string)
    requires Describes(ix, files) && name in ReadDir(ix, path)
    ensures GetAttr(ix, files, Child(path, name)) != NoEntry
    ensures DirKey(path) != "/" || name != "" ==> DirKey(Child(path, name)) == DirKey(path) + name + "/"
  {
    var key := DirKey(path);
    ListedIsKnown(ix, files, key, name);
    if Child(path, name) != "/" {
      ChildKey(path, name);
      if key + name + "/" in ix.filenames {
        FileKeyIsIndexed(ix, files, Child(path, name));
      }
    }
  }

  lemma ChildKey(path: string, name: string)
    requires NoSlash(name) && Child(path, name) != "/"
    ensures DirKey(Child(path, name)) == DirKey(path) + name + "/"
  {
    assert path != "/" ==> path + "/" + name + "/" == (path + "/") + name + "/";
  }

  /** Every known directory or file other than the root is listed by a parent, and by only
      one, under only one name. */
  lemma OneParent(ix: Index, files: seq<File>, key: string)
    returns (parent: string, name: string)
    requires Describes(ix, files) && key != "/"
    requires key in ix.dirmap || key in ix.filenames
    ensures Listed(ix.entries, parent, name) && key == parent + name + "/"
    ensures forall p, n :: Listed(ix.entries, p, n) && key == p + n + "/" ==> p == parent && n == name
  {
    var i, j := 0, 0;
    if key in ix.dirmap {
      i, j :| DirAt(files, i, j, key);
    } else {
      i :| FileAt(files, i, key);
      j := |Comps(files, i)|;
      assert Comps(files, i)[..j] == Comps(files, i);
    }
    var cs := Comps(files, i);
    assert j > 0;
    parent, name := DirPath(cs[..j - 1]), cs[j - 1];
    assert cs[..j][..j - 1] == cs[..j - 1];
    assert NameAt(files, i, j - 1, parent, name);
    forall p, n | Listed(ix.entries, p, n) && key == p + n + "/" ensures p == parent && n == name {
      var i', j' :| NameAt(files, i', j', p, n);
      LastComponent(p, parent, n, name);
    }
  }

  /** Every listed name is the last component of some directory or file that is known. */
  lemma ListedIsKnown(ix: Index, files: seq<File>, parent: string, name: string)
    requires Describes(ix, files) && Listed(ix.entries, parent, name)
    ensures parent in ix.dirmap && NoSlash(name)
    ensures parent + name + "/" in ix.dirmap || parent + name + "/" in ix.filenames
  {
    var i, j :| NameAt(files, i, j, parent, name);
    var cs := Comps(files, i);
    assert cs[..j + 1][..j] == cs[..j];
    if j + 1 < |cs| {
      assert DirAt(files, i, j + 1, parent + name + "/");
    } else {
      assert cs[..j + 1] == cs;
      assert FileAt(files, i, parent + name + "/");
    }
  }

  /** The path reached from "/" by following names. */
  function Descend(names: seq<string>): string {
    if names == [] then "/" else Child(Descend(names[..|names| - 1]), names[|names| - 1])
  }

  lemma {:induction false} DescendKey(names: seq<string>)
    requires names == [] || names[0] != ""
    ensures DirKey(Descend(names)) == DirPath(names)
    ensures names != [] ==> Descend(names) != "/"
  {
    if names == [] {
    } else {
      var k := |names| - 1;
      DescendKey(names[..k]);
      var up := Descend(names[..k]);
      assert DirPath(names) == DirKey(up) + names[k] + "/";
      assert Descend(names) + "/" == DirKey(up) + names[k] + "/";
    }
  }

  lemma {:induction false} DescendDropsEmpty(names: seq<string>)
    ensures Descend([""] + names) == Descend(names)
  {
    if names == [] {
      assert ([""] + names)[..0] == [];
    } else {
      var k := |names| - 1;
      assert ([""] + names)[..k + 1] == [""] + names[..k];
      DescendDropsEmpty(names[..k]);
    }
  }

  lemma {:induction false} DescendLength(path: string)
    ensures |Descend(Split(path))| <= 1 + |path|
  {
    var cs := Split(path);
    if path == "" {
      assert cs[..0] == [];
    } else if path[0] == '/' {
      DescendDropsEmpty(Split(path[1..]));
      DescendLength(path[1..]);
    } else {
      DescendKey(cs);
      SplitRebuilds(path);
    }
  }

  /** Following the components of a path from "/" leads to the path exactly when it does
      not begin with "/", which the paths of a torrent do not. */
  lemma DescendReachesIff(path: string)
    ensures Descend(Split(path)) == "/" + path <==> path == "" || path[0] != '/'
  {
    var cs := Split(path);
    if path == "" {
      assert cs[..0] == [];
    } else if path[0] == '/' {
      DescendDropsEmpty(Split(path[1..]));
      DescendLength(path[1..]);
    } else {
      DescendKey(cs);
      SplitRebuilds(path);
      assert Descend(cs) == DirPath(cs)[..|DirPath(cs)| - 1];
    }
  }

  /** Every file is reached from "/" by listing: each component is among the names listed
      in the directory before it, and following them all leads to the file's path. */
  lemma FilesReachable(ix: Index, files: seq<File>, i: nat)
    requires Describes(ix, files) && i < |files|
    requires files[i].path == "" || files[i].path[0] != '/'
    ensures forall j | 0 <= j < |Comps(files, i)| ::
              Comps(files, i)[j] in ReadDir(ix, Descend(Comps(files, i)[..j]))
    ensures Descend(Comps(files, i)) == "/" + files[i].path
  {
    var cs := Comps(files, i);
    forall j | 0 <= j < |cs| ensures cs[j] in ReadDir(ix, Descend(cs[..j])) {
      if j > 0 {
        DescendKey(cs[..j]);
      }
      assert NameAt(files, i, j, DirPath(cs[..j]), cs[j]);
      assert Listed(ix.entries, DirPath(cs[..j]), cs[j]);
      assert DirAt(files, i, j, DirPath(cs[..j]));
    }
    DescendReachesIff(files[i].path);
  }
}
