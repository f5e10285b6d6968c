/**
 * DirectoryEntry: one node of the in-memory directory tree. Its name and parent never
 * change; its subdirectories and file names are kept in arrays that double when full and
 * close up when an entry is removed. The ghost fields `children` and `fileNames` are the
 * used prefixes of those arrays, as sequences.
 */
module Directories {
  import StringImplementations

  const INITIAL_CAPACITY: nat := 8
  const SEPARATOR: char := '\\'

  /** The first directory in ds with the name, or -1. */
  function FirstNamed(ds: seq<DirectoryEntry>, name: string): (r: int)
    ensures -1 <= r < |ds|
    ensures r >= 0 ==> ds[r].name == name && forall j :: 0 <= j < r ==> ds[j].name != name
    ensures r == -1 <==> forall j :: 0 <= j < |ds| ==> ds[j].name != name
  {
    if ds == [] then -1
    else if ds[0].name == name then 0
    else
      var r := FirstNamed(ds[1..], name);
      if r == -1 then -1 else r + 1
  }

  /** The first position of x in fs, or -1. */
  function FirstIndex(fs: seq<string>, x: string): (r: int)
    ensures -1 <= r < |fs|
    ensures r >= 0 ==> fs[r] == x && x !in fs[..r]
    ensures r == -1 <==> x !in fs
  {
    if fs == [] then -1
    else if fs[0] == x then 0
    else
      var r := FirstIndex(fs[1..], x);
      assert r >= 0 ==> fs[..r + 1] == [fs[0]] + fs[1..][..r];
      if r == -1 then -1 else r + 1
  }

  /** s with its element at k taken out, or s itself when k is -1. */
  function Without<T>(s: seq<T>, k: int): seq<T>
    requires -1 <= k < |s|
  {
    if k < 0 then s else s[..k] + s[k + 1..]
  }

  /** A new array twice as long, holding a copy of the old one's elements at the front. */
  method Doubled<T(0)>(a: array<T>) returns (b: array<T>)
    ensures fresh(b) && b.Length == 2 * a.Length && b[..a.Length] == a[..]
  {
    b := new T[a.Length * 2];
    var i := 0;
    while i < a.Length
      invariant 0 <= i <= a.Length
      invariant b[..i] == a[..i]
    {
      b[i] := a[i];
      assert b[..i + 1] == b[..i] + [b[i]];
      i := i + 1;
    }
  }

  /** The removal loops: each slot from k up to count - 2 takes its right neighbour's value. */
  method ShiftLeft<T>(a: array<T>, k: int, count: int)
    requires 0 <= k < count <= a.Length
    modifies a
    ensures a[..count - 1] == old(a[..k]) + old(a[k + 1..count])
    ensures a[count - 1..] == old(a[count - 1..])
  {
    var j := k;
    while j < count - 1
      invariant k <= j <= count - 1
      invariant forall i :: 0 <= i < k ==> a[i] == old(a[i])
      invariant forall i :: k <= i < j ==> a[i] == old(a[i + 1])
      invariant forall i :: j <= i < a.Length ==> a[i] == old(a[i])
    {
      a[j] := a[j + 1];
      j := j + 1;
    }
    assert a[..count - 1] == old(a[..k]) + old(a[k + 1..count]);
  }

  /** The canonical path of a node whose ancestors below the root carry the names ns. */
  function PathOf(ns: seq<string>): (p: string)
    ensures |p| >= 1 && p[0] == SEPARATOR
  {
    if ns == [] then [SEPARATOR] else Below(ns)
  }

  /** "\" + ns[0] + "\" + ns[1] ...: each name preceded by the separator. */
  function Below(ns: seq<string>): (p: string)
    ensures ns != [] ==> |p| >= 1 && p[0] == SEPARATOR
  {
    if ns == [] then [] else Below(ns[..|ns| - 1]) + [SEPARATOR] + ns[|ns| - 1]
  }

  class DirectoryEntry {
    const name: string
    const parent: DirectoryEntry?
    /** The number of ancestors: what makes the walk up the parent chain end. */
    ghost const depth: nat

    var subDirectories: array<DirectoryEntry?>
    var dirCount: nat
    var files: array<string>
    var fileCount: nat

    ghost var children: seq<DirectoryEntry>
    ghost var fileNames: seq<string>

    ghost predicate Valid()
      reads this, subDirectories, files
    {
      1 <= subDirectories.Length && dirCount <= subDirectories.Length && |children| == dirCount &&
      (forall i :: 0 <= i < dirCount ==> subDirectories[i] == children[i]) &&
      1 <= files.Length && fileCount <= files.Length && files[..fileCount] == fileNames
    }

    /** The parent chain ends at a node with no parent. */
    ghost predicate Rooted()
      decreases depth
    {
      parent == null || (parent.depth < depth && parent.Rooted())
    }

    constructor (name: string, parent: DirectoryEntry?)
      ensures this.name == name && this.parent == parent
      ensures Valid() && children == [] && fileNames == []
      ensures fresh(subDirectories) && fresh(files)
      ensures subDirectories.Length == INITIAL_CAPACITY && files.Length == INITIAL_CAPACITY
      ensures parent == null || parent.Rooted() ==> Rooted()
    {
      this.name := name;
      this.parent := parent;
      depth := if parent == null then 0 else parent.depth + 1;
      subDirectories := new DirectoryEntry?[INITIAL_CAPACITY];
      files := new string[INITIAL_CAPACITY];
      dirCount := 0;
      fileCount := 0;
      children := [];
      fileNames := [];
    }

    /** Appends the directory, doubling the array first when it is full. */
    method AddSubdirectory(directory: DirectoryEntry)
      requires Valid()
      modifies this, subDirectories
      ensures Valid() && children == old(children) + [directory]
      ensures files == old(files) && fileNames == old(fileNames)
      ensures subDirectories == old(subDirectories) || fresh(subDirectories)
      ensures subDirectories.Length ==
              if old(dirCount) == old(subDirectories.Length) then 2 * old(subDirectories.Length) else old(subDirectories.Length)
    {
      if dirCount == subDirectories.Length {
        var bigger := Doubled(subDirectories);
        subDirectories := bigger;
        assert forall i :: 0 <= i < dirCount ==> subDirectories[i] == bigger[..dirCount][i];
      }
      subDirectories[dirCount] := directory;
      dirCount := dirCount + 1;
      children := children + [directory];
    }

    /** The first subdirectory with the name goes and the rest close up; false when there is none. */
    method RemoveSubdirectory(directoryName: string) returns (removed: bool)
      requires Valid()
      modifies this, subDirectories
      ensures Valid() && subDirectories == old(subDirectories)
      ensures files == old(files) && fileNames == old(fileNames)
      ensures removed <==> FirstNamed(old(children), directoryName) >= 0
      ensures children == Without(old(children), FirstNamed(old(children), directoryName))
    {
      var i := 0;
      while i < dirCount
        invariant 0 <= i <= dirCount
        invariant forall j :: 0 <= j < i ==> children[j].name != directoryName
      {
        if subDirectories[i].name == directoryName {
          assert subDirectories[..dirCount] == children;
          ShiftLeft(subDirectories, i, dirCount);
          subDirectories[dirCount - 1] := null;
          dirCount := dirCount - 1;
          children := children[..i] + children[i + 1..];
          assert forall j :: 0 <= j < dirCount ==> subDirectories[j] == subDirectories[..dirCount][j];
          return true;
        }
        i := i + 1;
      }
      return false;
    }

    /** The first subdirectory with the name, or null. */
    method FindSubdirectory(directoryName: string) returns (r: DirectoryEntry?)
      requires Valid()
      ensures var k := FirstNamed(children, directoryName);
              r == if k >= 0 then children[k] else null
    {
      var i := 0;
      while i < dirCount
        invariant 0 <= i <= dirCount
        invariant forall j :: 0 <= j < i ==> children[j].name != directoryName
      {
        if subDirectories[i].name == directoryName {
          return subDirectories[i];
        }
        i := i + 1;
      }
      return null;
    }

    /** A new array holding the subdirectories in order. */
    method GetDirectories() returns (result: array<DirectoryEntry?>)
      requires Valid()
      ensures fresh(result) && result.Length == |children|
      ensures forall i :: 0 <= i < result.Length ==> result[i] == children[i]
    {
      result := new DirectoryEntry?[dirCount];
      var i := 0;
      while i < dirCount
        invariant 0 <= i <= dirCount
        invariant forall j :: 0 <= j < i ==> result[j] == children[j]
      {
        result[i] := subDirectories[i];
        i := i + 1;
      }
    }

    /** Appends the file name, doubling the array first when it is full. */
    method AddFile(fileName: string)
      requires Valid()
      modifies this, files
      ensures Valid() && fileNames == old(fileNames) + [fileName]
      ensures subDirectories == old(subDirectories) && children == old(children)
      ensures files == old(files) || fresh(files)
      ensures files.Length == if old(fileCount) == old(files.Length) then 2 * old(files.Length) else old(files.Length)
    {
      if fileCount == files.Length {
        var bigger := Doubled(files);
        files := bigger;
      }
      files[fileCount] := fileName;
      assert files[..fileCount + 1] == files[..fileCount] + [fileName];
      fileCount := fileCount + 1;
      fileNames := fileNames + [fileName];
    }

    /** The first occurrence of the name goes and the rest close up; false when there is none. */
    method RemoveFile(fileName: string) returns (removed: bool)
      requires Valid()
      modifies this, files
      ensures Valid() && files == old(files)
      ensures subDirectories == old(subDirectories) && children == old(children)
      ensures removed <==> fileName in old(fileNames)
      ensures fileNames == Without(old(fileNames), FirstIndex(old(fileNames), fileName))
    {
      var i := 0;
      while i < fileCount
        invariant 0 <= i <= fileCount
        invariant fileName !in fileNames[..i]
      {
        if files[i] == fileName {
          ShiftLeft(files, i, fileCount);
          assert files[..fileCount - 1] == fileNames[..i] + fileNames[i + 1..];
          files[fileCount - 1] := "";
          fileCount := fileCount - 1;
          fileNames := fileNames[..i] + fileNames[i + 1..];
          return true;
        }
        assert fileNames[..i + 1] == fileNames[..i] + [fileNames[i]];
        i := i + 1;
      }
      assert fileNames[..i] == fileNames;
      return false;
    }

    /** A new array holding the file names in order. */
    method GetFiles() returns (result: array<string>)
      requires Valid()
      ensures fresh(result) && result[..] == fileNames
    {
      result := new string[fileCount];
      var i := 0;
      while i < fileCount
        invariant 0 <= i <= fileCount
        invariant result[..i] == fileNames[..i]
      {
        result[i] := files[i];
        assert result[..i + 1] == result[..i] + [result[i]];
        i := i + 1;
      }
    }

    /**
     * "\" for the root; for a child of a node whose path is "\", "\" and the name;
     * otherwise the parent's path, "\" and the name. Every path starts with "\".
     */
    function GetFullPath(): (r: string)
      requires Rooted()
      ensures |r| >= 1 && r[0] == SEPARATOR
      ensures parent == null ==> r == [SEPARATOR]
      decreases depth
    {
      if parent == null then [SEPARATOR]
      else
        var parentPath := parent.GetFullPath();
        if StringImplementations.CustomCompare(parentPath, [SEPARATOR]) == 0 then [SEPARATOR] + name
        else parentPath + [SEPARATOR] + name
    }

    /** The names on the way down from the root to this node, the root's own name excluded. */
    ghost function Names(): (ns: seq<string>)
      requires Rooted()
      ensures |ns| == 0 <==> parent == null
      decreases depth
    {
      if parent == null then [] else parent.Names() + [name]
    }
  }

  /** No node on the way down from the root has an empty name. */
  ghost predicate NamedChain(d: DirectoryEntry)
    requires d.Rooted()
  {
    forall i :: 0 <= i < |d.Names()| ==> d.Names()[i] != ""
  }

  /**
   * The full path of a node is its names, each after a separator; the root's is "\". The
   * special case in GetFullPath only avoids a doubled separator below the root.
   */
  lemma {:induction false} FullPathNames(d: DirectoryEntry)
    requires d.Rooted() && NamedChain(d)
    ensures d.GetFullPath() == PathOf(d.Names())
    decreases d.depth
  {
    if d.parent != null {
      var p := d.parent;
      var ns := d.Names();
      assert ns == p.Names() + [d.name];
      assert ns[..|ns| - 1] == p.Names();
      assert NamedChain(p) by {
        forall i | 0 <= i < |p.Names()|
          ensures p.Names()[i] != ""
        {
          assert p.Names()[i] == ns[i];
        }
      }
      FullPathNames(p);
      if p.parent == null {
        assert ns == [d.name];
        assert Below(ns) == Below([]) + [SEPARATOR] + d.name;
      } else {
        assert |Below(p.Names())| >= 2 by {
          var q := p.Names();
          assert Below(q) == Below(q[..|q| - 1]) + [SEPARATOR] + q[|q| - 1];
          assert q[|q| - 1] != "";
        }
      }
    }
  }
}
