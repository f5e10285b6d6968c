/**
 * DirectoryManager: the directory tree rebuilt from the container's stored paths, a
 * current directory, and the shell's directory and file commands. A stored path is cut
 * at its last "\" into a directory path and a file name; the directory path is cut at
 * every "\" into names, which are looked up or created from the root down.
 *
 * The ghost maps `kids` and `fileMap` give, for every node created so far, its
 * subdirectories and its file names; lookups are stated as functions of them.
 */
module DirectoryManagers {
  import opened Wrappers
  import opened Wire
  import opened StringImplementations
  import opened Directories
  import Container
  import CM = ContainerModel
  import FR = FileRecords

  // ---- paths ----

  /** The last position of c in s, or -1. */
  function LastIndexOf(s: string, c: char): (r: int)
    ensures -1 <= r < |s|
    ensures r >= 0 ==> s[r] == c && c !in s[r + 1..]
    ensures r == -1 <==> c !in s
  {
    if s == [] then -1
    else if s[|s| - 1] == c then |s| - 1
    else
      var r := LastIndexOf(s[..|s| - 1], c);
      assert s == s[..|s| - 1] + [s[|s| - 1]];
      r
  }

  /** The path as the root's, or as nothing at all: SplitPath's first case. */
  predicate RootOrBlank(p: string) {
    IsNullOrWhiteSpace(p) || p == [SEPARATOR]
  }

  /**
   * SplitPath on values: ("\", "") for a blank path or "\"; ("\", p) with no "\" in p;
   * ("\", the rest) when the only "\" is the first character; otherwise what comes before
   * and after the last "\".
   */
  function SplitPathSpec(p: string): (string, string) {
    if RootOrBlank(p) then ([SEPARATOR], "")
    else
      var k := LastIndexOf(p, SEPARATOR);
      if k == -1 then ([SEPARATOR], p)
      else if k == 0 then ([SEPARATOR], p[1..])
      else (p[..k], p[k + 1..])
  }

  /** The file name never holds a "\", and the two parts give back the path. */
  lemma {:induction false} SplitPathParts(p: string)
    requires !RootOrBlank(p)
    ensures var (dir, name) := SplitPathSpec(p);
            var k := LastIndexOf(p, SEPARATOR);
            SEPARATOR !in name &&
            (k == -1 ==> dir == [SEPARATOR] && name == p) &&
            (k == 0 ==> dir == [SEPARATOR] && [SEPARATOR] + name == p) &&
            (k > 0 ==> dir + [SEPARATOR] + name == p && |dir| == k)
  {
    var k := LastIndexOf(p, SEPARATOR);
    if k >= 0 {
      assert p == p[..k] + [SEPARATOR] + p[k + 1..];
    }
  }

  /** The full path of a file in a directory: "\" + name at the root, path + "\" + name elsewhere. */
  function FileFullPath(dirPath: string, fileName: string): string {
    if CustomCompare(dirPath, [SEPARATOR]) == 0 then [SEPARATOR] + fileName
    else dirPath + [SEPARATOR] + fileName
  }

  lemma {:induction false} LastIndexOfNoTail(s: string, t: string, c: char)
    requires c !in t
    ensures LastIndexOf(s + t, c) == LastIndexOf(s, c)
    decreases |t|
  {
    if t != [] {
      var u := s + t;
      assert u[..|u| - 1] == s + t[..|t| - 1];
      assert c !in t[..|t| - 1] by {
        assert forall i :: 0 <= i < |t| - 1 ==> t[..|t| - 1][i] == t[i];
      }
      LastIndexOfNoTail(s, t[..|t| - 1], c);
    } else {
      assert s + t == s;
    }
  }

  /** A path that begins with "\" is not blank. */
  lemma {:induction false} SeparatorNotBlank(p: string)
    requires |p| >= 1 && p[0] == SEPARATOR
    ensures !IsNullOrWhiteSpace(p)
  {
    assert !IsWhiteSpace(p[0]);
  }

  /**
   * Cutting the full path that the file commands build gives back the directory's path
   * and the file name, for a directory path in canonical form.
   */
  lemma {:induction false} SplitFileFullPath(dirPath: string, fileName: string)
    requires |dirPath| >= 1 && dirPath[0] == SEPARATOR && SEPARATOR !in fileName
    ensures SplitPathSpec(FileFullPath(dirPath, fileName)) == (dirPath, fileName)
  {
    var p := FileFullPath(dirPath, fileName);
    if dirPath == [SEPARATOR] {
      assert p == [SEPARATOR] + fileName;
      if fileName != "" {
        SeparatorNotBlank(p);
        LastIndexOfNoTail([SEPARATOR], fileName, SEPARATOR);
        assert p[1..] == fileName;
      }
    } else {
      assert p == dirPath + [SEPARATOR] + fileName;
      SeparatorNotBlank(p);
      LastIndexOfNoTail(dirPath + [SEPARATOR], fileName, SEPARATOR);
      assert LastIndexOf(dirPath + [SEPARATOR], SEPARATOR) == |dirPath|;
      assert p[..|dirPath|] == dirPath && p[|dirPath| + 1..] == fileName;
    }
  }

  /** SplitFullPath on values: no names for "\" or a blank path; else one leading "\" dropped and the rest split. */
  function SplitFullPathSpec(p: string): seq<string> {
    if p == [SEPARATOR] || IsNullOrWhiteSpace(p) then []
    else SplitSpec(if |p| > 0 && p[0] == SEPARATOR then p[1..] else p, SEPARATOR)
  }

  lemma {:induction false} BelowJoin(ns: seq<string>)
    requires ns != []
    ensures Below(ns) == [SEPARATOR] + Join(ns, SEPARATOR)
    decreases |ns|
  {
    var init := ns[..|ns| - 1];
    if init != [] {
      BelowJoin(init);
      assert Below(ns) == [SEPARATOR] + Join(init, SEPARATOR) + [SEPARATOR] + ns[|ns| - 1];
    } else {
      assert |ns| == 1;
    }
  }

  /** A canonical path, split, gives back the names it was built from. */
  lemma {:induction false} SplitPathOf(ns: seq<string>)
    requires forall i :: 0 <= i < |ns| ==> ns[i] != "" && SEPARATOR !in ns[i]
    ensures SplitFullPathSpec(PathOf(ns)) == ns
  {
    if ns != [] {
      BelowJoin(ns);
      var j := Join(ns, SEPARATOR);
      JoinSplit(ns, SEPARATOR);
      var p := PathOf(ns);
      SeparatorNotBlank(p);
      assert |j| >= 1;
      assert p[1..] == j;
    }
  }

  /** The names of a node's full path are the names on the way down to it. */
  lemma {:induction false} FullPathSplits(d: DirectoryEntry)
    requires d.Rooted() && forall i :: 0 <= i < |d.Names()| ==> d.Names()[i] != "" && SEPARATOR !in d.Names()[i]
    ensures SplitFullPathSpec(d.GetFullPath()) == d.Names()
  {
    FullPathNames(d);
    SplitPathOf(d.Names());
  }

  // ---- the tree as values ----

  /**
   * The node reached from n by following the names, skipping blank ones, each time to the
   * first subdirectory with that name; None when one is missing.
   */
  function Lookup(kids: map<DirectoryEntry, seq<DirectoryEntry>>, n: DirectoryEntry, parts: seq<string>): Option<DirectoryEntry>
    decreases |parts|
  {
    if parts == [] then Some(n)
    else if IsNullOrWhiteSpace(parts[0]) then Lookup(kids, n, parts[1..])
    else if n !in kids then None
    else
      var k := FirstNamed(kids[n], parts[0]);
      if k < 0 then None else Lookup(kids, kids[n][k], parts[1..])
  }

  /** One name further down from n. */
  function Step(kids: map<DirectoryEntry, seq<DirectoryEntry>>, n: DirectoryEntry, part: string): Option<DirectoryEntry> {
    Lookup(kids, n, [part])
  }

  /** Following a + b is following a, then b from where a led. */
  lemma {:induction false} LookupAppend(kids: map<DirectoryEntry, seq<DirectoryEntry>>, n: DirectoryEntry, a: seq<string>, b: seq<string>)
    ensures Lookup(kids, n, a + b) == match Lookup(kids, n, a) case Some(m) => Lookup(kids, m, b) case None => None
    decreases |a|
  {
    if a != [] {
      assert (a + b)[1..] == a[1..] + b;
      if IsNullOrWhiteSpace(a[0]) {
        LookupAppend(kids, n, a[1..], b);
      } else if n in kids {
        var k := FirstNamed(kids[n], a[0]);
        if k >= 0 {
          LookupAppend(kids, kids[n][k], a[1..], b);
        }
      }
    } else {
      assert a + b == b;
    }
  }

  /** What is left after dropping one element was there before. */
  lemma WithoutIn<T>(s: seq<T>, k: int, x: T)
    requires -1 <= k < |s| && x in Without(s, k)
    ensures x in s
  {
    if k >= 0 {
      assert Without(s, k) == s[..k] + s[k + 1..];
      assert x in s[..k] || x in s[k + 1..];
    }
  }

  /** Every list of m is a prefix of the one m' holds for the same node. */
  ghost predicate Extends<T>(m: map<DirectoryEntry, seq<T>>, m': map<DirectoryEntry, seq<T>>) {
    forall n :: n in m ==> n in m' && m[n] <= m'[n]
  }

  lemma {:induction false} FirstNamedPrefix(s: seq<DirectoryEntry>, t: seq<DirectoryEntry>, name: string)
    requires s <= t && FirstNamed(s, name) >= 0
    ensures FirstNamed(t, name) == FirstNamed(s, name)
  {
    var k := FirstNamed(s, name);
    assert t[k] == s[k];
    assert forall j :: 0 <= j < k ==> t[j] == s[j];
  }

  /** Adding subdirectories at the end of lists never changes where a lookup that succeeded leads. */
  lemma {:induction false} LookupExtends(kids: map<DirectoryEntry, seq<DirectoryEntry>>, kids': map<DirectoryEntry, seq<DirectoryEntry>>,
                                         n: DirectoryEntry, parts: seq<string>)
    requires Extends(kids, kids') && Lookup(kids, n, parts).Some?
    ensures Lookup(kids', n, parts) == Lookup(kids, n, parts)
    decreases |parts|
  {
    if parts != [] {
      if IsNullOrWhiteSpace(parts[0]) {
        LookupExtends(kids, kids', n, parts[1..]);
      } else {
        FirstNamedPrefix(kids[n], kids'[n], parts[0]);
        LookupExtends(kids, kids', kids[n][FirstNamed(kids[n], parts[0])], parts[1..]);
      }
    }
  }

  /** A lookup one name further: the named step from where the shorter lookup led. */
  lemma LookupNext(kids: map<DirectoryEntry, seq<DirectoryEntry>>, root: DirectoryEntry, parts: seq<string>, i: int,
                   current: DirectoryEntry, next: DirectoryEntry)
    requires 0 <= i < |parts| && Lookup(kids, root, parts[..i]) == Some(current)
    requires IsNullOrWhiteSpace(parts[i]) ==> next == current
    requires !IsNullOrWhiteSpace(parts[i]) ==>
               current in kids && FirstNamed(kids[current], parts[i]) >= 0 &&
               next == kids[current][FirstNamed(kids[current], parts[i])]
    ensures Lookup(kids, root, parts[..i + 1]) == Some(next)
  {
    assert parts[..i + 1] == parts[..i] + [parts[i]];
    LookupAppend(kids, root, parts[..i], [parts[i]]);
    assert [parts[i]][1..] == [];
  }

  /** When the whole lookup succeeds, each named step along it finds its subdirectory. */
  lemma LookupWhole(kids: map<DirectoryEntry, seq<DirectoryEntry>>, root: DirectoryEntry, parts: seq<string>, i: int,
                    current: DirectoryEntry)
    requires 0 <= i < |parts| && Lookup(kids, root, parts[..i]) == Some(current)
    requires Lookup(kids, root, parts).Some? && !IsNullOrWhiteSpace(parts[i])
    ensures current in kids && FirstNamed(kids[current], parts[i]) >= 0
  {
    assert parts == parts[..i] + parts[i..];
    LookupAppend(kids, root, parts[..i], parts[i..]);
    assert parts[i..] == [parts[i]] + parts[i + 1..];
    LookupAppend(kids, current, [parts[i]], parts[i + 1..]);
  }

  /** Growth is transitive. */
  lemma GrowsTrans(s: Shape, s': Shape, s'': Shape)
    requires Grows(s, s') && Grows(s', s'')
    ensures Grows(s, s'')
  {
  }

  /** Adding a leaf d below p, which holds it last, only extends the lists. */
  lemma LeafGrows(s: Shape, p: DirectoryEntry, d: DirectoryEntry)
    requires p in s.kids && d !in s.kids && d !in s.fileMap
    ensures Grows(s, s.(nodes := s.nodes + {d}, kids := s.kids[d := []][p := s.kids[p] + [d]], fileMap := s.fileMap[d := []]))
  {
  }

  /**
   * s' is s with the new leaf d appended to p's subdirectories; pArr is p's subdirectory
   * array afterwards, dArr and dFiles are d's arrays.
   */
  ghost predicate Attached(s: Shape, s': Shape, p: DirectoryEntry, d: DirectoryEntry,
                           pArr: array<DirectoryEntry?>, dArr: array<DirectoryEntry?>, dFiles: array<string>) {
    p in s.kids && d !in s.kids && d !in s.fileMap &&
    s' == Shape(s.nodes + {d}, s.kids[d := []][p := s.kids[p] + [d]], s.fileMap[d := []],
                s.dirOwner[dArr := d][pArr := p], s.fileOwner[dFiles := d])
  }

  /**
   * s' differs from s only by new, empty directories: the nodes s knows keep their file
   * lists, every node s' adds has none, and every subdirectory appended to a list s knows
   * is a node s did not know.
   */
  ghost predicate OnlyNewDirectories(s: Shape, s': Shape) {
    (forall n | n in s.fileMap :: n in s'.fileMap && s'.fileMap[n] == s.fileMap[n]) &&
    (forall n | n in s'.fileMap && n !in s.fileMap :: s'.fileMap[n] == []) &&
    NewSubdirectoriesOnly(s.kids, s'.kids)
  }

  /** Every subdirectory appended to a list that kids knows is a node kids did not know. */
  ghost predicate NewSubdirectoriesOnly(kids: map<DirectoryEntry, seq<DirectoryEntry>>, kids': map<DirectoryEntry, seq<DirectoryEntry>>) {
    forall n, j | n in kids && n in kids' && |kids[n]| <= j < |kids'[n]| :: kids'[n][j] !in kids
  }

  /** Attaching one more new leaf keeps the change to new, empty directories only. */
  lemma {:induction false} OnlyNewAttached(s: Shape, s1: Shape, s2: Shape, p: DirectoryEntry, d: DirectoryEntry,
                                           pArr: array<DirectoryEntry?>, dArr: array<DirectoryEntry?>, dFiles: array<string>)
    requires Grows(s, s1) && OnlyNewDirectories(s, s1) && Attached(s1, s2, p, d, pArr, dArr, dFiles)
    ensures OnlyNewDirectories(s, s2)
  {
    forall n, j | n in s.kids && n in s2.kids && |s.kids[n]| <= j < |s2.kids[n]|
      ensures s2.kids[n][j] !in s.kids
    {
      if n == p && j == |s1.kids[p]| {
        assert s2.kids[n][j] == d;
      } else {
        assert s2.kids[n][j] == s1.kids[n][j];
      }
    }
  }

  /**
   * m' is m with exactly the name appended to dir's file list, dir holding no other file
   * when it is new, and every other node that m' adds holding none.
   */
  ghost predicate OneFileAdded(m: map<DirectoryEntry, seq<string>>, m': map<DirectoryEntry, seq<string>>,
                               dir: DirectoryEntry, name: string) {
    dir in m' && m'[dir] == (if dir in m then m[dir] else []) + [name] &&
    (forall n | n in m && n != dir :: n in m' && m'[n] == m[n]) &&
    (forall n | n in m' && n !in m && n != dir :: m'[n] == [])
  }

  /** A name appended to a node's list, after only new, empty directories were added, is the one file added. */
  lemma {:induction false} OneFileAfterNew(s: Shape, s1: Shape, m: map<DirectoryEntry, seq<string>>, dir: DirectoryEntry, name: string)
    requires OnlyNewDirectories(s, s1) && dir in s1.fileMap && m == s1.fileMap[dir := s1.fileMap[dir] + [name]]
    ensures OneFileAdded(s.fileMap, m, dir, name)
  {
  }

  /** The name is the file part of the j-th stored path, for some j < i, whose directory part leads to n. */
  ghost predicate Listed(kids: map<DirectoryEntry, seq<DirectoryEntry>>, root: DirectoryEntry, files: seq<FR.FileEntry>,
                         i: int, n: DirectoryEntry, name: string) {
    exists j | 0 <= j < i && j < |files| ::
      SplitPathSpec(files[j].path).1 == name && Lookup(kids, root, SplitFullPathSpec(SplitPathSpec(files[j].path).0)) == Some(n)
  }

  /** Every file name the tree lists was there at the start or comes from one of the first i stored paths. */
  ghost predicate OnlyListed(init: map<DirectoryEntry, seq<string>>, s: Shape, root: DirectoryEntry,
                             files: seq<FR.FileEntry>, i: int) {
    forall n, f | n in s.fileMap && f in s.fileMap[n] :: (n in init && f in init[n]) || Listed(s.kids, root, files, i, n, f)
  }

  /** Placing the i-th stored path's name where its directory part leads keeps every listed name accounted for. */
  lemma {:induction false} OnlyListedNext(init: map<DirectoryEntry, seq<string>>, s: Shape, s': Shape, root: DirectoryEntry,
                                          files: seq<FR.FileEntry>, i: int, dir: DirectoryEntry)
    requires 0 <= i < |files| && Extends(s.kids, s'.kids) && OnlyListed(init, s, root, files, i)
    requires Lookup(s'.kids, root, SplitFullPathSpec(SplitPathSpec(files[i].path).0)) == Some(dir)
    requires OneFileAdded(s.fileMap, s'.fileMap, dir, SplitPathSpec(files[i].path).1)
    ensures OnlyListed(init, s', root, files, i + 1)
  {
    forall n, f | n in s'.fileMap && f in s'.fileMap[n]
      ensures (n in init && f in init[n]) || Listed(s'.kids, root, files, i + 1, n, f)
    {
      if n == dir && f == SplitPathSpec(files[i].path).1 {
        assert Listed(s'.kids, root, files, i + 1, n, f);
      } else if n in s.fileMap {
        assert f in s.fileMap[n];
        if !(n in init && f in init[n]) {
          var j :| 0 <= j < i && j < |files| && SplitPathSpec(files[j].path).1 == f &&
                   Lookup(s.kids, root, SplitFullPathSpec(SplitPathSpec(files[j].path).0)) == Some(n);
          LookupExtends(s.kids, s'.kids, root, SplitFullPathSpec(SplitPathSpec(files[j].path).0));
          assert Listed(s'.kids, root, files, i + 1, n, f);
        }
      }
    }
  }

  /** What attaching a leaf named after a name p had no subdirectory with does to the bookkeeping. */
  lemma AttachedFacts(s: Shape, s': Shape, p: DirectoryEntry, d: DirectoryEntry,
                      pArr: array<DirectoryEntry?>, dArr: array<DirectoryEntry?>, dFiles: array<string>)
    requires Attached(s, s', p, d, pArr, dArr, dFiles) && FirstNamed(s.kids[p], d.name) == -1
    ensures Grows(s, s') && In(s', d)
    ensures p in s'.kids && FirstNamed(s'.kids[p], d.name) == |s.kids[p]| && s'.kids[p][|s.kids[p]|] == d
    ensures s'.nodes - s.nodes <= {d} && s'.dirOwner.Keys - s.dirOwner.Keys <= {dArr, pArr}
    ensures s'.fileOwner.Keys - s.fileOwner.Keys <= {dFiles}
  {
    FirstNamedAppend(s.kids[p], d, d.name);
  }

  /** n is where a non-empty prefix of the first i names leads from the root. */
  ghost predicate OnPath(kids: map<DirectoryEntry, seq<DirectoryEntry>>, root: DirectoryEntry, parts: seq<string>,
                         i: int, n: DirectoryEntry) {
    exists k | 0 < k <= i && k <= |parts| :: Lookup(kids, root, parts[..k]) == Some(n)
  }

  /** Every node of s that is not among the old nodes lies on the path of the first i names. */
  ghost predicate CreatedOnPath(oldNodes: set<DirectoryEntry>, s: Shape, root: DirectoryEntry, parts: seq<string>, i: int) {
    forall n | n in s.nodes && n !in oldNodes :: OnPath(s.kids, root, parts, i, n)
  }

  /** A step down the path that adds at most the node it reaches keeps every new node on the path. */
  lemma {:induction false} CreatedOnPathStep(oldNodes: set<DirectoryEntry>, s: Shape, s': Shape, root: DirectoryEntry,
                                             parts: seq<string>, i: int, next: DirectoryEntry)
    requires 0 <= i < |parts| && Grows(s, s') && s'.nodes <= s.nodes + {next}
    requires CreatedOnPath(oldNodes, s, root, parts, i)
    requires Lookup(s'.kids, root, parts[..i + 1]) == Some(next)
    ensures CreatedOnPath(oldNodes, s', root, parts, i + 1)
  {
    forall n | n in s'.nodes && n !in oldNodes
      ensures OnPath(s'.kids, root, parts, i + 1, n)
    {
      if n == next {
        assert Lookup(s'.kids, root, parts[..i + 1]) == Some(n);
      } else {
        var k :| 0 < k <= i && k <= |parts| && Lookup(s.kids, root, parts[..k]) == Some(n);
        LookupExtends(s.kids, s'.kids, root, parts[..k]);
        assert Lookup(s'.kids, root, parts[..k]) == Some(n);
      }
    }
  }

  /** A name no directory in ds has is found at the end once a directory with it is appended. */
  lemma FirstNamedAppend(ds: seq<DirectoryEntry>, d: DirectoryEntry, name: string)
    requires FirstNamed(ds, name) == -1 && d.name == name
    ensures FirstNamed(ds + [d], name) == |ds|
  {
    assert (ds + [d])[|ds|] == d;
  }

  /**
   * The file part of the path is listed in the node that its directory part leads to from
   * the root: the rebuilt tree holds the stored path.
   */
  ghost predicate Placed(kids: map<DirectoryEntry, seq<DirectoryEntry>>, fileMap: map<DirectoryEntry, seq<string>>,
                         root: DirectoryEntry, path: string)
  {
    var (dir, name) := SplitPathSpec(path);
    var m := Lookup(kids, root, SplitFullPathSpec(dir));
    m.Some? && m.value in fileMap && name in fileMap[m.value]
  }

  /** A placed path stays placed while subdirectories and file names are only added at the end. */
  lemma {:induction false} PlacedExtends(kids: map<DirectoryEntry, seq<DirectoryEntry>>, fileMap: map<DirectoryEntry, seq<string>>,
                                         kids': map<DirectoryEntry, seq<DirectoryEntry>>, fileMap': map<DirectoryEntry, seq<string>>,
                                         root: DirectoryEntry, path: string)
    requires Extends(kids, kids') && Extends(fileMap, fileMap') && Placed(kids, fileMap, root, path)
    ensures Placed(kids', fileMap', root, path)
  {
    var (dir, name) := SplitPathSpec(path);
    var m := Lookup(kids, root, SplitFullPathSpec(dir));
    LookupExtends(kids, kids', root, SplitFullPathSpec(dir));
    assert fileMap[m.value] <= fileMap'[m.value];
  }

  /** The first n stored files are all placed. */
  ghost predicate PlacedUpTo(kids: map<DirectoryEntry, seq<DirectoryEntry>>, fileMap: map<DirectoryEntry, seq<string>>,
                             root: DirectoryEntry, files: seq<FR.FileEntry>, n: int)
  {
    forall j | 0 <= j < n && j < |files| :: Placed(kids, fileMap, root, files[j].path)
  }

  /** One more stored file placed, in a tree that only grew since the earlier ones were. */
  lemma PlacedUpToNext(s: Shape, s': Shape, root: DirectoryEntry, files: seq<FR.FileEntry>, i: int)
    requires 0 <= i < |files| && Grows(s, s') && PlacedUpTo(s.kids, s.fileMap, root, files, i)
    requires Placed(s'.kids, s'.fileMap, root, files[i].path)
    ensures PlacedUpTo(s'.kids, s'.fileMap, root, files, i + 1)
  {
    forall j | 0 <= j < i
      ensures Placed(s'.kids, s'.fileMap, root, files[j].path)
    {
      PlacedExtends(s.kids, s.fileMap, s'.kids, s'.fileMap, root, files[j].path);
    }
  }

  /** A node that is valid and whose parent chain reaches the root. */
  ghost predicate Sound(n: DirectoryEntry)
    reads n, n.subDirectories, n.files
  {
    n.Valid() && n.Rooted()
  }

  /**
   * The tree's bookkeeping: its nodes; for each, its subdirectories and its file names; and
   * which node each subdirectory array and each file-name array belongs to.
   */
  datatype Shape = Shape(
    nodes: set<DirectoryEntry>,
    kids: map<DirectoryEntry, seq<DirectoryEntry>>,
    fileMap: map<DirectoryEntry, seq<string>>,
    dirOwner: map<array<DirectoryEntry?>, DirectoryEntry>,
    fileOwner: map<array<string>, DirectoryEntry>)

  /**
   * Every node is sound and described by the maps, owns its two arrays (so no two nodes
   * share one), and its subdirectories, which name it as their parent, and its own parent
   * are nodes too.
   */
  ghost predicate Good(s: Shape)
    reads s.nodes, s.dirOwner.Keys, s.fileOwner.Keys
  {
    forall n {:trigger In(s, n)} :: n in s.nodes && In(s, n) ==>
      n in s.kids && n in s.fileMap &&
      n.subDirectories in s.dirOwner && s.dirOwner[n.subDirectories] == n &&
      n.files in s.fileOwner && s.fileOwner[n.files] == n &&
      Sound(n) && n.children == s.kids[n] && n.fileNames == s.fileMap[n] &&
      (forall c {:trigger c in s.kids[n]} :: c in s.kids[n] ==> c in s.nodes && c.parent == n) &&
      (n.parent != null ==> n.parent in s.nodes)
  }

  /**
   * n is a node of s. Good's facts about a node are keyed on this term rather than on
   * membership itself, so that the parent and the subdirectories they mention do not set
   * off further instances on their own.
   */
  ghost predicate In(s: Shape, n: DirectoryEntry) {
    n in s.nodes
  }

  /** Nodes, subdirectory lists and file lists only grew, each list at its end. */
  ghost predicate Grows(s: Shape, s': Shape) {
    s.nodes <= s'.nodes && Extends(s.kids, s'.kids) && Extends(s.fileMap, s'.fileMap)
  }

  // ---- changing directory ----

  /** What ChangeDirectory reports instead of its console messages. */
  datatype ChangeOutcome = Moved | AlreadyAtRoot | NoSuchDirectory

  /**
   * Where ChangeDirectory leaves the current directory, and what it reports: "\" goes to the
   * root, ".." to the parent (staying put at the root), any other name to the first
   * subdirectory with that name (staying put when there is none).
   */
  function ChangeTarget(kids: map<DirectoryEntry, seq<DirectoryEntry>>, root: DirectoryEntry,
                        cwd: DirectoryEntry, target: string): (ChangeOutcome, DirectoryEntry)
  {
    if target == [SEPARATOR] then (Moved, root)
    else if target == ".." then (if cwd.parent == null then (AlreadyAtRoot, cwd) else (Moved, cwd.parent))
    else if cwd !in kids then (NoSuchDirectory, cwd)
    else
      var k := FirstNamed(kids[cwd], target);
      if k < 0 then (NoSuchDirectory, cwd) else (Moved, kids[cwd][k])
  }

  /** Entering a subdirectory by name is the step the tree loader takes for that name. */
  lemma ChangeIsStep(kids: map<DirectoryEntry, seq<DirectoryEntry>>, root: DirectoryEntry, cwd: DirectoryEntry, target: string)
    requires cwd in kids && target != [SEPARATOR] && target != ".." && !IsNullOrWhiteSpace(target)
    ensures ChangeTarget(kids, root, cwd, target).0 == Moved <==> Step(kids, cwd, target).Some?
    ensures Step(kids, cwd, target).Some? ==> ChangeTarget(kids, root, cwd, target).1 == Step(kids, cwd, target).value
  {
    assert [target][1..] == [];
    var k := FirstNamed(kids[cwd], target);
    if k >= 0 {
      assert Lookup(kids, kids[cwd][k], []) == Some(kids[cwd][k]);
    }
  }

  /** Entering a subdirectory and then ".." comes back, when subdirectories name their parent. */
  lemma ChangeThereAndBack(kids: map<DirectoryEntry, seq<DirectoryEntry>>, root: DirectoryEntry, cwd: DirectoryEntry, target: string)
    requires cwd in kids && forall c :: c in kids[cwd] ==> c.parent == cwd
    requires target != [SEPARATOR] && target != ".."
    requires ChangeTarget(kids, root, cwd, target).0 == Moved
    ensures ChangeTarget(kids, root, ChangeTarget(kids, root, cwd, target).1, "..") == (Moved, cwd)
  {
    var k := FirstNamed(kids[cwd], target);
    assert kids[cwd][k] in kids[cwd];
  }

  /** Once a subdirectory with the name is appended, changing to that name succeeds. */
  lemma ChangeAfterMake(kids: map<DirectoryEntry, seq<DirectoryEntry>>, root: DirectoryEntry, cwd: DirectoryEntry, d: DirectoryEntry)
    requires cwd in kids && d.name != [SEPARATOR] && d.name != ".."
    ensures ChangeTarget(kids[cwd := kids[cwd] + [d]], root, cwd, d.name).0 == Moved
  {
    var ds := kids[cwd] + [d];
    assert ds[|ds| - 1].name == d.name;
  }

  /** A subdirectory can be removed by name exactly when it can be entered by that name. */
  lemma RemoveIffChange(kids: map<DirectoryEntry, seq<DirectoryEntry>>, root: DirectoryEntry, cwd: DirectoryEntry, name: string)
    requires cwd in kids && name != [SEPARATOR] && name != ".."
    ensures FirstNamed(kids[cwd], name) >= 0 <==> ChangeTarget(kids, root, cwd, name).0 == Moved
  {
  }

  // ---- listing ----

  /** The names of the directories, in order. */
  function DirNames(ds: seq<DirectoryEntry>): (ns: seq<string>)
    ensures |ns| == |ds| && forall i :: 0 <= i < |ds| ==> ns[i] == ds[i].name
  {
    if ds == [] then [] else DirNames(ds[..|ds| - 1]) + [ds[|ds| - 1].name]
  }


  class DirectoryManager {
    const container: Container.FileSystemContainer
    const root: DirectoryEntry
    var currentDirectory: DirectoryEntry

    /** Every node created so far and what the tree knows about it. */
    ghost var shape: Shape

    /** The bookkeeping is good and both the root (which has no parent) and the current directory are nodes. */
    ghost predicate Tree()
      reads this, shape.nodes, shape.dirOwner.Keys, shape.fileOwner.Keys
    {
      root in shape.nodes && currentDirectory in shape.nodes && root.parent == null && Good(shape)
    }

    ghost predicate Valid()
      reads this, shape.nodes, shape.dirOwner.Keys, shape.fileOwner.Keys, container, container.blockIndex
    {
      Tree() && container.Valid()
    }

    /** The full path the file commands use for a name in the current directory. */
    function CurrentFilePath(fileName: string): string
      reads this
      requires currentDirectory.Rooted()
    {
      FileFullPath(currentDirectory.GetFullPath(), fileName)
    }

    /** An empty root named "\" as the current directory, then the tree rebuilt from the stored paths. */
    constructor (container: Container.FileSystemContainer)
      requires container.Valid()
      ensures Valid() && this.container == container && currentDirectory == root
      ensures root.name == [SEPARATOR] && root.parent == null
      ensures PlacedUpTo(shape.kids, shape.fileMap, root, old(container.Model().files), |old(container.Model().files)|)
      ensures OnlyListed(map[], shape, root, old(container.Model().files), |old(container.Model().files)|)
    {
      ghost var files := container.Model().files;
      this.container := container;
      var r := new DirectoryEntry([SEPARATOR], null);
      root := r;
      currentDirectory := r;
      shape := Shape({r}, map[r := []], map[r := []], map[r.subDirectories := r], map[r.files := r]);
      new;
      LoadDirectoryTree(files);
    }

    /** For each stored record in turn: split its path, find or create the directory, add the file name. */
    method LoadDirectoryTree(ghost files: seq<FR.FileEntry>)
      requires Tree() && container.Model().files == files
      modifies this`shape, shape.nodes, shape.dirOwner.Keys, shape.fileOwner.Keys
      ensures Tree()
      ensures PlacedUpTo(shape.kids, shape.fileMap, root, files, |files|)
      ensures OnlyListed(old(shape.fileMap), shape, root, files, |files|)
    {
      ghost var records := container.fileRecords;
      forall j | 0 <= j < |records|
        ensures records[j].fullPath == files[j].path
      {
        FR.EntriesAt(records, j);
      }
      var count := container.FileRecordCount();
      var i := 0;
      while i < count
        invariant 0 <= i <= count == |files|
        invariant Tree() && Newer(shape)
        invariant PlacedUpTo(shape.kids, shape.fileMap, root, files, i)
        invariant OnlyListed(old(shape.fileMap), shape, root, files, i)
        decreases |files| - i
      {
        ghost var s0 := shape;
        ghost var _ := LoadRecord(i, files, old(shape.fileMap));
        assert fresh(shape.nodes - s0.nodes);
        assert fresh(shape.dirOwner.Keys - s0.dirOwner.Keys);
        assert fresh(shape.fileOwner.Keys - s0.fileOwner.Keys);
        i := i + 1;
      }
    }

    /** The body of LoadDirectoryTree's loop for the i-th record. */
    method LoadRecord(i: int, ghost files: seq<FR.FileEntry>, ghost init: map<DirectoryEntry, seq<string>>)
      returns (ghost dir: DirectoryEntry)
      requires Tree() && 0 <= i < |container.fileRecords| && i < |files|
      requires container.fileRecords[i].fullPath == files[i].path
      requires PlacedUpTo(shape.kids, shape.fileMap, root, files, i)
      requires OnlyListed(init, shape, root, files, i)
      modifies this`shape, shape.nodes, shape.dirOwner.Keys, shape.fileOwner.Keys
      ensures Tree() && Newer(shape)
      ensures PlacedUpTo(shape.kids, shape.fileMap, root, files, i + 1)
      ensures OnlyListed(init, shape, root, files, i + 1)
      ensures Lookup(shape.kids, root, SplitFullPathSpec(SplitPathSpec(files[i].path).0)) == Some(dir)
      ensures OneFileAdded(old(shape.fileMap), shape.fileMap, dir, SplitPathSpec(files[i].path).1)
    {
      var fr := container.GetFileRecord(i);
      var fullPath := fr.value.fullPath;
      var directoryPath, fileName := SplitPath(fullPath);
      ghost var s0 := shape;
      dir := PlaceFile(directoryPath, fileName, fullPath);
      PlacedUpToNext(s0, shape, root, files, i);
      OnlyListedNext(init, s0, shape, root, files, i, dir);
    }

    /** One turn of LoadDirectoryTree: the file name added to its directory, found or created. */
    method PlaceFile(directoryPath: string, fileName: string, ghost path: string) returns (ghost dir: DirectoryEntry)
      requires Tree() && SplitPathSpec(path) == (directoryPath, fileName)
      modifies this`shape, shape.nodes, shape.dirOwner.Keys, shape.fileOwner.Keys
      ensures Tree() && Grows(old(shape), shape) && Newer(shape)
      ensures Placed(shape.kids, shape.fileMap, root, path)
      ensures Lookup(shape.kids, root, SplitFullPathSpec(directoryPath)) == Some(dir)
      ensures OneFileAdded(old(shape.fileMap), shape.fileMap, dir, fileName)
      ensures NewSubdirectoriesOnly(old(shape.kids), shape.kids)
    {
      var d := GetOrCreateDirectory(directoryPath);
      dir := d;
      ghost var s1 := shape;
      ghost var arr := d.files;
      assert arr in s1.fileOwner.Keys;
      assert d in s1.fileMap;
      AddFileTo(d, fileName);
      assert d.files == arr || fresh(d.files);
      NewerFile((s1, d.files));
      GrowsTrans(old(shape), s1, shape);
      OneFileAfterNew(old(shape), s1, shape.fileMap, d, fileName);
    }

    /**
     * GetOrCreateDirectory: the root for "\"; otherwise from the root down, for each
     * non-blank name, the first subdirectory with that name, created and attached when
     * there is none. Nothing is created when the whole path already exists, and every
     * directory created is one the path leads to.
     */
    method GetOrCreateDirectory(dirFullPath: string) returns (d: DirectoryEntry)
      requires Tree()
      modifies this`shape, shape.nodes, shape.dirOwner.Keys
      ensures Tree() && In(shape, d)
      ensures Newer(shape) && Grows(old(shape), shape)
      ensures Lookup(shape.kids, root, SplitFullPathSpec(dirFullPath)) == Some(d)
      ensures Lookup(old(shape.kids), root, SplitFullPathSpec(dirFullPath)).Some? ==> shape == old(shape)
      ensures CreatedOnPath(old(shape.nodes), shape, root, SplitFullPathSpec(dirFullPath), |SplitFullPathSpec(dirFullPath)|)
      ensures OnlyNewDirectories(old(shape), shape)
    {
      if CustomCompare(dirFullPath, [SEPARATOR]) == 0 {
        return root;
      }
      var parts := SplitFullPath(dirFullPath);
      var current := root;
      var i := 0;
      ghost var existed := Lookup(shape.kids, root, parts).Some?;
      while i < |parts|
        invariant 0 <= i <= |parts|
        invariant Tree() && In(shape, current)
        invariant Newer(shape) && Grows(old(shape), shape)
        invariant Lookup(shape.kids, root, parts[..i]) == Some(current)
        invariant existed ==> shape == old(shape)
        invariant CreatedOnPath(old(shape.nodes), shape, root, parts, i)
        invariant OnlyNewDirectories(old(shape), shape)
      {
        ghost var s0 := shape;
        var parent := current;
        current := Descend(parts, i, parent, existed);
        NewerStep((s0, parent, current));
        CreatedOnPathStep(old(shape.nodes), s0, shape, root, parts, i, current);
        if shape != s0 {
          OnlyNewAttached(old(shape), s0, shape, parent, current, parent.subDirectories, current.subDirectories, current.files);
        }
        GrowsTrans(old(shape), s0, shape);
        i := i + 1;
      }
      assert parts[..i] == parts;
      d := current;
    }

    /** One turn of the walk in GetOrCreateDirectory: a blank name stays put, any other goes one named step down. */
    method Descend(parts: seq<string>, i: nat, current: DirectoryEntry, ghost existed: bool) returns (next: DirectoryEntry)
      requires Tree() && In(shape, current) && i < |parts|
      requires Lookup(shape.kids, root, parts[..i]) == Some(current)
      requires existed ==> Lookup(shape.kids, root, parts).Some?
      modifies this`shape, current, current.subDirectories
      ensures Tree() && In(shape, next) && Grows(old(shape), shape)
      ensures Lookup(shape.kids, root, parts[..i + 1]) == Some(next)
      ensures existed ==> shape == old(shape)
      ensures shape.nodes <= old(shape.nodes) + {next}
      ensures shape == old(shape) ||
              (fresh(next) && fresh(next.subDirectories) && fresh(next.files) &&
               (current.subDirectories in old(shape.dirOwner.Keys) || fresh(current.subDirectories)) &&
               Attached(old(shape), shape, current, next, current.subDirectories, next.subDirectories, next.files))
    {
      if IsNullOrWhiteSpace(parts[i]) {
        next := current;
        LookupNext(shape.kids, root, parts, i, current, next);
        return;
      }
      if existed {
        LookupWhole(shape.kids, root, parts, i, current);
      }
      ghost var s0 := shape;
      next := FindOrAttach(current, parts[i]);
      LookupExtends(s0.kids, shape.kids, root, parts[..i]);
      LookupNext(shape.kids, root, parts, i, current, next);
    }

    /** One named step down: the first subdirectory with the name, created and attached when there is none. */
    method FindOrAttach(current: DirectoryEntry, part: string) returns (sub: DirectoryEntry)
      requires Tree() && In(shape, current)
      modifies this`shape, current, current.subDirectories
      ensures Tree() && In(shape, sub) && Grows(old(shape), shape)
      ensures current in shape.kids && FirstNamed(shape.kids[current], part) >= 0
      ensures sub == shape.kids[current][FirstNamed(shape.kids[current], part)]
      ensures FirstNamed(old(shape.kids[current]), part) >= 0 ==> shape == old(shape)
      ensures shape == old(shape) ||
              (fresh(sub) && fresh(sub.subDirectories) && fresh(sub.files) &&
               (current.subDirectories in old(shape.dirOwner.Keys) || fresh(current.subDirectories)) &&
               Attached(old(shape), shape, current, sub, current.subDirectories, sub.subDirectories, sub.files))
    {
      var found := current.FindSubdirectory(part);
      if found != null {
        sub := found;
        assert In(shape, current) && sub in shape.kids[current];
        assert In(shape, sub);
        return;
      }
      ghost var s0 := shape;
      sub := Attach(current, part);
      AttachedFacts(s0, shape, current, sub, current.subDirectories, sub.subDirectories, sub.files);
    }

    /** MakeDirectory: a new directory with the name, appended to the current directory's subdirectories. */
    method MakeDirectory(name: string) returns (ghost newDir: DirectoryEntry)
      requires Tree() && In(shape, currentDirectory)
      modifies this`shape, currentDirectory, currentDirectory.subDirectories
      ensures Tree() && fresh(newDir) && newDir.name == name && newDir.parent == currentDirectory
      ensures shape.kids == old(shape.kids)[newDir := []][currentDirectory := old(shape.kids[currentDirectory]) + [newDir]]
      ensures shape.fileMap == old(shape.fileMap)[newDir := []] && shape.nodes == old(shape.nodes) + {newDir}
    {
      assert In(shape, currentDirectory);
      var d := Attach(currentDirectory, name);
      newDir := d;
    }

    /**
     * ChangeDirectory: "\" goes to the root, ".." to the parent (staying put at the root),
     * any other name to the first subdirectory with it (staying put when there is none).
     */
    method ChangeDirectory(target: string) returns (outcome: ChangeOutcome)
      requires Tree()
      modifies this`currentDirectory
      ensures Tree() && (outcome, currentDirectory) == ChangeTarget(shape.kids, root, old(currentDirectory), target)
    {
      if CustomCompare(target, [SEPARATOR]) == 0 {
        currentDirectory := root;
        return Moved;
      }
      assert In(shape, currentDirectory);
      if CustomCompare(target, "..") == 0 {
        if currentDirectory.parent == null {
          return AlreadyAtRoot;
        }
        currentDirectory := currentDirectory.parent;
        return Moved;
      }
      var sub := currentDirectory.FindSubdirectory(target);
      if sub == null {
        return NoSuchDirectory;
      }
      assert sub in shape.kids[currentDirectory];
      currentDirectory := sub;
      return Moved;
    }

    /** RemoveDirectory: the first subdirectory with the name leaves the current directory's list. */
    method RemoveDirectory(name: string) returns (success: bool)
      requires Tree() && In(shape, currentDirectory)
      modifies this`shape, currentDirectory, currentDirectory.subDirectories
      ensures Tree() && shape.nodes == old(shape.nodes) && shape.fileMap == old(shape.fileMap)
      ensures success <==> FirstNamed(old(shape.kids[currentDirectory]), name) >= 0
      ensures shape.kids == old(shape.kids)[currentDirectory :=
                Without(old(shape.kids[currentDirectory]), FirstNamed(old(shape.kids[currentDirectory]), name))]
    {
      assert In(shape, currentDirectory);
      ghost var s := shape;
      var p := currentDirectory;
      success := p.RemoveSubdirectory(name);
      forall n | n in s.nodes && n != p
        ensures unchanged(n, old(n.subDirectories), old(n.files))
      {
        assert In(s, n);
      }
      forall c | c in p.children
        ensures c in old(shape.nodes) && c.parent == p
      {
        WithoutIn(old(p.children), FirstNamed(old(p.children), name), c);
      }
      ChildrenSet(p);
      shape := s.(kids := s.kids[p := p.children], dirOwner := s.dirOwner[p.subDirectories := p]);
    }

    /** AddFileToCurrentDirectory: the name appended to the current directory's file names. */
    method AddFileToCurrentDirectory(fileName: string)
      requires Valid() && In(shape, currentDirectory)
      modifies this`shape, currentDirectory, currentDirectory.files
      ensures Valid() && container.Model() == old(container.Model())
      ensures shape.nodes == old(shape.nodes) && shape.kids == old(shape.kids)
      ensures shape.fileMap == old(shape.fileMap)[currentDirectory := old(shape.fileMap[currentDirectory]) + [fileName]]
    {
      assert In(shape, currentDirectory);
      AddFileTo(currentDirectory, fileName);
    }

    /** RemoveFileFromCurrentDirectory: the first occurrence of the name leaves the current directory's file names. */
    method RemoveFileFromCurrentDirectory(fileName: string)
      requires Valid() && In(shape, currentDirectory)
      modifies this`shape, currentDirectory, currentDirectory.files
      ensures Valid() && container.Model() == old(container.Model())
      ensures shape.nodes == old(shape.nodes) && shape.kids == old(shape.kids)
      ensures shape.fileMap == old(shape.fileMap)[currentDirectory :=
                Without(old(shape.fileMap[currentDirectory]), FirstIndex(old(shape.fileMap[currentDirectory]), fileName))]
    {
      assert In(shape, currentDirectory);
      var _ := RemoveFileFrom(currentDirectory, fileName);
    }

    /** GetCurrentDirectoryFullPath: the current directory's names, each after a "\"; "\" at the root. */
    function GetCurrentDirectoryFullPath(): (p: string)
      reads this
      requires currentDirectory.Rooted()
      ensures |p| >= 1 && p[0] == SEPARATOR
      ensures NamedChain(currentDirectory) ==> p == PathOf(currentDirectory.Names())
    {
      assert NamedChain(currentDirectory) ==> currentDirectory.GetFullPath() == PathOf(currentDirectory.Names()) by {
        if NamedChain(currentDirectory) {
          FullPathNames(currentDirectory);
        }
      }
      currentDirectory.GetFullPath()
    }

    /**
     * ListCurrentDirectory, with the lines it prints returned instead: the names of the
     * subdirectories in order, then each file name with the size the container gives for
     * its full path (-1 when no stored file has it).
     */
    method ListCurrentDirectory() returns (dirs: seq<string>, files: seq<(string, int)>)
      requires Tree() && In(shape, currentDirectory)
      ensures dirs == DirNames(shape.kids[currentDirectory])
      ensures |files| == |shape.fileMap[currentDirectory]|
      ensures forall i :: 0 <= i < |files| ==>
                files[i] == (shape.fileMap[currentDirectory][i],
                             CM.FileSize(container.Model(), CurrentFilePath(shape.fileMap[currentDirectory][i])))
    {
      assert In(shape, currentDirectory);
      dirs := SubdirectoryNames(currentDirectory);
      var fs := currentDirectory.GetFiles();
      files := FileSizes(fs);
    }

    /** The first loop of ListCurrentDirectory: the names in the array GetDirectories returns. */
    method SubdirectoryNames(d: DirectoryEntry) returns (dirs: seq<string>)
      requires d.Valid()
      ensures dirs == DirNames(d.children)
    {
      var ds := d.GetDirectories();
      dirs := [];
      var i := 0;
      while i < ds.Length
        invariant 0 <= i <= ds.Length
        invariant dirs == DirNames(d.children[..i])
      {
        assert d.children[..i + 1][..i] == d.children[..i];
        dirs := dirs + [ds[i].name];
        i := i + 1;
      }
      assert d.children[..i] == d.children;
    }

    /** The second loop of ListCurrentDirectory: each name in fs with the size stored under its full path. */
    method FileSizes(fs: array<string>) returns (files: seq<(string, int)>)
      requires currentDirectory.Rooted()
      ensures |files| == fs.Length
      ensures forall k :: 0 <= k < fs.Length ==> files[k] == (fs[k], CM.FileSize(container.Model(), CurrentFilePath(fs[k])))
    {
      files := [];
      var j := 0;
      while j < fs.Length
        invariant 0 <= j <= fs.Length
        invariant |files| == j
        invariant forall k :: 0 <= k < j ==> files[k] == (fs[k], CM.FileSize(container.Model(), CurrentFilePath(fs[k])))
      {
        var fullPath := FileFullPath(currentDirectory.GetFullPath(), fs[j]);
        var size := container.GetFileSizeInContainer(fullPath);
        files := files + [(fs[j], size)];
        j := j + 1;
      }
    }

    /**
     * CopyFileIn: the source's bytes stored under the current directory's path and the
     * name, then the name added to the current directory. When the copy fails (the source
     * is missing, or the block size is negative) nothing changes and the name is not added.
     */
    method CopyFileIn(source: Option<seq<byte>>, fileName: string) returns (r: Result<(), CM.ContainerError>)
      requires Valid() && In(shape, currentDirectory)
      requires source.None? || container.blockSize != 0 || |source.value| == 0
      modifies container, container.blockIndex, container.blockIndex.Repr, this`shape, currentDirectory, currentDirectory.files
      ensures Valid() && shape.nodes == old(shape.nodes) && shape.kids == old(shape.kids)
      ensures r.Ok? <==> CM.IngestResult(old(container.Model()), CurrentFilePath(fileName), source).Ok?
      ensures r.Ok? ==> container.Model() == CM.IngestResult(old(container.Model()), CurrentFilePath(fileName), source).value
      ensures r.Ok? ==> shape.fileMap == old(shape.fileMap)[currentDirectory := old(shape.fileMap[currentDirectory]) + [fileName]]
      ensures r.Ok? ==> container.disk == CM.EncodeContainer(container.Model())
      ensures r.Err? ==> r.error == CM.IngestResult(old(container.Model()), CurrentFilePath(fileName), source).error
      ensures r.Err? ==> container.Model() == old(container.Model()) && container.disk == old(container.disk) && shape == old(shape)
    {
      var currentDirPath := currentDirectory.GetFullPath();
      var fileFullPath := FileFullPath(currentDirPath, fileName);
      r := Store(source, fileFullPath);
      if r.Err? {
        return;
      }
      AddFileToCurrentDirectory(fileName);
    }

    /** The container's CopyFileIntoContainer, with only what the commands use of its contract. */
    method Store(source: Option<seq<byte>>, fullPath: string) returns (r: Result<(), CM.ContainerError>)
      requires Valid()
      requires source.None? || container.blockSize != 0 || |source.value| == 0
      modifies container, container.blockIndex, container.blockIndex.Repr
      ensures Valid()
      ensures r.Ok? <==> CM.IngestResult(old(container.Model()), fullPath, source).Ok?
      ensures r.Ok? ==> container.Model() == CM.IngestResult(old(container.Model()), fullPath, source).value
      ensures r.Ok? ==> container.disk == CM.EncodeContainer(container.Model())
      ensures r.Err? ==> r.error == CM.IngestResult(old(container.Model()), fullPath, source).error
      ensures r.Err? ==> container.Model() == old(container.Model()) && container.disk == old(container.disk)
    {
      r := container.CopyFileIntoContainer(source, fullPath);
    }

    /** CopyFileOut: the bytes of the stored file with the current directory's path and the name, for the destination. */
    method CopyFileOut(containerFileName: string) returns (r: Result<seq<byte>, CM.ContainerError>)
      requires currentDirectory.Rooted()
      ensures r == CM.Extract(container.Model(), CurrentFilePath(containerFileName))
    {
      var currentDirPath := currentDirectory.GetFullPath();
      var fileFullPath := FileFullPath(currentDirPath, containerFileName);
      r := container.CopyFileOutFromContainer(fileFullPath);
    }

    /**
     * RemoveFile: the stored file with the current directory's path and the name goes from
     * the container, then the name from the current directory, whether or not it was stored.
     */
    method RemoveFile(fileName: string)
      requires Valid() && In(shape, currentDirectory)
      modifies container, container.blockIndex, container.blockIndex.Repr, container.fileRecords
      modifies this`shape, currentDirectory, currentDirectory.files
      ensures Valid() && shape.nodes == old(shape.nodes) && shape.kids == old(shape.kids)
      ensures container.Model() == CM.Remove(old(container.Model()), CurrentFilePath(fileName))
      ensures container.disk == if CM.FindFile(old(container.Model()).files, CurrentFilePath(fileName)) >= 0
                                then CM.EncodeContainer(container.Model()) else old(container.disk)
      ensures shape.fileMap == old(shape.fileMap)[currentDirectory :=
                Without(old(shape.fileMap[currentDirectory]), FirstIndex(old(shape.fileMap[currentDirectory]), fileName))]
    {
      var fileFullPath := CurrentFilePath(fileName);
      Unstore(fileFullPath);
      RemoveFileFromCurrentDirectory(fileName);
    }

    /** The container's RemoveFile; the tree is kept. */
    method Unstore(fullPath: string)
      requires Valid()
      modifies container, container.blockIndex, container.blockIndex.Repr, container.fileRecords
      ensures Valid() && container.Model() == CM.Remove(old(container.Model()), fullPath)
      ensures container.disk == if CM.FindFile(old(container.Model()).files, fullPath) >= 0
                                then CM.EncodeContainer(container.Model()) else old(container.disk)
      ensures shape == old(shape) && currentDirectory == old(currentDirectory) && currentDirectory.files == old(currentDirectory.files)
    {
      RemoveStored(fullPath);
    }

    /** The container's RemoveFile, with only what the commands use of its contract. */
    method RemoveStored(fullPath: string)
      requires container.Valid()
      modifies container, container.blockIndex, container.blockIndex.Repr, container.fileRecords
      ensures container.Valid() && container.Model() == CM.Remove(old(container.Model()), fullPath)
      ensures container.disk == if CM.FindFile(old(container.Model()).files, fullPath) >= 0
                                then CM.EncodeContainer(container.Model()) else old(container.disk)
    {
      var _ := container.RemoveFile(fullPath);
    }

    /** `new DirectoryEntry(name, parent)`, appended to parent's subdirectories. */
    method Attach(parent: DirectoryEntry, name: string) returns (d: DirectoryEntry)
      requires Tree() && In(shape, parent)
      modifies this`shape, parent, parent.subDirectories
      ensures Tree() && fresh(d) && d.name == name && d.parent == parent
      ensures fresh(d.subDirectories) && fresh(d.files)
      ensures parent.subDirectories == old(parent.subDirectories) || fresh(parent.subDirectories)
      ensures Attached(old(shape), shape, parent, d, parent.subDirectories, d.subDirectories, d.files)
    {
      ghost var s := shape;
      d := NewNode(parent, name);
      shape := Shape(s.nodes + {d}, s.kids[d := []], s.fileMap[d := []],
                     s.dirOwner[d.subDirectories := d], s.fileOwner[d.files := d]);
      Link(parent, d);
    }

    /** `parent.AddSubdirectory(d)`, for two nodes of the tree. */
    method Link(parent: DirectoryEntry, d: DirectoryEntry)
      requires Tree() && In(shape, parent) && d in shape.nodes && d.parent == parent
      modifies this`shape, parent, parent.subDirectories
      ensures Tree() && shape.nodes == old(shape.nodes) && shape.fileMap == old(shape.fileMap)
      ensures shape.kids == old(shape.kids)[parent := old(shape.kids[parent]) + [d]]
      ensures shape.dirOwner == old(shape.dirOwner)[parent.subDirectories := parent]
      ensures parent.subDirectories == old(parent.subDirectories) || fresh(parent.subDirectories)
      ensures shape.fileOwner == old(shape.fileOwner) && d.subDirectories == old(d.subDirectories)
    {
      ghost var s := shape;
      parent.AddSubdirectory(d);
      forall n | n in s.nodes && n != parent
        ensures unchanged(n, old(n.subDirectories), old(n.files))
      {
        assert In(s, n);
      }
      ChildrenSet(parent);
      shape := s.(kids := s.kids[parent := parent.children], dirOwner := s.dirOwner[parent.subDirectories := parent]);
    }

    /** Every node and array the tree holds beyond those it held in the old state is new. */
    twostate predicate Newer(new s: Shape)
    {
      fresh(s.nodes - old(shape.nodes)) && fresh(s.dirOwner.Keys - old(shape.dirOwner.Keys)) &&
      fresh(s.fileOwner.Keys - old(shape.fileOwner.Keys))
    }

    /** Attaching a new leaf keeps everything beyond the old tree new. */
    twostate lemma NewerStep(new t: (Shape, DirectoryEntry, DirectoryEntry))
      requires Newer(t.0)
      requires shape == t.0 ||
               (fresh(t.2) && fresh(t.2.subDirectories) && fresh(t.2.files) &&
                (t.1.subDirectories in t.0.dirOwner.Keys || fresh(t.1.subDirectories)) &&
                Attached(t.0, shape, t.1, t.2, t.1.subDirectories, t.2.subDirectories, t.2.files))
      ensures Newer(shape)
    {
    }

    /** Giving a node a new or known file-name array keeps everything beyond the old tree new. */
    twostate lemma NewerFile(new t: (Shape, array<string>))
      requires Newer(t.0) && shape.nodes == t.0.nodes && shape.dirOwner == t.0.dirOwner
      requires shape.fileOwner.Keys <= t.0.fileOwner.Keys + {t.1}
      requires t.1 in t.0.fileOwner.Keys || fresh(t.1)
      ensures Newer(shape)
    {
    }

    /** `new DirectoryEntry(name, parent)`: the tree with it added, as a leaf known to nobody yet, is good. */
    method NewNode(parent: DirectoryEntry, name: string) returns (d: DirectoryEntry)
      requires Tree() && parent in shape.nodes
      ensures fresh(d) && fresh(d.subDirectories) && fresh(d.files) && d.name == name && d.parent == parent
      ensures d !in shape.kids && d !in shape.fileMap
      ensures Good(Shape(shape.nodes + {d}, shape.kids[d := []], shape.fileMap[d := []],
                         shape.dirOwner[d.subDirectories := d], shape.fileOwner[d.files := d]))
    {
      d := new DirectoryEntry(name, parent);
      NodeAdded(d);
    }

    /** `dir.AddFile(name)`, for a node of the tree. */
    method AddFileTo(dir: DirectoryEntry, fileName: string)
      requires Tree() && In(shape, dir)
      modifies this`shape, dir, dir.files
      ensures Tree() && shape.nodes == old(shape.nodes) && shape.kids == old(shape.kids)
      ensures shape.fileMap == old(shape.fileMap)[dir := old(shape.fileMap[dir]) + [fileName]]
      ensures Grows(old(shape), shape) && shape.dirOwner == old(shape.dirOwner)
      ensures shape.fileOwner == old(shape.fileOwner)[dir.files := dir]
      ensures dir.files == old(dir.files) || fresh(dir.files)
    {
      ghost var s := shape;
      dir.AddFile(fileName);
      forall n | n in s.nodes && n != dir
        ensures unchanged(n, old(n.subDirectories), old(n.files))
      {
        assert In(s, n);
      }
      FilesSet(dir);
      shape := s.(fileMap := s.fileMap[dir := dir.fileNames], fileOwner := s.fileOwner[dir.files := dir]);
    }

    /** `dir.RemoveFile(name)`, for a node of the tree. */
    method RemoveFileFrom(dir: DirectoryEntry, fileName: string) returns (removed: bool)
      requires Tree() && In(shape, dir)
      modifies this`shape, dir, dir.files
      ensures Tree() && shape.nodes == old(shape.nodes) && shape.kids == old(shape.kids)
      ensures removed <==> fileName in old(shape.fileMap[dir])
      ensures shape.fileMap == old(shape.fileMap)[dir := Without(old(shape.fileMap[dir]), FirstIndex(old(shape.fileMap[dir]), fileName))]
    {
      ghost var s := shape;
      removed := dir.RemoveFile(fileName);
      forall n | n in s.nodes && n != dir
        ensures unchanged(n, old(n.subDirectories), old(n.files))
      {
        assert In(s, n);
      }
      FilesSet(dir);
      shape := s.(fileMap := s.fileMap[dir := dir.fileNames], fileOwner := s.fileOwner[dir.files := dir]);
    }

    /** SplitPath: the edge cases, then a scan for the last "\" and the two substrings around it. */
    static method SplitPath(fullPath: string) returns (directoryPath: string, fileName: string)
      ensures (directoryPath, fileName) == SplitPathSpec(fullPath)
    {
      if IsNullOrWhiteSpace(fullPath) || CustomCompare(fullPath, [SEPARATOR]) == 0 {
        return [SEPARATOR], "";
      }
      var lastSlash := -1;
      var i := 0;
      while i < |fullPath|
        invariant 0 <= i <= |fullPath|
        invariant lastSlash == LastIndexOf(fullPath[..i], SEPARATOR)
      {
        assert fullPath[..i + 1][..i] == fullPath[..i];
        if fullPath[i] == SEPARATOR {
          lastSlash := i;
        }
        i := i + 1;
      }
      assert fullPath[..i] == fullPath;
      if lastSlash == -1 {
        return [SEPARATOR], fullPath;
      }
      if lastSlash == 0 {
        var rest := Substring(fullPath, 1, |fullPath| - 1);
        return [SEPARATOR], rest.value;
      }
      var dir := Substring(fullPath, 0, lastSlash);
      var name := Substring(fullPath, lastSlash + 1, |fullPath| - (lastSlash + 1));
      return dir.value, name.value;
    }

    /** SplitFullPath: nothing for "\" or a blank path, else the path after one leading "\" split at each "\". */
    static method SplitFullPath(fullPath: string) returns (parts: seq<string>)
      ensures parts == SplitFullPathSpec(fullPath)
    {
      if CustomCompare(fullPath, [SEPARATOR]) == 0 || IsNullOrWhiteSpace(fullPath) {
        return [];
      }
      var startIndex := 0;
      if |fullPath| > 0 && fullPath[0] == SEPARATOR {
        startIndex := 1;
      }
      var toSplit := Substring(fullPath, startIndex, |fullPath| - startIndex);
      assert toSplit.value == if |fullPath| > 0 && fullPath[0] == SEPARATOR then fullPath[1..] else fullPath;
      parts := Split(toSplit.value, SEPARATOR);
    }

    /** d is a new node with no subdirectories and no files: the tree with it is as good as before. */
    twostate lemma NodeAdded(new d: DirectoryEntry)
      requires old(Good(shape)) && !old(allocated(d)) && d.parent != null && d.parent in old(shape.nodes)
      requires fresh(d.subDirectories) && fresh(d.files)
      requires d.Valid() && d.children == [] && d.fileNames == [] && (d.parent.Rooted() ==> d.Rooted())
      requires forall n :: n in old(shape.nodes) ==> unchanged(n, old(n.subDirectories), old(n.files))
      ensures var s := old(shape);
              Good(Shape(s.nodes + {d}, s.kids[d := []], s.fileMap[d := []],
                         s.dirOwner[d.subDirectories := d], s.fileOwner[d.files := d]))
    {
      forall n | n in old(shape.nodes)
        ensures In(old(shape), n) && Sound(n)
      {
        assert In(old(shape), n);
        assert old(Sound(n));
      }
    }

    /** Only p's subdirectory list (and perhaps its array) changed: the tree is as good as before. */
    twostate lemma ChildrenSet(p: DirectoryEntry)
      requires old(Good(shape)) && In(old(shape), p)
      requires Sound(p) && p.fileNames == old(p.fileNames) && p.files == old(p.files)
      requires p.subDirectories == old(p.subDirectories) || fresh(p.subDirectories)
      requires forall c :: c in p.children ==> c in old(shape.nodes) && c.parent == p
      requires forall n :: n in old(shape.nodes) && n != p ==> unchanged(n, old(n.subDirectories), old(n.files))
      ensures var s := old(shape);
              Good(s.(kids := s.kids[p := p.children], dirOwner := s.dirOwner[p.subDirectories := p]))
    {
      forall n | n in old(shape.nodes) && n != p
        ensures In(old(shape), n) && Sound(n)
      {
        assert In(old(shape), n);
        assert old(Sound(n));
      }
    }

    /** Only dir's file names (and perhaps its array) changed: the tree is as good as before. */
    twostate lemma FilesSet(dir: DirectoryEntry)
      requires old(Good(shape)) && In(old(shape), dir)
      requires Sound(dir) && dir.subDirectories == old(dir.subDirectories) && dir.children == old(dir.children)
      requires dir.files == old(dir.files) || fresh(dir.files)
      requires forall n :: n in old(shape.nodes) && n != dir ==> unchanged(n, old(n.subDirectories), old(n.files))
      ensures var s := old(shape);
              Good(s.(fileMap := s.fileMap[dir := dir.fileNames], fileOwner := s.fileOwner[dir.files := dir]))
    {
      forall n | n in old(shape.nodes) && n != dir
        ensures In(old(shape), n) && Sound(n)
      {
        assert In(old(shape), n);
        assert old(Sound(n));
      }
    }
  }
}
