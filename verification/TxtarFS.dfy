/**
 The file system form of a txtar archive: directories are created on demand while the files are
 inserted, and a name may not be both a file and a directory.
 */
module TxtarFS {
  import opened Wrappers
  import opened Bytes
  import Utf8
  import opened Txtar

  type Name = ByteString

  const ROOT: Name := [DOT]

  // ---------- Path names ----------

  function FirstSlash(p: Name): (i: nat)
    ensures i <= |p| && (i < |p| ==> p[i] == SLASH) && forall k :: 0 <= k < i ==> p[k] != SLASH
  {
    if p == [] || p[0] == SLASH then 0 else 1 + FirstSlash(p[1..])
  }

  predicate GoodElement(e: Name) {
    e != [] && e != [DOT] && e != [DOT, DOT]
  }

  predicate GoodElements(p: Name)
    decreases |p|
  {
    var i := FirstSlash(p);
    GoodElement(p[..i]) && (i == |p| || GoodElements(p[i + 1..]))
  }

  /** The standard library's test for names in a file system. */
  predicate ValidPath(p: Name) {
    Utf8.Valid(p) && (p == ROOT || GoodElements(p))
  }

  predicate ValidName(p: Name) {
    ValidPath(p) && p != ROOT
  }

  /** Length of p up to its last slash, or 0 if it has none. */
  function LastSlash(p: Name): (s: nat)
    ensures s < |p| || s == 0
    ensures s > 0 ==> p[s] == SLASH
    ensures forall k :: s < k < |p| ==> p[k] != SLASH
    ensures s == 0 && p != [] && p[0] != SLASH ==> forall k :: 0 <= k < |p| ==> p[k] != SLASH
  {
    if p == [] then 0
    else if p[|p| - 1] == SLASH then |p| - 1
    else LastSlash(p[..|p| - 1])
  }

  /** The directory of a valid name. */
  function Dir(p: Name): Name {
    if LastSlash(p) == 0 then ROOT else p[..LastSlash(p)]
  }

  /** a is a directory above p, other than the root. */
  predicate ProperAncestor(a: Name, p: Name) {
    |a| < |p| && a == p[..|a|] && p[|a|] == SLASH
  }

  function Depth(p: Name): nat {
    if p == ROOT then 0 else 1 + Slashes(p)
  }

  function Slashes(p: Name): nat {
    if p == [] then 0 else Slashes(p[..|p| - 1]) + (if p[|p| - 1] == SLASH then 1 else 0)
  }

  lemma {:induction false} SlashesOfPrefix(p: Name, s: nat)
    requires s < |p| && p[s] == SLASH && forall k :: s < k < |p| ==> p[k] != SLASH
    ensures Slashes(p) == Slashes(p[..s]) + 1
    decreases |p|
  {
    if s < |p| - 1 {
      SlashesOfPrefix(p[..|p| - 1], s);
      assert p[..|p| - 1][..s] == p[..s];
    }
  }

  lemma {:induction false} GoodPrefix(p: Name, s: nat)
    requires GoodElements(p) && s < |p| && p[s] == SLASH
    ensures GoodElements(p[..s])
    decreases |p|
  {
    var i := FirstSlash(p);
    var q := p[..s];
    FirstSlashOfPrefix(p, s);
    if i < s {
      assert q[..i] == p[..i] && q[i + 1..] == p[i + 1..][..s - i - 1];
      GoodPrefix(p[i + 1..], s - i - 1);
    } else {
      assert q[..s] == p[..i];
    }
  }

  lemma FirstSlashOfPrefix(p: Name, s: nat)
    requires s <= |p|
    ensures FirstSlash(p[..s]) == if FirstSlash(p) < s then FirstSlash(p) else s
  {
    var q := p[..s];
    var i, k := FirstSlash(p), FirstSlash(q);
    assert i < s ==> q[i] == SLASH;
    assert k < s ==> q[k] == p[k];
  }

  // ---------- Path names by positions ----------

  /** p[i..j] is an element: it lies between slashes or ends of p and has no slash itself. */
  ghost predicate IsStretch(p: Name, i: nat, j: nat) {
    && i <= j <= |p| && (i == 0 || p[i - 1] == 47) && (j == |p| || p[j] == 47)
    && forall k :: i <= k < j ==> p[k] != 47
  }

  ghost predicate GoodStretch(p: Name, i: nat, j: nat) {
    IsStretch(p, i, j) ==> p[i..j] != [] && p[i..j] != [46] && p[i..j] != [46, 46]
  }

  lemma StretchOfRest(p: Name, n: nat, i: nat, j: nat)
    requires n < |p| && p[n] == SLASH
    ensures GoodStretch(p[n + 1..], i, j) <==> GoodStretch(p, n + 1 + i, n + 1 + j)
  {
    var q := p[n + 1..];
    if i <= j <= |q| {
      assert q[i..j] == p[n + 1 + i..n + 1 + j];
      assert IsStretch(p, n + 1 + i, n + 1 + j) ==> forall k :: i <= k < j ==> q[k] == p[n + 1 + k];
      assert IsStretch(q, i, j) ==> forall k :: n + 1 + i <= k < n + 1 + j ==> p[k] == q[k - n - 1];
    }
  }

  ghost predicate GoodStretches(p: Name) {
    forall i: nat, j: nat :: GoodStretch(p, i, j)
  }

  lemma FirstStretch(p: Name)
    ensures GoodElement(p[..FirstSlash(p)]) <==> GoodStretch(p, 0, FirstSlash(p))
  {
    var n := FirstSlash(p);
    assert IsStretch(p, 0, n) && p[0..n] == p[..n];
  }

  lemma OnlyStretch(p: Name)
    requires FirstSlash(p) == |p| && GoodStretch(p, 0, |p|)
    ensures GoodStretches(p)
  {
    forall i: nat, j: nat ensures GoodStretch(p, i, j) {
      if IsStretch(p, i, j) {
        assert i == 0 && j == |p|;
      }
    }
  }

  /** A stretch that does not start after the first slash is the first one. */
  lemma StretchAtStart(p: Name, i: nat, j: nat)
    requires GoodStretch(p, 0, FirstSlash(p)) && (i <= FirstSlash(p) || j < i)
    ensures GoodStretch(p, i, j)
  {
    if IsStretch(p, i, j) {
      assert i == 0 && j == FirstSlash(p);
    }
  }

  lemma StretchesSplit(p: Name)
    requires FirstSlash(p) < |p|
    ensures var n := FirstSlash(p); GoodStretches(p) <==> GoodStretch(p, 0, n) && GoodStretches(p[n + 1..])
  {
    hide GoodStretch, FirstSlash;
    var n := FirstSlash(p);
    var q := p[n + 1..];
    if GoodStretches(p) {
      forall i: nat, j: nat ensures GoodStretch(q, i, j) {
        StretchOfRest(p, n, i, j);
      }
    }
    if GoodStretch(p, 0, n) && GoodStretches(q) {
      forall i: nat, j: nat ensures GoodStretch(p, i, j) {
        if n < i <= j {
          StretchOfRest(p, n, i - n - 1, j - n - 1);
        } else {
          StretchAtStart(p, i, j);
        }
      }
    }
  }

  lemma {:induction false} GoodElementsIff(p: Name)
    ensures GoodElements(p) <==> GoodStretches(p)
    decreases |p|
  {
    hide GoodElement, GoodStretch, GoodStretches;
    var n := FirstSlash(p);
    FirstStretch(p);
    if n < |p| {
      GoodElementsIff(p[n + 1..]);
      StretchesSplit(p);
    } else {
      if GoodElements(p) {
        OnlyStretch(p);
      }
      if GoodStretches(p) {
        StretchIsGood(p, 0, n);
      }
    }
  }

  lemma StretchIsGood(p: Name, i: nat, j: nat)
    requires GoodStretches(p)
    ensures GoodStretch(p, i, j)
  {
  }

  /** Valid paths are UTF-8 and either "." or without an empty, "." or ".." element. */
  lemma ValidPathIff(p: Name)
    ensures ValidPath(p) <==> Utf8.IsOctets(p) && (p == [46] || GoodStretches(p))
  {
    Utf8.ValidIffOctets(p);
    GoodElementsIff(p);
  }

  /** The directory of a name with a slash is the name up to its last slash, and of any other the root. */
  lemma DirSplits(p: Name) returns (base: Name)
    requires ValidName(p)
    ensures 47 !in base && p == if Dir(p) == [46] then base else Dir(p) + [47] + base
  {
    DirIsValid(p);
    AncestorsOfDir(p, Dir(p));
    hide ValidPath, ProperAncestor;
    var s := LastSlash(p);
    base := if s == 0 then p else p[s + 1..];
    assert s > 0 ==> p == p[..s] + [p[s]] + p[s + 1..];
  }

  /** The directory of a valid name is the root or a shorter valid name. */
  lemma DirIsValid(p: Name)
    requires ValidName(p)
    ensures Dir(p) == ROOT || ValidName(Dir(p))
    ensures Depth(Dir(p)) < Depth(p)
    ensures |p| > 0 && p[0] != SLASH
  {
    var s := LastSlash(p);
    var i := FirstSlash(p);
    assert i > 0;
    if s > 0 {
      GoodPrefix(p, s);
      Utf8.BoundaryIff(p, s);
      SlashesOfPrefix(p, s);
      assert FirstSlash([DOT]) == 1 && [DOT][..1] == [DOT];
    }
  }

  /** The ancestors of a name are its directory and the ancestors of that. */
  lemma AncestorsOfDir(p: Name, x: Name)
    requires ValidName(p)
    ensures ProperAncestor(x, p) <==> Dir(p) != ROOT && (x == Dir(p) || ProperAncestor(x, Dir(p)))
    ensures Dir(p) != ROOT ==> ProperAncestor(Dir(p), p)
  {
    DirIsValid(p);
    var s := LastSlash(p);
    if s > 0 {
      assert p[..s] != ROOT;
      if |x| < s {
        assert p[..s][..|x|] == p[..|x|];
      }
    }
  }

  // ---------- Nodes ----------

  /** `idx` and `size` are for files, `entries` for directories. */
  datatype Node = Node(isDir: bool, idx: nat, size: nat, entries: seq<Name>)

  type Nodes = map<Name, Node>

  const DIRECTORY := Node(true, 0, 0, [])

  /** p is listed exactly once, in its directory. */
  ghost predicate Listed(nodes: Nodes, p: Name) {
    Dir(p) in nodes && nodes[Dir(p)].isDir && multiset(nodes[Dir(p)].entries)[p] == 1
  }

  ghost predicate NodeOk(nodes: Nodes, unlisted: set<Name>, p: Name) {
    p in nodes ==>
      && (p == ROOT || ValidName(p))
      && (p != ROOT && p !in unlisted ==> Listed(nodes, p))
      && (!nodes[p].isDir || p in unlisted ==> nodes[p].entries == [])
  }

  /** What a directory lists are its nodes. */
  ghost predicate EntryOk(nodes: Nodes, unlisted: set<Name>, d: Name, e: Name) {
    d in nodes && e in nodes[d].entries ==> e in nodes && e != ROOT && Dir(e) == d && e !in unlisted
  }

  /** Every node is listed where it belongs, except for those whose insertion is under way. */
  ghost predicate TreeOk(nodes: Nodes, unlisted: set<Name>) {
    && ROOT in nodes && nodes[ROOT].isDir && ROOT !in unlisted
    && (forall p: Name :: NodeOk(nodes, unlisted, p))
    && (forall d: Name, e: Name :: EntryOk(nodes, unlisted, d, e))
  }

  /** All ancestors of p that exist are directories. */
  ghost predicate AncestorsAreDirs(nodes: Nodes, p: Name) {
    forall a: Name :: ProperAncestor(a, p) && a in nodes ==> nodes[a].isDir
  }

  /** The second map has the nodes of the first, with the same kind and the same file. */
  ghost predicate Keeps(nodes: Nodes, nodes': Nodes) {
    forall p: Name :: p in nodes ==>
      && p in nodes' && nodes'[p].isDir == nodes[p].isDir
      && nodes'[p].idx == nodes[p].idx && nodes'[p].size == nodes[p].size
  }

  /** The second map has the nodes of the first, p, and the ancestors of p; what is new besides p is a directory. */
  ghost predicate Added(nodes: Nodes, nodes': Nodes, p: Name) {
    && Keeps(nodes, nodes')
    && (forall x: Name :: x in nodes' <==> x in nodes || x == p || ProperAncestor(x, p))
    && (forall x: Name :: x in nodes' && x !in nodes && x != p ==> nodes'[x].isDir)
  }

  /** A listed node has all its ancestors, and they are directories. */
  lemma {:induction false} AncestorsPresent(nodes: Nodes, unlisted: set<Name>, p: Name, a: Name)
    requires TreeOk(nodes, unlisted) && p in nodes && p != ROOT && p !in unlisted && ProperAncestor(a, p)
    ensures a in nodes && nodes[a].isDir
    decreases Depth(p)
  {
    hide ValidName, Dir, ProperAncestor, Depth;
    var d := Dir(p);
    assert NodeOk(nodes, unlisted, p) && NodeOk(nodes, unlisted, d);
    AncestorsOfDir(p, a);
    DirIsValid(p);
    assert p in nodes[d].entries;
    if a != d {
      AncestorsPresent(nodes, unlisted, d, a);
    }
  }

  /** A node joins, not listed yet. */
  lemma AddUnlisted(nodes: Nodes, unlisted: set<Name>, p: Name, node: Node)
    requires TreeOk(nodes, unlisted) && p !in nodes && ValidName(p) && node.entries == []
    ensures TreeOk(nodes[p := node], unlisted + {p})
  {
    hide ValidName, Dir;
    var nodes', unlisted' := nodes[p := node], unlisted + {p};
    assert NodeOk(nodes, unlisted, p);
    forall q: Name ensures NodeOk(nodes', unlisted', q) {
      assert NodeOk(nodes, unlisted, q);
    }
    forall d: Name, e: Name ensures EntryOk(nodes', unlisted', d, e) {
      assert EntryOk(nodes, unlisted, d, e);
    }
    assert p != ROOT by { NameIsNotRoot(p); }
  }

  lemma NameIsNotRoot(p: Name)
    requires ValidName(p)
    ensures p != ROOT
  {
  }

  /** A node is listed in its directory. */
  lemma ListIn(nodes: Nodes, unlisted: set<Name>, p: Name)
    requires TreeOk(nodes, unlisted + {p}) && p !in unlisted && p in nodes && p != ROOT
    requires Dir(p) in nodes && nodes[Dir(p)].isDir && Dir(p) !in unlisted && Dir(p) != p
    ensures var d := Dir(p); TreeOk(nodes[d := nodes[d].(entries := nodes[d].entries + [p])], unlisted)
  {
    hide ValidName, Dir;
    var d := Dir(p);
    var before, listed := nodes[d].entries, nodes[d].entries + [p];
    var nodes' := nodes[d := nodes[d].(entries := listed)];
    assert EntryOk(nodes, unlisted + {p}, d, p);
    assert p !in before && multiset(listed) == multiset(before) + multiset{p};
    forall q: Name ensures NodeOk(nodes', unlisted, q) {
      assert NodeOk(nodes, unlisted + {p}, q);
    }
    forall x: Name, e: Name ensures EntryOk(nodes', unlisted, x, e) {
      assert EntryOk(nodes, unlisted + {p}, x, e);
    }
  }

  // ---------- The file system ----------

  datatype FsError = Invalid | NotExist | Modified

  class Filesystem {
    var ar: Archive
    var nodes: Nodes

    constructor (ar: Archive)
      ensures this.ar == ar && nodes == map[ROOT := DIRECTORY]
    {
      this.ar := ar;
      nodes := map[ROOT := DIRECTORY];
    }

    method Insert(path: Name, node: Node, ghost unlisted: set<Name>) returns (ok: bool)
      requires TreeOk(nodes, unlisted) && (path == ROOT || ValidName(path)) && node.entries == []
      requires forall u :: u in unlisted ==> u in nodes && Depth(path) < Depth(u)
      modifies this`nodes
      ensures ok <==> path !in old(nodes) && AncestorsAreDirs(old(nodes), path)
      ensures ok ==> TreeOk(nodes, unlisted) && Added(old(nodes), nodes, path)
      ensures ok ==> path in nodes
      ensures ok ==> nodes[path].isDir == node.isDir && nodes[path].idx == node.idx && nodes[path].size == node.size
      ensures ok ==> nodes[path].entries == []
      ensures ok ==> forall u :: u in unlisted ==> nodes[u] == old(nodes)[u]
      decreases Depth(path), 0
    {
      hide ValidName, Dir, Depth, ProperAncestor;
      if path in nodes {
        return false;
      }
      DirIsValid(path);
      NotAboveItsDir(path);
      AddUnlisted(nodes, unlisted, path, node);
      InsertableByDir(nodes, path, node);
      nodes := nodes[path := node];
      var dir := Dir(path);
      ok := Directory(dir, unlisted + {path});
      if !ok {
        return;
      }
      ListIn(nodes, unlisted, path);
      AddedThroughDir(old(nodes), nodes, path, node, nodes[dir].entries + [path]);
      nodes := nodes[dir := nodes[dir].(entries := nodes[dir].entries + [path])];
    }

    /** The directory node for dir, created if it does not exist. */
    method Directory(dir: Name, ghost unlisted: set<Name>) returns (ok: bool)
      requires TreeOk(nodes, unlisted) && (dir == ROOT || ValidName(dir))
      requires forall u :: u in unlisted ==> u in nodes && Depth(dir) < Depth(u)
      modifies this`nodes
      ensures ok <==> (dir in old(nodes) ==> old(nodes)[dir].isDir) && AncestorsAreDirs(old(nodes), dir)
      ensures ok ==> TreeOk(nodes, unlisted) && Added(old(nodes), nodes, dir) && nodes[dir].isDir
      ensures ok ==> forall u :: u in unlisted ==> nodes[u] == old(nodes)[u]
      decreases Depth(dir), 1
    {
      hide ValidName, Dir, Depth;
      if dir in nodes && nodes[dir].isDir {
        forall a | ProperAncestor(a, dir) ensures a in nodes && nodes[a].isDir {
          if dir != ROOT {
            AncestorsPresent(nodes, unlisted, dir, a);
          } else {
            RootHasNoAncestors(a);
          }
        }
        return true;
      }
      ok := Insert(dir, DIRECTORY, unlisted);
    }

    /** Inserts all files of the archive. */
    method InitFiles() returns (ok: bool)
      requires nodes == map[ROOT := DIRECTORY]
      modifies this`nodes
      ensures ok <==> NamesOk(ar.files)
      ensures ok ==> Loaded(nodes, ar.files, |ar.files|)
    {
      hide Loaded, ValidPath, Dir, ProperAncestor, TreeOk, CompatibleWithAll, Added, FileNodeOk;
      var files := ar.files;
      EmptyIsLoaded(files);
      for idx := 0 to |files|
        invariant ar == old(ar) && Loaded(nodes, files, idx)
        invariant forall i :: 0 <= i < idx ==> ValidName(files[i].name) && CompatibleWithAll(files, i, files[i].name)
      {
        var file := files[idx];
        if !ValidPath(file.name) {
          return false;
        }
        ghost var before := nodes;
        LoadedIsTree(before, files, idx);
        var inserted := Insert(file.name, Node(false, idx, |file.data|, []), {});
        if ValidName(file.name) {
          InsertableIffCompatible(before, files, idx);
        } else {
          RootHasNoAncestors([]);
        }
        if !inserted {
          return false;
        }
        FileNodeIs(nodes, files, idx);
        LoadedNext(before, nodes, files, idx);
      }
      return true;
    }
  }

  // ---------- Building the file system ----------

  /** Names that can be files together. */
  ghost predicate Compatible(a: Name, b: Name) {
    a != b && !ProperAncestor(a, b) && !ProperAncestor(b, a)
  }

  ghost predicate CompatibleWithAll(files: seq<File>, n: nat, name: Name)
    requires n <= |files|
  {
    forall i :: 0 <= i < n ==> Compatible(files[i].name, name)
  }

  /** All names are valid and not the root, distinct, and none is an ancestor of another. */
  ghost predicate NamesOk(files: seq<File>) {
    && (forall i :: 0 <= i < |files| ==> ValidName(files[i].name))
    && (forall j :: 0 <= j < |files| ==> CompatibleWithAll(files, j, files[j].name))
  }

  /** p is the root, one of the first n files, or a directory above one of them. */
  ghost predicate Expected(files: seq<File>, n: nat, p: Name)
    requires n <= |files|
  {
    p == ROOT || exists i :: 0 <= i < n && (p == files[i].name || ProperAncestor(p, files[i].name))
  }

  ghost predicate IsFile(files: seq<File>, n: nat, p: Name)
    requires n <= |files|
  {
    exists i :: 0 <= i < n && p == files[i].name
  }

  /** The nodes are those of the first n files. */
  ghost predicate Loaded(nodes: Nodes, files: seq<File>, n: nat)
    requires n <= |files|
  {
    && TreeOk(nodes, {})
    && (forall p: Name :: p in nodes <==> Expected(files, n, p))
    && (forall p: Name :: p in nodes && !nodes[p].isDir ==> IsFile(files, n, p))
    && (forall i :: 0 <= i < n ==> FileNodeOk(nodes, files, i))
  }

  ghost predicate FileNodeOk(nodes: Nodes, files: seq<File>, i: nat)
    requires i < |files|
  {
    var f := files[i];
    f.name in nodes && !nodes[f.name].isDir && nodes[f.name].idx == i && nodes[f.name].size == |f.data|
  }

  lemma EmptyIsLoaded(files: seq<File>)
    ensures Loaded(map[ROOT := DIRECTORY], files, 0)
  {
  }

  /** The next file can be inserted exactly when its name is compatible with the earlier ones. */
  lemma InsertableIffCompatible(nodes: Nodes, files: seq<File>, n: nat)
    requires n < |files| && Loaded(nodes, files, n) && ValidName(files[n].name)
    ensures files[n].name !in nodes && AncestorsAreDirs(nodes, files[n].name) <==>
            CompatibleWithAll(files, n, files[n].name)
  {
    hide ValidName, ProperAncestor, TreeOk;
    var name := files[n].name;
    NameIsNotRoot(name);
    if CompatibleWithAll(files, n, name) {
      forall i: nat | i < n ensures name != files[i].name && !ProperAncestor(name, files[i].name) {
        assert Compatible(files[i].name, name);
      }
      forall a: Name | ProperAncestor(a, name) && a in nodes ensures nodes[a].isDir {
        assert nodes[a].isDir || IsFile(files, n, a);
      }
    }
    if name !in nodes && AncestorsAreDirs(nodes, name) {
      assert !Expected(files, n, name);
      forall i | 0 <= i < n ensures Compatible(files[i].name, name) {
        assert FileNodeOk(nodes, files, i);
      }
    }
  }

  lemma LoadedIsTree(nodes: Nodes, files: seq<File>, n: nat)
    requires n <= |files| && Loaded(nodes, files, n)
    ensures TreeOk(nodes, {}) && ROOT in nodes
  {
  }

  lemma FileNodeIs(nodes: Nodes, files: seq<File>, i: nat)
    requires i < |files| && files[i].name in nodes
    requires !nodes[files[i].name].isDir && nodes[files[i].name].idx == i
    requires nodes[files[i].name].size == |files[i].data|
    ensures FileNodeOk(nodes, files, i)
  {
  }

  lemma LoadedNext(nodes: Nodes, nodes': Nodes, files: seq<File>, n: nat)
    requires n < |files| && Loaded(nodes, files, n) && CompatibleWithAll(files, n, files[n].name)
    requires TreeOk(nodes', {}) && Added(nodes, nodes', files[n].name) && FileNodeOk(nodes', files, n)
    ensures Loaded(nodes', files, n + 1)
  {
    hide ProperAncestor, TreeOk;
    var name := files[n].name;
    forall p: Name ensures p in nodes' <==> Expected(files, n + 1, p) {
      assert p in nodes <==> Expected(files, n, p);
    }
    forall i: nat | i < n ensures FileNodeOk(nodes', files, i) {
      assert FileNodeOk(nodes, files, i);
    }
    forall p: Name | p in nodes' && !nodes'[p].isDir ensures IsFile(files, n + 1, p) {
      if p in nodes {
        assert IsFile(files, n, p);
      }
    }
  }

  /** Reading a file of the archive through its node. */
  function DataOf(ar: Archive, name: Name, node: Node): Result<ByteString, FsError> {
    if node.idx >= |ar.files| then Err(Modified)
    else
      var f := ar.files[node.idx];
      if f.name != name || |f.data| != node.size then Err(Modified) else Ok(f.data)
  }

  function ReadFile(ar: Archive, nodes: Nodes, name: Name): Result<ByteString, FsError> {
    if !ValidPath(name) then Err(Invalid)
    else if name !in nodes then Err(NotExist)
    else if nodes[name].isDir then Err(Invalid)
    else DataOf(ar, name, nodes[name])
  }

  /** Every name of the archive reads back as the data of its file. */
  lemma ReadsBack(ar: Archive, nodes: Nodes, i: nat)
    requires Loaded(nodes, ar.files, |ar.files|) && i < |ar.files|
    ensures ReadFile(ar, nodes, ar.files[i].name) == Ok(ar.files[i].data)
  {
    hide Expected, IsFile;
    assert FileNodeOk(nodes, ar.files, i);
    assert NodeOk(nodes, {}, ar.files[i].name);
  }

  /** Names that are no file of the archive do not read: an intermediate directory and the root are
      invalid, all other valid names do not exist. */
  lemma OnlyFilesRead(ar: Archive, nodes: Nodes, name: Name)
    requires Loaded(nodes, ar.files, |ar.files|) && !IsFile(ar.files, |ar.files|, name)
    ensures ReadFile(ar, nodes, name) ==
            if ValidPath(name) && !Expected(ar.files, |ar.files|, name) then Err(NotExist) else Err(Invalid)
  {
    hide TreeOk, ProperAncestor;
  }

  /** After the archive has changed under a loaded file system, a name of the old archive reads as
      the new data if its file has kept its place, name and size; every other change is reported. */
  lemma ModifiedIffMoved(before: Archive, now: Archive, nodes: Nodes, i: nat)
    requires Loaded(nodes, before.files, |before.files|) && i < |before.files|
    ensures var name := before.files[i].name;
            var same := i < |now.files| && now.files[i].name == name && |now.files[i].data| == |before.files[i].data|;
            ReadFile(now, nodes, name) == if same then Ok(now.files[i].data) else Err(Modified)
  {
    hide Expected, IsFile;
    assert FileNodeOk(nodes, before.files, i);
    assert NodeOk(nodes, {}, before.files[i].name);
  }

  /** Every node but the root is listed once, in the directory that its path names, and nowhere else. */
  lemma ListedOnceInParent(nodes: Nodes, files: seq<File>, p: Name, d: Name)
    requires Loaded(nodes, files, |files|) && p in nodes && p != ROOT && d in nodes
    ensures multiset(nodes[d].entries)[p] == if d == Dir(p) then 1 else 0
    ensures Dir(p) in nodes && nodes[Dir(p)].isDir
  {
    hide Expected, IsFile, Dir, ValidName;
    assert NodeOk(nodes, {}, p) && EntryOk(nodes, {}, d, p);
  }

  lemma NotAboveItsDir(p: Name)
    requires ValidName(p)
    ensures Dir(p) != p && !ProperAncestor(p, Dir(p))
  {
    DirIsValid(p);
  }

  /** Whether p can be inserted is decided by its directory. */
  lemma InsertableByDir(nodes: Nodes, p: Name, node: Node)
    requires ROOT in nodes && nodes[ROOT].isDir && p !in nodes && ValidName(p)
    ensures var nodes', dir := nodes[p := node], Dir(p);
            AncestorsAreDirs(nodes, p) <==> (dir in nodes' ==> nodes'[dir].isDir) && AncestorsAreDirs(nodes', dir)
  {
    hide ValidName, Dir, ProperAncestor;
    NotAboveItsDir(p);
    var dir := Dir(p);
    forall x: Name
      ensures ProperAncestor(x, p) <==> dir != ROOT && (x == dir || ProperAncestor(x, dir))
      ensures !ProperAncestor(x, ROOT)
    {
      AncestorsOfDir(p, x);
      RootHasNoAncestors(x);
    }
  }

  /** The nodes after a node, its directory and the entry have been added. */
  lemma AddedThroughDir(nodes: Nodes, after: Nodes, p: Name, node: Node, entries: seq<Name>)
    requires ROOT in nodes && p !in nodes && ValidName(p)
    requires Added(nodes[p := node], after, Dir(p)) && after[Dir(p)].isDir
    ensures Added(nodes, after[Dir(p) := after[Dir(p)].(entries := entries)], p)
  {
    hide ValidName, Dir, ProperAncestor;
    NotAboveItsDir(p);
    var dir := Dir(p);
    forall x: Name
      ensures ProperAncestor(x, p) <==> dir != ROOT && (x == dir || ProperAncestor(x, dir))
      ensures !ProperAncestor(x, ROOT)
    {
      AncestorsOfDir(p, x);
      RootHasNoAncestors(x);
    }
  }

  lemma RootHasNoAncestors(a: Name)
    ensures !ProperAncestor(a, ROOT)
  {
  }
}
