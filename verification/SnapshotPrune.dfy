/**
 Pruning of a snapshot directory: a depth-first traversal with an explicit stack of Enter and
 Exit frames that deletes unused files and the directories left without used files.

 A path is the list of its components below the snapshot directory; the directory itself is
 the empty path. The tree is finite, has no symbolic links, and no operation on it fails.
 */
module SnapshotPrune {
  import opened Wrappers

  type Path = seq<string>

  datatype Phase = Enter | Exit

  datatype Frame = Frame(dir: Path, parent: Option<Path>, phase: Phase)

  /** The tree before pruning, and the paths the tests have used. */
  datatype World = World(files: set<Path>, dirs: set<Path>, used: set<Path>)

  function Parent(p: Path): Path
    requires p != []
  {
    p[..|p| - 1]
  }

  /** Every file and directory but the root lies in a directory. */
  ghost predicate IsTree(w: World) {
    && [] in w.dirs && w.files !! w.dirs
    && forall p :: (p in w.files || p in w.dirs) && p != [] ==> Parent(p) in w.dirs
  }

  /** Some used file lies beneath d. */
  ghost predicate HasUsed(w: World, d: Path) {
    exists f :: f in w.files && f in w.used && d < f
  }

  // ---------- Facts about paths ----------

  lemma Comparable(a: Path, b: Path, p: Path)
    requires a <= p && b <= p
    ensures a <= b || b <= a
    ensures |a| <= |b| ==> a <= b
  {
    assert a == p[..|a|] && b == p[..|b|];
  }

  lemma PrefixTransitive(a: Path, b: Path, c: Path)
    requires a <= b && b <= c
    ensures a <= c && (a < b || b < c ==> a < c)
  {
    assert b == c[..|b|] && a == b[..|a|];
  }

  /** Every proper ancestor of an entry of the tree is a directory. */
  lemma {:induction false} AncestorIsDir(w: World, a: Path, p: Path)
    requires IsTree(w) && (p in w.files || p in w.dirs) && a < p
    ensures a in w.dirs
    decreases |p|
  {
    var q := Parent(p);
    assert a <= q by { Comparable(a, q, p); }
    if a != q {
      AncestorIsDir(w, a, q);
    }
  }

  /** The entry of directory d on the way to p. */
  lemma EntryTowards(w: World, d: Path, p: Path) returns (e: Path)
    requires IsTree(w) && (p in w.files || p in w.dirs) && d < p
    ensures e == p[..|d| + 1] && e <= p && d < e && Parent(e) == d && (e in w.files || e in w.dirs)
  {
    e := p[..|d| + 1];
    assert d == p[..|d|];
    assert e != p ==> e < p;
    if e != p {
      AncestorIsDir(w, e, p);
    }
  }

  // ---------- The invariant ----------

  /** p is in a subtree that the traversal has yet to enter. `rest` holds the entries of the
      current directory that have not been looked at. */
  ghost predicate Unvisited(stack: seq<Frame>, rest: set<Path>, p: Path) {
    || (exists i :: 0 <= i < |stack| && stack[i].phase.Enter? && stack[i].dir <= p)
    || (exists e :: e in rest && e <= p)
  }

  ghost predicate OnStack(stack: seq<Frame>, d: Path) {
    exists i :: 0 <= i < |stack| && stack[i].dir == d
  }

  /** p lies in something that the traversal still has to finish before it comes back to frame i. */
  ghost predicate Above(stack: seq<Frame>, rest: set<Path>, i: nat, p: Path) {
    || (exists j :: i < j < |stack| && stack[j].dir <= p)
    || (exists e :: e in rest && e <= p)
  }

  /** The directory of frame i has a used file beneath it in a part that is finished. */
  ghost predicate Seen(w: World, stack: seq<Frame>, rest: set<Path>, i: nat)
    requires i < |stack|
  {
    exists f :: f in w.files && f in w.used && stack[i].dir < f && !Above(stack, rest, i, f)
  }

  ghost predicate FileOk(w: World, files: set<Path>, stack: seq<Frame>, rest: set<Path>, f: Path) {
    if f !in w.files then f !in files
    else if Unvisited(stack, rest, f) then f in files
    else f in files <==> f in w.used
  }

  ghost predicate DirOk(w: World, dirs: set<Path>, stack: seq<Frame>, rest: set<Path>, d: Path) {
    if d !in w.dirs then d !in dirs
    else if d == [] || Unvisited(stack, rest, d) || OnStack(stack, d) then d in dirs
    else d in dirs <==> HasUsed(w, d)
  }

  ghost predicate CountOk(w: World, counts: map<Path, bool>, stack: seq<Frame>, rest: set<Path>, i: nat) {
    i < |stack| && stack[i].phase.Exit? ==>
      stack[i].dir in counts && (counts[stack[i].dir] <==> Seen(w, stack, rest, i))
  }

  /** A frame names a directory, and the frame of its parent waits below it. */
  ghost predicate FrameOk(w: World, stack: seq<Frame>, i: nat) {
    i < |stack| ==>
      && stack[i].dir in w.dirs
      && (stack[i].dir == [] ==> stack[i].parent == None && i == 0)
      && (stack[i].dir != [] ==> stack[i].parent == Some(Parent(stack[i].dir)) && ParentBelow(stack, i))
  }

  ghost predicate ParentBelow(stack: seq<Frame>, i: nat)
    requires i < |stack| && stack[i].dir != []
  {
    exists k :: 0 <= k < i && stack[k].phase.Exit? && stack[k].dir == Parent(stack[i].dir)
  }

  /** Above an Exit frame there are only directories beneath its own; Enter frames are disjoint
      from everything above them. */
  ghost predicate PairOk(stack: seq<Frame>, i: nat, j: nat) {
    i < j < |stack| ==>
      && !(stack[j].dir <= stack[i].dir)
      && (if stack[i].phase.Exit? then stack[i].dir < stack[j].dir else !(stack[i].dir <= stack[j].dir))
  }

  ghost predicate StackOk(w: World, stack: seq<Frame>) {
    (forall i: nat :: FrameOk(w, stack, i)) && (forall i: nat, j: nat :: PairOk(stack, i, j))
  }

  /** The entries not looked at yet belong to the directory at `top`, and no frame is for them. */
  ghost predicate RestOk(w: World, stack: seq<Frame>, rest: set<Path>, top: nat) {
    rest != {} ==>
      && top < |stack| && stack[top].phase.Exit?
      && (forall e :: e in rest ==>
            && e != [] && Parent(e) == stack[top].dir && (e in w.files || e in w.dirs)
            && (forall j :: top < j < |stack| ==> stack[j].dir != e))
      && (forall j :: top < j < |stack| ==>
            stack[j].phase.Enter? && stack[j].dir != [] && Parent(stack[j].dir) == stack[top].dir)
  }

  ghost predicate Inv(w: World, files: set<Path>, dirs: set<Path>, stack: seq<Frame>, rest: set<Path>,
                      counts: map<Path, bool>, top: nat) {
    && IsTree(w) && StackOk(w, stack) && RestOk(w, stack, rest, top)
    && (forall f: Path :: FileOk(w, files, stack, rest, f))
    && (forall d: Path :: DirOk(w, dirs, stack, rest, d))
    && (forall i: nat :: CountOk(w, counts, stack, rest, i))
  }

  // ---------- An entry against the stack ----------

  /** An entry that has not been looked at is on top of the stack, and apart from the Enter frames. */
  lemma EntryApart(w: World, stack: seq<Frame>, rest: set<Path>, top: nat, e: Path, i: nat)
    requires StackOk(w, stack) && RestOk(w, stack, rest, top) && e in rest && i < |stack|
    ensures !(e <= stack[i].dir)
    ensures if stack[i].phase.Exit? then stack[i].dir < e else !(stack[i].dir <= e)
  {
    var d := stack[top].dir;
    assert d < e;
    assert PairOk(stack, i, top);
    if i < top {
      if e <= stack[i].dir {
        PrefixTransitive(d, e, stack[i].dir);
      }
      if stack[i].phase.Exit? {
        PrefixTransitive(stack[i].dir, d, e);
      } else if stack[i].dir <= e {
        Comparable(stack[i].dir, d, e);
      }
    } else if i > top {
      assert |stack[i].dir| == |e|;
    }
  }

  /** Nothing in the tree lies beneath a file. */
  lemma NothingBeneathFile(w: World, e: Path, p: Path)
    requires IsTree(w) && e in w.files && (p in w.files || p in w.dirs) && e <= p
    ensures p == e
  {
    if e != p {
      AncestorIsDir(w, e, p);
    }
  }

  /** Two entries of the same directory are not above each other. */
  lemma SiblingsApart(a: Path, b: Path)
    requires a != [] && b != [] && Parent(a) == Parent(b) && a <= b
    ensures a == b
  {
  }

  // ---------- Looking at one entry ----------

  lemma VisitDirStack(w: World, stack: seq<Frame>, rest: set<Path>, top: nat, e: Path)
    requires StackOk(w, stack) && RestOk(w, stack, rest, top) && e in rest && e in w.dirs
    ensures StackOk(w, stack + [Frame(e, Some(Parent(e)), Enter)])
    ensures RestOk(w, stack + [Frame(e, Some(Parent(e)), Enter)], rest - {e}, top)
  {
    var stack' := stack + [Frame(e, Some(Parent(e)), Enter)];
    var n := |stack|;
    forall i: nat ensures FrameOk(w, stack', i) {
      assert FrameOk(w, stack, i);
      if i == n {
        assert stack'[top] == stack[top] && stack'[top].dir == Parent(e);
      } else if i < n && stack[i].dir != [] {
        var k :| 0 <= k < i && stack[k].phase.Exit? && stack[k].dir == Parent(stack[i].dir);
        assert stack'[k] == stack[k];
      }
    }
    forall i: nat, j: nat ensures PairOk(stack', i, j) {
      assert PairOk(stack, i, j);
      if j == n && i < n {
        EntryApart(w, stack, rest, top, e, i);
      }
    }
  }

  /** Pushing a frame for an entry leaves everything as unvisited, and as far above, as it was. */
  lemma VisitDirSame(stack: seq<Frame>, rest: set<Path>, e: Path, i: nat, p: Path)
    requires e in rest && e != []
    ensures var stack' := stack + [Frame(e, Some(Parent(e)), Enter)];
            && (Unvisited(stack', rest - {e}, p) <==> Unvisited(stack, rest, p))
            && (i < |stack| ==> (Above(stack', rest - {e}, i, p) <==> Above(stack, rest, i, p)))
            && (OnStack(stack', p) <==> OnStack(stack, p) || p == e)
  {
    var stack' := stack + [Frame(e, Some(Parent(e)), Enter)];
    assert stack'[|stack|].dir == e && forall j :: 0 <= j < |stack| ==> stack'[j] == stack[j];
    assert forall x :: x in rest <==> x in rest - {e} || x == e;
  }

  lemma VisitDirEntry(w: World, files: set<Path>, dirs: set<Path>, stack: seq<Frame>, rest: set<Path>,
                      counts: map<Path, bool>, top: nat, e: Path)
    requires Inv(w, files, dirs, stack, rest, counts, top) && e in rest && e in w.dirs
    ensures Inv(w, files, dirs, stack + [Frame(e, Some(Parent(e)), Enter)], rest - {e}, counts, top)
  {
    hide StackOk, Unvisited, Above, OnStack, HasUsed;
    var stack', rest' := stack + [Frame(e, Some(Parent(e)), Enter)], rest - {e};
    VisitDirStack(w, stack, rest, top, e);
    forall f: Path ensures FileOk(w, files, stack', rest', f) {
      assert FileOk(w, files, stack, rest, f);
      VisitDirSame(stack, rest, e, 0, f);
    }
    forall d: Path ensures DirOk(w, dirs, stack', rest', d) {
      assert DirOk(w, dirs, stack, rest, d);
      VisitDirSame(stack, rest, e, 0, d);
      if d == e {
        InRestIsUnvisited(stack, rest, e);
      }
    }
    forall i: nat ensures CountOk(w, counts, stack', rest', i) {
      assert CountOk(w, counts, stack, rest, i);
      if i < |stack| {
        forall f: Path ensures Above(stack', rest', i, f) <==> Above(stack, rest, i, f) {
          VisitDirSame(stack, rest, e, i, f);
        }
      }
    }
  }

  lemma InRestIsUnvisited(stack: seq<Frame>, rest: set<Path>, e: Path)
    requires e in rest
    ensures Unvisited(stack, rest, e)
  {
  }

  /** Dropping a file from the entries changes nothing for the other paths of the tree, and the
      file itself is then visited. */
  lemma VisitFileSame(w: World, stack: seq<Frame>, rest: set<Path>, top: nat, e: Path, i: nat, p: Path)
    requires IsTree(w) && StackOk(w, stack) && RestOk(w, stack, rest, top) && e in rest && e in w.files
    requires p in w.files || p in w.dirs
    ensures p != e ==> (Unvisited(stack, rest - {e}, p) <==> Unvisited(stack, rest, p))
    ensures p != e ==> (Above(stack, rest - {e}, i, p) <==> Above(stack, rest, i, p))
    ensures p == e ==> Unvisited(stack, rest, p) && !Unvisited(stack, rest - {e}, p)
    ensures p == e && i < top ==> Above(stack, rest, i, p) && Above(stack, rest - {e}, i, p)
    ensures p == e && i == top ==> !Above(stack, rest - {e}, i, p)
  {
    if p == e {
      forall j | 0 <= j < |stack| && stack[j].phase.Enter? ensures !(stack[j].dir <= p) {
        EntryApart(w, stack, rest, top, e, j);
      }
      forall x | x in rest - {e} ensures !(x <= p) {
        if x <= p {
          SiblingsApart(x, p);
        }
      }
      assert stack[top].dir <= p;
    } else {
      assert !(e <= p) by {
        if e <= p {
          NothingBeneathFile(w, e, p);
        }
      }
      assert forall x :: x in rest && x <= p ==> x in rest - {e};
    }
  }

  lemma VisitFileRest(w: World, stack: seq<Frame>, rest: set<Path>, top: nat, e: Path)
    requires RestOk(w, stack, rest, top) && e in rest
    ensures RestOk(w, stack, rest - {e}, top)
  {
  }

  /** A used file stays, and its directory is marked. */
  lemma VisitUsedEntry(w: World, files: set<Path>, dirs: set<Path>, stack: seq<Frame>, rest: set<Path>,
                       counts: map<Path, bool>, top: nat, e: Path)
    requires Inv(w, files, dirs, stack, rest, counts, top) && e in rest && e in w.files && e in w.used
    ensures Inv(w, files, dirs, stack, rest - {e}, counts[Parent(e) := true], top)
  {
    hide Unvisited, Above, OnStack, HasUsed;
    var rest', counts' := rest - {e}, counts[Parent(e) := true];
    VisitFileRest(w, stack, rest, top, e);
    forall f: Path ensures FileOk(w, files, stack, rest', f) {
      assert FileOk(w, files, stack, rest, f);
      if f in w.files {
        VisitFileSame(w, stack, rest, top, e, top, f);
      }
    }
    forall d: Path ensures DirOk(w, dirs, stack, rest', d) {
      assert DirOk(w, dirs, stack, rest, d);
      if d in w.dirs {
        VisitFileSame(w, stack, rest, top, e, top, d);
      }
    }
    forall i: nat ensures CountOk(w, counts', stack, rest', i) {
      assert CountOk(w, counts, stack, rest, i) && PairOk(stack, i, top) && PairOk(stack, top, i);
      if i == top {
        VisitFileSame(w, stack, rest, top, e, top, e);
        assert Seen(w, stack, rest', i);
      } else if i < |stack| && stack[i].phase.Exit? {
        assert i < top;
        forall f | f in w.files ensures Above(stack, rest', i, f) <==> Above(stack, rest, i, f) {
          VisitFileSame(w, stack, rest, top, e, i, f);
        }
        assert stack[i].dir != Parent(e);
      }
    }
  }

  function Without(paths: set<Path>, p: Path): set<Path> {
    set q | q in paths && !(p <= q)
  }

  /** An unused file is removed. */
  lemma VisitUnusedEntry(w: World, files: set<Path>, dirs: set<Path>, stack: seq<Frame>, rest: set<Path>,
                         counts: map<Path, bool>, top: nat, e: Path)
    requires Inv(w, files, dirs, stack, rest, counts, top) && e in rest && e in w.files && e !in w.used
    ensures Inv(w, Without(files, e), Without(dirs, e), stack, rest - {e}, counts, top)
  {
    hide Unvisited, Above, OnStack, HasUsed, StackOk;
    var rest' := rest - {e};
    VisitFileRest(w, stack, rest, top, e);
    forall f: Path ensures FileOk(w, Without(files, e), stack, rest', f) {
      assert FileOk(w, files, stack, rest, f);
      if f in w.files {
        VisitFileSame(w, stack, rest, top, e, top, f);
        if e <= f {
          NothingBeneathFile(w, e, f);
        }
      }
    }
    forall d: Path ensures DirOk(w, Without(dirs, e), stack, rest', d) {
      assert DirOk(w, dirs, stack, rest, d);
      if d in w.dirs {
        VisitFileSame(w, stack, rest, top, e, top, d);
        assert !(e <= d) by {
          if e <= d {
            NothingBeneathFile(w, e, d);
          }
        }
      }
    }
    forall i: nat ensures CountOk(w, counts, stack, rest', i) {
      assert CountOk(w, counts, stack, rest, i);
      if i < |stack| {
        forall f | f in w.files && f in w.used ensures Above(stack, rest', i, f) <==> Above(stack, rest, i, f) {
          VisitFileSame(w, stack, rest, top, e, i, f);
        }
      }
    }
  }

  // ---------- Entering a directory ----------

  /** The entries of a directory, as reading it yields them. */
  function Entries(files: set<Path>, dirs: set<Path>, d: Path): set<Path> {
    set p | p in files + dirs && p != [] && Parent(p) == d
  }

  lemma EnterStack(w: World, base: seq<Frame>, frame: Frame)
    requires StackOk(w, base + [frame]) && frame.phase.Enter?
    ensures StackOk(w, base + [frame.(phase := Exit)])
  {
    var stack, stack' := base + [frame], base + [frame.(phase := Exit)];
    forall i: nat ensures FrameOk(w, stack', i) {
      assert FrameOk(w, stack, i);
      if i < |stack| && stack[i].dir != [] {
        var k :| 0 <= k < i && stack[k].phase.Exit? && stack[k].dir == Parent(stack[i].dir);
        assert stack'[k] == stack[k];
      }
    }
    forall i: nat, j: nat ensures PairOk(stack', i, j) {
      assert PairOk(stack, i, j);
    }
  }

  /** Turning the Enter frame of d into an Exit frame and listing the entries of d changes nothing
      for the other paths of the tree. */
  lemma EnterSame(w: World, base: seq<Frame>, frame: Frame, i: nat, p: Path)
    requires IsTree(w) && frame.phase.Enter? && (p in w.files || p in w.dirs)
    ensures var stack, stack', rest :=
              base + [frame], base + [frame.(phase := Exit)], Entries(w.files, w.dirs, frame.dir);
            && (p != frame.dir ==> (Unvisited(stack', rest, p) <==> Unvisited(stack, {}, p)))
            && (OnStack(stack', p) <==> OnStack(stack, p))
            && (i < |base| ==> (Above(stack', rest, i, p) <==> Above(stack, {}, i, p)))
            && (i == |base| && frame.dir < p ==> Above(stack', rest, i, p))
  {
    var stack, stack', rest := base + [frame], base + [frame.(phase := Exit)], Entries(w.files, w.dirs, frame.dir);
    assert stack'[|base|].dir == frame.dir && stack[|base|] == frame;
    assert forall j :: 0 <= j < |base| ==> stack'[j] == stack[j] == base[j];
    forall e | e in rest && e <= p ensures frame.dir <= p {
      PrefixTransitive(frame.dir, e, p);
    }
    if frame.dir < p {
      var e := EntryTowards(w, frame.dir, p);
      assert e in rest;
    }
  }

  lemma EnterDir(w: World, files: set<Path>, dirs: set<Path>, base: seq<Frame>, frame: Frame,
                 counts: map<Path, bool>, top: nat)
    requires Inv(w, files, dirs, base + [frame], {}, counts, top) && frame.phase.Enter?
    ensures Entries(files, dirs, frame.dir) == Entries(w.files, w.dirs, frame.dir)
    ensures Inv(w, files, dirs, base + [frame.(phase := Exit)], Entries(files, dirs, frame.dir),
                counts[frame.dir := false], |base|)
  {
    var stack, d := base + [frame], frame.dir;
    EntriesUnchanged(w, files, dirs, stack, frame);
    hide Unvisited, Above, OnStack, HasUsed;
    var stack', rest, counts' := base + [frame.(phase := Exit)], Entries(w.files, w.dirs, d), counts[d := false];
    EnterStack(w, base, frame);
    assert FrameOk(w, stack, |base|);
    forall f: Path ensures FileOk(w, files, stack', rest, f) {
      assert FileOk(w, files, stack, {}, f);
      if f in w.files {
        EnterSame(w, base, frame, 0, f);
      }
    }
    forall x: Path ensures DirOk(w, dirs, stack', rest, x) {
      assert DirOk(w, dirs, stack, {}, x);
      if x in w.dirs {
        EnterSame(w, base, frame, 0, x);
        if x == d {
          TopIsOnStack(base, frame);
        }
      }
    }
    forall i: nat ensures CountOk(w, counts', stack', rest, i) {
      assert CountOk(w, counts, stack, {}, i) && PairOk(stack, i, |base|);
      if i <= |base| {
        forall f | f in w.files
          ensures i < |base| ==> (Above(stack', rest, i, f) <==> Above(stack, {}, i, f))
          ensures i == |base| && d < f ==> Above(stack', rest, i, f)
        {
          EnterSame(w, base, frame, i, f);
        }
        assert i < |base| ==> stack'[i] == stack[i];
      }
    }
  }

  lemma TopIsOnStack(base: seq<Frame>, frame: Frame)
    ensures OnStack(base + [frame], frame.dir) && OnStack(base + [frame.(phase := Exit)], frame.dir)
    ensures frame.phase.Enter? ==> Unvisited(base + [frame], {}, frame.dir)
  {
    assert (base + [frame])[|base|] == frame;
    assert (base + [frame.(phase := Exit)])[|base|].dir == frame.dir;
  }

  /** A directory that has not been entered still has all its entries. */
  lemma EntriesUnchanged(w: World, files: set<Path>, dirs: set<Path>, stack: seq<Frame>, frame: Frame)
    requires |stack| > 0 && stack[|stack| - 1] == frame && frame.phase.Enter?
    requires forall f: Path :: FileOk(w, files, stack, {}, f)
    requires forall d: Path :: DirOk(w, dirs, stack, {}, d)
    ensures Entries(files, dirs, frame.dir) == Entries(w.files, w.dirs, frame.dir)
  {
    forall p: Path | p != [] && Parent(p) == frame.dir
      ensures p in files <==> p in w.files
      ensures p in dirs <==> p in w.dirs
    {
      assert FileOk(w, files, stack, {}, p) && DirOk(w, dirs, stack, {}, p);
      assert frame.dir <= p;
      assert Unvisited(stack, {}, p);
    }
  }

  // ---------- Leaving a directory ----------

  lemma ExitStack(w: World, base: seq<Frame>, frame: Frame)
    requires StackOk(w, base + [frame])
    ensures StackOk(w, base)
  {
    var stack := base + [frame];
    forall i: nat ensures FrameOk(w, base, i) {
      assert FrameOk(w, stack, i);
      if i < |base| && stack[i].dir != [] {
        var k :| 0 <= k < i && stack[k].phase.Exit? && stack[k].dir == Parent(stack[i].dir);
        assert base[k] == stack[k];
      }
    }
    forall i: nat, j: nat ensures PairOk(base, i, j) {
      assert PairOk(stack, i, j);
    }
  }

  /** When a directory is left, its mark says whether it holds a used file. */
  lemma MarkIsExact(w: World, counts: map<Path, bool>, base: seq<Frame>, frame: Frame)
    requires CountOk(w, counts, base + [frame], {}, |base|) && frame.phase.Exit?
    ensures frame.dir in counts && (counts[frame.dir] <==> HasUsed(w, frame.dir))
  {
    var stack := base + [frame];
    assert stack[|base|] == frame;
    assert forall f :: !Above(stack, {}, |base|, f);
  }

  /** Leaving d: what was unvisited stays so, and below d nothing is. */
  lemma ExitSame(w: World, base: seq<Frame>, frame: Frame, p: Path)
    requires StackOk(w, base + [frame]) && frame.phase.Exit?
    ensures Unvisited(base, {}, p) <==> Unvisited(base + [frame], {}, p)
    ensures OnStack(base + [frame], p) <==> OnStack(base, p) || p == frame.dir
    ensures frame.dir <= p ==> !Unvisited(base, {}, p) && !OnStack(base, p)
  {
    var stack := base + [frame];
    assert stack[|base|] == frame && forall j :: 0 <= j < |base| ==> stack[j] == base[j];
    if frame.dir <= p {
      forall j: nat | j < |base| ensures base[j].dir != p && (base[j].phase.Enter? ==> !(base[j].dir <= p)) {
        assert PairOk(stack, j, |base|);
        if base[j].phase.Enter? && base[j].dir <= p {
          Comparable(base[j].dir, frame.dir, p);
        }
      }
    }
  }

  /** Leaving d: a file outside d is as far above frame i as it was; a file beneath d is above
      every frame but the one of the parent of d. */
  lemma ExitAbove(w: World, base: seq<Frame>, frame: Frame, i: nat, f: Path)
    requires StackOk(w, base + [frame]) && frame.phase.Exit? && frame.dir != []
    requires i < |base| && base[i].phase.Exit?
    ensures !(frame.dir <= f) ==> (Above(base, {}, i, f) <==> Above(base + [frame], {}, i, f))
    ensures frame.dir <= f ==> Above(base + [frame], {}, i, f)
    ensures frame.dir <= f ==> (Above(base, {}, i, f) <==> base[i].dir != Parent(frame.dir))
  {
    var stack, n, d := base + [frame], |base|, frame.dir;
    assert stack[n] == frame && forall j :: 0 <= j < n ==> stack[j] == base[j];
    if d <= f {
      assert PairOk(stack, i, n) && FrameOk(w, stack, n);
      var k :| 0 <= k < n && stack[k].phase.Exit? && stack[k].dir == Parent(d);
      assert PairOk(stack, k, i) && PairOk(stack, i, k);
      if base[i].dir == Parent(d) {
        forall j: nat | i < j < n ensures !(base[j].dir <= f) {
          assert PairOk(stack, i, j) && PairOk(stack, j, n);
          if base[j].dir <= f {
            Comparable(base[j].dir, d, f);
          }
        }
      } else {
        assert i < k by { ParentIsAbove(stack, i, k, d); }
        PrefixTransitive(Parent(d), d, f);
        assert base[k].dir <= f;
      }
    }
  }

  lemma ParentIsAbove(stack: seq<Frame>, i: nat, k: nat, d: Path)
    requires i < |stack| && k < |stack| && d != [] && PairOk(stack, k, i)
    requires stack[i].dir < d && stack[k].phase.Exit? && stack[k].dir == Parent(d) != stack[i].dir
    ensures i < k
  {
  }

  /** A directory without used files is removed. */
  lemma ExitUnused(w: World, files: set<Path>, dirs: set<Path>, base: seq<Frame>, frame: Frame,
                   counts: map<Path, bool>, top: nat)
    requires Inv(w, files, dirs, base + [frame], {}, counts, top) && frame.phase.Exit? && frame.dir != []
    requires !HasUsed(w, frame.dir)
    ensures Inv(w, Without(files, frame.dir), Without(dirs, frame.dir), base, {}, counts, top)
  {
    assert FrameOk(w, base + [frame], |base|);
    NoUsedBelow(w, frame.dir);
    hide Unvisited, Above, OnStack, HasUsed, StackOk;
    var stack, d := base + [frame], frame.dir;
    ExitStack(w, base, frame);
    forall f: Path ensures FileOk(w, Without(files, d), base, {}, f) {
      assert FileOk(w, files, stack, {}, f);
      ExitSame(w, base, frame, f);
    }
    forall x: Path ensures DirOk(w, Without(dirs, d), base, {}, x) {
      assert DirOk(w, dirs, stack, {}, x);
      ExitSame(w, base, frame, x);
    }
    forall i: nat ensures CountOk(w, counts, base, {}, i) {
      assert CountOk(w, counts, stack, {}, i);
      if i < |base| && base[i].phase.Exit? {
        assert stack[i] == base[i];
        forall f | f in w.files && f in w.used ensures Above(base, {}, i, f) <==> Above(stack, {}, i, f) {
          ExitAbove(w, base, frame, i, f);
        }
      }
    }
  }

  lemma NoUsedBelow(w: World, d: Path)
    requires IsTree(w) && d in w.dirs && !HasUsed(w, d)
    ensures forall f :: f in w.files && f in w.used ==> !(d <= f)
    ensures forall x :: d <= x ==> !HasUsed(w, x)
  {
    forall f | f in w.files && f in w.used ensures !(d <= f) {
      assert d <= f && f != d ==> d < f;
    }
    forall x | d <= x ensures !HasUsed(w, x) {
      forall f | f in w.files && f in w.used ensures !(x < f) {
        if x < f {
          PrefixTransitive(d, x, f);
        }
      }
    }
  }

  /** A directory with used files stays and marks its parent. */
  lemma ExitUsed(w: World, files: set<Path>, dirs: set<Path>, base: seq<Frame>, frame: Frame,
                 counts: map<Path, bool>, top: nat)
    requires Inv(w, files, dirs, base + [frame], {}, counts, top) && frame.phase.Exit? && frame.dir != []
    requires HasUsed(w, frame.dir)
    ensures Inv(w, files, dirs, base, {}, counts[Parent(frame.dir) := true], top)
  {
    var used :| used in w.files && used in w.used && frame.dir < used;
    hide Unvisited, Above, OnStack, HasUsed;
    var stack, d, counts' := base + [frame], frame.dir, counts[Parent(frame.dir) := true];
    ExitStack(w, base, frame);
    assert FrameOk(w, stack, |base|);
    forall f: Path ensures FileOk(w, files, base, {}, f) {
      assert FileOk(w, files, stack, {}, f);
      ExitSame(w, base, frame, f);
    }
    forall x: Path ensures DirOk(w, dirs, base, {}, x) {
      assert DirOk(w, dirs, stack, {}, x);
      ExitSame(w, base, frame, x);
    }
    forall i: nat ensures CountOk(w, counts', base, {}, i) {
      assert CountOk(w, counts, stack, {}, i);
      if i < |base| && base[i].phase.Exit? {
        assert stack[i] == base[i];
        if base[i].dir == Parent(d) {
          ExitAbove(w, base, frame, i, used);
          PrefixTransitive(Parent(d), d, used);
          assert Seen(w, base, {}, i);
        } else {
          forall f | f in w.files ensures Above(base, {}, i, f) <==> Above(stack, {}, i, f) {
            ExitAbove(w, base, frame, i, f);
          }
        }
      }
    }
  }

  // ---------- The traversal ----------

  /** What pruning leaves of a tree. */
  function PrunedFiles(w: World): set<Path> {
    w.files * w.used
  }

  ghost function PrunedDirs(w: World): set<Path> {
    set d | d in w.dirs && (d == [] || HasUsed(w, d))
  }

  /** What is left, in terms of the tree alone. */
  lemma PrunedMeans(w: World)
    ensures forall f :: f in PrunedFiles(w) <==> f in w.files && f in w.used
    ensures forall d :: d in PrunedDirs(w) <==>
              d in w.dirs && (d == [] || exists f :: f in w.files && f in w.used && |d| < |f| && f[..|d|] == d)
  {
    forall d | d in w.dirs
      ensures HasUsed(w, d) <==> exists f :: f in w.files && f in w.used && |d| < |f| && f[..|d|] == d
    {
      assert forall f: Path :: d < f <==> |d| < |f| && f[..|d|] == d;
    }
  }

  ghost function UnvisitedDirs(w: World, stack: seq<Frame>): set<Path> {
    set d | d in w.dirs && Unvisited(stack, {}, d)
  }

  class SnapshotDir {
    var files: set<Path>
    var dirs: set<Path>
    const used: set<Path>

    constructor (files: set<Path>, dirs: set<Path>, used: set<Path>)
      ensures this.files == files && this.dirs == dirs && this.used == used
    {
      this.files := files;
      this.dirs := dirs;
      this.used := used;
    }

    method RemoveAll(p: Path)
      modifies this`files, this`dirs
      ensures files == Without(old(files), p) && dirs == Without(old(dirs), p)
    {
      files, dirs := Without(files, p), Without(dirs, p);
    }

    /** The loop over the entries of a directory that has just been entered, in any order. */
    method VisitEntries(entries: set<Path>, dir: Path, stack: seq<Frame>, counts: map<Path, bool>, ghost w: World)
      returns (stack': seq<Frame>, counts': map<Path, bool>)
      requires |stack| > 0 && stack[|stack| - 1].dir == dir
      requires used == w.used && Inv(w, files, dirs, stack, entries, counts, |stack| - 1)
      modifies this`files, this`dirs
      ensures Inv(w, files, dirs, stack', {}, counts', |stack| - 1)
      ensures |stack| <= |stack'| && stack'[..|stack|] == stack
      ensures forall p :: p in w.dirs ==> (Unvisited(stack', {}, p) <==> Unvisited(stack, entries, p))
    {
      hide StackOk, Unvisited, FileOk, DirOk, CountOk;
      var rest := entries;
      stack', counts' := stack, counts;
      while rest != {}
        invariant Inv(w, files, dirs, stack', rest, counts', |stack| - 1)
        invariant |stack| <= |stack'| && stack'[..|stack|] == stack
        invariant forall p :: p in w.dirs ==> (Unvisited(stack', rest, p) <==> Unvisited(stack, entries, p))
        decreases |rest|
      {
        var e :| e in rest;
        assert stack'[|stack| - 1] == stack'[..|stack|][|stack| - 1];
        InRestIsKnown(w, files, dirs, stack', rest, e);
        if e in dirs {
          VisitDirEntry(w, files, dirs, stack', rest, counts', |stack| - 1, e);
          forall p
            ensures Unvisited(stack' + [Frame(e, Some(dir), Enter)], rest - {e}, p) <==> Unvisited(stack', rest, p)
          {
            VisitDirSame(stack', rest, e, 0, p);
          }
          stack' := stack' + [Frame(e, Some(dir), Enter)];
        } else {
          forall p | p in w.dirs ensures Unvisited(stack', rest - {e}, p) <==> Unvisited(stack', rest, p) {
            VisitFileSame(w, stack', rest, |stack| - 1, e, 0, p);
          }
          if e in used {
            VisitUsedEntry(w, files, dirs, stack', rest, counts', |stack| - 1, e);
            counts' := counts'[dir := true];
          } else {
            VisitUnusedEntry(w, files, dirs, stack', rest, counts', |stack| - 1, e);
            RemoveAll(e);
          }
        }
        rest := rest - {e};
      }
    }

    /** The Exit branch of the loop for a directory other than the root. */
    method Leave(base: seq<Frame>, frame: Frame, counts: map<Path, bool>, ghost w: World)
      returns (counts': map<Path, bool>)
      requires frame.phase.Exit? && frame.parent.Some? && Inv(w, files, dirs, base + [frame], {}, counts, 0)
      modifies this`files, this`dirs
      ensures Inv(w, files, dirs, base, {}, counts', 0)
      ensures UnvisitedDirs(w, base) == UnvisitedDirs(w, base + [frame])
    {
      hide FileOk, DirOk, UnvisitedDirs;
      counts' := counts;
      assert FrameOk(w, base + [frame], |base|) && CountOk(w, counts, base + [frame], {}, |base|);
      MarkIsExact(w, counts, base, frame);
      ExitKeepsUnvisited(w, base, frame);
      if !counts[frame.dir] {
        ExitUnused(w, files, dirs, base, frame, counts, 0);
        RemoveAll(frame.dir);
      } else {
        ExitUsed(w, files, dirs, base, frame, counts, 0);
        counts' := counts[frame.parent.value := true];
      }
    }

    /** The Enter branch of the loop. */
    method EnterTop(base: seq<Frame>, frame: Frame, counts: map<Path, bool>, ghost w: World)
      returns (stack': seq<Frame>, counts': map<Path, bool>)
      requires used == w.used && frame.phase.Enter? && Inv(w, files, dirs, base + [frame], {}, counts, 0)
      modifies this`files, this`dirs
      ensures Inv(w, files, dirs, stack', {}, counts', |base|)
      ensures UnvisitedDirs(w, stack') < UnvisitedDirs(w, base + [frame])
    {
      hide FileOk, DirOk, Unvisited, StackOk, CountOk, RestOk, IsTree;
      EnterDir(w, files, dirs, base, frame, counts, 0);
      EnterShrinks(w, base, frame);
      var entries := Entries(files, dirs, frame.dir);
      stack', counts' := base + [frame.(phase := Exit)], counts[frame.dir := false];
      ghost var left := set d | d in w.dirs && Unvisited(stack', entries, d);
      stack', counts' := VisitEntries(entries, frame.dir, stack', counts', w);
      assert UnvisitedDirs(w, stack') == left;
    }

    method Prune(ghost w: World)
      requires w == World(files, dirs, used) && IsTree(w)
      modifies this`files, this`dirs
      ensures files == PrunedFiles(w) && dirs == PrunedDirs(w)
      ensures forall f :: f in files <==> f in old(files) && f in used
      ensures forall d :: d in dirs <==>
                d in old(dirs) && (d == [] || exists f :: f in old(files) && f in used && |d| < |f| && f[..|d|] == d)
    {
      PrunedMeans(w);
      hide FileOk, DirOk, UnvisitedDirs, CountOk, PrunedFiles, PrunedDirs;
      var root: Path := [];
      var counts: map<Path, bool> := map[root := false];
      var stack := [Frame(root, None, Enter)];
      StartIsOk(w, counts);
      while stack != []
        invariant Inv(w, files, dirs, stack, {}, counts, 0)
        decreases UnvisitedDirs(w, stack), |stack|
      {
        var frame := stack[|stack| - 1];
        var base := stack[..|stack| - 1];
        assert stack == base + [frame];
        assert FrameOk(w, stack, |base|);
        if frame.phase.Exit? {
          if frame.parent.None? {
            Finished(w, files, dirs, stack);
            return;
          }
          counts := Leave(base, frame, counts, w);
          stack := base;
        } else {
          stack, counts := EnterTop(base, frame, counts, w);
        }
      }
      Finished(w, files, dirs, stack);
    }
  }

  /** When only the root is left, or nothing, the state is the specified one. */
  lemma Finished(w: World, files: set<Path>, dirs: set<Path>, stack: seq<Frame>)
    requires forall f: Path :: FileOk(w, files, stack, {}, f)
    requires forall d: Path :: DirOk(w, dirs, stack, {}, d)
    requires IsTree(w) && (stack == [] || stack == [Frame([], None, Exit)])
    ensures files == PrunedFiles(w) && dirs == PrunedDirs(w)
  {
    forall p: Path ensures p in files <==> p in PrunedFiles(w) {
      assert FileOk(w, files, stack, {}, p) && !Unvisited(stack, {}, p);
    }
    forall p: Path ensures p in dirs <==> p in PrunedDirs(w) {
      assert DirOk(w, dirs, stack, {}, p) && !Unvisited(stack, {}, p);
      assert OnStack(stack, p) ==> p == [];
    }
  }

  lemma ExitKeepsUnvisited(w: World, base: seq<Frame>, frame: Frame)
    requires StackOk(w, base + [frame]) && frame.phase.Exit?
    ensures UnvisitedDirs(w, base) == UnvisitedDirs(w, base + [frame])
  {
    hide StackOk, Unvisited;
    forall p: Path ensures Unvisited(base, {}, p) <==> Unvisited(base + [frame], {}, p) {
      ExitSame(w, base, frame, p);
    }
  }

  /** Entering a directory takes it out of the unvisited ones. */
  lemma EnterShrinks(w: World, base: seq<Frame>, frame: Frame)
    requires IsTree(w) && StackOk(w, base + [frame]) && frame.phase.Enter?
    ensures var stack', rest := base + [frame.(phase := Exit)], Entries(w.files, w.dirs, frame.dir);
            && frame.dir in UnvisitedDirs(w, base + [frame])
            && (set d | d in w.dirs && Unvisited(stack', rest, d)) == UnvisitedDirs(w, base + [frame]) - {frame.dir}
  {
    var stack, d := base + [frame], frame.dir;
    var stack', rest := base + [frame.(phase := Exit)], Entries(w.files, w.dirs, d);
    assert FrameOk(w, stack, |base|);
    TopIsOnStack(base, frame);
    forall i: nat | i < |base| && base[i].phase.Enter? ensures !(base[i].dir <= d) {
      assert PairOk(stack, i, |base|);
    }
    assert !Unvisited(stack', rest, d);
    hide Unvisited;
    forall p | p in w.dirs && p != d ensures Unvisited(stack', rest, p) <==> Unvisited(stack, {}, p) {
      EnterSame(w, base, frame, 0, p);
    }
  }

  /** An entry is one of the tree, and its kind can be read off the current state. */
  lemma InRestIsKnown(w: World, files: set<Path>, dirs: set<Path>, stack: seq<Frame>, rest: set<Path>, e: Path)
    requires IsTree(w) && e in rest && (e in w.files || e in w.dirs)
    requires forall d: Path :: DirOk(w, dirs, stack, rest, d)
    ensures e in dirs <==> e in w.dirs
  {
    assert DirOk(w, dirs, stack, rest, e);
    InRestIsUnvisited(stack, rest, e);
  }

  lemma StartIsOk(w: World, counts: map<Path, bool>)
    requires IsTree(w)
    ensures Inv(w, w.files, w.dirs, [Frame([], None, Enter)], {}, counts, 0)
  {
    var stack := [Frame([], None, Enter)];
    forall p: Path ensures Unvisited(stack, {}, p) {
      assert stack[0].phase.Enter? && stack[0].dir <= p;
    }
  }

  // ---------- The specification ----------

  /** Recursively: a directory is kept when one of its entries is a used file or a kept directory. */
  lemma KeptByItsEntries(w: World, d: Path)
    requires IsTree(w)
    ensures HasUsed(w, d) <==>
            exists e :: e in Entries(w.files, w.dirs, d)
                        && ((e in w.files && e in w.used) || (e in w.dirs && HasUsed(w, e)))
  {
    if HasUsed(w, d) {
      var f :| f in w.files && f in w.used && d < f;
      var e := EntryTowards(w, d, f);
      assert e in Entries(w.files, w.dirs, d);
      if e != f {
        AncestorIsDir(w, e, f);
        assert e < f;
      }
    }
    if e :| e in Entries(w.files, w.dirs, d) && ((e in w.files && e in w.used) || (e in w.dirs && HasUsed(w, e))) {
      assert d < e;
      if e !in w.files || e !in w.used {
        var f :| f in w.files && f in w.used && e < f;
        PrefixTransitive(d, e, f);
      }
    }
  }

  /** What pruning leaves is a tree again, and pruning it once more changes nothing. */
  lemma PruningIsIdempotent(w: World)
    requires IsTree(w)
    ensures var w' := World(PrunedFiles(w), PrunedDirs(w), w.used);
            IsTree(w') && PrunedFiles(w') == PrunedFiles(w) && PrunedDirs(w') == PrunedDirs(w)
  {
    var w' := World(PrunedFiles(w), PrunedDirs(w), w.used);
    forall d ensures HasUsed(w', d) <==> HasUsed(w, d) {
      if HasUsed(w, d) {
        var f :| f in w.files && f in w.used && d < f;
        assert f in w'.files;
      }
    }
    forall p | (p in w'.files || p in w'.dirs) && p != [] ensures Parent(p) in w'.dirs {
      assert Parent(p) < p;
      if p in w'.dirs {
        var f :| f in w.files && f in w.used && p < f;
        PrefixTransitive(Parent(p), p, f);
      }
    }
  }
}
