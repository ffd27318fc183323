/**
 The token of the cancellation tree as an object, run by one goroutine at a time.

 `world` is a set of tokens closed under parents and children. The source's sanity checks
 are kept in the code and shown to be unreachable.
 */
module CancelToken {
  import opened Wrappers
  import opened Cancellation

  class RawToken {
    var parent: RawToken?
    var parentIdx: nat
    var children: seq<RawToken>
    var err: Option<Error>
    var done: bool
    ghost const depth: nat

    /** The state of the fields before registration. */
    constructor (parent: RawToken?)
      ensures this.parent == parent && parentIdx == 0 && children == [] && err == None && !done
      ensures depth == if parent == null then 0 else parent.depth + 1
    {
      this.parent := parent;
      parentIdx := 0;
      children := [];
      err := None;
      done := false;
      depth := if parent == null then 0 else parent.depth + 1;
    }

    method RegisterChild(child: RawToken) returns (e: Option<Error>)
      requires child != this
      modifies this`children, child`parentIdx
      ensures e == err
      ensures err.None? ==> children == old(children) + [child] && child.parentIdx == |old(children)|
      ensures err.Some? ==> children == old(children) && child.parentIdx == old(child.parentIdx)
    {
      if err.Some? {
        return err;
      }
      child.parentIdx := |children|;
      children := children + [child];
      return None;
    }

    method UnregisterChild(child: RawToken, ghost world: set<RawToken>)
      requires Tree(world) && this in world && child in world
      requires child.parent == this && child.err.Some?
      requires err.None? ==> Registered(child)
      modifies this`children, children`parentIdx
      ensures Tree(world)
      ensures multiset(children) == multiset(old(children)) - multiset{child}
      ensures forall t :: t in world && t != child && old(Registered(t)) ==> Registered(t)
      ensures forall t :: t in world && Orphan(t, world) ==> old(Orphan(t, world))
    {
      if err.Some? {
        assert TokenInv(this, world);
        return;
      }
      var idx, n := child.parentIdx, |children|;
      if n <= idx || children[idx] != child {
        assert false;
      }
      assert TokenInv(this, world) && ChildAt(this, n - 1, world);
      SwapRemove(child);
      SwapRemovedDropsOne(old(children), idx);
      forall t | t in world && t != child && old(Registered(t)) ensures Registered(t) {
        assert t.parent == this && old(t.parentIdx) == n - 1 ==> t == old(children)[n - 1];
      }
      forall t | t in world ensures TokenInv(t, world) {
        assert old(TokenInv(t, world));
        forall i: nat ensures ChildAt(t, i, world) {
          assert old(ChildAt(t, i, world));
        }
      }
    }

    /** The last sibling takes the place of `child`. */
    method SwapRemove(child: RawToken)
      requires child.parentIdx < |children| && children[child.parentIdx] == child
      requires var last := children[|children| - 1]; last.parent == this && last.parentIdx == |children| - 1
      modifies this`children, children`parentIdx
      ensures children == SwapRemoved(old(children), old(child.parentIdx))
      ensures old(children)[|old(children)| - 1].parentIdx == old(child.parentIdx)
      ensures forall t :: t in old(children) && t != old(children)[|old(children)| - 1] ==>
                t.parentIdx == old(t.parentIdx)
    {
      var idx, last := child.parentIdx, |children| - 1;
      if idx != last {
        var moved := children[last];
        children := children[idx := moved];
        if moved.parent != this {
          assert false;
        }
        moved.parentIdx := idx;
      }
      children := children[..last];
    }

    method CancelSelfAndDetachChildren(e: Error, queue: seq<RawToken>, ghost world: set<RawToken>)
      returns (result: CancelResult, queue': seq<RawToken>)
      requires Tree(world) && this in world
      modifies this`err, this`done, this`children
      ensures Tree(world)
      ensures result == if old(err).Some? then AlreadyCanceled else CanceledByUs
      ensures old(Loose([this] + queue, world)) ==> Loose(queue', world)
      ensures result.AlreadyCanceled? ==> queue' == queue && unchanged(this)
      ensures result.CanceledByUs? ==> queue' == queue + old(children) && err == Some(e) && children == []
    {
      if err.Some? {
        return AlreadyCanceled, queue;
      }
      err := Some(e);
      done := true;
      var detached := children;
      children := [];
      forall t | t in world ensures TokenInv(t, world) {
        assert old(TokenInv(t, world));
        forall i: nat ensures ChildAt(t, i, world) {
          assert old(ChildAt(t, i, world));
        }
      }
      forall t | t in world && Orphan(t, world) && old(Loose([this] + queue, world)) ensures t in queue + detached {
        assert old(TokenInv(t, world));
        if t.parent != this {
          assert old(Orphan(t, world));
        }
      }
      return CanceledByUs, queue + detached;
    }

    /** Cancel on a tree on which no other call is at work. `order` lists the tokens in the
        order in which this call cancels them. */
    method Cancel(e: Error, ghost world: set<RawToken>) returns (result: CancelResult, ghost order: seq<RawToken>)
      requires Tree(world) && this in world && Loose([], world)
      modifies world`err, world`done, world`children, world`parentIdx
      ensures Tree(world) && Loose([], world)
      ensures result == if old(err).Some? then AlreadyCanceled else CanceledByUs
      // Exactly the live tokens of the subtree get the error; no error changes outside it.
      ensures forall t :: t in world ==>
                t.err == if old(err).None? && Under(t, this, world) && old(t.err).None? then Some(e) else old(t.err)
      // They are reached breadth first, each once.
      ensures forall t :: t in order <==> t in world && t.err != old(t.err)
      ensures forall i, j :: 0 <= i < j < |order| ==> order[i] != order[j] && order[i].depth <= order[j].depth
      // Outside the subtree only the sibling list of the receiver changes, by dropping the receiver.
      ensures forall t :: t in world && !Under(t, this, world) && t != parent ==> t.children == old(t.children)
      ensures parent != null && old(parent.err).None? && old(err).None? ==>
                multiset(parent.children) == multiset(old(parent.children)) - multiset{this}
      ensures forall t :: t in world && (parent == null || t.parent != parent) ==> t.parentIdx == old(t.parentIdx)
      ensures result.AlreadyCanceled? ==> unchanged(world)
    {
      order := [];
      assert TokenInv(this, world);
      ghost var sub := set t | t in world && Under(t, this, world);
      CanceledBelowSet(this, sub, world);
      var queue: seq<RawToken>;
      result, queue := CancelSelfAndUnregister(e, world);
      if result.AlreadyCanceled? {
        return AlreadyCanceled, [];
      }
      QueueOfChildren(this, queue, sub, world);
      order := Drain(e, queue, sub, world);
      order := [this] + order;
      CanceledBelowSet(this, sub, world);
    }

    /** The first part of Cancel, up to the loop. */
    method CancelSelfAndUnregister(e: Error, ghost world: set<RawToken>)
      returns (result: CancelResult, queue: seq<RawToken>)
      requires Tree(world) && this in world && Loose([], world)
      modifies this`err, this`done, world`children, world`parentIdx
      ensures Tree(world) && Loose(queue, world)
      ensures result == if old(err).Some? then AlreadyCanceled else CanceledByUs
      ensures err == if result.CanceledByUs? then Some(e) else old(err)
      ensures forall i, j :: 0 <= i < j < |queue| ==> queue[i] != queue[j]
      ensures forall c :: c in queue ==> c in world && c.parent == this
      ensures forall t :: t in world && t != this && t != parent ==> t.children == old(t.children)
      ensures forall t :: t in world && (parent == null || t.parent != parent) ==> t.parentIdx == old(t.parentIdx)
      ensures result.AlreadyCanceled? ==> unchanged(world)
      ensures result.CanceledByUs? && parent != null && parent in world && parent.err.None? ==>
                multiset(parent.children) == multiset(old(parent.children)) - multiset{this}
    {
      assert TokenInv(this, world);
      ChildrenApart(this, world);
      result, queue := CancelSelfAndDetachChildren(e, [], world);
      if result.CanceledByUs? && parent != null {
        ChildrenApart(parent, world);
        parent.UnregisterChild(this, world);
      }
    }

    /** The loop of Cancel on a receiver with subtree `sub`; `pending` holds its detached children. */
    static method Drain(e: Error, pending: seq<RawToken>, ghost sub: set<RawToken>, ghost world: set<RawToken>)
      returns (ghost order: seq<RawToken>)
      requires Tree(world) && Closed(sub, world)
      requires Loose(pending, world) && QueueInv(pending, sub, world)
      modifies world`err, world`done, world`children
      ensures Tree(world) && Loose([], world)
      ensures forall t :: t in world ==> t.err == if t in order then Some(e) else old(t.err)
      ensures forall t :: t in order ==> t in sub && old(t.err).None?
      ensures Sorted(order)
      ensures forall t :: t in world && t !in sub ==> t.children == old(t.children)
    {
      hide TokenInv, Orphan, Tree, Loose, Closed, Under, Sorted;
      order := [];
      SortedStart();
      var queue := pending;
      while queue != []
        invariant Tree(world) && Loose(queue, world)
        invariant QueueInv(queue, sub, world)
        invariant forall t :: t in world ==> t.err == if t in order then Some(e) else old(t.err)
        invariant forall t :: t in order ==> t in sub && old(t.err).None?
        invariant Sorted(order) && (queue != [] && order != [] ==> order[|order| - 1].depth <= queue[0].depth)
        invariant forall t :: t in world && t !in sub ==> t.children == old(t.children)
        decreases LiveSet(world), |queue|
      {
        ghost var live := LiveSet(world);
        var descendant := queue[0];
        var r, queue' := descendant.Visit(e, queue, sub, world);
        queue := queue';
        if r.CanceledByUs? {
          assert descendant in live;
          SortedAppend(order, descendant);
          order := order + [descendant];
        }
      }
    }

    /** One round of the loop, with the receiver at the front of the queue. */
    method Visit(e: Error, queue: seq<RawToken>, ghost sub: set<RawToken>, ghost world: set<RawToken>)
      returns (r: CancelResult, queue': seq<RawToken>)
      requires Tree(world) && Closed(sub, world) && queue != [] && queue[0] == this
      requires Loose(queue, world) && QueueInv(queue, sub, world)
      modifies this`err, this`done, this`children
      ensures Tree(world) && Loose(queue', world) && QueueInv(queue', sub, world)
      ensures queue' != [] ==> depth <= queue'[0].depth
      ensures r == if old(err).Some? then AlreadyCanceled else CanceledByUs
      ensures r.AlreadyCanceled? ==> queue' == queue[1..] && err == old(err)
      ensures r.CanceledByUs? ==> err == Some(e)
    {
      ChildrenApart(this, world);
      assert queue == [this] + queue[1..];
      r, queue' := CancelSelfAndDetachChildren(e, queue[1..], world);
      QueueAdvances(queue, queue', this, sub, world);
    }
  }

  // ---------- The shape of the tree ----------

  ghost predicate Registered(t: RawToken)
    reads t, t.parent
  {
    t.parent != null && t.parentIdx < |t.parent.children| && t.parent.children[t.parentIdx] == t
  }

  ghost predicate ChildAt(t: RawToken, i: nat, world: set<RawToken>)
    reads t, world
  {
    i < |t.children| ==>
      t.children[i] in world && t.children[i].parent == t && t.children[i].parentIdx == i
  }

  ghost predicate TokenInv(t: RawToken, world: set<RawToken>)
    requires t in world
    reads world
  {
    && (t.parent != null ==> t.parent in world && t.depth == t.parent.depth + 1)
    && t.done == t.err.Some?
    && (t.err.Some? ==> t.children == [])
    && (forall i: nat :: ChildAt(t, i, world))
    && (t.err.None? && t.parent != null && t.parent.err.None? ==> Registered(t))
  }

  ghost predicate Tree(world: set<RawToken>)
    reads world
  {
    forall t {:trigger TokenInv(t, world)} :: t in world ==> TokenInv(t, world)
  }

  ghost predicate Orphan(t: RawToken, world: set<RawToken>)
    reads world
  {
    t in world && t.err.None? && t.parent != null && t.parent in world && t.parent.err.Some?
  }

  /** A live token has a live parent, except for those a Cancel call still holds in its queue. */
  ghost predicate Loose(queue: seq<RawToken>, world: set<RawToken>)
    reads world
  {
    forall t {:trigger Orphan(t, world)} :: t in world && Orphan(t, world) ==> t in queue
  }

  ghost function LiveSet(world: set<RawToken>): set<RawToken>
    reads world`err
  {
    set t | t in world && t.err.None?
  }

  /** t is in the subtree of root: root is t or an ancestor of t. */
  ghost predicate Under(t: RawToken, root: RawToken, world: set<RawToken>)
    reads world`parent
    decreases t.depth
  {
    t in world && (t == root || (t.parent != null && t.parent.depth < t.depth && Under(t.parent, root, world)))
  }

  ghost predicate Sorted(order: seq<RawToken>) {
    forall i, j :: 0 <= i < j < |order| ==> order[i] != order[j] && order[i].depth <= order[j].depth
  }

  lemma SortedAppend(order: seq<RawToken>, t: RawToken)
    requires Sorted(order) && t !in order && (order != [] ==> order[|order| - 1].depth <= t.depth)
    ensures Sorted(order + [t])
  {
  }

  lemma SortedStart()
    ensures Sorted([])
  {
  }

  ghost predicate Closed(sub: set<RawToken>, world: set<RawToken>)
    reads world`parent
  {
    sub <= world && forall t :: t in world && t.parent != null && t.parent in sub ==> t in sub
  }

  /** What a Cancel knows about its queue: distinct orphans of the subtree, by depth, over at
      most two levels. */
  ghost predicate QueueInv(queue: seq<RawToken>, sub: set<RawToken>, world: set<RawToken>)
    reads world
  {
    && Sorted(queue)
    && (forall q :: q in queue ==> q in world && q in sub)
    && (forall q :: q in queue ==> q.parent != null && q.parent in world && q.parent.err.Some?)
    && (forall i :: 0 <= i < |queue| ==> queue[i].depth <= queue[0].depth + 1)
  }

  /** The sequence without its entry idx, whose place the last entry takes. */
  function SwapRemoved(s: seq<RawToken>, idx: nat): (r: seq<RawToken>)
    requires idx < |s|
    ensures |r| == |s| - 1 && forall i :: 0 <= i < |r| ==> r[i] == s[if i == idx then |s| - 1 else i]
  {
    var last := |s| - 1;
    if idx == last then s[..last] else s[idx := s[last]][..last]
  }

  lemma SwapRemovedDropsOne(s: seq<RawToken>, idx: nat)
    requires idx < |s|
    ensures multiset(SwapRemoved(s, idx)) == multiset(s) - multiset{s[idx]}
  {
    var last := |s| - 1;
    assert s == s[..last] + [s[last]];
    if idx != last {
      var s' := s[idx := s[last]];
      assert s' == s'[..last] + [s[last]];
    }
  }

  lemma ChildrenApart(t: RawToken, world: set<RawToken>)
    requires Tree(world) && t in world
    ensures forall i, j :: 0 <= i < j < |t.children| ==> t.children[i] != t.children[j]
    ensures forall c :: c in t.children ==> c in world && c.parent == t
  {
    assert TokenInv(t, world);
    forall i: nat, j: nat | i < j < |t.children| ensures t.children[i] != t.children[j] {
      assert ChildAt(t, i, world) && ChildAt(t, j, world);
    }
    forall c | c in t.children ensures c in world && c.parent == t {
      var i :| 0 <= i < |t.children| && t.children[i] == c;
      assert ChildAt(t, i, world);
    }
  }

  lemma QueueOfChildren(root: RawToken, kids: seq<RawToken>, sub: set<RawToken>, world: set<RawToken>)
    requires Tree(world) && root in world && root.err.Some?
    requires forall i, j :: 0 <= i < j < |kids| ==> kids[i] != kids[j]
    requires forall c :: c in kids ==> c in world && c.parent == root
    requires sub == set t | t in world && Under(t, root, world)
    ensures QueueInv(kids, sub, world) && Closed(sub, world)
  {
    assert Under(root, root, world);
    forall q | q in kids ensures q in sub && q.depth == root.depth + 1 {
      assert TokenInv(q, world);
    }
    forall t | t in world && t.parent != null && t.parent in sub ensures t in sub {
      assert TokenInv(t, world);
    }
  }

  /** Popping a token and appending its detached children keeps the queue in order. */
  lemma QueueAdvances(
    queue: seq<RawToken>, queue': seq<RawToken>, d: RawToken, sub: set<RawToken>, world: set<RawToken>)
    requires Tree(world) && Closed(sub, world) && queue != [] && queue[0] == d && d in world
    requires Sorted(queue) && forall i :: 0 <= i < |queue| ==> queue[i].depth <= queue[0].depth + 1
    requires forall q :: q in queue ==> q in world && q in sub
    requires forall q :: q in queue ==> q.parent != null && q.parent in world && q.parent.err.Some?
    requires |queue| <= |queue'| ==> forall q :: q in queue ==> q.parent != d
    requires |queue| - 1 <= |queue'| && queue'[..|queue| - 1] == queue[1..] && d.err.Some?
    requires forall c :: c in queue'[|queue| - 1..] ==> c in world && c.parent == d
    requires forall i, j :: |queue| - 1 <= i < j < |queue'| ==> queue'[i] != queue'[j]
    ensures QueueInv(queue', sub, world) && (queue' != [] ==> d.depth <= queue'[0].depth)
  {
    var n := |queue| - 1;
    forall i | 0 <= i < n ensures queue'[i] == queue[i + 1] && queue'[i] in queue {
      assert queue'[i] == queue'[..n][i] == queue[1..][i];
    }
    forall i | n <= i < |queue'| ensures queue'[i] in world && queue'[i] in sub && queue'[i].parent == d
                                         && queue'[i].depth == d.depth + 1 {
      assert queue'[i] in queue'[n..];
      assert TokenInv(queue'[i], world);
    }
    hide TokenInv, Closed;
    forall i, j | 0 <= i < j < |queue'| ensures queue'[i] != queue'[j] && queue'[i].depth <= queue'[j].depth {
      if j < n {
        assert queue[i + 1] != queue[j + 1] && queue[i + 1].depth <= queue[j + 1].depth;
      } else if i < n {
        assert queue'[i].parent != d && queue[i + 1].depth <= queue[0].depth + 1;
      }
    }
  }

  lemma {:induction false} CanceledBelow(t: RawToken, root: RawToken, world: set<RawToken>)
    requires Tree(world) && Loose([], world) && Under(t, root, world)
    ensures t.depth >= root.depth && (root.err.Some? ==> t.err.Some?)
    decreases t.depth
  {
    if t != root {
      CanceledBelow(t.parent, root, world);
      assert TokenInv(t, world) && !Orphan(t, world);
    }
  }

  lemma CanceledBelowSet(root: RawToken, sub: set<RawToken>, world: set<RawToken>)
    requires Tree(world) && Loose([], world) && root in world
    requires sub == set t | t in world && Under(t, root, world)
    ensures root in sub && root.parent !in sub
    ensures forall t :: t in sub ==> t.depth >= root.depth && (root.err.Some? ==> t.err.Some?)
  {
    assert Under(root, root, world);
    forall t | t in sub ensures t.depth >= root.depth && (root.err.Some? ==> t.err.Some?) {
      CanceledBelow(t, root, world);
    }
    if root.parent != null {
      assert TokenInv(root, world);
    }
  }

  // ---------- Construction ----------

  /** A new token under `parent`, or a root. Under a canceled parent the new token has no
      parent and is born canceled with the parent's error. */
  method NewChildToken(parent: RawToken?, ghost world: set<RawToken>) returns (t: RawToken)
    requires Tree(world) && Loose([], world) && (parent != null ==> parent in world)
    modifies world`children
    ensures fresh(t) && Tree(world + {t}) && Loose([], world + {t})
    ensures parent == null || parent.err.Some? ==> t.parent == null && unchanged(world)
    ensures parent != null ==> t.err == parent.err
    ensures parent == null ==> t.err == None
    ensures parent != null && parent.err.None? ==> t.parent == parent && parent.children == old(parent.children) + [t]
    ensures forall u :: u in world && u != parent ==> u.children == old(u.children)
  {
    t := new RawToken(parent);
    if parent == null {
      JoinAlone(t, world);
      return;
    }
    var e := parent.RegisterChild(t);
    if e.Some? {
      t.parent := null;
      CancelAlone(t, e.value);
      JoinAlone(t, world);
    } else {
      ghost var world' := world + {t};
      forall u | u in world' ensures TokenInv(u, world') {
        if u in world {
          assert old(TokenInv(u, world));
          forall i: nat ensures ChildAt(u, i, world') {
            assert old(ChildAt(u, i, world));
          }
        }
      }
      forall u | u in world' ensures !Orphan(u, world') {
        if u in world {
          assert old(TokenInv(u, world)) && !old(Orphan(u, world));
        }
      }
    }
  }

  /** Cancel on a token that has neither parent nor children. */
  method CancelAlone(t: RawToken, e: Error)
    requires t.parent == null && t.children == [] && t.err == None && !t.done
    modifies t`err, t`done, t`children, t`parentIdx
    ensures t.err == Some(e) && t.done && t.children == []
  {
    assert TokenInv(t, {t});
    var result, order := t.Cancel(e, {t});
    assert TokenInv(t, {t}) && Under(t, t, {t});
  }

  /** A token without parent and children joins the tree. */
  lemma JoinAlone(t: RawToken, world: set<RawToken>)
    requires Tree(world) && Loose([], world) && t !in world
    requires t.parent == null && t.children == [] && t.done == t.err.Some?
    ensures Tree(world + {t}) && Loose([], world + {t})
  {
    var world' := world + {t};
    forall u | u in world' ensures TokenInv(u, world') && !Orphan(u, world') {
      if u in world {
        assert TokenInv(u, world) && !Orphan(u, world);
        forall i: nat ensures ChildAt(u, i, world') {
          assert ChildAt(u, i, world);
        }
      }
    }
  }
}
