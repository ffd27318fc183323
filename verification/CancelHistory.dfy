/**
 Runs of the cancellation protocol told by their steps: which step decided the result of a call,
 which request an error came from, in which order a call visits tokens, and which canceled tokens
 their parents still list.
 */
module CancelHistory {
  import opened Wrappers
  import opened Cancellation
  import opened CancelProtocol

  // ---------- Runs by their last step ----------

  lemma {:induction false} RunByLast(s: State, steps: seq<Step>)
    requires steps != [] && Runnable(s, steps)
    ensures var n := |steps| - 1;
            && Runnable(s, steps[..n]) && Enabled(Exec(s, steps[..n]), steps[n])
            && Exec(s, steps) == Apply(Exec(s, steps[..n]), steps[n])
    decreases |steps|
  {
    hide Enabled, Apply;
    var n := |steps| - 1;
    if n > 0 {
      var s', rest := Apply(s, steps[0]), steps[1..];
      RunByLast(s', rest);
      assert steps[..n][1..] == rest[..n - 1];
    } else {
      assert steps[1..] == [];
    }
  }

  lemma {:induction false} PrefixRuns(s: State, steps: seq<Step>, i: nat)
    requires Runnable(s, steps) && i <= |steps|
    ensures Runnable(s, steps[..i])
    decreases |steps| - i
  {
    if i < |steps| {
      PrefixRuns(s, steps, i + 1);
      RunByLast(s, steps[..i + 1]);
      assert steps[..i + 1][..i] == steps[..i];
    } else {
      assert steps[..i] == steps;
    }
  }

  /** The state before step i of a run. */
  function Before(steps: seq<Step>, i: nat): State
    requires Runnable(INITIAL, steps) && i <= |steps|
  {
    PrefixRuns(INITIAL, steps, i);
    Exec(INITIAL, steps[..i])
  }

  lemma NextState(steps: seq<Step>, i: nat)
    requires Runnable(INITIAL, steps) && i < |steps|
    ensures Enabled(Before(steps, i), steps[i]) && Before(steps, i + 1) == Apply(Before(steps, i), steps[i])
    ensures Inv(Before(steps, i)) && Inv(Before(steps, i + 1))
    ensures Extends(Before(steps, i), Before(steps, i + 1))
  {
    PrefixRuns(INITIAL, steps, i + 1);
    RunByLast(INITIAL, steps[..i + 1]);
    assert steps[..i + 1][..i] == steps[..i];
    PrefixRuns(INITIAL, steps, i);
    RunFromStart(steps[..i]);
    StepKeepsInv(Before(steps, i), steps[i]);
  }

  // ---------- The result of a call ----------

  /** The call has passed its first critical section. */
  ghost predicate Decided(s: State, c: nat) {
    c < |s.calls| && !s.calls[c].phase.Starting?
  }

  /** Only the call's own first critical section decides it, by whether its target is live there. */
  lemma StepDecides(s: State, step: Step, c: nat)
    requires Enabled(s, step) && Decided(Apply(s, step), c) && !Decided(s, c)
    ensures step == CancelTarget(c) && c < |s.calls| && s.calls[c].target < |s.tokens|
    ensures Apply(s, step).calls[c].phase == Returned(AlreadyCanceled) <==> !Live(s.tokens, s.calls[c].target)
    ensures Apply(s, step).calls[c].target == s.calls[c].target
  {
    hide UnregisterChild;
  }

  lemma StepKeepsDecision(s: State, step: Step, c: nat)
    requires Enabled(s, step) && Decided(s, c)
    ensures Decided(Apply(s, step), c) && Apply(s, step).calls[c].target == s.calls[c].target
    ensures Apply(s, step).calls[c].phase == Returned(AlreadyCanceled) <==>
            s.calls[c].phase == Returned(AlreadyCanceled)
    ensures step != CancelTarget(c)
  {
    hide UnregisterChild;
  }

  /** Step i is the first critical section of call c, and its outcome is what the call reports. */
  ghost predicate DecidedAt(steps: seq<Step>, n: nat, i: nat, c: nat)
    requires Runnable(INITIAL, steps) && n <= |steps|
  {
    && i < n && steps[i] == CancelTarget(c) && c < |Before(steps, n).calls|
    && var t := Before(steps, n).calls[c].target;
       && t < |Before(steps, i).tokens|
       && (Before(steps, n).calls[c].phase == Returned(AlreadyCanceled) <==> !Live(Before(steps, i).tokens, t))
  }

  lemma {:induction false} FindDecision(steps: seq<Step>, n: nat, c: nat) returns (i: nat)
    requires Runnable(INITIAL, steps) && n <= |steps| && Decided(Before(steps, n), c)
    ensures DecidedAt(steps, n, i, c)
    decreases n
  {
    hide Before;
    if n == 0 {
      NothingBefore(steps);
    }
    NextState(steps, n - 1);
    var s := Before(steps, n - 1);
    if Decided(s, c) {
      i := FindDecision(steps, n - 1, c);
      StepKeepsDecision(s, steps[n - 1], c);
    } else {
      i := n - 1;
      StepDecides(s, steps[n - 1], c);
    }
  }

  lemma NothingBefore(steps: seq<Step>)
    requires Runnable(INITIAL, steps)
    ensures Before(steps, 0) == INITIAL
  {
    assert steps[..0] == [];
  }

  lemma {:induction false} StaysDecided(steps: seq<Step>, i: nat, n: nat, c: nat)
    requires Runnable(INITIAL, steps) && i < n <= |steps| && steps[i] == CancelTarget(c)
    ensures Decided(Before(steps, n), c)
    decreases n
  {
    hide Before;
    NextState(steps, n - 1);
    if i < n - 1 {
      StaysDecided(steps, i, n - 1, c);
      StepKeepsDecision(Before(steps, n - 1), steps[n - 1], c);
    } else {
      FirstSectionDecides(Before(steps, i), c);
    }
  }

  lemma FirstSectionDecides(s: State, c: nat)
    requires Enabled(s, CancelTarget(c))
    ensures Decided(Apply(s, CancelTarget(c)), c)
  {
  }

  /** A call returns CanceledByUs if and only if its target was live when the call entered its first
      critical section; it enters it exactly once. */
  lemma ResultTellsTarget(steps: seq<Step>, c: nat)
    requires Runnable(INITIAL, steps)
    requires c < |Exec(INITIAL, steps).calls| && Exec(INITIAL, steps).calls[c].phase.Returned?
    ensures exists i: nat :: i < |steps| && steps[i] == CancelTarget(c)
    ensures forall i: nat, j: nat ::
              i < |steps| && j < |steps| && steps[i] == CancelTarget(c) && steps[j] == CancelTarget(c) ==> i == j
    ensures forall i: nat :: i < |steps| && steps[i] == CancelTarget(c) ==>
              var call := Exec(INITIAL, steps).calls[c];
              && call.target < |Before(steps, i).tokens|
              && (call.phase.result.CanceledByUs? <==> Live(Before(steps, i).tokens, call.target))
  {
    var n := |steps|;
    assert steps[..n] == steps;
    assert Before(steps, n) == Exec(INITIAL, steps);
    hide Before, Exec, Runnable;
    var k := FindDecision(steps, n, c);
    forall i: nat | i < |steps| && steps[i] == CancelTarget(c) ensures i == k {
      if i < k {
        StaysDecided(steps, i, k, c);
        NextState(steps, k);
        StepKeepsDecision(Before(steps, k), steps[k], c);
      } else if k < i {
        StaysDecided(steps, k, i, c);
        NextState(steps, i);
        StepKeepsDecision(Before(steps, i), steps[i], c);
      }
    }
  }

  // ---------- The requests behind calls and errors ----------

  /** Step i made call c: a request from outside, or a construction under a canceled parent that
      passes on the parent's error. */
  ghost predicate MadeBy(steps: seq<Step>, i: nat, c: nat, call: Call)
    requires Runnable(INITIAL, steps) && i < |steps|
  {
    var s := Before(steps, i);
    && c == |s.calls|
    && (if call.fromConstructor
        then exists p: nat :: && steps[i] == NewChild(p) && p < |s.tokens| && s.tokens[p].err == Some(call.err)
                              && call.target == |s.tokens|
        else steps[i] == Begin(call.target, call.err))
  }

  lemma StepMakesCall(s: State, step: Step, c: nat)
    requires Enabled(s, step) && |s.calls| <= c < |Apply(s, step).calls|
    ensures c == |s.calls|
    ensures var call := Apply(s, step).calls[c];
            && (call.fromConstructor ==> step.NewChild? && step.of < |s.tokens| && call.target == |s.tokens|
                                         && s.tokens[step.of].err == Some(call.err))
            && (!call.fromConstructor ==> step == Begin(call.target, call.err))
  {
    hide UnregisterChild;
  }

  /** Every call goes back to the step that made it. */
  lemma {:induction false} CallIsMade(steps: seq<Step>, n: nat, c: nat) returns (i: nat)
    requires Runnable(INITIAL, steps) && n <= |steps| && c < |Before(steps, n).calls|
    ensures i < n && MadeBy(steps, i, c, Before(steps, n).calls[c])
    decreases n
  {
    hide Before;
    if n == 0 {
      NothingBefore(steps);
    }
    NextState(steps, n - 1);
    var s := Before(steps, n - 1);
    if c < |s.calls| {
      i := CallIsMade(steps, n - 1, c);
    } else {
      i := n - 1;
      StepMakesCall(s, steps[n - 1], c);
    }
  }

  /** Step i made token t: a root, or a child of p, linked to p if and only if p was live. */
  ghost predicate TokenMadeBy(steps: seq<Step>, i: nat, t: nat, token: Token)
    requires Runnable(INITIAL, steps) && i < |steps|
  {
    var s := Before(steps, i);
    && t == |s.tokens|
    && (match token.origin
        case None => steps[i] == NewRoot && token.parent == None
        case Some(p) => && steps[i] == NewChild(p) && p < |s.tokens|
                        && token.parent == if Live(s.tokens, p) then Some(p) else None)
  }

  lemma StepMakesToken(s: State, step: Step, t: nat)
    requires Inv(s) && Enabled(s, step) && |s.tokens| <= t < |Apply(s, step).tokens|
    ensures t == |s.tokens|
    ensures var token := Apply(s, step).tokens[t];
            match token.origin
            case None => step == NewRoot && token.parent == None
            case Some(p) => && step == NewChild(p) && p < |s.tokens|
                            && token.parent == if Live(s.tokens, p) then Some(p) else None
  {
    hide UnregisterChild, TreeInv, AttemptsInv, ErrorsRequested, NothingLost;
    if step.UnregisterTarget? {
      UnregisterInCall(s, step.call);
    }
  }

  /** Every token goes back to the step that made it, with the origin and the parent of that step. */
  lemma {:induction false} TokenIsMade(steps: seq<Step>, n: nat, t: nat) returns (i: nat)
    requires Runnable(INITIAL, steps) && n <= |steps| && t < |Before(steps, n).tokens|
    ensures i < n && TokenMadeBy(steps, i, t, Before(steps, n).tokens[t])
    decreases n
  {
    hide Before;
    if n == 0 {
      NothingBefore(steps);
    }
    NextState(steps, n - 1);
    var s := Before(steps, n - 1);
    if t < |s.tokens| {
      i := TokenIsMade(steps, n - 1, t);
    } else {
      i := n - 1;
      StepMakesToken(s, steps[n - 1], t);
    }
  }

  /** Conversely every request takes effect: a token for each NewRoot and NewChild, and a call with the
      given target and error for each Begin, under the next free number. */
  ghost predicate Served(steps: seq<Step>, i: nat, s: State)
    requires Runnable(INITIAL, steps) && i < |steps|
  {
    var t, c := |Before(steps, i).tokens|, |Before(steps, i).calls|;
    match steps[i]
    case NewRoot => t < |s.tokens| && s.tokens[t].origin == None
    case NewChild(p) => t < |s.tokens| && s.tokens[t].origin == Some(p)
    case Begin(target, e) => && c < |s.calls| && s.calls[c].target == target && s.calls[c].err == e
                             && !s.calls[c].fromConstructor
    case _ => true
  }

  lemma {:induction false} RequestIsServed(steps: seq<Step>, i: nat, n: nat)
    requires Runnable(INITIAL, steps) && i < n <= |steps|
    ensures Served(steps, i, Before(steps, n))
    decreases n
  {
    hide Before;
    NextState(steps, n - 1);
    if i < n - 1 {
      RequestIsServed(steps, i, n - 1);
    } else {
      StepServes(Before(steps, i), steps[i]);
    }
  }

  lemma StepServes(s: State, step: Step)
    requires Enabled(s, step)
    ensures var s', t, c := Apply(s, step), |s.tokens|, |s.calls|;
            && (step.NewRoot? || step.NewChild? ==>
                  t < |s'.tokens| && s'.tokens[t].origin == if step.NewRoot? then None else Some(step.of))
            && (step.Begin? ==> && c < |s'.calls| && s'.calls[c].target == step.token && s'.calls[c].err == step.err
                                && !s'.calls[c].fromConstructor)
  {
  }

  /** A token's error was given, in a request of the run, to Cancel on the token or on an ancestor. */
  lemma ErrorWasRequested(steps: seq<Step>, t: nat)
    requires Runnable(INITIAL, steps)
    requires t < |Exec(INITIAL, steps).tokens| && Exec(INITIAL, steps).tokens[t].err.Some?
    ensures exists i: nat, a: nat ::
              && i < |steps| && steps[i] == Begin(a, Exec(INITIAL, steps).tokens[t].err.value)
              && AncestorOrSelf(Exec(INITIAL, steps).tokens, a, t)
  {
    ErrorComesFromAncestor(steps, t);
    var s := Exec(INITIAL, steps);
    var c :| 0 <= c < |s.calls| && !s.calls[c].fromConstructor && s.tokens[t].err == Some(s.calls[c].err)
             && AncestorOrSelf(s.tokens, s.calls[c].target, t);
    assert steps[..|steps|] == steps;
    assert Before(steps, |steps|) == s;
    hide Exec, Runnable, Before;
    var i := CallIsMade(steps, |steps|, c);
    assert steps[i] == Begin(s.calls[c].target, s.tokens[t].err.value);
  }

  // ---------- Queues and sibling lists ----------

  /** Number of ancestors of a token. */
  function Depth(tokens: seq<Token>, t: nat): nat
    decreases t
  {
    if t < |tokens| && tokens[t].origin.Some? && tokens[t].origin.value < t
    then 1 + Depth(tokens, tokens[t].origin.value) else 0
  }

  /** The parent of a queued token is canceled. */
  ghost predicate Detached(tokens: seq<Token>, q: nat) {
    && q < |tokens| && tokens[q].parent.Some? && tokens[q].parent.value < |tokens|
    && !Live(tokens, tokens[q].parent.value)
  }

  ghost predicate ByDepth(tokens: seq<Token>, queue: seq<nat>) {
    && (forall i, j :: 0 <= i < j < |queue| ==> Depth(tokens, queue[i]) <= Depth(tokens, queue[j]))
    && (forall i :: 0 <= i < |queue| ==> Depth(tokens, queue[i]) <= Depth(tokens, queue[0]) + 1)
  }

  ghost predicate QueueOk(tokens: seq<Token>, queue: seq<nat>) {
    ByDepth(tokens, queue) && forall q :: q in queue ==> Detached(tokens, q)
  }

  ghost predicate QueuesOk(s: State) {
    forall c :: 0 <= c < |s.calls| ==> QueueOk(s.tokens, s.calls[c].queue)
  }

  /** Token x is live, or a call is about to take it off its parent's list. */
  ghost predicate LiveOrLeaving(s: State, x: nat) {
    x < |s.tokens| && (Live(s.tokens, x) || exists c :: IsLeaving(s, c, x))
  }

  ghost predicate IsLeaving(s: State, c: nat, x: nat) {
    c < |s.calls| && s.calls[c].phase.Unregistering? && s.calls[c].target == x
  }

  ghost predicate ListedAt(s: State, p: nat, i: nat) {
    p < |s.tokens| && i < |s.tokens[p].children| ==> LiveOrLeaving(s, s.tokens[p].children[i])
  }

  ghost predicate ListsOk(s: State) {
    forall p: nat, i: nat :: ListedAt(s, p, i)
  }

  lemma {:induction false} DepthKept(s: State, s': State, t: nat)
    requires Extends(s, s') && t < |s.tokens|
    ensures Depth(s'.tokens, t) == Depth(s.tokens, t)
    decreases t
  {
    if s.tokens[t].origin.Some? && s.tokens[t].origin.value < t {
      DepthKept(s, s', s.tokens[t].origin.value);
    }
  }

  lemma QueueKept(s: State, s': State, queue: seq<nat>)
    requires Extends(s, s') && QueueOk(s.tokens, queue)
    ensures QueueOk(s'.tokens, queue)
  {
    forall i | 0 <= i < |queue| ensures Depth(s'.tokens, queue[i]) == Depth(s.tokens, queue[i]) {
      assert Detached(s.tokens, queue[i]);
      DepthKept(s, s', queue[i]);
    }
    hide Depth;
    forall q | q in queue ensures Detached(s'.tokens, q) {
      assert Detached(s.tokens, q);
    }
  }

  /** The children of a token lie one level below it. */
  lemma ChildrenBelow(tokens: seq<Token>, t: nat, i: nat)
    requires TreeInv(tokens) && t < |tokens| && i < |tokens[t].children|
    ensures var q := tokens[t].children[i];
            q < |tokens| && tokens[q].parent == Some(t) && Depth(tokens, q) == Depth(tokens, t) + 1
  {
    assert LinkedAt(tokens, t, i);
  }

  /** The queue after visiting t: what was behind t, and then the children of t. */
  lemma QueueAfterVisit(s: State, s': State, t: nat, rest: seq<nat>)
    requires TreeInv(s.tokens) && Extends(s, s') && t < |s.tokens| && !Live(s'.tokens, t)
    requires QueueOk(s.tokens, rest)
    requires forall q :: q in rest ==> Depth(s.tokens, t) <= Depth(s.tokens, q) <= Depth(s.tokens, t) + 1
    ensures QueueOk(s'.tokens, rest + s.tokens[t].children)
  {
    hide Depth, TreeInv;
    var kids := s.tokens[t].children;
    var queue := rest + kids;
    QueueKept(s, s', rest);
    forall i | 0 <= i < |rest| ensures Depth(s'.tokens, queue[i]) == Depth(s.tokens, rest[i]) {
      assert Detached(s.tokens, rest[i]);
      DepthKept(s, s', rest[i]);
    }
    forall i | 0 <= i < |kids|
      ensures Depth(s'.tokens, kids[i]) == Depth(s.tokens, t) + 1 && Detached(s'.tokens, kids[i])
    {
      ChildrenBelow(s.tokens, t, i);
      DepthKept(s, s', kids[i]);
    }
    assert forall i :: 0 <= i < |queue| ==> queue[i] == if i < |rest| then rest[i] else kids[i - |rest|];
  }

  lemma CallQueueKept(s: State, step: Step, c: nat)
    requires Inv(s) && Enabled(s, step) && QueuesOk(s) && c < |s.calls|
    requires Extends(s, Apply(s, step))
    ensures QueueOk(Apply(s, step).tokens, Apply(s, step).calls[c].queue)
  {
    hide UnregisterChild, Extends, QueueOk, TreeInv, AttemptsInv, ErrorsRequested, NothingLost;
    var s', call := Apply(s, step), s.calls[c];
    assert CallInvAt(s, c);
    if s'.calls[c].queue == call.queue {
      QueueKept(s, s', call.queue);
    } else if step.CancelTarget? {
      EmptyQueue(s.tokens);
      QueueAfterVisit(s, s', call.target, []);
      assert [] + s.tokens[call.target].children == s.tokens[call.target].children;
    } else {
      var t := call.queue[0];
      QueueTail(s.tokens, call.queue);
      if Live(s.tokens, t) {
        QueueAfterVisit(s, s', t, call.queue[1..]);
      } else {
        assert call.queue[1..] + [] == call.queue[1..];
        QueueKept(s, s', call.queue[1..]);
      }
    }
  }

  lemma EmptyQueue(tokens: seq<Token>)
    ensures QueueOk(tokens, [])
  {
  }

  lemma QueueTail(tokens: seq<Token>, queue: seq<nat>)
    requires queue != [] && QueueOk(tokens, queue)
    ensures queue[0] < |tokens| && QueueOk(tokens, queue[1..])
    ensures forall q :: q in queue[1..] ==>
              Depth(tokens, queue[0]) <= Depth(tokens, q) <= Depth(tokens, queue[0]) + 1
  {
    hide Depth;
    assert Detached(tokens, queue[0]);
    var rest := queue[1..];
    assert forall i :: 0 <= i < |rest| ==> rest[i] == queue[i + 1] && rest[i] in queue;
    forall i | 0 <= i < |rest| ensures Depth(tokens, rest[i]) <= Depth(tokens, rest[0]) + 1 {
      assert Depth(tokens, queue[0]) <= Depth(tokens, queue[1]);
    }
  }

  lemma StepKeepsQueues(s: State, step: Step)
    requires Inv(s) && Enabled(s, step) && QueuesOk(s)
    ensures QueuesOk(Apply(s, step))
  {
    StepKeepsInv(s, step);
    hide Inv, Extends, QueueOk;
    var s' := Apply(s, step);
    forall c | 0 <= c < |s'.calls| ensures QueueOk(s'.tokens, s'.calls[c].queue) {
      if c < |s.calls| {
        CallQueueKept(s, step, c);
      } else {
        NewCallQueue(s, step, c);
        EmptyQueue(s'.tokens);
      }
    }
  }

  lemma NewCallQueue(s: State, step: Step, c: nat)
    requires Enabled(s, step) && |s.calls| <= c < |Apply(s, step).calls|
    ensures Apply(s, step).calls[c].queue == []
  {
    hide UnregisterChild;
  }

  // ---------- Who is still listed ----------

  /** After its unregister step the target of a call is on no list, and no list has grown. */
  lemma UnregisteredIsGone(s: State, c: nat, p: nat, i: nat)
    requires Inv(s) && Enabled(s, UnregisterTarget(c))
    requires var s' := Apply(s, UnregisterTarget(c)); p < |s'.tokens| && i < |s'.tokens[p].children|
    ensures p < |s.tokens|
    ensures var x := Apply(s, UnregisterTarget(c)).tokens[p].children[i];
            x in s.tokens[p].children && x != s.calls[c].target
  {
    hide AttemptsInv, ErrorsRequested, NothingLost;
    var t := s.calls[c].target;
    var s' := Apply(s, UnregisterTarget(c));
    assert CallInvAt(s, c);
    UnregisterInCall(s, c);
    var q := s.tokens[t].parent;
    if q.Some? && Live(s.tokens, q.value) {
      UnregisterSwaps(s.tokens, q.value, t);
      SwapRemovedIsGone(s.tokens, s'.tokens, q.value, t, p, i);
    } else {
      assert LinkedAt(s.tokens, p, i);
    }
  }

  lemma SwapRemovedIsGone(tokens: seq<Token>, tokens': seq<Token>, q: nat, t: nat, p: nat, i: nat)
    requires TreeInv(tokens) && q < |tokens| && Registered(tokens, t) && tokens[t].parent == Some(q)
    requires SwapRemoved(tokens, tokens', q, t) && p < |tokens'| && i < |tokens'[p].children|
    ensures tokens'[p].children[i] in tokens[p].children && tokens'[p].children[i] != t
  {
    var last := |tokens[q].children| - 1;
    assert LinkedAt(tokens, p, i) && LinkedAt(tokens, q, last);
  }

  /** Cancelling t takes nothing from the lists but the list of t itself. */
  lemma VisitedLists(s: State, step: Step, p: nat, i: nat)
    requires Enabled(s, step) && (step.CancelTarget? || step.DrainOne?)
    requires p < |Apply(s, step).tokens| && i < |Apply(s, step).tokens[p].children|
    ensures p < |s.tokens| && Apply(s, step).tokens[p].children == s.tokens[p].children
    ensures Apply(s, step).tokens[p].err == s.tokens[p].err
  {
  }

  /** A step that leaves a listed token on its list keeps it live or leaving. */
  lemma StaysListed(s: State, step: Step, p: nat, x: nat)
    requires Inv(s) && Enabled(s, step) && QueuesOk(s) && LiveOrLeaving(s, x)
    requires p < |s.tokens| && x in s.tokens[p].children
    requires step.UnregisterTarget? ==> x != s.calls[step.call].target
    ensures LiveOrLeaving(Apply(s, step), x)
  {
    StepKeepsInv(s, step);
    hide AttemptsInv, ErrorsRequested, NothingLost, UnregisterChild, QueueOk;
    var s' := Apply(s, step);
    if Live(s'.tokens, x) {
    } else if Live(s.tokens, x) {
      ErrorAppears(s, step, x);
      if step.CancelTarget? {
        assert IsLeaving(s', step.call, x);
      } else {
        ListedIsNotQueued(s, step.call, p, x);
      }
    } else {
      var c :| IsLeaving(s, c, x);
      assert IsLeaving(s', c, x);
    }
  }

  lemma ListedIsNotQueued(s: State, c: nat, p: nat, x: nat)
    requires TreeInv(s.tokens) && QueuesOk(s) && c < |s.calls| && x in s.calls[c].queue
    requires p < |s.tokens| && Live(s.tokens, p)
    ensures x !in s.tokens[p].children
  {
    assert QueueOk(s.tokens, s.calls[c].queue) && Detached(s.tokens, x);
    forall i: nat | i < |s.tokens[p].children| ensures s.tokens[p].children[i] != x {
      assert LinkedAt(s.tokens, p, i);
    }
  }

  lemma StepKeepsListed(s: State, step: Step, p: nat, i: nat)
    requires Inv(s) && Enabled(s, step) && QueuesOk(s) && ListsOk(s)
    requires p < |Apply(s, step).tokens| && i < |Apply(s, step).tokens[p].children|
    ensures LiveOrLeaving(Apply(s, step), Apply(s, step).tokens[p].children[i])
  {
    hide Inv, QueuesOk, UnregisterChild;
    var x := Apply(s, step).tokens[p].children[i];
    if step.CancelTarget? || step.DrainOne? {
      VisitedLists(s, step, p, i);
    } else if step.UnregisterTarget? {
      UnregisteredIsGone(s, step.call, p, i);
    }
    if p < |s.tokens| && x in s.tokens[p].children {
      var k :| 0 <= k < |s.tokens[p].children| && s.tokens[p].children[k] == x;
      assert ListedAt(s, p, k);
      StaysListed(s, step, p, x);
    }
  }

  lemma StepKeepsLists(s: State, step: Step)
    requires Inv(s) && Enabled(s, step) && QueuesOk(s) && ListsOk(s)
    ensures ListsOk(Apply(s, step))
  {
    hide Inv, QueuesOk, ListsOk, Apply, LiveOrLeaving;
    forall p: nat, i: nat ensures ListedAt(Apply(s, step), p, i) {
      if p < |Apply(s, step).tokens| && i < |Apply(s, step).tokens[p].children| {
        StepKeepsListed(s, step, p, i);
      }
    }
    assert ListsOk(Apply(s, step)) by { AllListed(Apply(s, step)); }
  }

  lemma AllListed(s: State)
    requires forall p: nat, i: nat :: ListedAt(s, p, i)
    ensures ListsOk(s)
  {
  }

  lemma {:induction false} RunKeepsLists(s: State, steps: seq<Step>)
    requires Inv(s) && QueuesOk(s) && ListsOk(s) && Runnable(s, steps)
    ensures QueuesOk(Exec(s, steps)) && ListsOk(Exec(s, steps))
    decreases |steps|
  {
    hide Inv, QueuesOk, ListsOk, Apply, Enabled;
    if steps != [] {
      StepKeepsInv(s, steps[0]);
      StepKeepsQueues(s, steps[0]);
      StepKeepsLists(s, steps[0]);
      RunKeepsLists(Apply(s, steps[0]), steps[1..]);
    }
  }

  /** In every reachable state each child on a token's list is live, or is the target of a call that
      has canceled it and is about to take it off the list. */
  lemma ListedChildrenAreLive(steps: seq<Step>, p: nat, i: nat)
    requires Runnable(INITIAL, steps)
    requires p < |Exec(INITIAL, steps).tokens| && i < |Exec(INITIAL, steps).tokens[p].children|
    ensures var s := Exec(INITIAL, steps);
            LiveOrLeaving(s, s.tokens[p].children[i])
  {
    RunFromStart([]);
    RunKeepsLists(INITIAL, steps);
    assert ListedAt(Exec(INITIAL, steps), p, i);
  }

  /** In every reachable state the queue of every call is in order of depth over at most two levels,
      and the parents of its tokens are canceled: calls work breadth first in every interleaving. */
  lemma QueuesAreByDepth(steps: seq<Step>, c: nat, i: nat, j: nat)
    requires Runnable(INITIAL, steps) && c < |Exec(INITIAL, steps).calls|
    requires i < j < |Exec(INITIAL, steps).calls[c].queue|
    ensures var s := Exec(INITIAL, steps);
            var queue := s.calls[c].queue;
            && Depth(s.tokens, queue[i]) <= Depth(s.tokens, queue[j]) <= Depth(s.tokens, queue[0]) + 1
            && Detached(s.tokens, queue[i])
  {
    RunFromStart([]);
    RunKeepsLists(INITIAL, steps);
    var s := Exec(INITIAL, steps);
    assert QueueOk(s.tokens, s.calls[c].queue);
  }
}
