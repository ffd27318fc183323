/**
 The cancellation tree as a concurrent protocol.

 Every critical section of a token's mutex is one atomic step. Any number of NewChild and
 Cancel calls may be in flight; between two of its steps a Cancel call holds a private queue
 of tokens it still has to cancel. A call stays in the state after it has returned, so the
 state also records the results of all calls.
 */
module CancelProtocol {
  import opened Wrappers
  import opened Cancellation

  /** `origin` is the token NewChild was called on. `parent` is the field of the same name in
      the source: it is dropped when the origin was already canceled at construction time. */
  datatype Token = Token(
    origin: Option<nat>,
    parent: Option<nat>,
    parentIdx: nat,
    children: seq<nat>,
    err: Option<Error>,
    doneCloses: nat)

  datatype Phase = Starting | Unregistering | Draining | Returned(result: CancelResult)

  /** `fromConstructor` marks the Cancel that the construction of a token under a canceled
      parent performs itself; all other calls come from the outside. */
  datatype Call = Call(target: nat, err: Error, fromConstructor: bool, phase: Phase, queue: seq<nat>)

  /** One execution of the "cancel self and detach children" critical section. */
  datatype Attempt = Attempt(token: nat, err: Error, result: CancelResult)

  /** `violated` records that one of the sanity checks in the unregister step has fired. */
  datatype State = State(tokens: seq<Token>, calls: seq<Call>, attempts: seq<Attempt>, violated: bool)

  datatype Step =
    | NewRoot
    | NewChild(of: nat)
    | Begin(token: nat, err: Error)
    | CancelTarget(call: nat)
    | UnregisterTarget(call: nat)
    | DrainOne(call: nat)

  const INITIAL := State([], [], [], false)

  // ---------- The critical sections ----------

  predicate Live(tokens: seq<Token>, t: nat)
    requires t < |tokens|
  {
    tokens[t].err.None?
  }

  function FreshToken(origin: Option<nat>, parent: Option<nat>, parentIdx: nat): Token {
    Token(origin, parent, parentIdx, [], None, 0)
  }

  /** Registration of a new token, which becomes the last element of `tokens`. */
  function RegisterNew(tokens: seq<Token>, p: nat): seq<Token>
    requires p < |tokens|
  {
    var siblings := tokens[p].children;
    tokens[p := tokens[p].(children := siblings + [|tokens|])] + [FreshToken(Some(p), Some(p), |siblings|)]
  }

  function CancelSelfAndDetach(tokens: seq<Token>, t: nat, e: Error): (seq<Token>, seq<nat>, CancelResult)
    requires t < |tokens|
  {
    if tokens[t].err.Some? then
      (tokens, [], AlreadyCanceled)
    else
      (tokens[t := tokens[t].(err := Some(e), doneCloses := tokens[t].doneCloses + 1, children := [])],
       tokens[t].children, CanceledByUs)
  }

  datatype Unregistration = Violation | Unregistered(tokens: seq<Token>)

  /** Swap-remove of `child` from the children of `p`, with every sanity check of the source. */
  function UnregisterChild(tokens: seq<Token>, p: nat, child: nat): Unregistration
    requires p < |tokens| && child < |tokens|
  {
    var siblings := tokens[p].children;
    if tokens[p].err.Some? then
      if siblings != [] then Violation else Unregistered(tokens)
    else
      var idx := tokens[child].parentIdx;
      if |siblings| <= idx || siblings[idx] != child then
        Violation
      else
        var last := |siblings| - 1;
        if idx == last then
          Unregistered(tokens[p := tokens[p].(children := siblings[..last])])
        else
          var moved := siblings[last];
          if |tokens| <= moved || tokens[moved].parent != Some(p) then
            Violation
          else
            var tokens' := tokens[p := tokens[p].(children := siblings[idx := moved][..last])];
            Unregistered(tokens'[moved := tokens'[moved].(parentIdx := idx)])
  }

  // ---------- Steps and runs ----------

  predicate Enabled(s: State, step: Step) {
    match step
    case NewRoot => true
    case NewChild(p) => p < |s.tokens|
    case Begin(t, _) => t < |s.tokens|
    case CancelTarget(c) => c < |s.calls| && s.calls[c].phase.Starting? && s.calls[c].target < |s.tokens|
    case UnregisterTarget(c) =>
      && c < |s.calls| && s.calls[c].phase.Unregistering? && s.calls[c].target < |s.tokens|
      && (s.tokens[s.calls[c].target].parent.Some? ==> s.tokens[s.calls[c].target].parent.value < |s.tokens|)
    case DrainOne(c) =>
      && c < |s.calls| && s.calls[c].phase.Draining?
      && (s.calls[c].queue != [] ==> s.calls[c].queue[0] < |s.tokens|)
  }

  function Apply(s: State, step: Step): State
    requires Enabled(s, step)
  {
    match step
    case NewRoot =>
      s.(tokens := s.tokens + [FreshToken(None, None, 0)])
    case NewChild(p) =>
      if s.tokens[p].err.None? then
        s.(tokens := RegisterNew(s.tokens, p))
      else
        s.(tokens := s.tokens + [FreshToken(Some(p), None, 0)],
           calls := s.calls + [Call(|s.tokens|, s.tokens[p].err.value, true, Starting, [])])
    case Begin(t, e) =>
      s.(calls := s.calls + [Call(t, e, false, Starting, [])])
    case CancelTarget(c) =>
      var call := s.calls[c];
      var (tokens', detached, result) := CancelSelfAndDetach(s.tokens, call.target, call.err);
      var call' := if result.CanceledByUs? then call.(phase := Unregistering, queue := detached)
                   else call.(phase := Returned(AlreadyCanceled));
      s.(tokens := tokens', calls := s.calls[c := call'],
         attempts := s.attempts + [Attempt(call.target, call.err, result)])
    case UnregisterTarget(c) =>
      var call := s.calls[c];
      var calls' := s.calls[c := call.(phase := Draining)];
      if s.tokens[call.target].parent.None? then
        s.(calls := calls')
      else (
        match UnregisterChild(s.tokens, s.tokens[call.target].parent.value, call.target)
        case Violation => s.(violated := true)
        case Unregistered(tokens') => s.(tokens := tokens', calls := calls'))
    case DrainOne(c) =>
      var call := s.calls[c];
      if call.queue == [] then
        s.(calls := s.calls[c := call.(phase := Returned(CanceledByUs))])
      else
        var (tokens', detached, result) := CancelSelfAndDetach(s.tokens, call.queue[0], call.err);
        s.(tokens := tokens', calls := s.calls[c := call.(queue := call.queue[1..] + detached)],
           attempts := s.attempts + [Attempt(call.queue[0], call.err, result)])
  }

  predicate Runnable(s: State, steps: seq<Step>)
    decreases |steps|
  {
    steps == [] || (Enabled(s, steps[0]) && Runnable(Apply(s, steps[0]), steps[1..]))
  }

  function Exec(s: State, steps: seq<Step>): State
    requires Runnable(s, steps)
    decreases |steps|
  {
    if steps == [] then s else Exec(Apply(s, steps[0]), steps[1..])
  }

  // ---------- The invariant ----------

  ghost predicate AncestorOrSelf(tokens: seq<Token>, a: nat, t: nat)
    decreases t
  {
    t < |tokens| &&
    (a == t
     || (tokens[t].origin.Some? && tokens[t].origin.value < t && AncestorOrSelf(tokens, a, tokens[t].origin.value)))
  }

  predicate InFlight(call: Call) {
    !call.phase.Returned?
  }

  /** The tokens an in-flight call still has to visit. */
  function Pending(call: Call): seq<nat> {
    match call.phase
    case Starting => [call.target]
    case Unregistering => call.queue
    case Draining => call.queue
    case Returned(_) => []
  }

  /** The call won the race for its target. */
  predicate Won(call: Call) {
    call.phase.Unregistering? || call.phase.Draining? || call.phase == Returned(CanceledByUs)
  }

  ghost predicate Origins(tokens: seq<Token>) {
    forall t :: 0 <= t < |tokens| ==>
                  && (tokens[t].origin.Some? ==> tokens[t].origin.value < t)
                  && (tokens[t].parent.Some? ==> tokens[t].parent == tokens[t].origin)
  }

  /** Entry i of the children of p names p as its parent and i as its index. */
  ghost predicate Linked(tokens: seq<Token>, p: nat, i: nat)
    requires p < |tokens| && i < |tokens[p].children|
  {
    var c := tokens[p].children[i];
    c < |tokens| && tokens[c].parent == Some(p) && tokens[c].parentIdx == i
  }

  ghost predicate LinkedAt(tokens: seq<Token>, p: nat, i: nat) {
    p < |tokens| && i < |tokens[p].children| ==> Linked(tokens, p, i)
  }

  ghost predicate ChildrenLinked(tokens: seq<Token>) {
    forall p: nat, i: nat :: LinkedAt(tokens, p, i)
  }

  ghost predicate CanceledIsBare(tokens: seq<Token>) {
    forall t :: 0 <= t < |tokens| && tokens[t].err.Some? ==> tokens[t].children == []
  }

  /** t is in its parent's children at the place its index says. */
  ghost predicate Registered(tokens: seq<Token>, t: nat) {
    && t < |tokens| && tokens[t].parent.Some? && tokens[t].parent.value < |tokens|
    && var siblings := tokens[tokens[t].parent.value].children;
       tokens[t].parentIdx < |siblings| && siblings[tokens[t].parentIdx] == t
  }

  ghost predicate RegisteredIfLive(tokens: seq<Token>, t: nat) {
    t < |tokens| && tokens[t].err.None? && tokens[t].origin.Some?
    && tokens[t].origin.value < |tokens| && tokens[tokens[t].origin.value].err.None?
    ==> Registered(tokens, t)
  }

  ghost predicate LiveIsRegistered(tokens: seq<Token>) {
    forall t: nat :: RegisteredIfLive(tokens, t)
  }

  ghost predicate DoneIffErr(tokens: seq<Token>) {
    forall t :: 0 <= t < |tokens| ==> tokens[t].doneCloses == (if tokens[t].err.Some? then 1 else 0)
  }

  ghost predicate TreeInv(tokens: seq<Token>) {
    && Origins(tokens) && ChildrenLinked(tokens) && CanceledIsBare(tokens)
    && LiveIsRegistered(tokens) && DoneIffErr(tokens)
  }

  ghost predicate CallInv(tokens: seq<Token>, call: Call) {
    && call.target < |tokens|
    && (forall q :: q in call.queue ==> q < |tokens|)
    && (!call.phase.Starting? ==> tokens[call.target].err.Some?)
    && (call.phase.Starting? || call.phase.Returned? ==> call.queue == [])
    && (Won(call) ==> tokens[call.target].err == Some(call.err))
    && (call.phase.Unregistering? && tokens[call.target].parent.Some? ==>
          && tokens[call.target].parent.value < |tokens|
          && (tokens[tokens[call.target].parent.value].err.None? ==> Registered(tokens, call.target)))
  }

  ghost predicate CallInvAt(s: State, c: nat) {
    c < |s.calls| ==> CallInv(s.tokens, s.calls[c])
  }

  ghost predicate CallsInv(s: State) {
    && (forall c: nat :: CallInvAt(s, c))
    && (forall c, d :: 0 <= c < d < |s.calls| && Won(s.calls[c]) && Won(s.calls[d]) ==>
                         s.calls[c].target != s.calls[d].target)
  }

  ghost predicate OwedBySomeone(s: State, t: nat) {
    exists c :: 0 <= c < |s.calls| && t in Pending(s.calls[c])
  }

  ghost predicate OwedIfOrphaned(s: State, t: nat) {
    t < |s.tokens| && s.tokens[t].err.None? && s.tokens[t].origin.Some?
    && s.tokens[t].origin.value < |s.tokens| && s.tokens[s.tokens[t].origin.value].err.Some?
    ==> OwedBySomeone(s, t)
  }

  /** A live token below a canceled one is still on some call's list. */
  ghost predicate NothingLost(s: State) {
    forall t: nat :: OwedIfOrphaned(s, t)
  }

  ghost predicate WinIn(attempts: seq<Attempt>, i: nat, t: nat) {
    i < |attempts| && attempts[i].token == t && attempts[i].result.CanceledByUs?
  }

  ghost predicate WonIfCanceled(s: State, t: nat) {
    t < |s.tokens| && s.tokens[t].err.Some? ==> exists i: nat :: WinIn(s.attempts, i, t)
  }

  ghost predicate AttemptsInv(s: State) {
    && (forall i :: 0 <= i < |s.attempts| ==> s.attempts[i].token < |s.tokens|)
    && (forall i :: 0 <= i < |s.attempts| && s.attempts[i].result.CanceledByUs? ==>
                      s.tokens[s.attempts[i].token].err == Some(s.attempts[i].err))
    && (forall i, j :: 0 <= i < j < |s.attempts|
                       && s.attempts[i].result.CanceledByUs? && s.attempts[j].result.CanceledByUs?
                       ==> s.attempts[i].token != s.attempts[j].token)
    && (forall t: nat :: WonIfCanceled(s, t))
  }

  /** Some outside caller passed `e` to Cancel on `t` or on an ancestor of `t`. */
  ghost predicate Requested(s: State, t: nat, e: Error) {
    exists c :: 0 <= c < |s.calls| && RequestedBy(s, c, t, e)
  }

  ghost predicate RequestedBy(s: State, c: nat, t: nat, e: Error)
    requires c < |s.calls|
  {
    !s.calls[c].fromConstructor && s.calls[c].err == e && AncestorOrSelf(s.tokens, s.calls[c].target, t)
  }

  ghost predicate ErrorRequested(s: State, t: nat) {
    t < |s.tokens| && s.tokens[t].err.Some? ==> Requested(s, t, s.tokens[t].err.value)
  }

  ghost predicate VisitRequested(s: State, c: nat, q: nat) {
    c < |s.calls| && (q == s.calls[c].target || q in s.calls[c].queue) ==> Requested(s, q, s.calls[c].err)
  }

  ghost predicate ErrorsRequested(s: State) {
    && (forall t: nat :: ErrorRequested(s, t))
    && (forall c: nat, q: nat :: VisitRequested(s, c, q))
  }

  ghost predicate Inv(s: State) {
    !s.violated && TreeInv(s.tokens) && CallsInv(s) && NothingLost(s) && AttemptsInv(s) && ErrorsRequested(s)
  }

  // ---------- Preservation, one critical section at a time ----------

  lemma RegisterKeepsTree(tokens: seq<Token>, p: nat)
    requires TreeInv(tokens) && p < |tokens| && Live(tokens, p)
    ensures TreeInv(RegisterNew(tokens, p))
  {
    var tokens' := RegisterNew(tokens, p);
    forall q: nat, i: nat ensures LinkedAt(tokens', q, i) {
      assert LinkedAt(tokens, q, i);
    }
    forall t: nat ensures RegisteredIfLive(tokens', t) {
      assert RegisteredIfLive(tokens, t);
    }
  }

  lemma DetachKeepsTree(tokens: seq<Token>, t: nat, e: Error)
    requires TreeInv(tokens) && t < |tokens|
    ensures TreeInv(CancelSelfAndDetach(tokens, t, e).0)
  {
    var tokens' := CancelSelfAndDetach(tokens, t, e).0;
    forall q: nat, i: nat ensures LinkedAt(tokens', q, i) {
      assert LinkedAt(tokens, q, i);
    }
    forall u: nat ensures RegisteredIfLive(tokens', u) {
      assert RegisteredIfLive(tokens, u);
    }
  }

  /** Only children and indices may differ. */
  ghost predicate SameButLinks(tokens: seq<Token>, tokens': seq<Token>) {
    && |tokens'| == |tokens|
    && forall t :: 0 <= t < |tokens| ==>
                     && tokens'[t].origin == tokens[t].origin && tokens'[t].parent == tokens[t].parent
                     && tokens'[t].err == tokens[t].err && tokens'[t].doneCloses == tokens[t].doneCloses
  }

  /** What the swap-remove does, entry by entry: the last sibling takes the freed place. */
  ghost predicate SwapRemoved(tokens: seq<Token>, tokens': seq<Token>, p: nat, child: nat)
    requires p < |tokens| && Registered(tokens, child) && tokens[child].parent == Some(p)
  {
    var siblings := tokens[p].children;
    var idx, last := tokens[child].parentIdx, |siblings| - 1;
    && SameButLinks(tokens, tokens')
    && (forall q :: 0 <= q < |tokens| && q != p ==> tokens'[q].children == tokens[q].children)
    && |tokens'[p].children| == last
    && (forall i :: 0 <= i < last ==> tokens'[p].children[i] == if i == idx then siblings[last] else siblings[i])
    && (forall t :: 0 <= t < |tokens| && t != child ==>
                      tokens'[t].parentIdx == if t == siblings[last] then idx else tokens[t].parentIdx)
  }

  lemma UnregisterSwaps(tokens: seq<Token>, p: nat, child: nat)
    requires TreeInv(tokens) && p < |tokens| && Live(tokens, p)
    requires Registered(tokens, child) && tokens[child].parent == Some(p)
    ensures UnregisterChild(tokens, p, child).Unregistered?
    ensures SwapRemoved(tokens, UnregisterChild(tokens, p, child).tokens, p, child)
  {
    var last := |tokens[p].children| - 1;
    assert LinkedAt(tokens, p, last);
    assert p != tokens[p].children[last];
  }

  lemma SwapRemoveKeepsLinks(tokens: seq<Token>, tokens': seq<Token>, p: nat, child: nat)
    requires TreeInv(tokens) && p < |tokens| && Registered(tokens, child) && tokens[child].parent == Some(p)
    requires SwapRemoved(tokens, tokens', p, child)
    ensures ChildrenLinked(tokens')
    ensures forall t: nat :: t != child && Registered(tokens, t) ==> Registered(tokens', t)
  {
    var siblings := tokens[p].children;
    var idx, last := tokens[child].parentIdx, |siblings| - 1;
    assert LinkedAt(tokens, p, last) && LinkedAt(tokens, p, idx);
    forall q: nat, i: nat ensures LinkedAt(tokens', q, i) {
      assert LinkedAt(tokens, q, i);
      if q == p && i < last {
        assert i != idx ==> tokens'[p].children[i] == siblings[i] && siblings[i] != siblings[last];
      }
    }
    forall t: nat | t != child && Registered(tokens, t) ensures Registered(tokens', t) {
      var q := tokens[t].parent.value;
      assert LinkedAt(tokens, q, tokens[t].parentIdx);
    }
  }

  /** No sanity check fires on a registered child, or under a canceled parent; the tree
      invariant survives, and every other child stays registered. */
  lemma UnregisterKeepsTree(tokens: seq<Token>, p: nat, child: nat)
    requires TreeInv(tokens) && p < |tokens| && child < |tokens|
    requires tokens[child].parent == Some(p) && tokens[child].err.Some?
    requires Live(tokens, p) ==> Registered(tokens, child)
    ensures UnregisterChild(tokens, p, child).Unregistered?
    ensures var tokens' := UnregisterChild(tokens, p, child).tokens;
            && TreeInv(tokens') && SameButLinks(tokens, tokens')
            && forall t: nat :: t != child && Registered(tokens, t) ==> Registered(tokens', t)
  {
    if Live(tokens, p) {
      UnregisterSwaps(tokens, p, child);
      var tokens' := UnregisterChild(tokens, p, child).tokens;
      SwapRemoveKeepsLinks(tokens, tokens', p, child);
      forall t: nat ensures RegisteredIfLive(tokens', t) {
        assert RegisteredIfLive(tokens, t);
      }
    }
  }

  // ---------- Preservation, one protocol step at a time ----------

  /** What no step takes back: tokens and calls keep their identity, and a token that has an
      error keeps exactly that error. */
  ghost predicate Extends(s: State, s': State) {
    && |s.tokens| <= |s'.tokens| && |s.calls| <= |s'.calls|
    && s.attempts <= s'.attempts
    && (forall t :: 0 <= t < |s.tokens| ==>
                      && s'.tokens[t].origin == s.tokens[t].origin && s'.tokens[t].parent == s.tokens[t].parent
                      && (s.tokens[t].err.Some? ==> s'.tokens[t].err == s.tokens[t].err))
    && (forall c :: 0 <= c < |s.calls| ==>
                      && s'.calls[c].target == s.calls[c].target && s'.calls[c].err == s.calls[c].err
                      && s'.calls[c].fromConstructor == s.calls[c].fromConstructor
                      && (s.calls[c].phase.Returned? ==> s'.calls[c] == s.calls[c]))
  }

  lemma StepKeepsLinks(s: State, step: Step)
    requires !s.violated && TreeInv(s.tokens) && CallsInv(s) && Enabled(s, step)
    ensures TreeInv(Apply(s, step).tokens) && !Apply(s, step).violated
  {
    hide Origins, ChildrenLinked, CanceledIsBare, LiveIsRegistered, DoneIffErr;
    match step
    case NewRoot =>
      AppendLoneKeepsTree(s.tokens, None);
    case NewChild(p) =>
      if Live(s.tokens, p) {
        RegisterKeepsTree(s.tokens, p);
      } else {
        AppendLoneKeepsTree(s.tokens, Some(p));
      }
    case Begin(_, _) =>
    case CancelTarget(c) =>
      DetachKeepsTree(s.tokens, s.calls[c].target, s.calls[c].err);
    case UnregisterTarget(c) =>
      UnregisterInCall(s, c);
    case DrainOne(c) =>
      if s.calls[c].queue != [] {
        DetachKeepsTree(s.tokens, s.calls[c].queue[0], s.calls[c].err);
      }
  }

  /** The unregister step of a call, with the facts about its target filled in. */
  lemma UnregisterInCall(s: State, c: nat)
    requires TreeInv(s.tokens) && CallsInv(s) && Enabled(s, UnregisterTarget(c))
    ensures var t := s.calls[c].target;
            s.tokens[t].parent.Some? ==>
              var r := UnregisterChild(s.tokens, s.tokens[t].parent.value, t);
              && r.Unregistered? && TreeInv(r.tokens) && SameButLinks(s.tokens, r.tokens)
              && forall u: nat :: u != t && Registered(s.tokens, u) ==> Registered(r.tokens, u)
  {
    hide Origins, ChildrenLinked, CanceledIsBare, LiveIsRegistered, DoneIffErr;
    assert CallInvAt(s, c);
    var t := s.calls[c].target;
    if s.tokens[t].parent.Some? {
      UnregisterKeepsTree(s.tokens, s.tokens[t].parent.value, t);
    }
  }

  lemma StepExtends(s: State, step: Step)
    requires !s.violated && TreeInv(s.tokens) && CallsInv(s) && Enabled(s, step)
    ensures Extends(s, Apply(s, step))
  {
    hide TreeInv, UnregisterChild;
    if step.UnregisterTarget? {
      UnregisterInCall(s, step.call);
    }
  }

  lemma StepKeepsTree(s: State, step: Step)
    requires !s.violated && TreeInv(s.tokens) && CallsInv(s) && Enabled(s, step)
    ensures TreeInv(Apply(s, step).tokens) && !Apply(s, step).violated && Extends(s, Apply(s, step))
  {
    hide TreeInv, CallsInv, Apply, Extends;
    StepKeepsLinks(s, step);
    StepExtends(s, step);
  }

  /** A token created as a root, or under a canceled origin, is registered nowhere. */
  lemma AppendLoneKeepsTree(tokens: seq<Token>, origin: Option<nat>)
    requires TreeInv(tokens)
    requires origin.Some? ==> origin.value < |tokens| && !Live(tokens, origin.value)
    ensures TreeInv(tokens + [FreshToken(origin, None, 0)])
  {
    var tokens' := tokens + [FreshToken(origin, None, 0)];
    forall q: nat, i: nat ensures LinkedAt(tokens', q, i) {
      assert LinkedAt(tokens, q, i);
    }
    forall t: nat ensures RegisteredIfLive(tokens', t) {
      assert RegisteredIfLive(tokens, t);
    }
  }

  /** A call the step does not touch keeps its invariant, because registrations that matter survive. */
  lemma OtherCallKept(s: State, step: Step, c: nat)
    requires !s.violated && TreeInv(s.tokens) && CallsInv(s) && Enabled(s, step)
    requires c < |s.calls| && Apply(s, step).calls[c] == s.calls[c]
    ensures CallInv(Apply(s, step).tokens, s.calls[c])
  {
    StepKeepsTree(s, step);
    var s', call := Apply(s, step), s.calls[c];
    assert CallInvAt(s, c);
    if call.phase.Unregistering? && s.tokens[call.target].parent.Some? {
      var p := s.tokens[call.target].parent.value;
      if Live(s'.tokens, p) {
        if step.UnregisterTarget? {
          assert s.calls[step.call].target != call.target;
          UnregisterInCall(s, step.call);
        }
      }
    }
  }

  lemma StepKeepsCalls(s: State, step: Step)
    requires !s.violated && TreeInv(s.tokens) && CallsInv(s) && Enabled(s, step)
    ensures CallsInv(Apply(s, step))
  {
    hide Origins, ChildrenLinked, CanceledIsBare, LiveIsRegistered, DoneIffErr, UnregisterChild;
    StepKeepsTree(s, step);
    var s' := Apply(s, step);
    forall c: nat ensures CallInvAt(s', c) {
      if c < |s.calls| {
        assert CallInvAt(s, c);
        if s'.calls[c] == s.calls[c] {
          OtherCallKept(s, step, c);
        } else {
          MovedCallKept(s, step, c);
        }
      }
    }
    assert forall c :: 0 <= c < |s.calls| && Won(s'.calls[c]) && !Won(s.calls[c]) ==>
                         step == CancelTarget(c) && Live(s.tokens, s.calls[c].target);
    forall c, d | 0 <= c < d < |s'.calls| && Won(s'.calls[c]) && Won(s'.calls[d])
      ensures s'.calls[c].target != s'.calls[d].target
    {
      assert CallInvAt(s, c) && CallInvAt(s, d);
    }
  }

  /** The call that takes the step moves to a phase whose conditions hold. */
  lemma MovedCallKept(s: State, step: Step, c: nat)
    requires !s.violated && TreeInv(s.tokens) && CallsInv(s) && Enabled(s, step)
    requires c < |s.calls| && Apply(s, step).calls[c] != s.calls[c]
    ensures CallInv(Apply(s, step).tokens, Apply(s, step).calls[c])
  {
    StepKeepsTree(s, step);
    assert CallInvAt(s, c);
    match step
    case CancelTarget(_) =>
      var t := s.calls[c].target;
      if Live(s.tokens, t) {
        DetachedAreTokens(s.tokens, t);
        if s.tokens[t].parent.Some? && Live(s.tokens, s.tokens[t].parent.value) {
          assert RegisteredIfLive(s.tokens, t);
        }
      }
    case UnregisterTarget(_) =>
    case DrainOne(_) =>
      if s.calls[c].queue != [] {
        var t := s.calls[c].queue[0];
        DetachedAreTokens(s.tokens, t);
        assert forall q :: q in Apply(s, step).calls[c].queue ==> q in s.calls[c].queue || q in s.tokens[t].children;
      }
  }

  lemma DetachedAreTokens(tokens: seq<Token>, t: nat)
    requires TreeInv(tokens) && t < |tokens|
    ensures forall q :: q in tokens[t].children ==> q < |tokens| && tokens[q].origin == Some(t)
  {
    forall q | q in tokens[t].children ensures q < |tokens| && tokens[q].origin == Some(t) {
      var i :| 0 <= i < |tokens[t].children| && tokens[t].children[i] == q;
      assert LinkedAt(tokens, t, i);
    }
  }

  /** A live child of a token that is being canceled is among the detached ones. */
  lemma LiveChildDetached(tokens: seq<Token>, u: nat, p: nat)
    requires TreeInv(tokens) && u < |tokens| && Live(tokens, u)
    requires tokens[u].origin == Some(p) && p < |tokens| && Live(tokens, p)
    ensures u in tokens[p].children
  {
    assert RegisteredIfLive(tokens, u);
  }

  lemma StillOwed(s: State, step: Step, t: nat)
    requires !s.violated && TreeInv(s.tokens) && CallsInv(s) && Enabled(s, step) && OwedBySomeone(s, t)
    requires t < |s.tokens| <= |Apply(s, step).tokens| && Live(Apply(s, step).tokens, t)
    ensures OwedBySomeone(Apply(s, step), t)
  {
    hide Origins, ChildrenLinked, CanceledIsBare, LiveIsRegistered, DoneIffErr, UnregisterChild;
    StepKeepsTree(s, step);
    var s' := Apply(s, step);
    var c :| 0 <= c < |s.calls| && t in Pending(s.calls[c]);
    if s'.calls[c] != s.calls[c] {
      match step
      case CancelTarget(_) =>
      case UnregisterTarget(_) =>
      case DrainOne(_) =>
        assert t != s.calls[c].queue[0] && t in s.calls[c].queue[1..];
    }
    assert t in Pending(s'.calls[c]);
  }

  /** When the origin of a live token is canceled, the canceling call takes over the token. */
  lemma TakenOver(s: State, step: Step, t: nat)
    requires !s.violated && TreeInv(s.tokens) && CallsInv(s) && Enabled(s, step)
    requires t < |s.tokens| && Live(s.tokens, t) && s.tokens[t].origin.Some?
    requires s.tokens[t].origin.value < |s.tokens| && Live(s.tokens, s.tokens[t].origin.value)
    requires |s.tokens| <= |Apply(s, step).tokens| && !Live(Apply(s, step).tokens, s.tokens[t].origin.value)
    ensures OwedBySomeone(Apply(s, step), t)
  {
    var p := s.tokens[t].origin.value;
    LiveChildDetached(s.tokens, t, p);
    ErrorAppears(s, step, p);
    hide TreeInv, CallsInv;
    assert t in Pending(Apply(s, step).calls[step.call]);
  }

  lemma OrphanOwed(s: State, step: Step, t: nat)
    requires !s.violated && TreeInv(s.tokens) && CallsInv(s) && OwedIfOrphaned(s, t) && Enabled(s, step)
    ensures OwedIfOrphaned(Apply(s, step), t)
  {
    StepKeepsTree(s, step);
    hide TreeInv, CallsInv, OwedBySomeone, UnregisterChild;
    var s' := Apply(s, step);
    if t < |s'.tokens| && Live(s'.tokens, t) && s'.tokens[t].origin.Some?
       && s'.tokens[t].origin.value < |s'.tokens| && !Live(s'.tokens, s'.tokens[t].origin.value) {
      if t >= |s.tokens| {
        NewOrphanOwed(s, step, t);
      } else if s.tokens[t].origin.value < |s.tokens| && Live(s.tokens, s.tokens[t].origin.value) {
        TakenOver(s, step, t);
      } else {
        OriginIsOlder(s.tokens, t);
        StillOwed(s, step, t);
      }
    }
  }

  lemma OriginIsOlder(tokens: seq<Token>, t: nat)
    requires Origins(tokens) && t < |tokens| && tokens[t].origin.Some?
    ensures tokens[t].origin.value < t
  {
  }

  /** A token created under a canceled origin is owed by the call that its construction makes. */
  lemma NewOrphanOwed(s: State, step: Step, t: nat)
    requires !s.violated && TreeInv(s.tokens) && CallsInv(s) && Enabled(s, step)
    requires |s.tokens| <= t < |Apply(s, step).tokens|
    requires var tokens' := Apply(s, step).tokens;
             tokens'[t].origin.Some? && tokens'[t].origin.value < |tokens'| && !Live(tokens', tokens'[t].origin.value)
    ensures OwedBySomeone(Apply(s, step), t)
  {
    if step.UnregisterTarget? {
      UnregisterInCall(s, step.call);
    }
    hide TreeInv, CallsInv;
    assert t in Pending(Apply(s, step).calls[|s.calls|]);
  }

  lemma StepLosesNothing(s: State, step: Step)
    requires !s.violated && TreeInv(s.tokens) && CallsInv(s) && NothingLost(s) && Enabled(s, step)
    ensures NothingLost(Apply(s, step))
  {
    hide TreeInv, CallsInv, OwedIfOrphaned, Apply;
    var s' := Apply(s, step);
    forall t: nat ensures OwedIfOrphaned(s', t) {
      assert OwedIfOrphaned(s, t);
      OrphanOwed(s, step, t);
    }
  }

  /** The attempts made so far carry over as long as errors are never overwritten. */
  lemma AttemptsCarryOver(s: State, s': State)
    requires AttemptsInv(s) && Extends(s, s') && s'.attempts == s.attempts
    requires forall t: nat :: t < |s'.tokens| && s'.tokens[t].err.Some? ==> t < |s.tokens| && s.tokens[t].err.Some?
    ensures AttemptsInv(s')
  {
    forall t: nat ensures WonIfCanceled(s', t) {
      assert WonIfCanceled(s, t);
    }
  }

  lemma AttemptRecorded(s: State, s': State, t: nat, e: Error)
    requires AttemptsInv(s) && Extends(s, s') && t < |s.tokens| && |s'.tokens| == |s.tokens|
    requires s'.tokens == CancelSelfAndDetach(s.tokens, t, e).0
    requires s'.attempts == s.attempts + [Attempt(t, e, CancelSelfAndDetach(s.tokens, t, e).2)]
    ensures AttemptsInv(s')
  {
    forall u: nat ensures WonIfCanceled(s', u) {
      assert WonIfCanceled(s, u);
      if u < |s.tokens| && s.tokens[u].err.Some? {
        var i: nat :| WinIn(s.attempts, i, u);
        assert WinIn(s'.attempts, i, u);
      } else if u == t {
        assert WinIn(s'.attempts, |s.attempts|, u);
      }
    }
  }

  lemma StepKeepsAttempts(s: State, step: Step)
    requires !s.violated && TreeInv(s.tokens) && CallsInv(s) && AttemptsInv(s) && Enabled(s, step)
    ensures AttemptsInv(Apply(s, step))
  {
    StepKeepsTree(s, step);
    var s' := Apply(s, step);
    if step.CancelTarget? {
      AttemptRecorded(s, s', s.calls[step.call].target, s.calls[step.call].err);
    } else if step.DrainOne? && s.calls[step.call].queue != [] {
      AttemptRecorded(s, s', s.calls[step.call].queue[0], s.calls[step.call].err);
    } else {
      if step.UnregisterTarget? {
        UnregisterInCall(s, step.call);
      }
      AttemptsCarryOver(s, s');
    }
  }

  lemma {:induction false} AncestryExtends(s: State, s': State, a: nat, t: nat)
    requires Extends(s, s') && AncestorOrSelf(s.tokens, a, t)
    ensures AncestorOrSelf(s'.tokens, a, t)
    decreases t
  {
    if a != t {
      AncestryExtends(s, s', a, s.tokens[t].origin.value);
    }
  }

  lemma RequestExtends(s: State, s': State, t: nat, e: Error)
    requires Extends(s, s') && Requested(s, t, e)
    ensures Requested(s', t, e)
  {
    var c :| 0 <= c < |s.calls| && RequestedBy(s, c, t, e);
    AncestryExtends(s, s', s.calls[c].target, t);
    assert RequestedBy(s', c, t, e);
  }

  /** A request on a token covers its children. */
  lemma RequestCoversChild(s: State, t: nat, u: nat, e: Error)
    requires Requested(s, t, e) && t < u < |s.tokens| && s.tokens[u].origin == Some(t)
    ensures Requested(s, u, e)
  {
    var c :| 0 <= c < |s.calls| && RequestedBy(s, c, t, e);
    assert RequestedBy(s, c, u, e);
  }

  lemma NewCallRequested(s: State, step: Step, c: nat)
    requires !s.violated && TreeInv(s.tokens) && CallsInv(s) && ErrorsRequested(s) && Enabled(s, step)
    requires c < |Apply(s, step).calls|
    ensures Requested(Apply(s, step), Apply(s, step).calls[c].target, Apply(s, step).calls[c].err)
  {
    StepKeepsTree(s, step);
    var s' := Apply(s, step);
    if c < |s.calls| {
      assert VisitRequested(s, c, s.calls[c].target);
      RequestExtends(s, s', s.calls[c].target, s.calls[c].err);
    } else if step.Begin? {
      assert RequestedBy(s', c, step.token, step.err);
    } else {
      assert ErrorRequested(s, step.of);
      RequestExtends(s, s', step.of, s.tokens[step.of].err.value);
      RequestCoversChild(s', step.of, |s.tokens|, s.tokens[step.of].err.value);
    }
  }

  /** The token that the next step of a call visits. */
  function Visited(call: Call): (t: Option<nat>) {
    if call.phase.Starting? then Some(call.target)
    else if call.phase.Draining? && call.queue != [] then Some(call.queue[0])
    else None
  }

  /** A token gets an error only when a call visits it, and then the error of that call. */
  lemma ErrorAppears(s: State, step: Step, t: nat)
    requires !s.violated && TreeInv(s.tokens) && CallsInv(s) && Enabled(s, step)
    requires t < |Apply(s, step).tokens| && Apply(s, step).tokens[t].err.Some?
    requires t < |s.tokens| ==> Live(s.tokens, t)
    ensures (step.CancelTarget? || step.DrainOne?) && Visited(s.calls[step.call]) == Some(t)
    ensures Apply(s, step).tokens[t].err == Some(s.calls[step.call].err)
  {
    if step.UnregisterTarget? {
      UnregisterInCall(s, step.call);
    }
  }

  /** A queue only grows by the children of the token its call has just visited. */
  lemma QueueGrows(s: State, step: Step, c: nat, q: nat)
    requires !s.violated && TreeInv(s.tokens) && CallsInv(s) && Enabled(s, step)
    requires c < |Apply(s, step).calls| && q in Apply(s, step).calls[c].queue
    ensures c < |s.calls|
    ensures q in s.calls[c].queue ||
            exists t: nat :: Visited(s.calls[c]) == Some(t) && t < q < |s.tokens| && s.tokens[q].origin == Some(t)
  {
    if q !in s.calls[c].queue {
      var t := Visited(s.calls[c]).value;
      DetachedAreTokens(s.tokens, t);
    }
  }

  lemma NewErrorRequested(s: State, step: Step, t: nat)
    requires !s.violated && TreeInv(s.tokens) && CallsInv(s) && ErrorsRequested(s) && Enabled(s, step)
    requires t < |Apply(s, step).tokens| && Apply(s, step).tokens[t].err.Some?
    ensures Requested(Apply(s, step), t, Apply(s, step).tokens[t].err.value)
  {
    StepKeepsTree(s, step);
    assert ErrorRequested(s, t);
    if t < |s.tokens| && s.tokens[t].err.Some? {
      RequestExtends(s, Apply(s, step), t, s.tokens[t].err.value);
    } else {
      ErrorAppears(s, step, t);
      assert VisitRequested(s, step.call, t);
      RequestExtends(s, Apply(s, step), t, s.calls[step.call].err);
    }
  }

  lemma NextVisitRequested(s: State, c: nat, q: nat)
    requires ErrorsRequested(s) && c < |s.calls|
    requires q in s.calls[c].queue ||
             exists t: nat :: Visited(s.calls[c]) == Some(t) && t < q < |s.tokens| && s.tokens[q].origin == Some(t)
    ensures Requested(s, q, s.calls[c].err)
  {
    var call := s.calls[c];
    assert VisitRequested(s, c, q);
    if q !in call.queue {
      var t: nat :| Visited(call) == Some(t) && t < q < |s.tokens| && s.tokens[q].origin == Some(t);
      assert VisitRequested(s, c, t);
      RequestCoversChild(s, t, q, call.err);
    }
  }

  lemma NewQueueRequested(s: State, step: Step, c: nat, q: nat)
    requires !s.violated && TreeInv(s.tokens) && CallsInv(s) && ErrorsRequested(s) && Enabled(s, step)
    requires c < |Apply(s, step).calls| && q in Apply(s, step).calls[c].queue
    ensures Requested(Apply(s, step), q, Apply(s, step).calls[c].err)
  {
    StepKeepsTree(s, step);
    QueueGrows(s, step, c, q);
    var s', e := Apply(s, step), s.calls[c].err;
    assert s'.calls[c].err == e;
    NextVisitRequested(s, c, q);
    RequestExtends(s, s', q, e);
  }

  lemma StepKeepsRequests(s: State, step: Step)
    requires !s.violated && TreeInv(s.tokens) && CallsInv(s) && ErrorsRequested(s) && Enabled(s, step)
    ensures ErrorsRequested(Apply(s, step))
  {
    var s' := Apply(s, step);
    forall t: nat ensures ErrorRequested(s', t) {
      if t < |s'.tokens| && s'.tokens[t].err.Some? {
        NewErrorRequested(s, step, t);
      }
    }
    forall c: nat, q: nat ensures VisitRequested(s', c, q) {
      if c < |s'.calls| && q == s'.calls[c].target {
        NewCallRequested(s, step, c);
      } else if c < |s'.calls| && q in s'.calls[c].queue {
        NewQueueRequested(s, step, c, q);
      }
    }
  }

  lemma StepKeepsInv(s: State, step: Step)
    requires Inv(s) && Enabled(s, step)
    ensures Inv(Apply(s, step)) && Extends(s, Apply(s, step))
  {
    StepKeepsTree(s, step);
    StepKeepsCalls(s, step);
    StepLosesNothing(s, step);
    StepKeepsAttempts(s, step);
    StepKeepsRequests(s, step);
  }

  // ---------- Theorems about every run ----------

  lemma {:induction false} RunKeepsInv(s: State, steps: seq<Step>)
    requires Inv(s) && Runnable(s, steps)
    ensures Inv(Exec(s, steps)) && Extends(s, Exec(s, steps))
    decreases |steps|
  {
    if steps != [] {
      StepKeepsInv(s, steps[0]);
      RunKeepsInv(Apply(s, steps[0]), steps[1..]);
    }
  }

  lemma RunFromStart(steps: seq<Step>)
    requires Runnable(INITIAL, steps)
    ensures Inv(Exec(INITIAL, steps))
  {
    RunKeepsInv(INITIAL, steps);
  }

  /** In every interleaving the links are exact, a canceled token has no children, and none of
      the sanity checks of the unregister step has fired. */
  lemma NoCheckEverFires(steps: seq<Step>)
    requires Runnable(INITIAL, steps)
    ensures var s := Exec(INITIAL, steps);
            && !s.violated
            && (forall p: nat, i: nat :: p < |s.tokens| && i < |s.tokens[p].children| ==> Linked(s.tokens, p, i))
            && (forall t :: 0 <= t < |s.tokens| && s.tokens[t].err.Some? ==> s.tokens[t].children == [])
  {
    RunFromStart(steps);
    var s := Exec(INITIAL, steps);
    forall p: nat, i: nat | p < |s.tokens| && i < |s.tokens[p].children| ensures Linked(s.tokens, p, i) {
      assert LinkedAt(s.tokens, p, i);
    }
  }

  /** A live token whose origin is canceled is always on the list of a call in flight. */
  lemma NoCancellationLost(steps: seq<Step>, t: nat)
    requires Runnable(INITIAL, steps)
    requires var s := Exec(INITIAL, steps);
             && t < |s.tokens| && Live(s.tokens, t) && s.tokens[t].origin.Some?
             && s.tokens[t].origin.value < |s.tokens| && !Live(s.tokens, s.tokens[t].origin.value)
    ensures exists c :: 0 <= c < |Exec(INITIAL, steps).calls| && InFlight(Exec(INITIAL, steps).calls[c])
                        && t in Pending(Exec(INITIAL, steps).calls[c])
  {
    RunFromStart(steps);
    var s := Exec(INITIAL, steps);
    assert OwedIfOrphaned(s, t);
    var c :| 0 <= c < |s.calls| && t in Pending(s.calls[c]);
    assert InFlight(s.calls[c]);
  }

  /** All tokens below a are canceled. */
  ghost predicate SubtreeCanceled(s: State, a: nat) {
    forall t: nat :: AncestorOrSelf(s.tokens, a, t) ==> !Live(s.tokens, t)
  }

  /** Call c still has to cancel the live token u below a. */
  ghost predicate OwesBelow(s: State, a: nat, c: nat, u: nat) {
    && c < |s.calls| && InFlight(s.calls[c]) && u in Pending(s.calls[c])
    && AncestorOrSelf(s.tokens, a, u) && Live(s.tokens, u)
  }

  /** In every reachable state the descendants of a canceled token are all canceled if and only if
      no call in flight owes the cancellation of one of them. Calls elsewhere do not matter, and
      neither does whether the call that canceled the token has returned. */
  lemma DescendantsCanceledIff(steps: seq<Step>, a: nat)
    requires Runnable(INITIAL, steps)
    requires a < |Exec(INITIAL, steps).tokens| && !Live(Exec(INITIAL, steps).tokens, a)
    ensures var s := Exec(INITIAL, steps);
            SubtreeCanceled(s, a) <==> !exists c: nat, u: nat :: OwesBelow(s, a, c, u)
  {
    RunFromStart(steps);
    var s := Exec(INITIAL, steps);
    if !SubtreeCanceled(s, a) {
      var t: nat :| AncestorOrSelf(s.tokens, a, t) && Live(s.tokens, t);
      var c, u := LiveBelowIsOwed(s, a, t);
    }
  }

  /** The topmost live token on the way up to a canceled ancestor is owed. */
  lemma {:induction false} LiveBelowIsOwed(s: State, a: nat, t: nat) returns (c: nat, u: nat)
    requires NothingLost(s) && a < |s.tokens| && !Live(s.tokens, a)
    requires AncestorOrSelf(s.tokens, a, t) && Live(s.tokens, t)
    ensures OwesBelow(s, a, c, u) && AncestorOrSelf(s.tokens, u, t)
    decreases t
  {
    var origin := s.tokens[t].origin.value;
    if Live(s.tokens, origin) {
      c, u := LiveBelowIsOwed(s, a, origin);
    } else {
      assert OwedIfOrphaned(s, t);
      c :| 0 <= c < |s.calls| && t in Pending(s.calls[c]);
      u := t;
    }
  }

  /** Once every call has returned, cancellation is closed under descendants. */
  lemma QuiescenceCancelsDescendants(steps: seq<Step>, a: nat, t: nat)
    requires Runnable(INITIAL, steps)
    requires forall c :: 0 <= c < |Exec(INITIAL, steps).calls| ==> !InFlight(Exec(INITIAL, steps).calls[c])
    requires AncestorOrSelf(Exec(INITIAL, steps).tokens, a, t)
    requires a < |Exec(INITIAL, steps).tokens| && !Live(Exec(INITIAL, steps).tokens, a)
    ensures !Live(Exec(INITIAL, steps).tokens, t)
  {
    DescendantsCanceledIff(steps, a);
  }

  /** A token's error is written at most once in any run, and its done channel is closed exactly
      once if the error is set and not at all otherwise. */
  lemma ErrorWrittenOnce(steps: seq<Step>, more: seq<Step>, t: nat)
    requires Runnable(INITIAL, steps) && Runnable(Exec(INITIAL, steps), more)
    requires t < |Exec(INITIAL, steps).tokens|
    ensures var now, later := Exec(INITIAL, steps), Exec(Exec(INITIAL, steps), more);
            && t < |later.tokens|
            && (now.tokens[t].err.Some? ==> later.tokens[t].err == now.tokens[t].err)
            && now.tokens[t].doneCloses == (if now.tokens[t].err.Some? then 1 else 0)
            && later.tokens[t].doneCloses == (if later.tokens[t].err.Some? then 1 else 0)
  {
    RunFromStart(steps);
    RunKeepsInv(Exec(INITIAL, steps), more);
  }

  /** Exactly one attempt has canceled a canceled token, none a live one, and that attempt set its error. */
  lemma OneWinnerPerToken(steps: seq<Step>, t: nat)
    requires Runnable(INITIAL, steps) && t < |Exec(INITIAL, steps).tokens|
    ensures var s := Exec(INITIAL, steps);
            && (s.tokens[t].err.Some? <==> exists i: nat :: WinIn(s.attempts, i, t))
            && (forall i: nat, j: nat :: WinIn(s.attempts, i, t) && WinIn(s.attempts, j, t) ==> i == j)
            && (forall i: nat :: WinIn(s.attempts, i, t) ==> s.tokens[t].err == Some(s.attempts[i].err))
  {
    RunFromStart(steps);
    var s := Exec(INITIAL, steps);
    assert WonIfCanceled(s, t);
  }

  /** Cancel is synchronous, and at most one call per token returns CanceledByUs. */
  lemma ReturnedCallsAreTruthful(steps: seq<Step>, c: nat, d: nat)
    requires Runnable(INITIAL, steps)
    requires c < |Exec(INITIAL, steps).calls| && d < |Exec(INITIAL, steps).calls|
    ensures var s := Exec(INITIAL, steps);
            && s.calls[c].target < |s.tokens|
            && (s.calls[c].phase.Returned? ==> !Live(s.tokens, s.calls[c].target))
            && (s.calls[c].phase == Returned(CanceledByUs) ==>
                  s.tokens[s.calls[c].target].err == Some(s.calls[c].err))
            && (c != d && s.calls[c].phase == Returned(CanceledByUs) == s.calls[d].phase ==>
                  s.calls[c].target != s.calls[d].target)
  {
    RunFromStart(steps);
    var s := Exec(INITIAL, steps);
    assert CallInvAt(s, c) && CallInvAt(s, d);
    if c < d {
      assert Won(s.calls[c]) && Won(s.calls[d]) ==> s.calls[c].target != s.calls[d].target;
    } else if d < c {
      assert Won(s.calls[d]) && Won(s.calls[c]) ==> s.calls[d].target != s.calls[c].target;
    }
  }

  /** An error always comes from a call of Cancel on the token itself or on an ancestor. */
  lemma ErrorComesFromAncestor(steps: seq<Step>, t: nat)
    requires Runnable(INITIAL, steps)
    requires t < |Exec(INITIAL, steps).tokens| && Exec(INITIAL, steps).tokens[t].err.Some?
    ensures var s := Exec(INITIAL, steps);
            exists c :: 0 <= c < |s.calls| && !s.calls[c].fromConstructor
                        && s.tokens[t].err == Some(s.calls[c].err)
                        && AncestorOrSelf(s.tokens, s.calls[c].target, t)
  {
    RunFromStart(steps);
    var s := Exec(INITIAL, steps);
    assert ErrorRequested(s, t);
    var c :| 0 <= c < |s.calls| && RequestedBy(s, c, t, s.tokens[t].err.value);
  }

  // ---------- Every call that has begun finishes ----------

  /** A live token can still be canceled once, and that visit enqueues its children. */
  function TokenWork(token: Token): nat {
    if token.err.Some? then 0 else 1 + |token.children|
  }

  function CallWork(call: Call): nat {
    match call.phase
    case Starting => 3
    case Unregistering => 2 + |call.queue|
    case Draining => 1 + |call.queue|
    case Returned(_) => 0
  }

  function TokensWork(tokens: seq<Token>): nat {
    if tokens == [] then 0 else TokensWork(tokens[..|tokens| - 1]) + TokenWork(tokens[|tokens| - 1])
  }

  function CallsWork(calls: seq<Call>): nat {
    if calls == [] then 0 else CallsWork(calls[..|calls| - 1]) + CallWork(calls[|calls| - 1])
  }

  function Work(s: State): nat {
    TokensWork(s.tokens) + CallsWork(s.calls)
  }

  /** A step of a call already in flight, as opposed to a new request from outside. */
  predicate Internal(step: Step) {
    step.CancelTarget? || step.UnregisterTarget? || step.DrainOne?
  }

  lemma {:induction false} TokensWorkDrops(tokens: seq<Token>, tokens': seq<Token>, t: nat, drop: nat)
    requires |tokens'| == |tokens| && t < |tokens|
    requires forall u :: 0 <= u < |tokens| ==> TokenWork(tokens'[u]) <= TokenWork(tokens[u])
    requires TokenWork(tokens'[t]) + drop <= TokenWork(tokens[t])
    ensures TokensWork(tokens') + drop <= TokensWork(tokens)
  {
    var n := |tokens| - 1;
    if t < n {
      TokensWorkDrops(tokens[..n], tokens'[..n], t, drop);
    } else if n > 0 {
      TokensWorkDrops(tokens[..n], tokens'[..n], 0, 0);
    }
  }

  lemma {:induction false} CallsWorkUpdate(calls: seq<Call>, c: nat, call: Call)
    requires c < |calls|
    ensures CallsWork(calls[c := call]) == CallsWork(calls) - CallWork(calls[c]) + CallWork(call)
  {
    var n := |calls| - 1;
    var calls' := calls[c := call];
    if c < n {
      CallsWorkUpdate(calls[..n], c, call);
      assert calls'[..n] == calls[..n][c := call];
    } else {
      assert calls'[..n] == calls[..n];
    }
  }

  lemma InternalStepDoesWork(s: State, step: Step)
    requires !s.violated && TreeInv(s.tokens) && CallsInv(s) && Enabled(s, step) && Internal(step)
    ensures Work(Apply(s, step)) < Work(s)
  {
    hide TokensWork, CallsWork, Origins, ChildrenLinked, CanceledIsBare, LiveIsRegistered, DoneIffErr;
    var s', call := Apply(s, step), s.calls[step.call];
    assert CallInvAt(s, step.call);
    StepKeepsTree(s, step);
    CallsWorkUpdate(s.calls, step.call, s'.calls[step.call]);
    assert s'.calls == s.calls[step.call := s'.calls[step.call]];
    if step.UnregisterTarget? {
      if s.tokens[call.target].parent.Some? {
        UnregisterShrinks(s.tokens, s.tokens[call.target].parent.value, call.target);
        TokensWorkDrops(s.tokens, s'.tokens, call.target, 0);
      }
    } else if Visited(call).Some? && Live(s.tokens, Visited(call).value) {
      TokensWorkDrops(s.tokens, s'.tokens, Visited(call).value, 1 + |s.tokens[Visited(call).value].children|);
    }
  }

  lemma UnregisterShrinks(tokens: seq<Token>, p: nat, child: nat)
    requires TreeInv(tokens) && p < |tokens| && child < |tokens|
    requires tokens[child].parent == Some(p) && tokens[child].err.Some?
    requires Live(tokens, p) ==> Registered(tokens, child)
    ensures UnregisterChild(tokens, p, child).Unregistered?
    ensures var tokens' := UnregisterChild(tokens, p, child).tokens;
            |tokens'| == |tokens| && forall t :: 0 <= t < |tokens| ==> TokenWork(tokens'[t]) <= TokenWork(tokens[t])
  {
    UnregisterKeepsTree(tokens, p, child);
    if Live(tokens, p) {
      UnregisterSwaps(tokens, p, child);
    }
  }

  /** The step a call takes next. */
  function NextStep(c: nat, call: Call): Step
    requires InFlight(call)
  {
    match call.phase
    case Starting => CancelTarget(c)
    case Unregistering => UnregisterTarget(c)
    case Draining => DrainOne(c)
  }

  /** No reachable state blocks a call in flight: its next step is enabled. */
  lemma NoCallBlocks(steps: seq<Step>, c: nat)
    requires Runnable(INITIAL, steps)
    requires c < |Exec(INITIAL, steps).calls| && InFlight(Exec(INITIAL, steps).calls[c])
    ensures Enabled(Exec(INITIAL, steps), NextStep(c, Exec(INITIAL, steps).calls[c]))
  {
    RunFromStart(steps);
    var s := Exec(INITIAL, steps);
    assert CallInvAt(s, c);
    assert s.calls[c].queue != [] ==> s.calls[c].queue[0] in s.calls[c].queue;
  }

  /** Steps that start something new: a token or a call. */
  function Outside(steps: seq<Step>): nat
    decreases |steps|
  {
    if steps == [] then 0 else (if Internal(steps[0]) then 0 else 1) + Outside(steps[1..])
  }

  /** A new request adds at most four to the remaining work: a token born under a canceled parent
      and its own Cancel. */
  lemma OutsideStepAddsWork(s: State, step: Step)
    requires Enabled(s, step) && !Internal(step)
    ensures Work(Apply(s, step)) <= Work(s) + 4
  {
    hide TokensWork, CallsWork;
    var s' := Apply(s, step);
    CallsWorkGrows(s.calls, s'.calls);
    match step
    case NewRoot => TokensWorkGrows(s.tokens, s'.tokens);
    case NewChild(p) =>
      if Live(s.tokens, p) {
        RegistrationWork(s.tokens, p);
      } else {
        TokensWorkGrows(s.tokens, s'.tokens);
      }
    case Begin(_, _) =>
  }

  lemma CallsWorkGrows(calls: seq<Call>, calls': seq<Call>)
    requires calls' == calls || (|calls'| == |calls| + 1 && calls'[..|calls|] == calls)
    ensures CallsWork(calls') == CallsWork(calls) + if calls' == calls then 0 else CallWork(calls'[|calls|])
  {
  }

  lemma TokensWorkGrows(tokens: seq<Token>, tokens': seq<Token>)
    requires |tokens'| == |tokens| + 1 && tokens'[..|tokens|] == tokens
    ensures TokensWork(tokens') == TokensWork(tokens) + TokenWork(tokens'[|tokens|])
  {
  }

  lemma RegistrationWork(tokens: seq<Token>, p: nat)
    requires p < |tokens| && Live(tokens, p)
    ensures TokensWork(RegisterNew(tokens, p)) == TokensWork(tokens) + 2
  {
    hide TokensWork;
    var parent := tokens[p].(children := tokens[p].children + [|tokens|]);
    TokensWorkUpdate(tokens, p, parent);
    TokensWorkGrows(tokens[p := parent], RegisterNew(tokens, p));
  }

  lemma {:induction false} TokensWorkUpdate(tokens: seq<Token>, t: nat, token: Token)
    requires t < |tokens|
    ensures TokensWork(tokens[t := token]) == TokensWork(tokens) - TokenWork(tokens[t]) + TokenWork(token)
  {
    var n := |tokens| - 1;
    var tokens' := tokens[t := token];
    if t < n {
      TokensWorkUpdate(tokens[..n], t, token);
      assert tokens'[..n] == tokens[..n][t := token];
    } else {
      assert tokens'[..n] == tokens[..n];
    }
  }

  lemma {:induction false} RunIsBounded(s: State, more: seq<Step>)
    requires Inv(s) && Runnable(s, more)
    ensures |more| - Outside(more) <= Work(s) + 4 * Outside(more)
    decreases |more|
  {
    hide Work, Apply, Enabled, Inv;
    if more != [] {
      StepKeepsInv(s, more[0]);
      if Internal(more[0]) {
        InternalStepOf(s, more[0]);
      } else {
        OutsideStepAddsWork(s, more[0]);
      }
      RunIsBounded(Apply(s, more[0]), more[1..]);
    }
  }

  lemma InternalStepOf(s: State, step: Step)
    requires Inv(s) && Enabled(s, step) && Internal(step)
    ensures Work(Apply(s, step)) < Work(s)
  {
    InternalStepDoesWork(s, step);
  }

  /** From every reachable state and along every continuation, with new tokens and new calls at any
      point, the calls take at most Work(s) steps plus four for each new request. In particular calls
      in flight come to an end once nothing new is requested. */
  lemma CallsInFlightFinish(steps: seq<Step>, more: seq<Step>)
    requires Runnable(INITIAL, steps) && Runnable(Exec(INITIAL, steps), more)
    ensures |more| - Outside(more) <= Work(Exec(INITIAL, steps)) + 4 * Outside(more)
  {
    RunFromStart(steps);
    RunIsBounded(Exec(INITIAL, steps), more);
  }

  /** Over a whole run the calls take at most four steps for each token and each call of Cancel that
      was requested, however the requests are nested and interleaved. */
  lemma WholeRunIsLinear(steps: seq<Step>)
    requires Runnable(INITIAL, steps)
    ensures |steps| - Outside(steps) <= 4 * Outside(steps)
  {
    RunFromStart([]);
    RunIsBounded(INITIAL, steps);
  }

  // ---------- Completeness is not a property of a single call ----------

  /** Token 2 is below 1 and 1 below 0. A call on 1 cancels 1 and holds 2 in its queue; then a
      call on 0 runs to its end. */
  const SETUP: seq<Step> := [NewRoot, NewChild(0), NewChild(1), Begin(1, "inner"), CancelTarget(0)]
  const OVERTAKE: seq<Step> := [Begin(0, "outer"), CancelTarget(1), UnregisterTarget(1), DrainOne(1), DrainOne(1)]

  const INNER := Call(1, "inner", false, Unregistering, [2])
  const OUTER := Call(0, "outer", false, Starting, [])
  const T0 := Token(None, None, 0, [1], None, 0)
  const T1 := Token(Some(0), Some(0), 0, [], Some("inner"), 1)
  const T2 := Token(Some(1), Some(1), 0, [], None, 0)
  const HALFWAY := State([T0, T1, T2], [INNER], [Attempt(1, "inner", CanceledByUs)], false)

  function SetupStates(): seq<State> {
    var t1 := T1.(err := None, doneCloses := 0);
    var s2 := INITIAL.(tokens := [T0, t1.(children := [2]), T2]);
    [INITIAL, INITIAL.(tokens := [T0.(children := [])]), INITIAL.(tokens := [T0, t1]), s2,
     s2.(calls := [INNER.(phase := Starting, queue := [])]), HALFWAY]
  }

  lemma SetupSteps(i: nat)
    requires i < 5
    ensures Enabled(SetupStates()[i], SETUP[i]) && Apply(SetupStates()[i], SETUP[i]) == SetupStates()[i + 1]
  {
    assert [] + [1] == [1] && [] + [2] == [2];
    if i < 3 {
      assert i == 0 || i == 1 || i == 2;
    }
  }

  lemma SetupRuns()
    ensures Runnable(INITIAL, SETUP) && Exec(INITIAL, SETUP) == HALFWAY
  {
    var states := SetupStates();
    assert |states| == |SETUP| + 1 && states[0] == INITIAL && states[5] == HALFWAY;
    hide Enabled, Apply, SetupStates;
    forall i | 0 <= i < |SETUP| ensures Enabled(states[i], SETUP[i]) && Apply(states[i], SETUP[i]) == states[i + 1] {
      SetupSteps(i);
    }
    PathRuns(states, SETUP);
  }

  function OvertakeStates(): seq<State> {
    var s5 := HALFWAY.(calls := [INNER, OUTER]);
    var s6 := State([T0.(err := Some("outer"), doneCloses := 1, children := []), T1, T2],
                    [INNER, OUTER.(phase := Unregistering, queue := [1])],
                    s5.attempts + [Attempt(0, "outer", CanceledByUs)], false);
    var s8 := s6.(calls := [INNER, OUTER.(phase := Draining)],
                  attempts := s6.attempts + [Attempt(1, "outer", AlreadyCanceled)]);
    [HALFWAY, s5, s6, s6.(calls := [INNER, OUTER.(phase := Draining, queue := [1])]), s8,
     s8.(calls := [INNER, OUTER.(phase := Returned(CanceledByUs))])]
  }

  lemma OvertakeSteps(i: nat)
    requires i < 5
    ensures Enabled(OvertakeStates()[i], OVERTAKE[i])
    ensures Apply(OvertakeStates()[i], OVERTAKE[i]) == OvertakeStates()[i + 1]
  {
    assert [1][1..] + [] == [];
    if i < 3 {
      assert i == 0 || i == 1 || i == 2;
    }
  }

  lemma OvertakeRuns()
    ensures Runnable(HALFWAY, OVERTAKE) && Exec(HALFWAY, OVERTAKE) == OvertakeStates()[5]
  {
    var states := OvertakeStates();
    assert |states| == |OVERTAKE| + 1 && states[0] == HALFWAY;
    hide Enabled, Apply, OvertakeStates;
    forall i | 0 <= i < |OVERTAKE|
      ensures Enabled(states[i], OVERTAKE[i]) && Apply(states[i], OVERTAKE[i]) == states[i + 1]
    {
      OvertakeSteps(i);
    }
    PathRuns(states, OVERTAKE);
  }

  /** A Cancel may return CanceledByUs while a descendant of its target is still live; the live
      descendant is then owed by another call. */
  lemma ReturnedCallMayLeaveLiveDescendant()
    ensures Runnable(INITIAL, SETUP) && Runnable(Exec(INITIAL, SETUP), OVERTAKE)
    ensures var s := Exec(Exec(INITIAL, SETUP), OVERTAKE);
            && |s.calls| == 2 && |s.tokens| == 3
            && s.calls[1].target == 0 && s.calls[1].phase == Returned(CanceledByUs)
            && AncestorOrSelf(s.tokens, 0, 2) && Live(s.tokens, 2)
            && Pending(s.calls[0]) == [2]
  {
    hide Runnable, Exec;
    SetupRuns();
    OvertakeRuns();
    var s := OvertakeStates()[5];
    assert AncestorOrSelf(s.tokens, 0, 1);
  }

  /** A list of states linked by the steps is the run of those steps. */
  lemma {:induction false} PathRuns(states: seq<State>, steps: seq<Step>)
    requires |states| == |steps| + 1
    requires forall i :: 0 <= i < |steps| ==>
               Enabled(states[i], steps[i]) && Apply(states[i], steps[i]) == states[i + 1]
    ensures Runnable(states[0], steps) && Exec(states[0], steps) == states[|steps|]
    decreases |steps|
  {
    if steps != [] {
      PathRuns(states[1..], steps[1..]);
    }
  }
}
