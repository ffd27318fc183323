/**
 Deadlines of clock tokens. A token takes the earliest of its own options and of the deadline it
 inherits, and remembers how many levels up the instant was set.

 A chain lists the creations of consecutive clock tokens, the outermost first; its last element
 is the token the chain stands for.
 */
module ClockDeadline {
  import opened Wrappers

  type Instant = int

  datatype SourceKind =
    | AncestorTimeout
    | AncestorAbsoluteDeadline
    | InitializedWithTimeout
    | InitializedWithAbsoluteDeadline

  datatype Source = Source(kind: SourceKind, ancestorLevel: nat)

  datatype Deadline = Deadline(instant: Instant, source: Source)

  datatype CancelOption = OnTimeout(duration: nat) | OnDeadline(instant: Instant)

  /** The options of a token and the instant its construction reads from the clock. */
  datatype Creation = Creation(now: Instant, options: seq<CancelOption>)

  // ---------- Sources ----------

  predicate IsOwn(kind: SourceKind) {
    kind.InitializedWithTimeout? || kind.InitializedWithAbsoluteDeadline?
  }

  predicate IsTimeout(kind: SourceKind) {
    kind.InitializedWithTimeout? || kind.AncestorTimeout?
  }

  /** The run-time checks of the constructor are its precondition here. */
  function NewSource(kind: SourceKind, ancestorLevel: nat): Source
    requires IsOwn(kind) <==> ancestorLevel == 0
  {
    Source(kind, ancestorLevel)
  }

  ghost predicate SourceOk(s: Source) {
    IsOwn(s.kind) <==> s.ancestorLevel == 0
  }

  function ReinterpretForChild(d: Deadline): (r: Deadline)
    requires SourceOk(d.source)
    ensures SourceOk(r.source) && r.instant == d.instant && r.source.ancestorLevel == d.source.ancestorLevel + 1
    ensures IsTimeout(r.source.kind) <==> IsTimeout(d.source.kind)
  {
    var source :=
      match d.source.kind
      case InitializedWithTimeout => NewSource(AncestorTimeout, 1)
      case InitializedWithAbsoluteDeadline => NewSource(AncestorAbsoluteDeadline, 1)
      case _ => NewSource(d.source.kind, d.source.ancestorLevel + 1);
    Deadline(d.instant, source)
  }

  // ---------- One construction ----------

  function InstantOf(option: CancelOption, now: Instant): Instant {
    match option
    case OnTimeout(duration) => now + duration
    case OnDeadline(instant) => instant
  }

  function OwnDeadline(option: CancelOption, now: Instant): Deadline {
    Deadline(InstantOf(option, now),
             NewSource(if option.OnTimeout? then InitializedWithTimeout else InitializedWithAbsoluteDeadline, 0))
  }

  /** The earlier of the two; the first one if they are equal. */
  function Soonest(lhs: Option<Deadline>, rhs: Deadline): Option<Deadline> {
    if lhs.Some? && !(rhs.instant < lhs.value.instant) then lhs else Some(rhs)
  }

  function Tightest(inherited: Option<Deadline>, c: Creation): Option<Deadline>
    decreases |c.options|
  {
    if c.options == [] then inherited
    else
      var n := |c.options| - 1;
      Soonest(Tightest(inherited, c.(options := c.options[..n])), OwnDeadline(c.options[n], c.now))
  }

  /** The deadline of the last token of a chain. */
  function DeadlineOf(chain: seq<Creation>): (r: Option<Deadline>)
    ensures r.Some? ==> SourceOk(r.value.source)
  {
    if chain == [] then None
    else
      var n := |chain| - 1;
      var parent := DeadlineOf(chain[..n]);
      var inherited := if parent.Some? then Some(ReinterpretForChild(parent.value)) else None;
      var r := Tightest(inherited, chain[n]);
      assert r.Some? ==> SourceOk(r.value.source) by { TightestIsOneOf(inherited, chain[n]); }
      r
  }

  /** Some option of the token sets this deadline, and no earlier option sets one as early. */
  ghost predicate SetBy(c: Creation, d: Deadline) {
    exists j :: 0 <= j < |c.options| && SetAt(c, d, j)
  }

  ghost predicate SetAt(c: Creation, d: Deadline, j: nat)
    requires j < |c.options|
  {
    OwnDeadline(c.options[j], c.now) == d && forall i :: 0 <= i < j ==> d.instant < InstantOf(c.options[i], c.now)
  }

  ghost predicate NotLater(c: Creation, t: Instant) {
    forall i :: 0 <= i < |c.options| ==> t <= InstantOf(c.options[i], c.now)
  }

  ghost predicate Earlier(c: Creation, t: Instant) {
    forall i :: 0 <= i < |c.options| ==> t < InstantOf(c.options[i], c.now)
  }

  /** The result is the inherited deadline if no option is earlier, and the first earliest option otherwise. */
  lemma {:induction false} TightestIsOneOf(inherited: Option<Deadline>, c: Creation)
    ensures Tightest(inherited, c).None? <==> inherited.None? && c.options == []
    ensures Tightest(inherited, c).Some? ==> NotLater(c, Tightest(inherited, c).value.instant)
    ensures inherited.Some? ==> Tightest(inherited, c).value.instant <= inherited.value.instant
    ensures Tightest(inherited, c).Some? ==>
              || Tightest(inherited, c) == inherited
              || (SetBy(c, Tightest(inherited, c).value)
                  && (inherited.Some? ==> Tightest(inherited, c).value.instant < inherited.value.instant))
    decreases |c.options|
  {
    if c.options != [] {
      var n := |c.options| - 1;
      var c' := c.(options := c.options[..n]);
      TightestIsOneOf(inherited, c');
      var before, own, r := Tightest(inherited, c'), OwnDeadline(c.options[n], c.now), Tightest(inherited, c);
      assert forall i :: 0 <= i < n ==> c'.options[i] == c.options[i];
      if r == before && before != inherited {
        var j :| 0 <= j < |c'.options| && SetAt(c', before.value, j);
        assert SetAt(c, before.value, j);
      } else if r != before {
        assert SetAt(c, own, n);
      }
    }
  }

  /** The loop over the options, with the clock read at the first timeout only. */
  method NewClockToken(parentDeadline: Option<Deadline>, c: Creation)
    returns (tightest: Option<Deadline>, lazyNow: Option<Instant>)
    requires parentDeadline.Some? ==> SourceOk(parentDeadline.value.source)
    ensures var inherited := if parentDeadline.Some? then Some(ReinterpretForChild(parentDeadline.value)) else None;
            tightest == Tightest(inherited, c)
    ensures tightest.None? <==> parentDeadline.None? && c.options == []
    ensures tightest.Some? ==>
              && (forall j :: 0 <= j < |c.options| ==> RunsTo(c.options[j], c.now, tightest.value.instant))
              && (|| (parentDeadline.Some? && tightest == Some(ReinterpretForChild(parentDeadline.value)))
                  || SomeGives(c, tightest.value))
    ensures lazyNow == if exists i :: 0 <= i < |c.options| && c.options[i].OnTimeout? then Some(c.now) else None
  {
    tightest := if parentDeadline.Some? then Some(ReinterpretForChild(parentDeadline.value)) else None;
    ghost var inherited := tightest;
    lazyNow := None;
    for i := 0 to |c.options|
      invariant tightest == Tightest(inherited, c.(options := c.options[..i]))
      invariant lazyNow == if exists k :: 0 <= k < i && c.options[k].OnTimeout? then Some(c.now) else None
    {
      assert c.options[..i + 1][..i] == c.options[..i];
      match c.options[i]
      case OnDeadline(instant) =>
        tightest := Soonest(tightest, Deadline(instant, NewSource(InitializedWithAbsoluteDeadline, 0)));
      case OnTimeout(duration) =>
        if lazyNow.None? {
          lazyNow := Some(c.now);
        }
        var now := lazyNow.value;
        tightest := Soonest(tightest, Deadline(now + duration, NewSource(InitializedWithTimeout, 0)));
    }
    assert c.options[..|c.options|] == c.options;
    TightestIsOneOf(inherited, c);
    if tightest.Some? {
      OptionsMean(c, tightest.value.instant);
    }
  }

  // ---------- What an option means ----------

  /** The option gives the token this deadline as its own: a timeout counts from the instant the
      construction read, an absolute deadline is taken as it is, and the source says which it was. */
  ghost predicate Gives(option: CancelOption, now: Instant, d: Deadline) {
    match option
    case OnTimeout(duration) => d == Deadline(now + duration, Source(InitializedWithTimeout, 0))
    case OnDeadline(instant) => d == Deadline(instant, Source(InitializedWithAbsoluteDeadline, 0))
  }

  ghost predicate SomeGives(c: Creation, d: Deadline) {
    exists j :: 0 <= j < |c.options| && Gives(c.options[j], c.now, d)
  }

  /** The option does not run out before t. */
  ghost predicate RunsTo(option: CancelOption, now: Instant, t: Instant) {
    match option
    case OnTimeout(duration) => t - now <= duration
    case OnDeadline(instant) => t <= instant
  }

  lemma OptionsMean(c: Creation, t: Instant)
    ensures NotLater(c, t) <==> forall j :: 0 <= j < |c.options| ==> RunsTo(c.options[j], c.now, t)
    ensures forall j, d :: 0 <= j < |c.options| ==>
                             (OwnDeadline(c.options[j], c.now) == d <==> Gives(c.options[j], c.now, d))
  {
    assert forall j :: 0 <= j < |c.options| ==>
                         (RunsTo(c.options[j], c.now, t) <==> t <= InstantOf(c.options[j], c.now));
  }

  // ---------- Chains ----------

  ghost predicate NoOptions(chain: seq<Creation>) {
    forall k :: 0 <= k < |chain| ==> chain[k].options == []
  }

  /** A chain has a deadline exactly when some token of it has an option; the deadline is not later
      than any option of any token of the chain. */
  lemma {:induction false} DeadlineIsEarliest(chain: seq<Creation>)
    ensures DeadlineOf(chain).None? <==> NoOptions(chain)
    ensures DeadlineOf(chain).Some? ==>
              forall k :: 0 <= k < |chain| ==> NotLater(chain[k], DeadlineOf(chain).value.instant)
    decreases |chain|
  {
    if chain != [] {
      var n := |chain| - 1;
      DeadlineIsEarliest(chain[..n]);
      var parent := DeadlineOf(chain[..n]);
      var inherited := if parent.Some? then Some(ReinterpretForChild(parent.value)) else None;
      TightestIsOneOf(inherited, chain[n]);
      assert forall k :: 0 <= k < n ==> chain[..n][k] == chain[k];
      if parent.Some? {
        forall k | 0 <= k < n ensures NotLater(chain[k], DeadlineOf(chain).value.instant) {
          assert NotLater(chain[..n][k], parent.value.instant);
        }
      }
    }
  }

  /** The token `level` levels above the last one of the chain, as the end of its own chain. */
  function Ancestor(chain: seq<Creation>, level: nat): seq<Creation>
    requires level < |chain|
  {
    chain[..|chain| - level]
  }

  /** The source names the ancestor that set the instant: that ancestor has the deadline as its own,
      with the same kind, from one of its options. Every token further out has later options only. */
  lemma {:induction false} SourceNamesAncestor(chain: seq<Creation>)
    requires DeadlineOf(chain).Some?
    ensures var d := DeadlineOf(chain).value;
            && d.source.ancestorLevel < |chain|
            && var a := Ancestor(chain, d.source.ancestorLevel);
               var own := Deadline(d.instant, Source(if IsTimeout(d.source.kind) then InitializedWithTimeout
                                                     else InitializedWithAbsoluteDeadline, 0));
               && DeadlineOf(a) == Some(own)
               && SetBy(a[|a| - 1], own)
               && (forall k :: 0 <= k < |a| - 1 ==> Earlier(chain[k], d.instant))
    decreases |chain|
  {
    hide Tightest, Earlier, NotLater, SetAt;
    var n := |chain| - 1;
    var parent := DeadlineOf(chain[..n]);
    var inherited := if parent.Some? then Some(ReinterpretForChild(parent.value)) else None;
    var d := DeadlineOf(chain).value;
    TightestIsOneOf(inherited, chain[n]);
    if Some(d) == inherited {
      SourceNamesAncestor(chain[..n]);
      var level := parent.value.source.ancestorLevel;
      assert Ancestor(chain, level + 1) == Ancestor(chain[..n], level);
      assert forall k :: 0 <= k < n ==> chain[..n][k] == chain[k];
    } else {
      assert Ancestor(chain, 0) == chain;
      OwnIsLevelZero(chain[n], d);
      OutsideIsLater(chain[..n], d.instant);
      assert forall k :: 0 <= k < n ==> chain[..n][k] == chain[k];
    }
  }

  lemma OwnIsLevelZero(c: Creation, d: Deadline)
    requires SetBy(c, d)
    ensures d.source.ancestorLevel == 0 && IsOwn(d.source.kind)
  {
  }

  /** An instant before the deadline of a chain is before all its options. */
  lemma OutsideIsLater(chain: seq<Creation>, t: Instant)
    requires DeadlineOf(chain).Some? ==> t < DeadlineOf(chain).value.instant
    ensures forall k :: 0 <= k < |chain| ==> Earlier(chain[k], t)
  {
    DeadlineIsEarliest(chain);
    forall k | 0 <= k < |chain| ensures Earlier(chain[k], t) {
      if DeadlineOf(chain).Some? {
        assert NotLater(chain[k], DeadlineOf(chain).value.instant);
      }
    }
  }

  /** The deadline as the token that set it has it. */
  function AsOwn(d: Deadline): Deadline {
    match d.source.kind
    case InitializedWithTimeout => d.(source := Source(InitializedWithTimeout, 0))
    case AncestorTimeout => d.(source := Source(InitializedWithTimeout, 0))
    case InitializedWithAbsoluteDeadline => d.(source := Source(InitializedWithAbsoluteDeadline, 0))
    case AncestorAbsoluteDeadline => d.(source := Source(InitializedWithAbsoluteDeadline, 0))
  }

  /** The deadline of a chain in terms of the options alone: one option of the ancestor that the
      source names gives the instant and the kind, and no option of the whole chain runs out earlier. */
  lemma DeadlineMeans(chain: seq<Creation>)
    requires DeadlineOf(chain).Some?
    ensures var d := DeadlineOf(chain).value;
            && d.source.ancestorLevel < |chain|
            && SomeGives(chain[|chain| - 1 - d.source.ancestorLevel], AsOwn(d))
            && (d.source.ancestorLevel == 0 <==>
                  d.source.kind.InitializedWithTimeout? || d.source.kind.InitializedWithAbsoluteDeadline?)
            && (forall k, j :: 0 <= k < |chain| && 0 <= j < |chain[k].options| ==>
                                 RunsTo(chain[k].options[j], chain[k].now, d.instant))
  {
    hide DeadlineOf;
    SourceNamesAncestor(chain);
    DeadlineIsEarliest(chain);
    var d := DeadlineOf(chain).value;
    var a := Ancestor(chain, d.source.ancestorLevel);
    var c, own := a[|a| - 1], DeadlineOf(a).value;
    assert c == chain[|chain| - 1 - d.source.ancestorLevel];
    var j :| 0 <= j < |c.options| && SetAt(c, own, j);
    OptionsMean(c, d.instant);
    assert own == AsOwn(d) && Gives(c.options[j], c.now, own);
    forall k | 0 <= k < |chain|
      ensures forall j :: 0 <= j < |chain[k].options| ==> RunsTo(chain[k].options[j], chain[k].now, d.instant)
    {
      OptionsMean(chain[k], d.instant);
    }
  }

  /** The deadline of a chain is one of the instants its tokens set. */
  lemma DeadlineIsOneOfTheOptions(chain: seq<Creation>)
    requires DeadlineOf(chain).Some?
    ensures exists k, j :: 0 <= k < |chain| && 0 <= j < |chain[k].options|
                           && InstantOf(chain[k].options[j], chain[k].now) == DeadlineOf(chain).value.instant
  {
    SourceNamesAncestor(chain);
    var d := DeadlineOf(chain).value;
    var a := Ancestor(chain, d.source.ancestorLevel);
    var c := a[|a| - 1];
    assert c == chain[|a| - 1];
    var own := DeadlineOf(a).value;
    var j :| 0 <= j < |c.options| && SetAt(c, own, j);
  }

  // ---------- Arming the timer ----------

  datatype Timer = NoDeadline | CanceledAtOnce | RunsAfter(delay: nat)

  /** What the construction does about the deadline: nothing, cancel at once, or start a timer. */
  function Arm(deadline: Option<Deadline>, now: Instant): (timer: Timer)
    ensures deadline.Some? ==> (timer.CanceledAtOnce? <==> deadline.value.instant <= now)
    ensures timer.RunsAfter? ==> deadline.Some? && now + timer.delay == deadline.value.instant && timer.delay > 0
    ensures timer.NoDeadline? <==> deadline.None?
  {
    if deadline.None? then NoDeadline
    else
      var delay := deadline.value.instant - now;
      if delay <= 0 then CanceledAtOnce else RunsAfter(delay)
  }

  datatype Cause<E> = FromParent(err: E) | DeadlineExceeded(deadline: Deadline)

  /** The error a token is constructed with. The underlying child takes over the error of a canceled
      parent first, and a Cancel for the deadline then finds it already canceled. */
  function ErrAtBirth<E>(parentErr: Option<E>, deadline: Option<Deadline>, now: Instant): Option<Cause<E>> {
    if parentErr.Some? then Some(FromParent(parentErr.value))
    else if Arm(deadline, now).CanceledAtOnce? then Some(DeadlineExceeded(deadline.value))
    else None
  }

  ghost predicate SomeOptionIsPast(chain: seq<Creation>, now: Instant) {
    exists k, j :: 0 <= k < |chain| && 0 <= j < |chain[k].options|
                   && InstantOf(chain[k].options[j], chain[k].now) <= now
  }

  /** A token is constructed canceled exactly when its parent is canceled or some option of the chain
      lies at or before now; the deadline is the reason only under a live parent, and it is then the
      earliest of the chain. */
  lemma BornCanceledIff<E>(parentErr: Option<E>, chain: seq<Creation>, now: Instant)
    ensures var err := ErrAtBirth(parentErr, DeadlineOf(chain), now);
            && (err.Some? <==> parentErr.Some? || SomeOptionIsPast(chain, now))
            && (parentErr.Some? ==> err == Some(FromParent(parentErr.value)))
            && (parentErr.None? && err.Some? ==> Some(err.value.deadline) == DeadlineOf(chain))
  {
    DeadlineIsEarliest(chain);
    if DeadlineOf(chain).Some? {
      DeadlineIsOneOfTheOptions(chain);
      forall k, j | 0 <= k < |chain| && 0 <= j < |chain[k].options|
        ensures DeadlineOf(chain).value.instant <= InstantOf(chain[k].options[j], chain[k].now)
      {
        assert NotLater(chain[k], DeadlineOf(chain).value.instant);
      }
    }
  }
}
