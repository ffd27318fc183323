/**
 A double-ended queue in a growable ring buffer. The buffer refines a sequence, and growth by
 doubling makes the total number of copied elements linear in the number of pushes.
 */
module Deque {
  import opened Wrappers
  import opened Bits
  import BitVec

  const MAX_INT: nat := 0x7FFF_FFFF_FFFF_FFFF

  // ---------- Capacity ----------

  function Max(a: nat, b: nat): nat {
    if a < b then b else a
  }

  function CapacityFor(wantCap: nat, oldCap: nat): (newCap: nat)
    requires oldCap < wantCap <= MAX_INT
    ensures wantCap <= newCap <= MAX_INT && 4 <= newCap
  {
    var newCap := Max(wantCap, 4);
    if oldCap <= MAX_INT / 2 then Max(newCap, 2 * oldCap) else newCap
  }

  /** The bound that the documentation of the function promises. */
  predicate DocumentedBound(wantCap: nat, oldCap: nat, newCap: nat) {
    newCap >= 4 && newCap >= wantCap && newCap >= (if 2 * oldCap < MAX_INT then 2 * oldCap else MAX_INT)
  }

  /** The promised bound holds up to half the largest integer, and beyond that only at the top. */
  lemma DocumentedBoundExactlyWhen(wantCap: nat, oldCap: nat)
    requires oldCap < wantCap <= MAX_INT
    ensures DocumentedBound(wantCap, oldCap, CapacityFor(wantCap, oldCap)) <==>
            oldCap <= MAX_INT / 2 || wantCap == MAX_INT
  {
  }

  lemma DocumentedBoundFails()
    ensures var oldCap := MAX_INT / 2 + 1;
            !DocumentedBound(oldCap + 1, oldCap, CapacityFor(oldCap + 1, oldCap))
  {
  }

  // ---------- The specification: a sequence, a capacity and a cost ----------

  /** `copied` counts the elements that growing the buffer has copied. */
  datatype State<T> = State(contents: seq<T>, cap: nat, copied: nat)

  datatype Op<T> = PushFront(value: T) | PushBack(value: T) | PopFront | PopBack | ReserveMore(n: nat)

  function Grown<T>(s: State<T>, wantCap: nat): State<T>
    requires wantCap <= MAX_INT
  {
    if wantCap <= s.cap then s
    else State(s.contents, CapacityFor(wantCap, s.cap), s.copied + |s.contents|)
  }

  predicate Enabled<T>(s: State<T>, op: Op<T>) {
    match op
    case PushFront(_) => |s.contents| < MAX_INT
    case PushBack(_) => |s.contents| < MAX_INT
    case PopFront => s.contents != []
    case PopBack => s.contents != []
    case ReserveMore(n) => n + |s.contents| <= MAX_INT
  }

  function Step<T>(s: State<T>, op: Op<T>): State<T>
    requires Enabled(s, op)
  {
    match op
    case PushFront(value) => var g := Grown(s, |s.contents| + 1); g.(contents := [value] + g.contents)
    case PushBack(value) => var g := Grown(s, |s.contents| + 1); g.(contents := g.contents + [value])
    case PopFront => s.(contents := s.contents[1..])
    case PopBack => s.(contents := s.contents[..|s.contents| - 1])
    case ReserveMore(n) => Grown(s, |s.contents| + n)
  }

  ghost predicate Runnable<T>(ops: seq<Op<T>>)
    decreases |ops|, 0
  {
    ops == [] || (Runnable(ops[..|ops| - 1]) && Enabled(Run(ops[..|ops| - 1]), ops[|ops| - 1]))
  }

  ghost function Run<T>(ops: seq<Op<T>>): State<T>
    requires Runnable(ops)
    decreases |ops|, 1
  {
    if ops == [] then State([], 0, 0) else Step(Run(ops[..|ops| - 1]), ops[|ops| - 1])
  }

  predicate IsPush<T>(op: Op<T>) {
    op.PushFront? || op.PushBack?
  }

  function Pushes<T>(ops: seq<Op<T>>): nat {
    if ops == [] then 0 else Pushes(ops[..|ops| - 1]) + (if IsPush(ops[|ops| - 1]) then 1 else 0)
  }

  /** The largest capacity that a buffer reaches by doubling. */
  const HALF: nat := MAX_INT / 2 + 1

  ghost predicate Unreserved<T>(ops: seq<Op<T>>) {
    Runnable(ops) && forall i :: 0 <= i < |ops| ==> !ops[i].ReserveMore?
  }

  ghost predicate CostInv<T>(s: State<T>, pushes: nat) {
    && |s.contents| <= pushes && |s.contents| <= s.cap
    && (s.cap == 0 ==> s.copied == 0)
    && (0 < s.cap <= HALF ==> s.copied + 4 <= s.cap && (s.cap == 4 || s.cap <= 2 * pushes))
    && (s.cap == HALF + 1 ==> s.copied + 4 <= 2 * HALF && HALF < pushes)
  }

  lemma StepCost<T>(s: State<T>, op: Op<T>, pushes: nat)
    requires CostInv(s, pushes) && Enabled(s, op) && !op.ReserveMore?
    ensures CostInv(Step(s, op), if IsPush(op) then pushes + 1 else pushes)
  {
  }

  lemma StartCost<T>()
    ensures CostInv<T>(State([], 0, 0), 0)
  {
  }

  lemma {:induction false} RunCost<T>(ops: seq<Op<T>>)
    requires Unreserved(ops)
    ensures CostInv(Run(ops), Pushes(ops))
    decreases |ops|
  {
    hide CostInv, Step, Enabled;
    if ops != [] {
      RunCost(ops[..|ops| - 1]);
      StepCost(Run(ops[..|ops| - 1]), ops[|ops| - 1], Pushes(ops[..|ops| - 1]));
    } else {
      StartCost<T>();
    }
  }

  /** Without explicit reservations growth copies at most two elements per push over any run,
      however long, as long as the buffer has grown at most once without doubling. */
  lemma GrowthIsAmortized<T>(ops: seq<Op<T>>)
    requires Unreserved(ops) && Run(ops).cap <= HALF + 1
    ensures Run(ops).copied <= 2 * Pushes(ops)
  {
    RunCost(ops);
  }

  function Appends<T>(n: nat, value: T): (ops: seq<Op<T>>)
    ensures |ops| == n && forall i :: 0 <= i < n ==> ops[i] == PushBack(value)
  {
    seq(n, _ => PushBack(value))
  }

  /** Doubling the capacity leads exactly to HALF. */
  predicate DoublesToHalf(cap: nat)
    requires cap > 0
    decreases HALF - cap
  {
    cap == HALF || (cap < HALF && DoublesToHalf(2 * cap))
  }

  lemma DoublingStaysBelow(cap: nat)
    requires 0 < cap < HALF && DoublesToHalf(cap)
    ensures 2 * cap <= HALF && DoublesToHalf(2 * cap)
  {
    assert DoublesToHalf(2 * cap);
  }

  lemma HalfIsPower()
    ensures Pow2(62) == HALF
  {
    BitVec.WordWidth();
    assert Pow2(64) == 2 * Pow2(63) == 4 * Pow2(62);
  }

  lemma {:induction false} PowersDouble(k: nat)
    requires k <= 62
    ensures DoublesToHalf(Pow2(k))
    decreases 62 - k
  {
    HalfIsPower();
    if k < 62 {
      Pow2Grows(k, 62);
      PowersDouble(k + 1);
      assert Pow2(k + 1) == 2 * Pow2(k);
    }
  }

  lemma FourDoublesToHalf()
    ensures DoublesToHalf(4)
  {
    PowersDouble(2);
    assert Pow2(2) == 4;
  }

  /** The state after n appends: the capacity doubles up to HALF and then follows the length. */
  ghost predicate AppendsInv<T>(s: State<T>, n: nat) {
    && |s.contents| == n <= s.cap
    && (n == 0 ==> s.cap == s.copied == 0)
    && (0 < n <= HALF ==> 4 <= s.cap <= HALF && s.copied + 4 == s.cap && DoublesToHalf(s.cap))
    && (n > HALF ==> s.cap == n)
    && (n == HALF + 1 ==> s.copied + 4 == 2 * HALF)
    && (n > HALF + 1 ==> s.copied > 2 * n)
  }

  lemma NextAppend<T>(s: State<T>, n: nat, value: T)
    requires 0 < n <= MAX_INT && AppendsInv(s, n - 1)
    ensures Enabled(s, PushBack(value)) && AppendsInv(Step(s, PushBack(value)), n)
  {
    hide DoublesToHalf;
    if n == 1 {
      FourDoublesToHalf();
    } else if n - 1 == s.cap < HALF {
      DoublingStaysBelow(s.cap);
    }
  }

  lemma {:induction false} AppendsCost<T>(n: nat, value: T)
    requires n <= MAX_INT
    ensures Runnable(Appends(n, value)) && AppendsInv(Run(Appends(n, value)), n)
    ensures Pushes(Appends(n, value)) == n
  {
    hide DoublesToHalf;
    if n > 0 {
      AppendsCost(n - 1, value);
      NextAppend(Run(Appends(n - 1, value)), n, value);
      assert Appends(n, value)[..n - 1] == Appends(n - 1, value);
    }
  }

  /** The bound is a bound for all runs that end with a given capacity exactly up to HALF + 1;
      beyond it plain appends break the bound. */
  lemma AmortizedExactlyWhen<T>(cap: nat, value: T)
    requires cap <= MAX_INT
    ensures (forall ops: seq<Op<T>> :: Unreserved(ops) && Run(ops).cap == cap ==> Run(ops).copied <= 2 * Pushes(ops))
            <==> cap <= HALF + 1
  {
    if cap <= HALF + 1 {
      forall ops: seq<Op<T>> | Unreserved(ops) && Run(ops).cap == cap ensures Run(ops).copied <= 2 * Pushes(ops) {
        GrowthIsAmortized(ops);
      }
    } else {
      AppendsCost(cap, value);
      assert Unreserved(Appends(cap, value));
    }
  }

  /** Beyond half the largest integer the buffer grows by a single slot. */
  lemma LargeBuffersGrowByOne<T>(s: State<T>, op: Op<T>)
    requires Enabled(s, op) && IsPush(op) && |s.contents| == s.cap > MAX_INT / 2
    ensures Step(s, op).cap == s.cap + 1 && Step(s, op).copied == s.copied + s.cap
  {
  }

  // ---------- What the contents are, by the history of the run ----------

  /** How far the front has moved out: pushes minus pops at the front. */
  function Front<T>(ops: seq<Op<T>>): int {
    if ops == [] then 0
    else
      var n := |ops| - 1;
      Front(ops[..n]) + (if ops[n].PushFront? then 1 else if ops[n].PopFront? then -1 else 0)
  }

  /** The same at the back. */
  function Back<T>(ops: seq<Op<T>>): int {
    if ops == [] then 0
    else
      var n := |ops| - 1;
      Back(ops[..n]) + (if ops[n].PushBack? then 1 else if ops[n].PopBack? then -1 else 0)
  }

  /** Place x is between the two ends after the first j operations. */
  ghost predicate Held<T>(ops: seq<Op<T>>, x: int, j: nat)
    requires j <= |ops|
  {
    -Front(ops[..j]) <= x < Back(ops[..j])
  }

  /** Operation k pushed v to place x, and v has not been popped since. */
  ghost predicate PushedAndKept<T>(ops: seq<Op<T>>, k: nat, x: int, v: T) {
    && k < |ops|
    && (|| (ops[k] == PushFront(v) && x == -Front(ops[..k]) - 1)
        || (ops[k] == PushBack(v) && x == Back(ops[..k])))
    && forall j :: k < j <= |ops| ==> Held(ops, x, j)
  }

  ghost predicate IsAt<T>(ops: seq<Op<T>>, x: int, v: T) {
    exists k: nat :: PushedAndKept(ops, k, x, v)
  }

  lemma {:induction false} SizeOfRun<T>(ops: seq<Op<T>>)
    requires Runnable(ops)
    ensures |Run(ops).contents| == Front(ops) + Back(ops)
    decreases |ops|
  {
    if ops != [] {
      SizeOfRun(ops[..|ops| - 1]);
    }
  }

  /** What was pushed before the last operation and is still between the ends is kept. */
  lemma KeptByLast<T>(ops: seq<Op<T>>, k: nat, x: int, v: T)
    requires ops != [] && PushedAndKept(ops[..|ops| - 1], k, x, v) && -Front(ops) <= x < Back(ops)
    ensures PushedAndKept(ops, k, x, v)
  {
    var n := |ops| - 1;
    var before := ops[..n];
    assert forall j :: 0 <= j <= n ==> before[..j] == ops[..j];
    forall j | k < j <= |ops| ensures Held(ops, x, j) {
      if j <= n {
        assert Held(before, x, j);
      } else {
        assert ops[..j] == ops;
      }
    }
  }

  lemma {:induction false} FindPush<T>(ops: seq<Op<T>>, i: nat) returns (k: nat)
    requires Runnable(ops) && i < |Run(ops).contents|
    ensures PushedAndKept(ops, k, i - Front(ops), Run(ops).contents[i])
    decreases |ops|
  {
    hide Held, PushedAndKept;
    SizeOfRun(ops);
    var n := |ops| - 1;
    var before, op := ops[..n], ops[n];
    var size := |Run(before).contents|;
    SizeOfRun(before);
    if (op.PushFront? && i == 0) || (op.PushBack? && i == size) {
      k := n;
      LastIsKept(ops, i - Front(ops), op.value);
    } else {
      k := FindPush(before, if op.PushFront? then i - 1 else if op.PopFront? then i + 1 else i);
      KeptByLast(ops, k, i - Front(ops), Run(ops).contents[i]);
    }
  }

  lemma LastIsKept<T>(ops: seq<Op<T>>, x: int, v: T)
    requires ops != [] && -Front(ops) <= x < Back(ops)
    requires var n := |ops| - 1;
             || (ops[n] == PushFront(v) && x == -Front(ops[..n]) - 1)
             || (ops[n] == PushBack(v) && x == Back(ops[..n]))
    ensures PushedAndKept(ops, |ops| - 1, x, v)
  {
    assert ops[..|ops|] == ops;
  }

  lemma OnePushPerPlace<T>(ops: seq<Op<T>>, k: nat, k': nat, x: int, v: T, v': T)
    requires PushedAndKept(ops, k, x, v) && PushedAndKept(ops, k', x, v')
    ensures k == k' && v == v'
  {
    assert k < k' ==> Held(ops, x, k');
    assert k' < k ==> Held(ops, x, k);
  }

  /** Over every run the element at index i is the value whose push put it at that distance from the
      front and which no pop has taken since. So a pop returns the last value pushed at its end and
      not yet popped, and if there is none, the oldest one from the other end. */
  lemma ContentsAreThePushes<T>(ops: seq<Op<T>>, i: nat, v: T)
    requires Runnable(ops) && i < |Run(ops).contents|
    ensures Run(ops).contents[i] == v <==> IsAt(ops, i - Front(ops), v)
  {
    hide PushedAndKept;
    var x := i - Front(ops);
    var k := FindPush(ops, i);
    if IsAt(ops, x, v) {
      var k': nat :| PushedAndKept(ops, k', x, v);
      OnePushPerPlace(ops, k, k', x, Run(ops).contents[i], v);
    }
  }

  // ---------- The ring buffer ----------

  /** The slot of the logical offset i. */
  function Slot(head: nat, i: nat, cap: nat): nat {
    if head + i < cap then head + i else head + i - cap
  }

  lemma SlotIsModulo(head: nat, i: nat, cap: nat)
    requires head < cap && i < cap
    ensures Slot(head, i, cap) == (head + i) % cap
  {
    if head + i >= cap {
      assert (head + i) == 1 * cap + (head + i - cap);
    }
  }

  class Deque<T> {
    const zero: T
    var values: array<T>
    var head: nat
    var len: nat
    ghost var copied: nat

    ghost predicate Valid()
      reads this, values
    {
      && values.Length <= MAX_INT && len <= values.Length
      && (if values.Length == 0 then head == 0 else head < values.Length)
      // Every slot outside the live window is zero.
      && forall i: nat :: len <= i < values.Length ==> values[Slot(head, i, values.Length)] == zero
    }

    ghost function Contents(): (s: seq<T>)
      requires Valid()
      reads this, values
      ensures |s| == len && forall i :: 0 <= i < len ==> s[i] == values[Slot(head, i, values.Length)]
    {
      seq(len, i requires 0 <= i < len && Valid() reads this, values => values[Slot(head, i, values.Length)])
    }

    ghost function Spec(): State<T>
      requires Valid()
      reads this, values
    {
      State(Contents(), values.Length, copied)
    }

    constructor (zero: T)
      ensures Valid() && Spec() == State([], 0, 0) && this.zero == zero && fresh(values)
    {
      this.zero := zero;
      values := new T[0];
      head, len, copied := 0, 0, 0;
    }

    /** The slot of an offset from head, computed without a sum that could overflow. */
    method PhysicalIndex(offset: nat) returns (idx: nat)
      requires Valid() && offset < values.Length
      ensures idx == Slot(head, offset, values.Length) && idx < values.Length
    {
      var tailLen := values.Length - head;
      if offset < tailLen {
        return head + offset;
      }
      return offset - tailLen;
    }

    method SplitContiguous() returns (first: seq<T>, second: seq<T>)
      requires Valid()
      ensures first + second == Contents()
      ensures |first| == if len < values.Length - head then len else values.Length - head
    {
      var firstLen := if len < values.Length - head then len else values.Length - head;
      return values[head..head + firstLen], values[..len - firstLen];
    }

    method ReserveCapacity(wantCap: nat)
      requires Valid() && len <= wantCap <= MAX_INT
      modifies this
      ensures Valid() && Spec() == Grown(old(Spec()), wantCap)
      ensures values == old(values) || (fresh(values) && head == 0)
    {
      var oldCap := values.Length;
      if wantCap <= oldCap {
        return;
      }
      var newCap := CapacityFor(wantCap, oldCap);
      var newValues := new T[newCap](_ => zero);
      var first, second := SplitContiguous();
      forall i | 0 <= i < |first| {
        newValues[i] := first[i];
      }
      forall i | 0 <= i < |second| {
        newValues[|first| + i] := second[i];
      }
      ghost var before := Contents();
      assert forall i :: 0 <= i < len ==> newValues[i] == (first + second)[i];
      copied := copied + len;
      values := newValues;
      head := 0;
      assert Contents() == before;
    }

    method ReserveMore(n: nat)
      requires Valid() && Enabled(Spec(), Op<T>.ReserveMore(n))
      modifies this
      ensures Valid() && Spec() == Step(old(Spec()), Op<T>.ReserveMore(n))
      ensures Contents() == old(Contents()) && len + n <= values.Length
      ensures values == old(values) || fresh(values)
    {
      ReserveCapacity(len + n);
    }

    method PushFront(value: T)
      requires Valid() && len < MAX_INT
      modifies this, values
      ensures Valid() && Spec() == Step(old(Spec()), Op.PushFront(value))
      ensures Contents() == [value] + old(Contents())
      ensures values == old(values) || fresh(values)
    {
      if len == values.Length {
        ReserveCapacity(len + 1);
      }
      ghost var before := Contents();
      ghost var h := head;
      head := if head == 0 then values.Length - 1 else head - 1;
      values[head] := value;
      len := len + 1;
      forall i: nat | len <= i < values.Length ensures values[Slot(head, i, values.Length)] == zero {
        assert Slot(head, i, values.Length) == Slot(h, i - 1, values.Length);
      }
      assert forall i: nat :: 0 < i < len ==> Slot(head, i, values.Length) == Slot(h, i - 1, values.Length);
      assert Contents() == [value] + before;
    }

    method PushBack(value: T)
      requires Valid() && len < MAX_INT
      modifies this, values
      ensures Valid() && Spec() == Step(old(Spec()), Op.PushBack(value))
      ensures Contents() == old(Contents()) + [value]
      ensures values == old(values) || fresh(values)
    {
      if len == values.Length {
        ReserveCapacity(len + 1);
      }
      ghost var before := Contents();
      var idx := PhysicalIndex(len);
      values[idx] := value;
      len := len + 1;
      assert Contents() == before + [value];
    }

    method PopFront() returns (value: T)
      requires Valid() && len > 0
      modifies this, values
      ensures Valid() && Spec() == Step(old(Spec()), Op<T>.PopFront)
      ensures value == old(Contents())[0] && Contents() == old(Contents())[1..]
      ensures values == old(values) && (len == 0 ==> head == 0)
    {
      ghost var before := Contents();
      value := values[head];
      values[head] := zero;
      len := len - 1;
      if len == 0 {
        RotateZeros(head);
        head := 0;
        return;
      }
      ghost var h := head;
      head := head + 1;
      if head == values.Length {
        head := 0;
      }
      assert forall i: nat :: i < values.Length - 1 ==> Slot(head, i, values.Length) == Slot(h, i + 1, values.Length);
      assert Slot(head, values.Length - 1, values.Length) == h;
      assert Contents() == before[1..];
    }

    method TryPopFront() returns (r: Option<T>)
      requires Valid()
      modifies this, values
      ensures Valid() && values == old(values)
      ensures old(len) == 0 ==> r == None && Spec() == old(Spec())
      ensures old(len) > 0 ==> r == Some(old(Contents())[0]) && Spec() == Step(old(Spec()), Op<T>.PopFront)
    {
      if len == 0 {
        return None;
      }
      var value := PopFront();
      return Some(value);
    }

    method PopBack() returns (value: T)
      requires Valid() && len > 0
      modifies this, values
      ensures Valid() && Spec() == Step(old(Spec()), Op<T>.PopBack)
      ensures value == old(Contents())[old(len) - 1] && Contents() == old(Contents())[..old(len) - 1]
      ensures values == old(values) && (len == 0 ==> head == 0)
    {
      ghost var before := Contents();
      var idx := PhysicalIndex(len - 1);
      value := values[idx];
      values[idx] := zero;
      len := len - 1;
      if len == 0 {
        RotateZeros(head);
        head := 0;
      }
      assert Contents() == before[..|before| - 1];
    }

    /** In a buffer whose window is empty every slot is zero, whatever the head. */
    lemma RotateZeros(h: nat)
      requires h < values.Length
      requires forall i: nat :: i < values.Length && i != 0 ==> values[Slot(h, i, values.Length)] == zero
      requires values[h] == zero
      ensures forall j: nat :: j < values.Length ==> values[j] == zero
    {
      forall j: nat | j < values.Length ensures values[j] == zero {
        var i := if j >= h then j - h else j + values.Length - h;
        assert Slot(h, i, values.Length) == j;
      }
    }
  }
}
