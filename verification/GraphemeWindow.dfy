/**
 Windows of bounded size around an offset inside a grapheme cluster. The cluster boundaries
 come from a segmenter; they are a set of positions between code points that contains both ends.
 */
module GraphemeWindow {
  import opened Wrappers
  import opened Bytes
  import opened Utf8
  import B = BitVec

  // ---------- Counting code points ----------

  /** Number of code points that start in text[a..b]. */
  function Count(text: ByteString, a: nat, b: nat): nat
    requires b <= |text|
    decreases b - a
  {
    if a >= b then 0 else (if IsTail(text[a]) then 0 else 1) + Count(text, a + 1, b)
  }

  lemma {:induction false} CountSplits(text: ByteString, a: nat, b: nat, c: nat)
    requires a <= b <= c <= |text|
    ensures Count(text, a, c) == Count(text, a, b) + Count(text, b, c)
    decreases b - a
  {
    if a < b {
      CountSplits(text, a + 1, b, c);
    }
  }

  lemma {:induction false} CountOfTails(text: ByteString, a: nat, b: nat)
    requires a <= b <= |text| && forall i :: a <= i < b ==> IsTail(text[i])
    ensures Count(text, a, b) == 0
    decreases b - a
  {
    if a < b {
      CountOfTails(text, a + 1, b);
    }
  }

  /** A boundary inside the text starts a code point. */
  lemma CountIsPositive(text: ByteString, a: nat, b: nat)
    requires Valid(text) && a < b <= |text| && Valid(text[..a])
    ensures Count(text, a, b) >= 1
  {
    BoundaryIff(text, a);
  }

  // ---------- Clusters ----------

  /** [left, right) is the cluster that has offset strictly inside. */
  ghost predicate IsCluster(bits: seq<bool>, left: nat, right: nat, offset: nat) {
    && left < offset < right < |bits| && bits[left] && bits[right]
    && forall i :: left < i < right ==> !bits[i]
  }

  lemma ClusterAround(bits: seq<bool>, offset: nat) returns (left: nat, right: nat)
    requires offset < |bits| && !bits[offset] && bits[0] && bits[|bits| - 1]
    ensures IsCluster(bits, left, right, offset)
  {
    left, right := offset - 1, offset + 1;
    while !bits[left]
      invariant 0 <= left < offset && forall i :: left < i <= offset ==> !bits[i]
      decreases left
    {
      left := left - 1;
    }
    while !bits[right]
      invariant offset < right < |bits| && forall i :: offset <= i < right ==> !bits[i]
      decreases |bits| - right
    {
      right := right + 1;
    }
  }

  lemma ClusterIsUnique(bits: seq<bool>, left: nat, right: nat, left': nat, right': nat, offset: nat)
    requires IsCluster(bits, left, right, offset) && IsCluster(bits, left', right', offset)
    ensures left' == left && right' == right
  {
  }

  datatype Window = Window(span: Span, isFullCluster: bool)

  function Min(a: nat, b: nat): nat {
    if a < b then a else b
  }

  /** What the window promises, relative to the cluster [left, right) around offset. */
  ghost predicate WindowOk(text: ByteString, w: Window, left: nat, right: nat, offset: nat, maxCodePoints: nat)
    requires right <= |text|
  {
    var (start, end) := (w.span.start, w.span.end);
    && left <= start <= offset < end <= right
    && Valid(text[..start]) && Valid(text[..end])
    && Count(text, start, end) <= maxCodePoints
    && (w.isFullCluster <==> Count(text, left, right) <= maxCodePoints)
    && (w.isFullCluster ==> start == left && end == right)
    && (!w.isFullCluster ==>
          && Count(text, start, offset) == Min(maxCodePoints / 2, Count(text, left, offset))
          && Count(text, offset, end) == Min(maxCodePoints - maxCodePoints / 2, Count(text, offset, right)))
  }

  class SegmentedText {
    const text: ByteString
    const boundaries: B.BitVec

    ghost predicate Ok()
      reads boundaries, boundaries.blocks
    {
      && boundaries.Valid() && boundaries.len == |text| + 1 && Valid(text)
      && boundaries.Contents()[0] && boundaries.Contents()[|text|]
      && forall i :: 0 <= i <= |text| && boundaries.Contents()[i] ==> Valid(text[..i])
    }

    /** `ends` are the ends of the clusters that the segmenter reports. */
    constructor (text: ByteString, ends: seq<nat>)
      requires Valid(text) && (text == [] || |text| in ends)
      requires forall i :: 0 <= i < |ends| ==> ends[i] <= |text| && Valid(text[..ends[i]])
      ensures Ok() && this.text == text
      ensures forall i :: 0 <= i <= |text| ==> (boundaries.Contents()[i] <==> i == 0 || i in ends)
    {
      hide Valid;
      var bits := new B.BitVec(|text| + 1);
      bits.Set(0);
      for k := 0 to |ends|
        invariant fresh(bits) && fresh(bits.blocks) && bits.Valid() && bits.len == |text| + 1
        invariant forall i :: 0 <= i <= |text| ==> (bits.Contents()[i] <==> i == 0 || i in ends[..k])
      {
        bits.Set(ends[k]);
        assert ends[..k + 1] == ends[..k] + [ends[k]];
      }
      this.text := text;
      boundaries := bits;
      assert ends[..|ends|] == ends;
      assert text[..0] == [];
      EmptyIsValid();
    }

    method NextCodePointEnd(i: nat) returns (end: nat)
      requires Ok() && i < |text| && Valid(text[..i])
      ensures i < end <= |text| && Valid(text[..end]) && Count(text, i, end) == 1
      ensures forall j :: i < j < end ==> !Valid(text[..j])
    {
      hide CharLen, Valid, CodePoint;
      NextBoundary(text, i);
      var (rune, size) := DecodeRune(text[i..]);
      CountOfTails(text, i + 1, i + size);
      BoundaryIff(text, i);
      forall j | i < j < i + size ensures !Valid(text[..j]) {
        BoundaryIff(text, j);
      }
      return i + size;
    }

    method PreviousCodePointStart(before: nat) returns (start: nat)
      requires Ok() && 0 < before <= |text|
      ensures start < before && Valid(text[..start]) && Count(text, start, before) == 1
      ensures forall j :: start < j < before ==> !Valid(text[..j])
    {
      start := before - 1;
      assert text[..0] == [];
      EmptyIsValid();
      while 0 < start && IsTail(text[start])
        invariant start < before && forall j :: start < j < before ==> IsTail(text[j])
      {
        start := start - 1;
      }
      BoundaryIff(text, start);
      CountOfTails(text, start + 1, before);
      forall j | start < j < before ensures !Valid(text[..j]) {
        BoundaryIff(text, j);
      }
    }

    method FindGraphemeClusterContaining(offset: nat, maxCodePoints: nat) returns (r: Option<Window>)
      requires Ok() && offset <= |text| && maxCodePoints >= 1
      requires offset == |text| || !IsTail(text[offset])
      ensures r.None? <==> boundaries.Contents()[offset]
      ensures r.Some? ==> forall left, right | IsCluster(boundaries.Contents(), left, right, offset) ::
                            WindowOk(text, r.value, left, right, offset, maxCodePoints)
    {
      hide Count, Valid;
      var atBoundary := boundaries.Get(offset);
      if offset == 0 || offset == |text| || atBoundary {
        return None;
      }
      BoundaryIff(text, offset);
      ghost var bits := boundaries.Contents();
      ghost var left, right := ClusterAround(bits, offset);
      var window := Optimistic(offset, maxCodePoints, left, right);
      if window.None? {
        window := Balanced(offset, maxCodePoints, left, right);
      }
      forall left', right' | IsCluster(bits, left', right', offset)
        ensures WindowOk(text, window.value, left', right', offset, maxCodePoints)
      {
        ClusterIsUnique(bits, left, right, left', right', offset);
      }
      return window;
    }

    /** From offset to the left, until the cluster starts or there are enough code points. */
    method WalkLeft(offset: nat, maxCodePoints: nat, ghost left: nat, ghost right: nat)
      returns (start: nat, codePoints: nat)
      requires Ok() && IsCluster(boundaries.Contents(), left, right, offset) && Valid(text[..offset])
      ensures left <= start <= offset && Valid(text[..start])
      ensures codePoints == Count(text, start, offset) <= maxCodePoints
      ensures codePoints == maxCodePoints || start == left
    {
      hide Count, Valid;
      start, codePoints := offset, 0;
      CountOfTails(text, offset, offset);
      while codePoints < maxCodePoints
        invariant left <= start <= offset && Valid(text[..start])
        invariant codePoints == Count(text, start, offset) <= maxCodePoints
        decreases start
      {
        var stop := boundaries.Get(start);
        if stop {
          return;
        }
        var previous := PreviousCodePointStart(start);
        assert left <= previous;
        CountSplits(text, previous, start, offset);
        start := previous;
        codePoints := codePoints + 1;
      }
    }

    /** From offset to the right, until the cluster ends or there are enough code points. */
    method WalkRight(offset: nat, before: nat, maxCodePoints: nat, ghost left: nat, ghost right: nat)
      returns (end: nat, codePoints: nat)
      requires Ok() && IsCluster(boundaries.Contents(), left, right, offset) && Valid(text[..offset])
      requires before <= maxCodePoints
      ensures offset <= end <= right && Valid(text[..end])
      ensures codePoints == before + Count(text, offset, end) <= maxCodePoints
      ensures codePoints == maxCodePoints || end == right
    {
      hide Count, Valid;
      end, codePoints := offset, before;
      CountOfTails(text, offset, offset);
      while codePoints < maxCodePoints
        invariant offset <= end <= right && Valid(text[..end])
        invariant codePoints == before + Count(text, offset, end) <= maxCodePoints
        decreases right - end
      {
        var stop := boundaries.Get(end);
        if stop {
          return;
        }
        var next := NextCodePointEnd(end);
        assert next <= right;
        CountSplits(text, offset, end, next);
        end := next;
        codePoints := codePoints + 1;
      }
    }

    /** The whole cluster, if it is small enough. */
    method Optimistic(offset: nat, maxCodePoints: nat, ghost left: nat, ghost right: nat) returns (r: Option<Window>)
      requires Ok() && IsCluster(boundaries.Contents(), left, right, offset) && Valid(text[..offset])
      ensures r.Some? <==> Count(text, left, right) <= maxCodePoints
      ensures r.Some? ==> r.value == Window(Span(left, right), true)
    {
      hide Count, Valid;
      var start, codePoints := WalkLeft(offset, maxCodePoints, left, right);
      var end, total := WalkRight(offset, codePoints, maxCodePoints, left, right);
      var fullLeft := boundaries.Get(start);
      var fullRight := boundaries.Get(end);
      CountSplits(text, left, start, offset);
      CountSplits(text, offset, end, right);
      CountSplits(text, left, offset, right);
      if fullLeft && fullRight {
        return Some(Window(Span(start, end), true));
      }
      if start != left {
        CountIsPositive(text, left, start);
      } else {
        CountIsPositive(text, end, right);
      }
      return None;
    }

    /** Do both ends lie on cluster boundaries? */
    method IsFull(start: nat, end: nat, ghost offset: nat, ghost left: nat, ghost right: nat) returns (full: bool)
      requires Ok() && IsCluster(boundaries.Contents(), left, right, offset)
      requires left <= start <= offset <= end <= right
      ensures full <==> start == left && end == right
    {
      var fullLeft := boundaries.Get(start);
      var fullRight := boundaries.Get(end);
      return fullLeft && fullRight;
    }

    /** The loop that takes one code point on either side in each round. */
    method GrowBalanced(offset: nat, leftBudget: nat, rightBudget: nat, ghost left: nat, ghost right: nat)
      returns (start: nat, end: nat)
      requires Ok() && IsCluster(boundaries.Contents(), left, right, offset) && Valid(text[..offset])
      requires leftBudget <= rightBudget
      requires leftBudget + rightBudget < Count(text, left, offset) + Count(text, offset, right)
      ensures left <= start <= offset <= end <= right && Valid(text[..start]) && Valid(text[..end])
      ensures Count(text, start, offset) == Min(leftBudget, Count(text, left, offset))
      ensures Count(text, offset, end) == Min(rightBudget, Count(text, offset, right))
    {
      hide Count, Valid;
      start, end := offset, offset;
      CountOfTails(text, offset, offset);
      for i := 0 to rightBudget
        invariant left <= start <= offset <= end <= right && Valid(text[..start]) && Valid(text[..end])
        invariant Count(text, start, offset) == Min(Min(i, leftBudget), Count(text, left, offset))
        invariant Count(text, offset, end) == Min(i, Count(text, offset, right))
      {
        start := StepLeft(start, i < leftBudget, offset, left, right);
        end := StepRight(end, offset, left, right);
        var full := IsFull(start, end, offset, left, right);
        if full {
          break;
        }
      }
    }

    /** A balanced window, for a cluster that is too large. */
    method Balanced(offset: nat, maxCodePoints: nat, ghost left: nat, ghost right: nat) returns (r: Option<Window>)
      requires Ok() && IsCluster(boundaries.Contents(), left, right, offset) && Valid(text[..offset])
      requires 1 <= maxCodePoints < Count(text, left, right)
      ensures r.Some? && WindowOk(text, r.value, left, right, offset, maxCodePoints)
    {
      hide Count, Valid;
      var leftBudget := maxCodePoints / 2;
      var rightBudget := maxCodePoints - leftBudget;
      CountSplits(text, left, offset, right);
      var start, end := GrowBalanced(offset, leftBudget, rightBudget, left, right);
      CountSplits(text, start, offset, end);
      CountIsPositive(text, offset, right);
      CountOfTails(text, offset, offset);
      var full := IsFull(start, end, offset, left, right);
      return Some(Window(Span(start, end), full));
    }

    /** One code point to the left, if there is budget and the cluster goes on. */
    method StepLeft(start: nat, budget: bool, ghost offset: nat, ghost left: nat, ghost right: nat) returns (next: nat)
      requires Ok() && IsCluster(boundaries.Contents(), left, right, offset)
      requires left <= start <= offset && Valid(text[..start])
      ensures left <= next <= start && Valid(text[..next])
      ensures Count(text, next, offset) ==
              if budget then Min(Count(text, start, offset) + 1, Count(text, left, offset))
              else Count(text, start, offset)
    {
      hide Count, Valid;
      next := start;
      CountSplits(text, left, start, offset);
      if budget {
        var stop := boundaries.Get(start);
        if !stop {
          next := PreviousCodePointStart(start);
          assert left <= next;
          CountSplits(text, next, start, offset);
          CountSplits(text, left, next, offset);
        }
      }
    }

    /** One code point to the right, if the cluster goes on. */
    method StepRight(end: nat, ghost offset: nat, ghost left: nat, ghost right: nat) returns (next: nat)
      requires Ok() && IsCluster(boundaries.Contents(), left, right, offset)
      requires offset <= end <= right && Valid(text[..end])
      ensures end <= next <= right && Valid(text[..next])
      ensures Count(text, offset, next) == Min(Count(text, offset, end) + 1, Count(text, offset, right))
    {
      hide Count, Valid;
      next := end;
      CountSplits(text, offset, end, right);
      var stop := boundaries.Get(end);
      if !stop {
        next := NextCodePointEnd(end);
        assert next <= right;
        CountSplits(text, offset, end, next);
        CountSplits(text, offset, next, right);
      }
    }
  }

  /** The documentation promises half of the code points before the offset and the rest after it.
      A window that is not the whole cluster meets this exactly when both sides are long enough. */
  lemma BalancedExactlyWhen(text: ByteString, w: Window, left: nat, right: nat, offset: nat, maxCodePoints: nat)
    requires right <= |text| && WindowOk(text, w, left, right, offset, maxCodePoints) && !w.isFullCluster
    ensures (Count(text, w.span.start, offset) == maxCodePoints / 2
             && Count(text, offset, w.span.end) == maxCodePoints - maxCodePoints / 2) <==>
            (maxCodePoints / 2 <= Count(text, left, offset)
             && maxCodePoints - maxCodePoints / 2 <= Count(text, offset, right))
  {
  }

  // ---------- A cluster on which the documented split fails ----------

  /** The letter a with n combining acute accents: one cluster of n + 1 code points. */
  function Accented(n: nat): (text: ByteString)
    ensures |text| == 1 + 2 * n && text[0] == 0x61
    ensures forall i :: 0 < i < |text| ==> text[i] == if i % 2 == 1 then 0xCC else 0x81
  {
    seq(1 + 2 * n, i => if i == 0 then 0x61 else if i % 2 == 1 then 0xCC else 0x81)
  }

  lemma {:induction false} AccentedIsValid(n: nat, k: nat)
    requires k <= n
    ensures Valid(Accented(n)[..1 + 2 * k])
    decreases k
  {
    hide Valid;
    var text := Accented(n);
    if k == 0 {
      assert text[..1] == [0x61];
      CharIsValid([0x61]);
    } else {
      AccentedIsValid(n, k - 1);
      var accent: ByteString := [0xCC, 0x81];
      CharIsValid(accent);
      ValidOfConcat(text[..2 * k - 1], accent);
      assert text[..1 + 2 * k] == text[..2 * k - 1] + accent;
    }
  }

  lemma {:induction false} CountOfAccents(n: nat, k: nat)
    requires k <= n
    ensures Count(Accented(n), 1 + 2 * k, 1 + 2 * n) == n - k
    decreases n - k
  {
    if k < n {
      CountOfAccents(n, k + 1);
      assert Count(Accented(n), 2 + 2 * k, 1 + 2 * n) == n - k - 1;
    }
  }

  /** A window after the letter of an accented letter that is too large always has the letter alone
      before the offset, so the documented split holds for it only up to three code points. */
  lemma AccentedBalancedIff(n: nat, maxCodePoints: nat, w: Window)
    requires 1 <= maxCodePoints <= n && WindowOk(Accented(n), w, 0, 1 + 2 * n, 1, maxCodePoints)
    ensures !w.isFullCluster && Count(Accented(n), w.span.start, 1) == Min(maxCodePoints / 2, 1)
    ensures (Count(Accented(n), w.span.start, 1) == maxCodePoints / 2
             && Count(Accented(n), 1, w.span.end) == maxCodePoints - maxCodePoints / 2) <==> maxCodePoints < 4
  {
    hide Valid;
    CountOfAccents(n, 0);
    assert Count(Accented(n), 0, 1) == 1;
    CountSplits(Accented(n), 0, 1, 1 + 2 * n);
    hide Count;
    BalancedExactlyWhen(Accented(n), w, 0, 1 + 2 * n, 1, maxCodePoints);
  }

  /** The code on "a" with five accents, the offset after the letter and room for four code points:
      the window has one code point before the offset, not two. */
  method ShortSideIsNotBalanced() returns (w: Window)
    ensures !w.isFullCluster && w.span.start <= 1 && Count(Accented(5), w.span.start, 1) == 1
  {
    hide Valid, Count;
    var text := Accented(5);
    AccentedIsValid(5, 5);
    assert text[..11] == text;
    var segmented := new SegmentedText(text, [11]);
    assert IsCluster(segmented.boundaries.Contents(), 0, 11, 1);
    var r := segmented.FindGraphemeClusterContaining(1, 4);
    w := r.value;
    AccentedBalancedIff(5, 4, w);
  }
}
