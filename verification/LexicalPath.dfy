/**
 Lexical normalisation of Unix paths: the in-place buffer algorithm refines a stack of
 path components. The separator is '/' and there is no volume prefix.
 */
module LexicalPath {

  const SEPARATOR := '/'

  // ---------- Components ----------

  /** Length of the longest prefix of s without a separator. */
  function ElementLen(s: string): (n: nat)
    ensures n <= |s| && SEPARATOR !in s[..n] && (n == |s| || s[n] == SEPARATOR)
  {
    if s == "" || s[0] == SEPARATOR then 0 else
      var n := ElementLen(s[1..]);
      assert s[..n + 1] == [s[0]] + s[1..][..n];
      1 + n
  }

  /** The non-empty elements between separators. */
  function Components(s: string): seq<string>
    decreases |s|
  {
    if s == "" then []
    else if s[0] == SEPARATOR then Components(s[1..])
    else [s[..ElementLen(s)]] + Components(s[ElementLen(s)..])
  }

  ghost predicate IsElement(e: string) {
    e != "" && SEPARATOR !in e
  }

  lemma {:induction false} ElementLenIs(s: string, n: nat)
    requires n <= |s| && SEPARATOR !in s[..n] && (n == |s| || s[n] == SEPARATOR)
    ensures ElementLen(s) == n
  {
    if n > 0 {
      assert s[0] in s[..n] && s[1..][..n - 1] == s[..n][1..];
      ElementLenIs(s[1..], n - 1);
    }
  }

  lemma {:induction false} ComponentsAreElements(s: string)
    ensures forall i :: 0 <= i < |Components(s)| ==> IsElement(Components(s)[i])
    decreases |s|
  {
    if s != "" {
      if s[0] == SEPARATOR {
        ComponentsAreElements(s[1..]);
      } else {
        ComponentsAreElements(s[ElementLen(s)..]);
      }
    }
  }

  // ---------- The component stack ----------

  /** One element against the stack of elements kept so far. */
  function Push(rooted: bool, stack: seq<string>, e: string): seq<string> {
    if e == "." then stack
    else if e == ".." then
      if stack != [] && stack[|stack| - 1] != ".." then stack[..|stack| - 1]
      else if rooted then stack
      else stack + [".."]
    else stack + [e]
  }

  function Resolve(rooted: bool, stack: seq<string>, es: seq<string>): seq<string>
    decreases |es|
  {
    if es == [] then stack else Resolve(rooted, Push(rooted, stack, es[0]), es[1..])
  }

  function Join(es: seq<string>): string {
    if es == [] then ""
    else if |es| == 1 then es[0]
    else Join(es[..|es| - 1]) + [SEPARATOR] + es[|es| - 1]
  }

  function Render(rooted: bool, stack: seq<string>): string {
    (if rooted then [SEPARATOR] else "") + Join(stack)
  }

  predicate Rooted(path: string) {
    path != "" && path[0] == SEPARATOR
  }

  /** The normal form without the rule for trailing separators. */
  function Clean(path: string): string {
    var body := Render(Rooted(path), Resolve(Rooted(path), [], Components(path)));
    if body == "" then "." else body
  }

  function Normal(path: string): string {
    var base := Clean(path);
    if path != "" && path[|path| - 1] == SEPARATOR && base !in {".", "..", "/"} then base + [SEPARATOR] else base
  }

  // ---------- The buffer ----------

  /** Index to which dropping the last element of s cuts it, but not below stop. */
  function CutPoint(s: string, stop: nat): (w: nat)
    requires stop < |s|
    ensures stop <= w < |s|
  {
    var w := |s| - 1;
    if w > stop && s[w] != SEPARATOR then CutPoint(s[..w], stop) else w
  }

  lemma CutStep(s: string, w: nat, stop: nat)
    requires stop <= w < |s|
    ensures CutPoint(s[..w + 1], stop) == if w > stop && s[w] != SEPARATOR then CutPoint(s[..w], stop) else w
  {
    assert s[..w + 1][..w] == s[..w];
  }

  /** The output: a prefix of the input as long as the two agree, a buffer of its own afterwards. */
  class LexicalBuffer {
    const path: string
    var buffer: array?<char>
    var writePos: nat

    ghost predicate Valid()
      reads this
    {
      writePos <= |path| && (buffer != null ==> buffer.Length == |path|)
    }

    ghost function Contents(): (s: string)
      requires Valid()
      reads this, buffer
      ensures |s| == writePos
    {
      if buffer == null then path[..writePos] else buffer[..writePos]
    }

    constructor (path: string)
      ensures this.path == path && Valid() && Contents() == "" && buffer == null
    {
      this.path := path;
      buffer := null;
      writePos := 0;
    }

    method ByteAt(index: nat) returns (c: char)
      requires Valid() && index < |path|
      ensures c == if buffer != null then buffer[index] else path[index]
    {
      if buffer != null {
        return buffer[index];
      }
      return path[index];
    }

    method AppendByte(c: char)
      requires Valid() && writePos < |path|
      modifies this, buffer
      ensures Valid() && Contents() == old(Contents()) + [c]
      ensures buffer == old(buffer) || fresh(buffer)
    {
      if buffer == null {
        if writePos < |path| && path[writePos] == c {
          writePos := writePos + 1;
          return;
        }
        buffer := new char[|path|];
        forall i | 0 <= i < writePos {
          buffer[i] := path[i];
        }
      }
      buffer[writePos] := c;
      writePos := writePos + 1;
    }

    /** Appends the input from start up to the next separator or the end. */
    method CopyElement(start: nat) returns (readPos: nat)
      requires Valid() && writePos <= start < |path| && path[start] != SEPARATOR
      modifies this, buffer
      ensures Valid() && (buffer == old(buffer) || fresh(buffer))
      ensures start < readPos <= |path| && SEPARATOR !in path[start..readPos]
      ensures path[readPos - 1] != SEPARATOR && (readPos == |path| || path[readPos] == SEPARATOR)
      ensures Contents() == old(Contents()) + path[start..readPos]
    {
      readPos := start;
      while readPos < |path| && path[readPos] != SEPARATOR
        invariant start <= readPos <= |path| && Valid()
        invariant buffer == old(buffer) || fresh(buffer)
        invariant SEPARATOR !in path[start..readPos] && (start < readPos ==> path[readPos - 1] != SEPARATOR)
        invariant Contents() == old(Contents()) + path[start..readPos]
      {
        assert path[start..readPos + 1] == path[start..readPos] + [path[readPos]];
        AppendByte(path[readPos]);
        readPos := readPos + 1;
      }
    }

    method RemoveLastPathElement(stopPos: nat)
      requires Valid() && stopPos < writePos
      modifies this`writePos
      ensures Valid() && Contents() == old(Contents())[..CutPoint(old(Contents()), stopPos)]
    {
      hide CutPoint;
      ghost var all := Contents();
      assert all[..|all|] == all;
      writePos := writePos - 1;
      while writePos > stopPos
        invariant stopPos <= writePos < |all| && Valid()
        invariant Contents() == all[..writePos]
        invariant CutPoint(all, stopPos) == CutPoint(all[..writePos + 1], stopPos)
      {
        var c := ByteAt(writePos);
        assert c == all[writePos];
        CutStep(all, writePos, stopPos);
        if c == SEPARATOR {
          return;
        }
        writePos := writePos - 1;
      }
      CutStep(all, writePos, stopPos);
    }

    method String() returns (s: string)
      requires Valid()
      ensures s == Contents()
    {
      if buffer == null {
        return path[..writePos];
      }
      return buffer[..writePos];
    }

    method ShouldPreserveTrailingSeparator(rooted: bool) returns (preserve: bool)
      requires Valid()
      ensures preserve <==> Contents() !in {"", ".", ".."} && !(rooted && writePos == 1)
                            && Contents()[writePos - 1] != SEPARATOR
    {
      if writePos == 0 {
        return false;
      }
      if rooted && writePos == 1 {
        return false;
      }
      var c0 := ByteAt(0);
      if writePos == 1 && c0 == '.' {
        assert Contents() == ".";
        return false;
      }
      if writePos == 2 && c0 == '.' {
        var c1 := ByteAt(1);
        if c1 == '.' {
          assert Contents() == "..";
          return false;
        }
      }
      var c := ByteAt(writePos - 1);
      return c != SEPARATOR;
    }
  }

  // ---------- The loop ----------

  /** `dots` leading ".." elements that nothing can remove, then proper elements. */
  ghost predicate StackOk(rooted: bool, stack: seq<string>, dots: nat) {
    && dots <= |stack| && (rooted ==> dots == 0)
    && (forall i: nat :: EntryOk(stack, dots, i))
  }

  ghost predicate EntryOk(stack: seq<string>, dots: nat, i: nat) {
    i < |stack| ==> IsElement(stack[i]) && stack[i] != "." && (stack[i] == ".." <==> i < dots)
  }

  lemma JoinSnoc(es: seq<string>, e: string)
    ensures Join(es + [e]) == if es == [] then e else Join(es) + [SEPARATOR] + e
  {
    assert (es + [e])[..|es|] == es;
  }

  lemma {:induction false} CutPointIs(s: string, stop: nat, k: nat)
    requires stop <= k < |s| && (k == stop || s[k] == SEPARATOR)
    requires SEPARATOR !in s[k + 1..]
    ensures CutPoint(s, stop) == k
  {
    var w := |s| - 1;
    if w > k {
      assert s[w] in s[k + 1..];
      assert s[..w][k + 1..] == s[k + 1..w] && s[k + 1..w] <= s[k + 1..];
      CutPointIs(s[..w], stop, k);
    }
  }

  lemma {:induction false} RenderOfPrefix(rooted: bool, stack: seq<string>, dots: nat, n: nat)
    requires StackOk(rooted, stack, dots) && n <= |stack|
    ensures Render(rooted, stack[..n]) <= Render(rooted, stack)
    ensures n < |stack| ==> |Render(rooted, stack[..n])| < |Render(rooted, stack)|
    decreases |stack| - n
  {
    if n == |stack| {
      assert stack[..n] == stack;
    } else {
      assert stack[..n + 1] == stack[..n] + [stack[n]] && EntryOk(stack, dots, n);
      JoinSnoc(stack[..n], stack[n]);
      RenderOfPrefix(rooted, stack, dots, n + 1);
    }
  }

  lemma CutElement(p: string, e: string, stop: nat)
    requires IsElement(e) && stop <= |p|
    ensures CutPoint(p + [SEPARATOR] + e, stop) == |p|
    ensures CutPoint(p + e, |p|) == |p|
  {
    assert (p + [SEPARATOR] + e)[|p| + 1..] == e;
    CutPointIs(p + [SEPARATOR] + e, stop, |p|);
    assert (p + e)[|p| + 1..] == e[1..];
    CutPointIs(p + e, |p|, |p|);
  }

  lemma PopKeepsOk(rooted: bool, stack: seq<string>, dots: nat)
    requires StackOk(rooted, stack, dots) && dots < |stack|
    ensures StackOk(rooted, stack[..|stack| - 1], dots) && stack[|stack| - 1] != ".."
  {
    var stack' := stack[..|stack| - 1];
    forall i: nat ensures EntryOk(stack', dots, i) {
      assert EntryOk(stack, dots, i);
    }
    assert EntryOk(stack, dots, |stack| - 1);
  }

  /** A ".." on a stack of nothing but ".." goes on top of it. */
  lemma PushDotDot(stack: seq<string>, dots: nat)
    requires StackOk(false, stack, dots) && dots == |stack|
    ensures Push(false, stack, "..") == stack + [".."] && StackOk(false, stack + [".."], dots + 1)
    ensures Render(false, stack + [".."]) == Render(false, stack) + (if stack == [] then "" else [SEPARATOR]) + ".."
    ensures stack == [] <==> Render(false, stack) == ""
  {
    JoinEmpty(false, stack, dots);
    JoinSnoc(stack, "..");
    assert stack != [] ==> EntryOk(stack, dots, |stack| - 1);
    assert SEPARATOR !in "..";
    var stack', dots' := stack + [".."], dots + 1;
    forall i: nat ensures EntryOk(stack', dots', i) {
      assert EntryOk(stack, dots, i);
    }
  }

  lemma RenderSnoc(rooted: bool, rest: seq<string>, e: string)
    ensures Render(rooted, rest + [e]) == Render(rooted, rest) + (if rest == [] then "" else [SEPARATOR]) + e
  {
    JoinSnoc(rest, e);
  }

  /** Cutting the output at the last separator drops exactly the last element of the stack. */
  lemma CutPops(rooted: bool, stack: seq<string>, dots: nat)
    requires StackOk(rooted, stack, dots) && dots < |stack|
    ensures var out, limit := Render(rooted, stack), |Render(rooted, stack[..dots])|;
            limit < |out| && out[..CutPoint(out, limit)] == Render(rooted, stack[..|stack| - 1])
  {
    hide Render, CutPoint;
    var n := |stack| - 1;
    var rest, e := stack[..n], stack[n];
    var limit, p, out := |Render(rooted, stack[..dots])|, Render(rooted, rest), Render(rooted, stack);
    assert rest[..dots] == stack[..dots] && stack == rest + [e] && EntryOk(stack, dots, n);
    PopKeepsOk(rooted, stack, dots);
    RenderOfPrefix(rooted, rest, dots, dots);
    RenderSnoc(rooted, rest, e);
    CutElement(p, e, limit);
    if n == 0 {
      assert rest == stack[..dots] && out == p + e;
    } else {
      assert out == p + [SEPARATOR] + e;
    }
  }

  /** The output never overtakes the input, and stays one byte behind once a separator has been read. */
  ghost predicate HasRoom(path: string, rooted: bool, readPos: nat, writePos: nat) {
    && writePos <= readPos <= |path|
    && (readPos == 0 || path[readPos - 1] == SEPARATOR || readPos == |path| || path[readPos] == SEPARATOR)
    && (readPos > 0 && path[readPos - 1] == SEPARATOR && !(rooted && writePos == 1) ==> writePos < readPos)
  }

  /** What is left to resolve before and after reading the element e. */
  lemma ReadElement(rooted: bool, stack: seq<string>, path: string, readPos: nat, next: nat, e: string)
    requires readPos < next <= |path| && e == path[readPos..next] && SEPARATOR !in e
    requires next == |path| || path[next] == SEPARATOR
    ensures Resolve(rooted, stack, Components(path[readPos..])) ==
            Resolve(rooted, Push(rooted, stack, e), Components(path[next..]))
  {
    var s, n := path[readPos..], next - readPos;
    assert s[..n] == e && s[n..] == path[next..];
    assert s[0] == e[0];
    ElementLenIs(s, n);
    assert Components(s)[1..] == Components(s[n..]);
  }

  lemma ReadDotDot(rooted: bool, stack: seq<string>, path: string, readPos: nat)
    requires readPos + 2 <= |path| && path[readPos] == '.' && path[readPos + 1] == '.'
    requires readPos + 2 == |path| || path[readPos + 2] == SEPARATOR
    ensures Resolve(rooted, stack, Components(path[readPos..])) ==
            Resolve(rooted, Push(rooted, stack, ".."), Components(path[readPos + 2..]))
  {
    assert path[readPos..readPos + 2] == "..";
    ReadElement(rooted, stack, path, readPos, readPos + 2, "..");
  }

  lemma ReadSeparator(path: string, readPos: nat)
    requires readPos < |path| && path[readPos] == SEPARATOR
    ensures Components(path[readPos..]) == Components(path[readPos + 1..])
  {
    assert path[readPos..][1..] == path[readPos + 1..];
  }

  /** The branch for a ".." element at readPos. */
  method WriteDotDot(output: LexicalBuffer, rooted: bool, dotDotLimit: nat, ghost readPos: nat,
                     ghost stack: seq<string>, ghost dots: nat)
    returns (limit: nat, ghost stack': seq<string>, ghost dots': nat)
    requires output.Valid() && StackOk(rooted, stack, dots) && readPos + 2 <= |output.path|
    requires output.Contents() == Render(rooted, stack) && dotDotLimit == |Render(rooted, stack[..dots])|
    requires output.writePos <= readPos && (!rooted && output.writePos > 0 ==> output.writePos < readPos)
    modifies output, output.buffer
    ensures output.Valid() && (output.buffer == old(output.buffer) || fresh(output.buffer))
    ensures stack' == Push(rooted, stack, "..") && StackOk(rooted, stack', dots')
    ensures output.Contents() == Render(rooted, stack') && limit == |Render(rooted, stack'[..dots'])|
    ensures output.writePos <= readPos + 2
  {
    hide Render, StackOk, CutPoint;
    limit, stack', dots' := dotDotLimit, stack, dots;
    LimitSplitsStack(rooted, stack, dots);
    if output.writePos > dotDotLimit {
      CutPops(rooted, stack, dots);
      PopKeepsOk(rooted, stack, dots);
      output.RemoveLastPathElement(dotDotLimit);
      stack' := stack[..|stack| - 1];
    } else if !rooted {
      PushDotDot(stack, dots);
      if output.writePos > 0 {
        output.AppendByte(SEPARATOR);
      }
      output.AppendByte('.');
      output.AppendByte('.');
      limit, stack', dots' := output.writePos, stack + [".."], dots + 1;
      assert stack'[..dots'] == stack';
    }
  }

  /** The output is longer than the limit exactly when the stack has an element to remove. */
  lemma LimitSplitsStack(rooted: bool, stack: seq<string>, dots: nat)
    requires StackOk(rooted, stack, dots)
    ensures dots <= |stack| && (rooted ==> dots == 0)
    ensures |Render(rooted, stack)| > |Render(rooted, stack[..dots])| <==> dots < |stack|
    ensures dots < |stack| ==> stack[..|stack| - 1][..dots] == stack[..dots] && stack[|stack| - 1] != ".."
    ensures dots == |stack| != 0 ==> stack[|stack| - 1] == ".."
  {
    RenderOfPrefix(rooted, stack, dots, dots);
    assert stack != [] ==> EntryOk(stack, dots, |stack| - 1);
    assert dots == |stack| ==> stack[..dots] == stack;
  }

  /** A proper element goes on top of the stack. */
  lemma PushElement(rooted: bool, stack: seq<string>, dots: nat, e: string)
    requires StackOk(rooted, stack, dots) && IsElement(e) && e != "." && e != ".."
    ensures Push(rooted, stack, e) == stack + [e] && StackOk(rooted, stack + [e], dots)
    ensures (stack + [e])[..dots] == stack[..dots]
    ensures Render(rooted, stack + [e]) == Render(rooted, stack) + (if stack == [] then "" else [SEPARATOR]) + e
    ensures stack == [] <==> Render(rooted, stack) == Render(rooted, [])
  {
    JoinEmpty(rooted, stack, dots);
    JoinSnoc(stack, e);
    var stack' := stack + [e];
    forall i: nat ensures EntryOk(stack', dots, i) {
      assert EntryOk(stack, dots, i);
    }
  }

  /** The branch for a proper element at start. */
  method WriteElement(output: LexicalBuffer, rooted: bool, start: nat, ghost stack: seq<string>, ghost dots: nat)
    returns (readPos: nat, ghost e: string)
    requires output.Valid() && start < |output.path| && output.path[start] != SEPARATOR
    requires NoDotsAt(output.path, start) && StackOk(rooted, stack, dots)
    requires output.Contents() == Render(rooted, stack)
    requires output.writePos <= start && (output.writePos != (if rooted then 1 else 0) ==> output.writePos < start)
    modifies output, output.buffer
    ensures output.Valid() && (output.buffer == old(output.buffer) || fresh(output.buffer))
    ensures start < readPos <= |output.path| && e == output.path[start..readPos] && SEPARATOR !in e
    ensures output.path[readPos - 1] != SEPARATOR && (readPos == |output.path| || output.path[readPos] == SEPARATOR)
    ensures e != "." && e != ".."
    ensures output.Contents() == Render(rooted, stack + [e])
    ensures output.writePos <= readPos
  {
    if (rooted && output.writePos != 1) || (!rooted && output.writePos != 0) {
      output.AppendByte(SEPARATOR);
    }
    readPos := output.CopyElement(start);
    e := output.path[start..readPos];
    NotDots(output.path, start, readPos);
    PushElement(rooted, stack, dots, e);
  }

  /** What the loop knows between two elements; `goal` is the stack of the whole input. */
  ghost predicate Tracks(goal: seq<string>, path: string, rooted: bool, readPos: nat, limit: nat, out: string,
                         stack: seq<string>, dots: nat) {
    && HasRoom(path, rooted, readPos, |out|)
    && StackOk(rooted, stack, dots)
    && limit == |Render(rooted, stack[..dots])|
    && out == Render(rooted, stack)
    && goal == Resolve(rooted, stack, Components(path[readPos..]))
  }

  lemma TrackStart(path: string, rooted: bool)
    requires path != "" && rooted == Rooted(path)
    ensures var start := if rooted then 1 else 0;
            var text := if rooted then [SEPARATOR] else "";
            Tracks(Resolve(rooted, [], Components(path)), path, rooted, start, start, text, [], 0)
  {
    assert path[0..] == path;
  }

  lemma TrackSeparator(goal: seq<string>, path: string, rooted: bool, readPos: nat, limit: nat, out: string,
                       stack: seq<string>, dots: nat)
    requires Tracks(goal, path, rooted, readPos, limit, out, stack, dots)
    requires readPos < |path| && path[readPos] == SEPARATOR
    ensures Tracks(goal, path, rooted, readPos + 1, limit, out, stack, dots)
  {
    ReadSeparator(path, readPos);
  }

  lemma TrackDot(goal: seq<string>, path: string, rooted: bool, readPos: nat, limit: nat, out: string,
                 stack: seq<string>, dots: nat)
    requires Tracks(goal, path, rooted, readPos, limit, out, stack, dots)
    requires readPos < |path| && path[readPos] == '.' && (readPos + 1 == |path| || path[readPos + 1] == SEPARATOR)
    ensures Tracks(goal, path, rooted, readPos + 1, limit, out, stack, dots)
  {
    assert path[readPos..readPos + 1] == ".";
    ReadElement(rooted, stack, path, readPos, readPos + 1, ".");
  }

  /** The element branch of the loop, with everything the loop needs to know afterwards. */
  method ReadAndWriteElement(output: LexicalBuffer, rooted: bool, readPos: nat, ghost dotDotLimit: nat,
                             ghost goal: seq<string>, ghost stack: seq<string>, ghost dots: nat)
    returns (next: nat, ghost stack': seq<string>)
    requires output.Valid() && readPos < |output.path| && output.path[readPos] != SEPARATOR
    requires NoDotsAt(output.path, readPos)
    requires Tracks(goal, output.path, rooted, readPos, dotDotLimit, output.Contents(), stack, dots)
    requires rooted ==> readPos > 0 && output.writePos > 0
    modifies output, output.buffer
    ensures output.Valid() && (output.buffer == old(output.buffer) || fresh(output.buffer))
    ensures readPos < next
    ensures Tracks(goal, output.path, rooted, next, dotDotLimit, output.Contents(), stack', dots)
  {
    ghost var e;
    next, e := WriteElement(output, rooted, readPos, stack, dots);
    PushElement(rooted, stack, dots, e);
    stack' := stack + [e];
    ReadElement(rooted, stack, output.path, readPos, next, e);
  }

  /** The ".." branch of the loop. */
  method ReadAndWriteDotDot(output: LexicalBuffer, rooted: bool, readPos: nat, dotDotLimit: nat,
                            ghost goal: seq<string>, ghost stack: seq<string>, ghost dots: nat)
    returns (limit: nat, ghost stack': seq<string>, ghost dots': nat)
    requires output.Valid() && readPos + 2 <= |output.path|
    requires output.path[readPos] == '.' && output.path[readPos + 1] == '.'
    requires readPos + 2 == |output.path| || output.path[readPos + 2] == SEPARATOR
    requires Tracks(goal, output.path, rooted, readPos, dotDotLimit, output.Contents(), stack, dots)
    modifies output, output.buffer
    ensures output.Valid() && (output.buffer == old(output.buffer) || fresh(output.buffer))
    ensures Tracks(goal, output.path, rooted, readPos + 2, limit, output.Contents(), stack', dots')
  {
    ReadDotDot(rooted, stack, output.path, readPos);
    limit, stack', dots' := WriteDotDot(output, rooted, dotDotLimit, readPos, stack, dots);
  }

  /** One round of the loop. */
  method NextElement(output: LexicalBuffer, rooted: bool, readPos: nat, dotDotLimit: nat,
                     ghost goal: seq<string>, ghost stack: seq<string>, ghost dots: nat)
    returns (next: nat, limit: nat, ghost stack': seq<string>, ghost dots': nat)
    requires output.Valid() && readPos < |output.path| && (rooted ==> readPos > 0 && output.writePos > 0)
    requires Tracks(goal, output.path, rooted, readPos, dotDotLimit, output.Contents(), stack, dots)
    modifies output, output.buffer
    ensures output.Valid() && (output.buffer == old(output.buffer) || fresh(output.buffer))
    ensures readPos < next
    ensures Tracks(goal, output.path, rooted, next, limit, output.Contents(), stack', dots')
  {
    hide Resolve, Components, StackOk, Render;
    limit, stack', dots' := dotDotLimit, stack, dots;
    if output.path[readPos] == SEPARATOR {
      TrackSeparator(goal, output.path, rooted, readPos, dotDotLimit, output.Contents(), stack, dots);
      next := readPos + 1;
    } else if output.path[readPos] == '.' && (readPos + 1 == |output.path| || output.path[readPos + 1] == SEPARATOR) {
      TrackDot(goal, output.path, rooted, readPos, dotDotLimit, output.Contents(), stack, dots);
      next := readPos + 1;
    } else if output.path[readPos] == '.' && output.path[readPos + 1] == '.'
              && (readPos + 2 == |output.path| || output.path[readPos + 2] == SEPARATOR) {
      limit, stack', dots' := ReadAndWriteDotDot(output, rooted, readPos, dotDotLimit, goal, stack, dots);
      next := readPos + 2;
    } else {
      next, stack' := ReadAndWriteElement(output, rooted, readPos, dotDotLimit, goal, stack, dots);
    }
  }

  method LexicallyNormalize(path: string) returns (r: string)
    ensures r == Normal(path) && IsNormalFormOf(r, path)
  {
    hide IsNormalFormOf;
    NormalFormIsUnique(Normal(path), path);
    if path == "" {
      return ".";
    }
    var rooted := path[0] == SEPARATOR;
    var output := new LexicalBuffer(path);
    var readPos: nat, dotDotLimit: nat := 0, 0;
    if rooted {
      output.AppendByte(SEPARATOR);
      readPos, dotDotLimit := 1, 1;
    }
    ghost var goal := Resolve(rooted, [], Components(path));
    ghost var stack: seq<string>, dots: nat := [], 0;
    TrackStart(path, rooted);
    while readPos < |path|
      invariant output.path == path && output.Valid() && fresh(output)
      invariant output.buffer == null || fresh(output.buffer)
      invariant Tracks(goal, path, rooted, readPos, dotDotLimit, output.Contents(), stack, dots)
      invariant rooted ==> readPos > 0
    {
      readPos, dotDotLimit, stack, dots := NextElement(output, rooted, readPos, dotDotLimit, goal, stack, dots);
    }
    r := Finish(output, rooted, stack, dots);
  }

  /** After the loop: the empty output becomes ".", and a trailing separator may be kept. */
  method Finish(output: LexicalBuffer, rooted: bool, ghost stack: seq<string>, ghost dots: nat) returns (r: string)
    requires output.Valid() && output.path != "" && rooted == Rooted(output.path)
    requires StackOk(rooted, stack, dots) && stack == Resolve(rooted, [], Components(output.path))
    requires output.Contents() == Render(rooted, stack)
    requires HasRoom(output.path, rooted, |output.path|, output.writePos)
    modifies output, output.buffer
    ensures r == Normal(output.path)
  {
    JoinEmpty(rooted, stack, dots);
    if output.writePos == 0 {
      output.AppendByte('.');
    }
    ghost var base := output.Contents();
    assert base == Clean(output.path);
    if output.path[|output.path| - 1] == SEPARATOR {
      RenderEnd(rooted, stack, dots);
      var preserve := output.ShouldPreserveTrailingSeparator(rooted);
      assert rooted ==> base[0] == SEPARATOR;
      assert rooted && |base| == 1 ==> base == "/";
      assert preserve <==> base !in {".", "..", "/"};
      if preserve {
        output.AppendByte(SEPARATOR);
      }
    }
    r := output.String();
  }

  lemma JoinEmpty(rooted: bool, stack: seq<string>, dots: nat)
    requires StackOk(rooted, stack, dots)
    ensures stack == [] <==> Join(stack) == ""
  {
    if stack != [] {
      RenderOfPrefix(rooted, stack, dots, 0);
    }
  }

  /** No "." or ".." element starts here. */
  ghost predicate NoDotsAt(path: string, i: nat)
    requires i < |path|
  {
    && !(path[i] == '.' && (i + 1 == |path| || path[i + 1] == SEPARATOR))
    && !(path[i] == '.' && i + 1 < |path| && path[i + 1] == '.' && (i + 2 == |path| || path[i + 2] == SEPARATOR))
  }

  lemma NotDots(path: string, i: nat, next: nat)
    requires i < next <= |path| && (next == |path| || path[next] == SEPARATOR) && NoDotsAt(path, i)
    ensures path[i..next] != "." && path[i..next] != ".."
  {
    var e := path[i..next];
    assert e[0] == path[i] && (|e| == 2 ==> e[1] == path[i + 1]);
  }

  /** The output ends in an element, so its last byte is no separator, unless there is no element. */
  lemma RenderEnd(rooted: bool, stack: seq<string>, dots: nat)
    requires StackOk(rooted, stack, dots)
    ensures stack == [] ==> Render(rooted, stack) == if rooted then "/" else ""
    ensures stack != [] ==> Render(rooted, stack) != ""
                            && Render(rooted, stack)[|Render(rooted, stack)| - 1] != SEPARATOR
  {
    if stack != [] {
      var n := |stack| - 1;
      var e, out := stack[n], Render(rooted, stack);
      assert stack == stack[..n] + [e] && EntryOk(stack, dots, n);
      JoinSnoc(stack[..n], e);
      assert e[|e| - 1] in e && out[|out| - 1] == e[|e| - 1];
    }
  }

  // ---------- Components and normal forms ----------

  lemma {:induction false} ComponentsSplit(a: string, b: string)
    ensures Components(a + [SEPARATOR] + b) == Components(a) + Components(b)
    decreases |a|
  {
    var s := a + [SEPARATOR] + b;
    if a == "" {
      assert s[1..] == b;
    } else if a[0] == SEPARATOR {
      ComponentsSplit(a[1..], b);
      assert s[1..] == a[1..] + [SEPARATOR] + b;
    } else {
      var n := ElementLen(a);
      assert s[..n] == a[..n] && s[n..] == a[n..] + [SEPARATOR] + b;
      ElementLenIs(s, n);
      ComponentsSplit(a[n..], b);
    }
  }

  lemma ComponentsOfElement(e: string)
    requires IsElement(e)
    ensures Components(e) == [e]
  {
    assert e[..|e|] == e;
    ElementLenIs(e, |e|);
    assert e[0] in e;
    assert Components(e[|e|..]) == [];
  }

  lemma {:induction false} ComponentsOfJoin(rooted: bool, stack: seq<string>, dots: nat)
    requires StackOk(rooted, stack, dots)
    ensures Components(Join(stack)) == stack
    decreases |stack|
  {
    if stack != [] {
      var n := |stack| - 1;
      var rest, e := stack[..n], stack[n];
      assert EntryOk(stack, dots, n) && stack == rest + [e];
      ComponentsOfElement(e);
      if n > 0 {
        var dots' := if dots < n then dots else n;
        forall i: nat ensures EntryOk(rest, dots', i) {
          assert EntryOk(stack, dots, i);
        }
        ComponentsOfJoin(rooted, rest, dots');
        ComponentsSplit(Join(rest), e);
      }
    }
  }

  /** Rendering a stack and splitting the text gives the stack back. */
  lemma ComponentsOfRender(rooted: bool, stack: seq<string>, dots: nat)
    requires StackOk(rooted, stack, dots)
    ensures Components(Render(rooted, stack)) == stack
    ensures Components(Render(rooted, stack) + [SEPARATOR]) == stack
  {
    ComponentsOfJoin(rooted, stack, dots);
    var out := Render(rooted, stack);
    if rooted {
      assert out[1..] == Join(stack);
    } else {
      assert out == Join(stack);
    }
    ComponentsSplit(out, "");
    assert out + [SEPARATOR] + "" == out + [SEPARATOR];
  }

  lemma PushKeepsOk(rooted: bool, stack: seq<string>, dots: nat, e: string) returns (dots': nat)
    requires StackOk(rooted, stack, dots) && IsElement(e)
    ensures StackOk(rooted, Push(rooted, stack, e), dots')
    ensures dots <= dots'
  {
    dots' := dots;
    assert stack != [] ==> EntryOk(stack, dots, |stack| - 1);
    if e == ".." {
      if dots < |stack| {
        PopKeepsOk(rooted, stack, dots);
      } else if !rooted {
        PushDotDot(stack, dots);
        dots' := dots + 1;
      }
    } else if e != "." {
      PushElement(rooted, stack, dots, e);
    }
  }

  lemma {:induction false} ResolveKeepsOk(rooted: bool, stack: seq<string>, dots: nat, es: seq<string>)
    returns (dots': nat)
    requires StackOk(rooted, stack, dots) && forall i :: 0 <= i < |es| ==> IsElement(es[i])
    ensures StackOk(rooted, Resolve(rooted, stack, es), dots') && dots <= dots'
    decreases |es|
  {
    if es == [] {
      dots' := dots;
    } else {
      dots' := PushKeepsOk(rooted, stack, dots, es[0]);
      dots' := ResolveKeepsOk(rooted, Push(rooted, stack, es[0]), dots', es[1..]);
    }
  }

  /** The stack of a path, with the number of ".." at its bottom. */
  lemma StackOfPath(path: string) returns (stack: seq<string>, dots: nat)
    ensures stack == Resolve(Rooted(path), [], Components(path)) && StackOk(Rooted(path), stack, dots)
    ensures Clean(path) == if stack == [] && !Rooted(path) then "." else Render(Rooted(path), stack)
  {
    ComponentsAreElements(path);
    dots := ResolveKeepsOk(Rooted(path), [], 0, Components(path));
    stack := Resolve(Rooted(path), [], Components(path));
    JoinEmpty(Rooted(path), stack, dots);
  }

  /** A resolved stack resolves to itself. */
  lemma {:induction false} ResolveIsStable(rooted: bool, stack: seq<string>, dots: nat, i: nat)
    requires StackOk(rooted, stack, dots) && i <= |stack|
    ensures Resolve(rooted, stack[..i], stack[i..]) == stack
    decreases |stack| - i
  {
    if i == |stack| {
      assert stack[..i] == stack;
    } else {
      assert EntryOk(stack, dots, i) && (i > 0 ==> EntryOk(stack, dots, i - 1));
      assert stack[..i] + [stack[i]] == stack[..i + 1];
      assert Push(rooted, stack[..i], stack[i]) == stack[..i + 1];
      assert stack[i..][1..] == stack[i + 1..];
      ResolveIsStable(rooted, stack, dots, i + 1);
    }
  }

  lemma RenderRooted(rooted: bool, stack: seq<string>, dots: nat)
    requires StackOk(rooted, stack, dots)
    ensures Rooted(Render(rooted, stack)) == rooted
    ensures Rooted(Render(rooted, stack) + [SEPARATOR]) == (rooted || stack == [])
  {
    JoinEmpty(rooted, stack, dots);
    if stack != [] && !rooted {
      RenderOfPrefix(rooted, stack, dots, 1);
      assert EntryOk(stack, dots, 0) && stack[..1] == [stack[0]];
      assert Render(rooted, [stack[0]]) == stack[0] && Render(rooted, stack) == Join(stack);
      assert Join(stack)[0] == stack[0][0] && stack[0][0] in stack[0];
    }
  }

  /** Cleaning a rendered stack, with or without a separator at the end, renders the same stack. */
  lemma CleanOfRender(rooted: bool, stack: seq<string>, dots: nat)
    requires StackOk(rooted, stack, dots) && (rooted || stack != [])
    ensures Clean(Render(rooted, stack)) == Render(rooted, stack)
    ensures Clean(Render(rooted, stack) + [SEPARATOR]) == Render(rooted, stack)
  {
    RenderRooted(rooted, stack, dots);
    ComponentsOfRender(rooted, stack, dots);
    ResolveIsStable(rooted, stack, dots, 0);
    assert stack[..0] == [] && stack[0..] == stack;
    JoinEmpty(rooted, stack, dots);
  }

  lemma CleanDot()
    ensures Clean(".") == "."
  {
    ComponentsOfElement(".");
    assert Push(false, [], ".") == [];
  }

  /** Normalising twice is normalising once. */
  lemma NormalIsIdempotent(path: string)
    ensures Normal(Normal(path)) == Normal(path)
  {
    hide Clean, Render, StackOk;
    var stack, dots := StackOfPath(path);
    if stack == [] && !Rooted(path) {
      CleanDot();
    } else {
      var base := Render(Rooted(path), stack);
      CleanOfRender(Rooted(path), stack, dots);
      RenderEnd(Rooted(path), stack, dots);
      assert (base + [SEPARATOR])[|base|] == SEPARATOR;
    }
  }

  lemma NormalIsNotEmpty(path: string)
    ensures Normal(path) != ""
  {
  }

  // ---------- Containment ----------

  /** The splitting loop behind Components, from index `from` on. */
  method SplitComponents(path: string, from: nat) returns (out: seq<string>)
    requires from <= |path|
    ensures out == Components(path[from..])
  {
    hide Components, ComponentsFrom;
    out := [];
    var start := from;
    ComponentsFromEnds(path, from);
    for i := from to |path| + 1
      invariant from <= start <= i && (i == |path| + 1 ==> start == i)
      invariant i <= |path| ==> SEPARATOR !in path[start..i]
      invariant out + ComponentsFrom(path, start) == Components(path[from..])
    {
      if i < |path| && path[i] != SEPARATOR {
        continue;
      }
      TakeComponent(path, start, i);
      if start < i {
        RegroupElements(out, [path[start..i]], ComponentsFrom(path, i + 1));
        out := out + [path[start..i]];
      } else {
        RegroupElements(out, [], ComponentsFrom(path, i + 1));
      }
      start := i + 1;
    }
  }

  lemma RegroupElements(a: seq<string>, b: seq<string>, c: seq<string>)
    ensures a + (b + c) == a + b + c && a + [] == a && [] + c == c
  {
  }

  lemma ComponentsFromEnds(path: string, from: nat)
    requires from <= |path|
    ensures [] + ComponentsFrom(path, from) == Components(path[from..])
    ensures ComponentsFrom(path, |path| + 1) == []
  {
  }

  function ComponentsFrom(path: string, start: nat): seq<string> {
    if start <= |path| then Components(path[start..]) else []
  }

  lemma TakeComponent(path: string, start: nat, i: nat)
    requires start <= i <= |path| && SEPARATOR !in path[start..i]
    requires i == |path| || path[i] == SEPARATOR
    ensures ComponentsFrom(path, start) == (if start < i then [path[start..i]] else []) + ComponentsFrom(path, i + 1)
  {
    var s, n := path[start..], i - start;
    assert s[..n] == path[start..i] && s[n..] == path[i..];
    ElementLenIs(s, n);
    if i < |path| {
      ReadSeparator(path, i);
    }
    assert Components(path[i..]) == ComponentsFrom(path, i + 1);
    if n == 0 {
      assert s == path[i..];
    } else {
      assert s[0] == s[..n][0];
    }
  }

  /** The depth counter never goes below zero. */
  predicate StaysInside(es: seq<string>, depth: nat)
    decreases |es|
  {
    es == [] ||
    (if es[0] == "." then StaysInside(es[1..], depth)
     else if es[0] == ".." then depth > 0 && StaysInside(es[1..], depth - 1)
     else StaysInside(es[1..], depth + 1))
  }

  ghost predicate StartsWithDotDot(es: seq<string>) {
    es != [] && es[0] == ".."
  }

  lemma {:induction false} DotDotStaysFirst(stack: seq<string>, es: seq<string>)
    requires StartsWithDotDot(stack)
    ensures StartsWithDotDot(Resolve(false, stack, es))
    decreases |es|
  {
    if es != [] {
      DotDotStaysFirst(Push(false, stack, es[0]), es[1..]);
    }
  }

  /** On a stack without "..", the counter is the height of the stack. */
  lemma {:induction false} CounterTracksStack(stack: seq<string>, es: seq<string>)
    requires StackOk(false, stack, 0) && forall i :: 0 <= i < |es| ==> IsElement(es[i])
    ensures StaysInside(es, |stack|) <==> !StartsWithDotDot(Resolve(false, stack, es))
    decreases |es|
  {
    if es == [] {
      assert stack != [] ==> EntryOk(stack, 0, 0);
    } else {
      var e := es[0];
      assert stack != [] ==> EntryOk(stack, 0, |stack| - 1);
      if e == ".." && stack == [] {
        assert Push(false, stack, e) == [".."];
        DotDotStaysFirst([".."], es[1..]);
      } else {
        var dots := PushKeepsOk(false, stack, 0, e);
        var stack' := Push(false, stack, e);
        assert e == "." ==> stack' == stack;
        forall i: nat ensures EntryOk(stack', 0, i) {
          assert EntryOk(stack, 0, i);
        }
        CounterTracksStack(stack', es[1..]);
      }
    }
  }

  /** A relative path stays inside its root exactly when its normal form does not begin with "..". */
  lemma InsideIffNormalHasNoDotDot(path: string)
    requires !Rooted(path)
    ensures StaysInside(Components(path), 0) <==> !StartsWithDotDot(Components(Normal(path)))
  {
    ComponentsAreElements(path);
    CounterTracksStack([], Components(path));
    var stack, dots := StackOfPath(path);
    if stack == [] {
      ComponentsOfElement(".");
    } else {
      ComponentsOfRender(false, stack, dots);
    }
  }

  method LexicallyContains(path: string) returns (inside: bool)
    requires !Rooted(path)
    ensures inside <==> !StartsWithDotDot(Components(Normal(path)))
  {
    hide Components, Normal, StartsWithDotDot;
    InsideIffNormalHasNoDotDot(path);
    var components := SplitComponents(path, 0);
    assert path[0..] == path;
    var depth := 0;
    for i := 0 to |components|
      invariant 0 <= depth
      invariant StaysInside(components, 0) <==> StaysInside(components[i..], depth)
    {
      assert components[i..][1..] == components[i + 1..];
      if components[i] == "." {
        continue;
      } else if components[i] == ".." {
        if depth == 0 {
          return false;
        }
        depth := depth - 1;
      } else {
        depth := depth + 1;
      }
    }
    return true;
  }

  // ---------- Where a path leads ----------

  /** One step in a tree of directories, from the place that the names in `at` lead to. The root is
      its own parent. */
  function Enter(at: seq<string>, e: string): seq<string> {
    if e == "." then at
    else if e == ".." then (if at == [] then [] else at[..|at| - 1])
    else at + [e]
  }

  function Walk(at: seq<string>, es: seq<string>): seq<string>
    decreases |es|
  {
    if es == [] then at else Walk(Enter(at, es[0]), es[1..])
  }

  function Start(cwd: seq<string>, rooted: bool): seq<string> {
    if rooted then [] else cwd
  }

  /** The place a path leads to from the working directory cwd. */
  function Leads(cwd: seq<string>, path: string): seq<string> {
    Walk(Start(cwd, Rooted(path)), Components(path))
  }

  /** The two paths lead to the same place from everywhere. */
  ghost predicate SamePlace(p: string, q: string) {
    forall cwd: seq<string> :: Leads(cwd, p) == Leads(cwd, q)
  }

  lemma {:induction false} WalkOn(at: seq<string>, a: seq<string>, b: seq<string>)
    ensures Walk(at, a + b) == Walk(Walk(at, a), b)
    decreases |a|
  {
    if a == [] {
      assert a + b == b;
    } else {
      assert (a + b)[1..] == a[1..] + b;
      WalkOn(Enter(at, a[0]), a[1..], b);
    }
  }

  lemma WalkOne(at: seq<string>, e: string)
    ensures Walk(at, [e]) == Enter(at, e)
  {
    assert [e][1..] == [];
  }

  lemma WalkSnoc(at: seq<string>, es: seq<string>, e: string)
    ensures Walk(at, es + [e]) == Enter(Walk(at, es), e)
  {
    WalkOn(at, es, [e]);
    WalkOne(Walk(at, es), e);
  }

  /** An element moves the stack to where it moves the place. */
  lemma PushWalks(rooted: bool, stack: seq<string>, dots: nat, e: string, cwd: seq<string>)
    requires StackOk(rooted, stack, dots)
    ensures Walk(Start(cwd, rooted), Push(rooted, stack, e)) == Enter(Walk(Start(cwd, rooted), stack), e)
  {
    hide Walk;
    var at := Start(cwd, rooted);
    WalkSnoc(at, stack, e);
    if stack != [] {
      var n := |stack| - 1;
      assert EntryOk(stack, dots, n) && stack == stack[..n] + [stack[n]];
      WalkSnoc(at, stack[..n], stack[n]);
    } else {
      WalkNothing(at);
    }
  }

  lemma WalkNothing(at: seq<string>)
    ensures Walk(at, []) == at
  {
  }

  lemma {:induction false} ResolveWalks(rooted: bool, stack: seq<string>, dots: nat, es: seq<string>, cwd: seq<string>)
    requires StackOk(rooted, stack, dots) && forall i :: 0 <= i < |es| ==> IsElement(es[i])
    ensures Walk(Start(cwd, rooted), Resolve(rooted, stack, es)) == Walk(Walk(Start(cwd, rooted), stack), es)
    decreases |es|
  {
    hide Push, StackOk;
    if es != [] {
      PushWalks(rooted, stack, dots, es[0], cwd);
      var dots' := PushKeepsOk(rooted, stack, dots, es[0]);
      ResolveWalks(rooted, Push(rooted, stack, es[0]), dots', es[1..], cwd);
    }
  }

  /** A path leads to where its stack leads. */
  lemma LeadsByStack(path: string, stack: seq<string>, cwd: seq<string>)
    requires stack == Resolve(Rooted(path), [], Components(path))
    ensures Leads(cwd, path) == Walk(Start(cwd, Rooted(path)), stack)
  {
    ComponentsAreElements(path);
    ResolveWalks(Rooted(path), [], 0, Components(path), cwd);
    WalkNothing(Start(cwd, Rooted(path)));
  }

  // ---------- A stack is determined by where it leads ----------

  /** A directory that no element can enter. */
  function Blanks(n: nat): (s: seq<string>)
    ensures |s| == n && forall i :: 0 <= i < n ==> s[i] == ""
  {
    seq(n, _ => "")
  }

  /** From a deep enough place, a stack leads up by its dots and then down its names. */
  lemma {:induction false} WalkOfStack(rooted: bool, stack: seq<string>, dots: nat, n: nat, at: seq<string>)
    requires StackOk(rooted, stack, dots) && n <= |stack| && dots <= |at|
    ensures Walk(at, stack[..n]) ==
            if n <= dots then at[..|at| - n] else at[..|at| - dots] + stack[dots..n]
    decreases n
  {
    hide Walk;
    if n == 0 {
      assert stack[..0] == [] && at[..|at|] == at;
      WalkNothing(at);
    } else {
      WalkOfStack(rooted, stack, dots, n - 1, at);
      assert stack[..n] == stack[..n - 1] + [stack[n - 1]];
      WalkSnoc(at, stack[..n - 1], stack[n - 1]);
      assert EntryOk(stack, dots, n - 1);
      if n <= dots {
        assert at[..|at| - (n - 1)][..|at| - n] == at[..|at| - n];
      } else {
        assert stack[dots..n] == stack[dots..n - 1] + [stack[n - 1]];
      }
    }
  }

  /** Where a stack leads from n blank directories, n at least its dots. */
  lemma StackFromBlanks(rooted: bool, stack: seq<string>, dots: nat, n: nat)
    requires StackOk(rooted, stack, dots) && dots <= n
    ensures Walk(Start(Blanks(n), rooted), stack) ==
            (if rooted then [] else Blanks(n - dots)) + stack[dots..]
  {
    var at := Start(Blanks(n), rooted);
    WalkOfStack(rooted, stack, dots, |stack|, at);
    assert stack[..|stack|] == stack && stack[dots..|stack|] == stack[dots..];
    assert !rooted ==> at[..n - dots] == Blanks(n - dots);
    assert dots == |stack| ==> stack[dots..] == [];
  }

  lemma BlanksSplit(m: nat, n: nat, a: seq<string>, b: seq<string>)
    requires Blanks(m) + a == Blanks(n) + b
    requires (forall i :: 0 <= i < |a| ==> a[i] != "") && (forall i :: 0 <= i < |b| ==> b[i] != "")
    ensures m == n && a == b
  {
    var s := Blanks(m) + a;
    assert forall i :: 0 <= i < |s| ==> (s[i] == "" <==> i < m);
    assert forall i :: 0 <= i < |s| ==> (s[i] == "" <==> i < n);
    assert |s| == m + |a| == n + |b|;
    assert m < |s| ==> s[m] != "";
    assert n < |s| ==> s[n] != "";
    assert m == n;
    assert a == s[m..] && b == s[n..];
  }

  lemma StackIsDetermined(r1: bool, s1: seq<string>, d1: nat, r2: bool, s2: seq<string>, d2: nat)
    requires StackOk(r1, s1, d1) && StackOk(r2, s2, d2)
    requires forall cwd: seq<string> :: Walk(Start(cwd, r1), s1) == Walk(Start(cwd, r2), s2)
    ensures r1 == r2 && s1 == s2
  {
    hide Walk;
    var n := d1 + d2 + 1;
    StackFromBlanks(r1, s1, d1, n);
    StackFromBlanks(r2, s2, d2, n);
    assert Walk(Start(Blanks(n), r1), s1) == Walk(Start(Blanks(n), r2), s2);
    NamesAreNotBlank(r1, s1, d1);
    NamesAreNotBlank(r2, s2, d2);
    assert Blanks(0) == [];
    BlanksSplit(if r1 then 0 else n - d1, if r2 then 0 else n - d2, s1[d1..], s2[d2..]);
    forall i | 0 <= i < d1 ensures s1[i] == s2[i] {
      assert EntryOk(s1, d1, i) && EntryOk(s2, d2, i);
    }
    assert s1 == s1[..d1] + s1[d1..] && s2 == s2[..d2] + s2[d2..] && s1[..d1] == s2[..d2];
  }

  lemma NamesAreNotBlank(rooted: bool, stack: seq<string>, dots: nat)
    requires StackOk(rooted, stack, dots)
    ensures forall i :: 0 <= i < |stack[dots..]| ==> stack[dots..][i] != ""
  {
    forall i | 0 <= i < |stack[dots..]| ensures stack[dots..][i] != "" {
      assert EntryOk(stack, dots, dots + i);
    }
  }

  /** Two paths have the same normal form, up to a trailing separator, exactly when they lead to the
      same place from everywhere. */
  lemma CleanIffSamePlace(p: string, q: string)
    ensures Clean(p) == Clean(q) <==> SamePlace(p, q)
  {
    hide Clean, StackOk, Walk, Render, Leads;
    var s1, d1 := StackOfPath(p);
    var s2, d2 := StackOfPath(q);
    forall cwd: seq<string> ensures Leads(cwd, p) == Walk(Start(cwd, Rooted(p)), s1)
                                    && Leads(cwd, q) == Walk(Start(cwd, Rooted(q)), s2) {
      LeadsByStack(p, s1, cwd);
      LeadsByStack(q, s2, cwd);
    }
    if SamePlace(p, q) {
      StackIsDetermined(Rooted(p), s1, d1, Rooted(q), s2, d2);
    }
    if Clean(p) == Clean(q) {
      CleanTellsStack(p, s1, d1);
      CleanTellsStack(q, s2, d2);
    }
  }

  /** The stack of a path can be read off its clean form. */
  lemma CleanTellsStack(path: string, stack: seq<string>, dots: nat)
    requires StackOk(Rooted(path), stack, dots)
    requires Clean(path) == if stack == [] && !Rooted(path) then "." else Render(Rooted(path), stack)
    ensures Rooted(Clean(path)) == Rooted(path)
    ensures Components(Clean(path)) == if stack == [] && !Rooted(path) then ["."] else stack
    ensures Clean(path) == "." <==> stack == [] && !Rooted(path)
  {
    hide Clean, StackOk, Render;
    ComponentsOfElement(".");
    RenderRooted(Rooted(path), stack, dots);
    ComponentsOfRender(Rooted(path), stack, dots);
    NoDotInStack(Rooted(path), stack, dots);
  }

  lemma NoDotInStack(rooted: bool, stack: seq<string>, dots: nat)
    requires StackOk(rooted, stack, dots)
    ensures stack != ["."]
  {
    assert EntryOk(stack, dots, 0);
  }

  // ---------- Normal forms as texts ----------

  predicate EndsInSeparator(s: string) {
    s != "" && s[|s| - 1] == '/'
  }

  /** An empty element: two separators in a row. */
  ghost predicate EmptyAt(s: string, i: int) {
    0 <= i < |s| - 1 && s[i] == '/' && s[i + 1] == '/'
  }

  ghost predicate NoEmptyElement(s: string) {
    forall i: int :: !EmptyAt(s, i)
  }

  /** "." stands alone, and ".." only at the start of a relative path. */
  ghost predicate DotsWhereNeeded(rooted: bool, es: seq<string>) {
    || (es == ["."] && !rooted)
    || ((rooted || es != []) && forall i :: 0 <= i < |es| ==> DotsAt(rooted, es, i))
  }

  ghost predicate DotsAt(rooted: bool, es: seq<string>, i: nat)
    requires i < |es|
  {
    es[i] != "." && (es[i] == ".." ==> !rooted && forall k :: 0 <= k < i ==> es[k] == "..")
  }

  /** What a normal form of p is: a text without superfluous elements that leads to the same place,
      and that ends in a separator if it is the root, or if p does and it is not "." or "..". */
  ghost predicate IsNormalFormOf(r: string, p: string) {
    && SamePlace(r, p) && r != "" && NoEmptyElement(r) && DotsWhereNeeded(Rooted(r), Components(r))
    && (EndsInSeparator(r) <==>
          || Components(r) == []
          || (EndsInSeparator(p) && Components(r) != ["."] && Components(r) != [".."]))
  }

  lemma {:induction false} JoinCons(e: string, es: seq<string>)
    ensures Join([e] + es) == if es == [] then e else e + [SEPARATOR] + Join(es)
    decreases |es|
  {
    hide Join;
    if es == [] {
      assert [e] + es == [] + [e];
      JoinSnoc([], e);
    } else {
      var front, last := es[..|es| - 1], es[|es| - 1];
      JoinCons(e, front);
      JoinBoth(e, front, last);
      assert es == front + [last];
    }
  }

  /** One step of the induction: both sides grow by the last element. */
  lemma JoinBoth(e: string, front: seq<string>, last: string)
    requires Join([e] + front) == if front == [] then e else e + [SEPARATOR] + Join(front)
    ensures Join([e] + (front + [last])) == e + [SEPARATOR] + Join(front + [last])
  {
    hide Join;
    assert [e] + (front + [last]) == ([e] + front) + [last];
    JoinSnoc([e] + front, last);
    JoinSnoc(front, last);
    if front != [] {
      Regroup(e + [SEPARATOR], Join(front), [SEPARATOR], last);
    }
  }

  lemma Regroup(a: string, b: string, c: string, d: string)
    ensures a + (b + c + d) == a + b + c + d
  {
  }

  lemma NoEmptyConcat(a: string, b: string)
    ensures NoEmptyElement(a + b) <==>
            NoEmptyElement(a) && NoEmptyElement(b) && !(EndsInSeparator(a) && Rooted(b))
  {
    var s := a + b;
    forall i: int ensures EmptyAt(a, i) ==> EmptyAt(s, i) {
    }
    forall i: int ensures EmptyAt(b, i) ==> EmptyAt(s, i + |a|) {
    }
    assert EndsInSeparator(a) && Rooted(b) ==> EmptyAt(s, |a| - 1);
    forall i: int
      ensures EmptyAt(s, i) ==> EmptyAt(a, i) || EmptyAt(b, i - |a|) || (EndsInSeparator(a) && Rooted(b))
    {
    }
  }

  lemma ElementText(e: string)
    requires IsElement(e)
    ensures NoEmptyElement(e) && !EndsInSeparator(e) && !Rooted(e)
  {
    assert e[0] in e && e[|e| - 1] in e;
    assert forall i :: 0 <= i < |e| ==> e[i] in e;
  }

  function Tail(s: string): string {
    if EndsInSeparator(s) && Components(s) != [] then [SEPARATOR] else ""
  }

  /** A text without empty elements is its elements, joined. */
  lemma {:induction false} TextIsRendered(s: string)
    requires NoEmptyElement(s)
    ensures s == Render(Rooted(s), Components(s)) + Tail(s)
    decreases |s|
  {
    hide Render, Tail, NoEmptyElement, Components;
    if s == "" {
      EmptyText();
    } else if Rooted(s) {
      var t := s[1..];
      assert s == [SEPARATOR] + t;
      NoEmptyConcat([SEPARATOR], t);
      TextIsRendered(t);
      RootedText(t);
    } else {
      var n := ElementLen(s);
      assert s == s[..n] + s[n..];
      NoEmptyConcat(s[..n], s[n..]);
      TextIsRendered(s[n..]);
      RelativeText(s[..n], s[n..]);
    }
  }

  lemma EmptyText()
    ensures "" == Render(Rooted(""), Components("")) + Tail("")
  {
  }

  lemma ComponentsAfterRoot(t: string)
    ensures Components([SEPARATOR] + t) == Components(t)
    ensures Components([SEPARATOR]) == []
  {
    assert ([SEPARATOR] + t)[1..] == t && [SEPARATOR][1..] == "";
    assert Components("") == [];
  }

  lemma RootedText(t: string)
    requires t == Render(Rooted(t), Components(t)) + Tail(t) && !Rooted(t)
    ensures [SEPARATOR] + t == Render(true, Components([SEPARATOR] + t)) + Tail([SEPARATOR] + t)
  {
    hide Components, Join, Render;
    var es := Components(t);
    ComponentsAfterRoot(t);
    RenderCases(es);
    if t == "" {
      assert [SEPARATOR] + t == [SEPARATOR];
      assert es == [] by { NoComponents(); }
    } else {
      assert ([SEPARATOR] + t)[|t|] == t[|t| - 1];
      assert [SEPARATOR] + (Join(es) + Tail(t)) == [SEPARATOR] + Join(es) + Tail(t);
    }
  }

  lemma ComponentsOfCons(e: string, u: string)
    requires IsElement(e) && (u == "" || Rooted(u))
    ensures Components(e + u) == [e] + Components(u)
  {
    var s := e + u;
    assert e[0] in e;
    assert s[..|e|] == e && s[|e|..] == u;
    ElementLenIs(s, |e|);
  }

  lemma RenderCases(es: seq<string>)
    ensures Render(false, es) == Join(es) && Render(true, es) == [SEPARATOR] + Join(es)
    ensures Join([]) == ""
  {
  }

  lemma TailOfCons(e: string, u: string)
    requires IsElement(e) && Rooted(u)
    ensures Tail(e + u) == if EndsInSeparator(u) then [SEPARATOR] else ""
  {
    ComponentsOfCons(e, u);
    hide Components;
    assert (e + u)[|e + u| - 1] == u[|u| - 1];
  }

  lemma RelativeText(e: string, u: string)
    requires IsElement(e) && (u == "" || Rooted(u))
    requires u == Render(Rooted(u), Components(u)) + Tail(u)
    ensures e + u == Render(false, Components(e + u)) + Tail(e + u)
  {
    hide Components, Join, Render;
    var es := Components(u);
    ComponentsOfCons(e, u);
    JoinCons(e, es);
    RenderCases(es);
    RenderCases([e] + es);
    if u == "" {
      ElementText(e);
      assert e + u == e;
      assert es == [] by { NoComponents(); }
    } else {
      TailOfCons(e, u);
      if es == [] {
        assert u == [SEPARATOR];
      } else {
        Regroup(e, [SEPARATOR], Join(es), Tail(u));
      }
    }
  }

  lemma NoComponents()
    ensures Components("") == []
  {
  }

  lemma {:induction false} JoinedText(es: seq<string>)
    requires es != [] && forall i :: 0 <= i < |es| ==> IsElement(es[i])
    ensures NoEmptyElement(Join(es)) && !EndsInSeparator(Join(es)) && !Rooted(Join(es)) && Join(es) != ""
    decreases |es|
  {
    ElementText(es[0]);
    assert es == [es[0]] + es[1..];
    JoinCons(es[0], es[1..]);
    if |es| > 1 {
      JoinedText(es[1..]);
      NoEmptyConcat(es[0], [SEPARATOR]);
      NoEmptyConcat(es[0] + [SEPARATOR], Join(es[1..]));
    }
  }

  lemma RenderedText(rooted: bool, stack: seq<string>, dots: nat)
    requires StackOk(rooted, stack, dots) && (rooted || stack != [])
    ensures NoEmptyElement(Render(rooted, stack)) && Render(rooted, stack) != ""
    ensures EndsInSeparator(Render(rooted, stack)) <==> stack == []
    ensures stack != [] ==> NoEmptyElement(Render(rooted, stack) + [SEPARATOR])
  {
    forall i | 0 <= i < |stack| ensures IsElement(stack[i]) {
      assert EntryOk(stack, dots, i);
    }
    if stack != [] {
      JoinedText(stack);
      NoEmptyConcat(Render(rooted, stack), [SEPARATOR]);
      if rooted {
        NoEmptyConcat([SEPARATOR], Join(stack));
      } else {
        assert Render(rooted, stack) == Join(stack);
      }
    }
  }

  lemma StackDots(rooted: bool, stack: seq<string>, dots: nat)
    requires StackOk(rooted, stack, dots) && (rooted || stack != [])
    ensures DotsWhereNeeded(rooted, stack)
  {
    forall i | 0 <= i < |stack| ensures DotsAt(rooted, stack, i) {
      assert EntryOk(stack, dots, i);
      forall k | 0 <= k < i && stack[i] == ".." ensures stack[k] == ".." {
        assert EntryOk(stack, dots, k);
      }
    }
  }

  function LeadingDots(es: seq<string>): (n: nat)
    ensures n <= |es| && (forall i :: 0 <= i < n ==> es[i] == "..") && (n < |es| ==> es[n] != "..")
  {
    if es == [] || es[0] != ".." then 0 else 1 + LeadingDots(es[1..])
  }

  lemma DotsMakeEntry(rooted: bool, es: seq<string>, i: nat)
    requires i < |es| && IsElement(es[i]) && DotsAt(rooted, es, i)
    ensures EntryOk(es, LeadingDots(es), i) && (es[i] == ".." ==> !rooted)
  {
    var dots := LeadingDots(es);
    assert dots < |es| ==> es[dots] != "..";
  }

  lemma DotsMakeStack(rooted: bool, es: seq<string>)
    requires DotsWhereNeeded(rooted, es) && es != ["."] && forall i :: 0 <= i < |es| ==> IsElement(es[i])
    ensures StackOk(rooted, es, LeadingDots(es)) && (rooted || es != [])
  {
    hide DotsAt, EntryOk, LeadingDots, IsElement;
    forall i: nat ensures EntryOk(es, LeadingDots(es), i) {
      if i < |es| {
        DotsMakeEntry(rooted, es, i);
      } else {
        NoEntry(es, LeadingDots(es), i);
      }
    }
    if LeadingDots(es) > 0 {
      DotsMakeEntry(rooted, es, 0);
    }
  }

  lemma NoEntry(es: seq<string>, dots: nat, i: nat)
    requires |es| <= i
    ensures EntryOk(es, dots, i)
  {
  }

  /** The texts that never keep a trailing separator. */
  lemma SpecialTexts(p: string)
    ensures Clean(p) != "" && (EndsInSeparator(Clean(p)) <==> Components(Clean(p)) == [])
    ensures Clean(p) == "." <==> Components(Clean(p)) == ["."]
    ensures Clean(p) == ".." <==> Components(Clean(p)) == [".."]
    ensures Clean(p) == "/" <==> Components(Clean(p)) == []
    ensures Rooted(Clean(p) + [SEPARATOR]) == Rooted(Clean(p))
  {
    hide Clean, StackOk, Render, Components;
    var stack, dots := StackOfPath(p);
    CleanTellsStack(p, stack, dots);
    NoDotInStack(Rooted(p), stack, dots);
    if stack == [] && !Rooted(p) {
      ElementText(".");
    } else {
      RenderedText(Rooted(p), stack, dots);
      DotDotText(Rooted(p), stack, dots);
    }
  }

  lemma CleanText(p: string)
    ensures NoEmptyElement(Clean(p)) && DotsWhereNeeded(Rooted(Clean(p)), Components(Clean(p)))
  {
    hide Clean, StackOk, Render, Components;
    var stack, dots := StackOfPath(p);
    CleanTellsStack(p, stack, dots);
    if stack == [] && !Rooted(p) {
      ElementText(".");
    } else {
      RenderedText(Rooted(p), stack, dots);
      StackDots(Rooted(p), stack, dots);
    }
  }

  lemma NormalText(p: string)
    ensures NoEmptyElement(Normal(p)) && Normal(p) != "" && Components(Normal(p)) == Components(Clean(p))
    ensures Rooted(Normal(p)) == Rooted(Clean(p)) && DotsWhereNeeded(Rooted(Normal(p)), Components(Normal(p)))
    ensures EndsInSeparator(Normal(p)) <==>
              || Components(Normal(p)) == []
              || (EndsInSeparator(p) && Components(Normal(p)) != ["."] && Components(Normal(p)) != [".."])
  {
    hide Clean, Components, DotsWhereNeeded, NoEmptyElement;
    var base := Clean(p);
    SpecialTexts(p);
    CleanText(p);
    ComponentsOfTail(Normal(p), base);
    NoEmptyConcat(base, [SEPARATOR]);
    assert NoEmptyElement([SEPARATOR]) by { OneSeparator(); }
  }

  lemma OneSeparator()
    ensures NoEmptyElement([SEPARATOR])
  {
  }

  /** The special texts are those of the special stacks. */
  lemma DotDotText(rooted: bool, stack: seq<string>, dots: nat)
    requires StackOk(rooted, stack, dots)
    ensures Render(rooted, stack) == ".." <==> !rooted && stack == [".."]
    ensures Render(rooted, stack) == "/" <==> rooted && stack == []
    ensures stack == [".."] ==> !rooted
  {
    RenderRooted(rooted, stack, dots);
    ComponentsOfRender(rooted, stack, dots);
    ComponentsOfElement("..");
    assert Components("/") == [] by { assert "/"[1..] == ""; }
    assert EntryOk(stack, dots, 0);
    assert Render(false, [".."]) == "..";
    assert Render(true, []) == "/";
  }

  lemma NormalLeadsThere(p: string)
    ensures SamePlace(Normal(p), p)
  {
    hide Clean, Walk, DotsWhereNeeded, NoEmptyElement;
    NormalText(p);
    CleanIsClean(p);
    CleanIffSamePlace(Clean(p), p);
    forall cwd: seq<string> ensures Leads(cwd, Normal(p)) == Leads(cwd, p) {
      assert Leads(cwd, Normal(p)) == Leads(cwd, Clean(p));
    }
  }

  lemma CleanIsClean(p: string)
    ensures Clean(Clean(p)) == Clean(p)
  {
    hide Clean, StackOk, Render;
    var stack, dots := StackOfPath(p);
    if stack == [] && !Rooted(p) {
      CleanDot();
    } else {
      CleanOfRender(Rooted(p), stack, dots);
    }
  }

  /** A text without superfluous elements is its own clean form, up to a trailing separator. */
  lemma NormalTextIsClean(r: string)
    requires NoEmptyElement(r) && DotsWhereNeeded(Rooted(r), Components(r))
    ensures r == Clean(r) + Tail(r)
  {
    hide Clean, StackOk, Render, DotsWhereNeeded, NoEmptyElement;
    var es := Components(r);
    TextIsRendered(r);
    if es == ["."] {
      DotOnlyRelative(Rooted(r));
      assert Render(false, ["."]) == "." by { RenderDot(); }
      DotOrDotSlash(r);
    } else {
      ComponentsAreElements(r);
      DotsMakeStack(Rooted(r), es);
      CleanOfRender(Rooted(r), es, LeadingDots(es));
      assert Render(Rooted(r), es) + "" == Render(Rooted(r), es);
    }
  }

  lemma RenderDot()
    ensures Render(false, ["."]) == "."
  {
  }

  lemma DotOnlyRelative(rooted: bool)
    requires DotsWhereNeeded(rooted, ["."])
    ensures !rooted
  {
    assert rooted ==> DotsAt(rooted, ["."], 0);
  }

  lemma DotOrDotSlash(r: string)
    requires Components(r) == ["."] && !Rooted(r) && (r == "." || r == "." + [SEPARATOR])
    ensures Clean(r) == "."
  {
    assert ["."][1..] == [];
    assert Push(false, [], ".") == [];
    assert Resolve(false, [], ["."]) == [];
  }

  /** A path has exactly one normal form, and that is what normalisation computes. */
  lemma NormalFormIsUnique(r: string, p: string)
    ensures IsNormalFormOf(r, p) <==> r == Normal(p)
  {
    hide Clean, SamePlace, NoEmptyElement, DotsWhereNeeded;
    NormalText(p);
    NormalLeadsThere(p);
    if IsNormalFormOf(r, p) {
      NormalTextIsClean(r);
      CleanIffSamePlace(r, p);
      EndsAlike(r, p);
    }
  }

  /** With the same clean form and the same rule for the trailing separator, the texts agree. */
  lemma EndsAlike(r: string, p: string)
    requires r == Clean(r) + Tail(r) && Clean(r) == Clean(p) && r != ""
    requires EndsInSeparator(r) <==>
               || Components(r) == []
               || (EndsInSeparator(p) && Components(r) != ["."] && Components(r) != [".."])
    ensures r == Normal(p)
  {
    hide Clean, Components;
    SpecialTexts(p);
    ComponentsOfTail(r, Clean(p));
  }

  lemma ComponentsOfTail(r: string, base: string)
    requires r == base || r == base + [SEPARATOR]
    ensures Components(r) == Components(base)
  {
    ComponentsSplit(base, "");
    assert base + [SEPARATOR] + "" == base + [SEPARATOR];
  }

  // ---------- Laws of normal forms ----------

  lemma LeadsOfConcat(a: string, b: string, cwd: seq<string>)
    requires a != ""
    ensures Leads(cwd, a + [SEPARATOR] + b) == Walk(Leads(cwd, a), Components(b))
  {
    ComponentsSplit(a, b);
    assert (a + [SEPARATOR] + b)[0] == a[0];
    WalkOn(Start(cwd, Rooted(a)), Components(a), Components(b));
  }

  /** A proper element and ".." after it cancel, behind every prefix, rooted or relative. */
  lemma DotDotCancels(p: string, e: string)
    requires p != "" && IsElement(e) && e != "." && e != ".."
    ensures Clean(p + [SEPARATOR] + (e + [SEPARATOR] + "..")) == Clean(p)
  {
    hide Clean, Leads, Walk;
    var rest := e + [SEPARATOR] + "..";
    ComponentsSplit(e, "..");
    ComponentsOfElement(e);
    ComponentsOfElement("..");
    assert [e] + [".."] == [e, ".."];
    forall cwd: seq<string> ensures Leads(cwd, p + [SEPARATOR] + rest) == Leads(cwd, p) {
      LeadsOfConcat(p, rest, cwd);
      var at := Leads(cwd, p);
      WalkOne(at, e);
      WalkSnoc(at, [e], "..");
    }
    CleanIffSamePlace(p + [SEPARATOR] + rest, p);
  }

  /** "." and empty elements drop out. */
  lemma DotsDropOut(a: string, b: string)
    requires a != ""
    ensures Clean(a + [SEPARATOR] + ("." + [SEPARATOR] + b)) == Clean(a + [SEPARATOR] + b)
    ensures Clean(a + [SEPARATOR] + ([SEPARATOR] + b)) == Clean(a + [SEPARATOR] + b)
  {
    hide Clean, Leads, Walk;
    var dot, empty := "." + [SEPARATOR] + b, [SEPARATOR] + b;
    ComponentsSplit(".", b);
    ComponentsOfElement(".");
    ComponentsAfterRoot(b);
    forall cwd: seq<string>
      ensures Leads(cwd, a + [SEPARATOR] + dot) == Leads(cwd, a + [SEPARATOR] + b)
      ensures Leads(cwd, a + [SEPARATOR] + empty) == Leads(cwd, a + [SEPARATOR] + b)
    {
      LeadsOfConcat(a, dot, cwd);
      LeadsOfConcat(a, empty, cwd);
      LeadsOfConcat(a, b, cwd);
      WalkOn(Leads(cwd, a), ["."], Components(b));
      WalkOne(Leads(cwd, a), ".");
    }
    CleanIffSamePlace(a + [SEPARATOR] + dot, a + [SEPARATOR] + b);
    CleanIffSamePlace(a + [SEPARATOR] + empty, a + [SEPARATOR] + b);
  }

  /** The root is its own parent. */
  lemma RootIsItsParent(b: string)
    ensures Clean("/.." + [SEPARATOR] + b) == Clean([SEPARATOR] + b)
  {
    hide Clean, Walk;
    assert "/.." == [SEPARATOR] + "..";
    ComponentsAfterRoot("..");
    ComponentsOfElement("..");
    ComponentsAfterRoot(b);
    forall cwd: seq<string> ensures Leads(cwd, "/.." + [SEPARATOR] + b) == Leads(cwd, [SEPARATOR] + b) {
      LeadsOfConcat("/..", b, cwd);
      WalkOne([], "..");
    }
    CleanIffSamePlace("/.." + [SEPARATOR] + b, [SEPARATOR] + b);
  }
}
