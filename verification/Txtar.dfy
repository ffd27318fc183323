/**
 The txtar archive format: a printer and a parser. Parsing is specified line by line; the
 implementation jumps from one possible marker to the next.
 */
module Txtar {
  import opened Wrappers
  import opened Bytes
  import opened TrimSpace

  datatype File = File(name: ByteString, data: ByteString)

  datatype Archive = Archive(comment: ByteString, files: seq<File>)

  const MARKER: ByteString := [DASH, DASH, SPACE]
  const MARKER_END: ByteString := [SPACE, DASH, DASH]
  const NEWLINE_MARKER: ByteString := [NEWLINE, DASH, DASH, SPACE]

  // ---------- Lines and markers ----------

  function FixNL(data: ByteString): ByteString {
    if data == [] || data[|data| - 1] == NEWLINE then data else data + [NEWLINE]
  }

  function FirstNewline(data: ByteString): (i: Option<nat>)
    ensures i.Some? ==> i.value < |data| && data[i.value] == NEWLINE && NEWLINE !in data[..i.value]
    ensures i.Some? ==> forall k :: 0 <= k < i.value ==> data[k] != NEWLINE
    ensures i.None? ==> NEWLINE !in data
  {
    if data == [] then None
    else if data[0] == NEWLINE then Some(0)
    else
      var i := FirstNewline(data[1..]);
      if i.None? then None
      else
        assert data[..i.value + 1] == [data[0]] + data[1..][..i.value];
        Some(i.value + 1)
  }

  predicate HasSuffix(s: ByteString, suffix: ByteString) {
    |suffix| <= |s| && s[|s| - |suffix|..] == suffix
  }

  /** The first line of data without its line ending, and what follows. */
  function FirstLine(data: ByteString): (ByteString, ByteString) {
    var i := FirstNewline(data);
    if i.None? then (data, [])
    else
      var line := data[..i.value];
      (if line != [] && line[|line| - 1] == RETURN then line[..|line| - 1] else line, data[i.value + 1..])
  }

  /** Name and rest if data begins with a marker line; an empty name otherwise. */
  function IsMarker(data: ByteString): (r: (ByteString, ByteString))
    ensures r.0 != [] ==> |r.1| < |data|
  {
    if !(MARKER <= data) then ([], [])
    else
      var (line, after) := FirstLine(data);
      if HasSuffix(line, MARKER_END) && |line| >= |MARKER| + |MARKER_END|
      then (Trim(line[|MARKER|..|line| - |MARKER_END|]), after)
      else ([], [])
  }

  // ---------- Parsing, line by line ----------

  datatype Found = Found(before: ByteString, name: ByteString, after: ByteString)

  function FindMarker(data: ByteString): (r: Found)
    ensures r.name != [] ==> |r.after| < |data|
    decreases |data|
  {
    var (name, after) := IsMarker(data);
    if name != [] then Found([], name, after)
    else
      var i := FirstNewline(data);
      if i.None? then Found(FixNL(data), [], [])
      else
        var r := FindMarker(data[i.value + 1..]);
        Found(data[..i.value + 1] + r.before, r.name, r.after)
  }

  function ParseFiles(name: ByteString, data: ByteString): seq<File>
    decreases |data|
  {
    if name == [] then []
    else
      var r := FindMarker(data);
      [File(name, r.before)] + (if r.name == [] then [] else ParseFiles(r.name, r.after))
  }

  function ParseSpec(data: ByteString): Archive {
    var r := FindMarker(data);
    Archive(r.before, ParseFiles(r.name, r.after))
  }

  // ---------- Printing ----------

  function MarkerLine(name: ByteString): ByteString {
    MARKER + name + MARKER_END + [NEWLINE]
  }

  function FormatFiles(files: seq<File>): ByteString {
    if files == [] then []
    else MarkerLine(files[0].name) + FixNL(files[0].data) + FormatFiles(files[1..])
  }

  function FormatSpec(a: Archive): ByteString {
    FixNL(a.comment) + FormatFiles(a.files)
  }

  method Format(a: Archive) returns (buf: ByteString)
    ensures buf == FormatSpec(a)
  {
    hide MarkerLine, FixNL;
    buf := FixNL(a.comment);
    assert a.files[0..] == a.files;
    for i := 0 to |a.files|
      invariant buf + FormatFiles(a.files[i..]) == FormatSpec(a)
    {
      var f := a.files[i];
      assert a.files[i..][1..] == a.files[i + 1..];
      Associative(buf, MarkerLine(f.name) + FixNL(f.data), FormatFiles(a.files[i + 1..]));
      buf := buf + (MarkerLine(f.name) + FixNL(f.data));
    }
  }

  // ---------- The parser ----------

  predicate OccursAt(s: ByteString, pattern: ByteString, k: nat) {
    k <= |s| && pattern <= s[k..]
  }

  /** First occurrence of pattern in s. */
  function Index(s: ByteString, pattern: ByteString): (j: Option<nat>)
    ensures j.Some? ==> OccursAt(s, pattern, j.value) && forall k: nat :: k < j.value ==> !OccursAt(s, pattern, k)
    ensures j.None? ==> forall k: nat :: !OccursAt(s, pattern, k)
  {
    if pattern <= s then
      assert s[0..] == s;
      Some(0)
    else if s == [] then
      assert forall k: nat :: k <= |s| ==> s[k..] == [];
      None
    else
      var j := Index(s[1..], pattern);
      assert s[0..] == s;
      assert forall k: nat :: 1 <= k ==> (OccursAt(s, pattern, k) <==> OccursAt(s[1..], pattern, k - 1)) by {
        assert forall k: nat :: 1 <= k <= |s| ==> s[k..] == s[1..][k - 1..];
      }
      if j.None? then None else Some(j.value + 1)
  }

  function Prepend(prefix: ByteString, r: Found): Found {
    Found(prefix + r.before, r.name, r.after)
  }

  /** A line can only be a marker line if the newline before it starts "\n-- ". */
  lemma NoMarkerAfter(data: ByteString, k: nat)
    requires k < |data| && data[k] == NEWLINE && !OccursAt(data, NEWLINE_MARKER, k)
    ensures IsMarker(data[k + 1..]).0 == []
  {
    NewlineMarkerAt(data, k);
  }

  lemma NewlineMarkerAt(data: ByteString, k: nat)
    requires k < |data| && data[k] == NEWLINE
    ensures OccursAt(data, NEWLINE_MARKER, k) <==> MARKER <= data[k + 1..]
  {
    var s, t := data[k..], data[k + 1..];
    assert s == [NEWLINE] + t && NEWLINE_MARKER == [NEWLINE] + MARKER;
    if MARKER <= t {
      assert s[..4] == [NEWLINE] + t[..3];
    }
  }

  lemma FixNLOfRest(data: ByteString, k: nat)
    requires k < |data| && data[k] == NEWLINE
    ensures FixNL(data) == data[..k + 1] + FixNL(data[k + 1..])
  {
    var rest := data[k + 1..];
    assert data == data[..k + 1] + rest;
    if rest != [] {
      assert rest[|rest| - 1] == data[|data| - 1];
    }
  }

  /** A first line that is no marker line goes to the text before the marker. */
  lemma FindAfterLine(data: ByteString, k: nat)
    requires IsMarker(data).0 == [] && FirstNewline(data) == Some(k)
    ensures FindMarker(data) == Prepend(data[..k + 1], FindMarker(data[k + 1..]))
  {
    hide IsMarker, FirstNewline, FixNL;
  }

  lemma PrependTwice(data: ByteString, i: nat, k: nat)
    requires i + k + 1 <= |data|
    requires FindMarker(data) == Prepend(data[..i], FindMarker(data[i..]))
    requires FindMarker(data[i..]) == Prepend(data[i..][..k + 1], FindMarker(data[i..][k + 1..]))
    ensures FindMarker(data) == Prepend(data[..i + k + 1], FindMarker(data[i + k + 1..]))
  {
    hide FindMarker;
    assert data[i..][k + 1..] == data[i + k + 1..];
    assert data[..i] + data[i..][..k + 1] == data[..i + k + 1];
    Associative(data[..i], data[i..][..k + 1], FindMarker(data[i + k + 1..]).before);
  }

  lemma Associative(a: ByteString, b: ByteString, c: ByteString)
    ensures a + (b + c) == (a + b) + c
  {
  }

  lemma OccursInRest(data: ByteString, k: nat, i: nat)
    requires k < |data|
    ensures OccursAt(data[k + 1..], NEWLINE_MARKER, i) <==> OccursAt(data, NEWLINE_MARKER, k + 1 + i)
  {
    if i <= |data[k + 1..]| {
      assert data[k + 1..][i..] == data[k + 1 + i..];
    }
  }

  lemma FirstNewlineBefore(data: ByteString, j: nat)
    requires OccursAt(data, NEWLINE_MARKER, j)
    ensures j < |data| && data[j] == NEWLINE && FirstNewline(data).Some? && FirstNewline(data).value <= j
  {
    assert data[j] == data[j..][0] == NEWLINE_MARKER[0];
    assert data[j] in data;
  }

  /** Going line by line reaches the first possible marker. */
  lemma {:induction false} SkipToMarker(data: ByteString, j: nat)
    requires IsMarker(data).0 == [] && OccursAt(data, NEWLINE_MARKER, j)
    requires forall k: nat :: k < j ==> !OccursAt(data, NEWLINE_MARKER, k)
    ensures j < |data| && data[j] == NEWLINE
    ensures FindMarker(data) == Prepend(data[..j + 1], FindMarker(data[j + 1..]))
    decreases |data|
  {
    hide IsMarker, FindMarker, OccursAt, FirstNewline;
    FirstNewlineBefore(data, j);
    var k := FirstNewline(data).value;
    FindAfterLine(data, k);
    if k < j {
      var rest := data[k + 1..];
      NoMarkerAfter(data, k);
      forall i: nat ensures OccursAt(rest, NEWLINE_MARKER, i) <==> OccursAt(data, NEWLINE_MARKER, k + 1 + i) {
        OccursInRest(data, k, i);
      }
      SkipToMarker(rest, j - k - 1);
      PrependTwice(data, k + 1, j - k - 1);
    }
  }

  lemma {:induction false} NothingToSkipTo(data: ByteString)
    requires IsMarker(data).0 == []
    requires forall k: nat :: !OccursAt(data, NEWLINE_MARKER, k)
    ensures FindMarker(data) == Found(FixNL(data), [], [])
    decreases |data|
  {
    hide IsMarker, FixNL, OccursAt;
    if FirstNewline(data).Some? {
      var k := FirstNewline(data).value;
      var rest := data[k + 1..];
      NoMarkerAfter(data, k);
      forall i: nat ensures !OccursAt(rest, NEWLINE_MARKER, i) {
        OccursInRest(data, k, i);
      }
      NothingToSkipTo(rest);
      FixNLOfRest(data, k);
    }
  }

  lemma MarkerAtStart(data: ByteString)
    requires IsMarker(data).0 != []
    ensures FindMarker(data) == Found([], IsMarker(data).0, IsMarker(data).1)
  {
  }

  method FindFileMarker(data: ByteString) returns (before: ByteString, name: ByteString, after: ByteString)
    ensures Found(before, name, after) == FindMarker(data)
  {
    hide IsMarker, FixNL, FindMarker, OccursAt;
    var i := 0;
    assert data[0..] == data;
    while true
      invariant 0 <= i <= |data| && (i > 0 ==> data[i - 1] == NEWLINE)
      invariant FindMarker(data) == Prepend(data[..i], FindMarker(data[i..]))
      decreases |data| - i
    {
      var (n, rest) := IsMarker(data[i..]);
      if n != [] {
        MarkerAtStart(data[i..]);
        return data[..i], n, rest;
      }
      var j := Index(data[i..], NEWLINE_MARKER);
      if j.None? {
        NothingToSkipTo(data[i..]);
        if i > 0 {
          FixNLOfRest(data, i - 1);
        }
        return FixNL(data), [], [];
      }
      SkipToMarker(data[i..], j.value);
      PrependTwice(data, i, j.value);
      i := i + j.value + 1;
    }
  }

  method Parse(data: ByteString) returns (a: Archive)
    ensures a == ParseSpec(data)
  {
    hide FindMarker;
    var comment, name, rest := FindFileMarker(data);
    ghost var first := name;
    ghost var tail := rest;
    var files := [];
    while name != []
      invariant files + ParseFiles(name, rest) == ParseFiles(first, tail)
      decreases if name == [] then 0 else |rest| + 1
    {
      var d, n, r := FindFileMarker(rest);
      assert files + ([File(name, d)] + ParseFiles(n, r)) == (files + [File(name, d)]) + ParseFiles(n, r);
      files := files + [File(name, d)];
      name, rest := n, r;
    }
    return Archive(comment, files);
  }

  // ---------- Well-formed archives ----------

  /** A line starts at i. */
  predicate LineStart(text: ByteString, i: nat) {
    i == 0 || (i <= |text| && text[i - 1] == NEWLINE)
  }

  /** No line of the text is a marker line. */
  ghost predicate MarkerFree(text: ByteString) {
    forall i: nat :: i <= |text| && LineStart(text, i) ==> IsMarker(text[i..]).0 == []
  }

  ghost predicate GoodText(text: ByteString) {
    (text == [] || text[|text| - 1] == NEWLINE) && MarkerFree(text)
  }

  ghost predicate GoodName(name: ByteString) {
    name != [] && NEWLINE !in name && Trim(name) == name
  }

  ghost predicate GoodFiles(files: seq<File>) {
    forall i :: 0 <= i < |files| ==> GoodName(files[i].name) && GoodText(files[i].data)
  }

  ghost predicate WellFormed(a: Archive) {
    GoodText(a.comment) && GoodFiles(a.files)
  }

  // ---------- Markers inside longer texts ----------

  lemma FirstNewlineIs(data: ByteString, k: nat)
    requires k < |data| && data[k] == NEWLINE && forall i :: 0 <= i < k ==> data[i] != NEWLINE
    ensures FirstNewline(data) == Some(k)
  {
    assert data[k] in data;
  }

  lemma NoNewlineInMarker(data: ByteString, k: nat)
    requires MARKER <= data && k < |data| && data[k] == NEWLINE
    ensures |MARKER| <= k
  {
    assert data[..3] == MARKER;
    assert data[0] == MARKER[0] && data[1] == MARKER[1] && data[2] == MARKER[2];
  }

  lemma FirstLineOfConcat(t: ByteString, x: ByteString)
    requires FirstNewline(t).Some?
    ensures FirstNewline(t + x) == FirstNewline(t) && FirstLine(t + x).0 == FirstLine(t).0
    ensures MARKER <= t + x <==> MARKER <= t
  {
    var k := FirstNewline(t).value;
    FirstNewlineIs(t + x, k);
    assert (t + x)[..k] == t[..k];
    if MARKER <= t + x {
      NoNewlineInMarker(t + x, k);
      assert t[..3] == (t + x)[..3];
    }
  }

  /** Whether a complete first line is a marker does not depend on what follows. */
  lemma MarkerOfConcat(t: ByteString, x: ByteString)
    requires FirstNewline(t).Some?
    ensures FirstNewline(t + x) == FirstNewline(t) && IsMarker(t + x).0 == IsMarker(t).0
  {
    hide Trim, HasSuffix, FirstLine;
    FirstLineOfConcat(t, x);
  }

  lemma MarkerLineParses(name: ByteString, rest: ByteString)
    requires GoodName(name)
    ensures IsMarker(MarkerLine(name) + rest) == (name, rest)
  {
    hide Trim;
    var line := MARKER + name + MARKER_END;
    var data := MarkerLine(name) + rest;
    var k := |line|;
    assert data == line + [NEWLINE] + rest;
    forall i | 0 <= i < k ensures data[i] != NEWLINE {
      assert data[i] == line[i];
      assert 3 <= i < 3 + |name| ==> line[i] == name[i - 3];
    }
    FirstNewlineIs(data, k);
    assert data[..k] == line && data[k + 1..] == rest && line[k - 1] == DASH;
    assert line[k - 3..] == MARKER_END && line[3..k - 3] == name && line[..3] == MARKER;
  }

  /** A text is free of markers when its first line and its other lines are. */
  lemma MarkerFreeByLine(t: ByteString, k: nat)
    requires FirstNewline(t) == Some(k)
    ensures MarkerFree(t) <==> IsMarker(t).0 == [] && MarkerFree(t[k + 1..])
  {
    hide IsMarker, FirstNewline;
    var rest := t[k + 1..];
    assert t[0..] == t;
    assert forall i: nat :: i <= |rest| ==> rest[i..] == t[k + 1 + i..];
    assert forall i: nat :: i <= |rest| ==> (LineStart(rest, i) <==> LineStart(t, k + 1 + i));
    if MarkerFree(t) {
      assert LineStart(t, 0);
    }
    if IsMarker(t).0 == [] && MarkerFree(rest) {
      forall i: nat | i <= |t| && LineStart(t, i) ensures IsMarker(t[i..]).0 == [] {
        if i > 0 {
          assert k < i && LineStart(rest, i - k - 1) && t[i..] == rest[i - k - 1..];
        }
      }
    }
  }

  lemma MarkerFreeOneLine(t: ByteString)
    requires FirstNewline(t).None?
    ensures MarkerFree(t) <==> IsMarker(t).0 == []
  {
    hide IsMarker, FirstNewline;
    assert t[0..] == t && LineStart(t, 0);
    assert forall i: nat :: i <= |t| && LineStart(t, i) ==> i == 0;
  }

  lemma {:induction false} FoundNothingIffMarkerFree(t: ByteString)
    ensures FindMarker(t).name == [] <==> MarkerFree(t)
    decreases |t|
  {
    hide IsMarker, MarkerFree, FixNL;
    var i := FirstNewline(t);
    if i.None? {
      MarkerFreeOneLine(t);
    } else {
      MarkerFreeByLine(t, i.value);
      FoundNothingIffMarkerFree(t[i.value + 1..]);
    }
  }

  // ---------- Parsing what was printed ----------

  lemma GoodTextByLine(t: ByteString)
    requires GoodText(t) && t != []
    ensures FirstNewline(t).Some?
    ensures var k := FirstNewline(t).value; IsMarker(t).0 == [] && GoodText(t[k + 1..])
  {
    hide IsMarker, MarkerFree;
    assert t[|t| - 1] in t;
    var k := FirstNewline(t).value;
    MarkerFreeByLine(t, k);
    var rest := t[k + 1..];
    assert rest != [] ==> rest[|rest| - 1] == t[|t| - 1];
  }

  lemma {:induction false} FindInGoodText(t: ByteString)
    requires GoodText(t)
    ensures FindMarker(t) == Found(t, [], [])
    decreases |t|
  {
    hide IsMarker, GoodText;
    if t == [] {
      EmptyIsNoMarker();
    } else {
      GoodTextByLine(t);
      var k := FirstNewline(t).value;
      FindInGoodText(t[k + 1..]);
      assert t == t[..k + 1] + t[k + 1..];
    }
  }

  lemma EmptyIsNoMarker()
    ensures IsMarker([]).0 == [] && FirstNewline([]) == None
  {
  }

  /** The parser finds exactly the text before a printed marker, the name, and the rest. */
  lemma {:induction false} FindPrintedMarker(t: ByteString, name: ByteString, rest: ByteString)
    requires GoodText(t) && GoodName(name)
    ensures FindMarker(t + (MarkerLine(name) + rest)) == Found(t, name, rest)
    decreases |t|
  {
    hide IsMarker, GoodText, GoodName, MarkerLine, FindMarker, FirstNewline;
    var x := MarkerLine(name) + rest;
    if t == [] {
      GoodNameNotEmpty(name);
      MarkerLineParses(name, rest);
      MarkerAtStart(x);
      assert t + x == x;
    } else {
      GoodTextByLine(t);
      MarkerOfConcat(t, x);
      var k := FirstNewline(t).value;
      var t' := t[k + 1..];
      FindAfterLine(t + x, k);
      assert (t + x)[k + 1..] == t' + x;
      assert (t + x)[..k + 1] == t[..k + 1];
      FindPrintedMarker(t', name, rest);
      assert t[..k + 1] + t' == t;
    }
  }

  lemma GoodNameNotEmpty(name: ByteString)
    requires GoodName(name)
    ensures name != []
  {
  }

  lemma {:induction false} ParsePrintedFiles(name: ByteString, data: ByteString, files: seq<File>)
    requires GoodName(name) && GoodText(data) && GoodFiles(files)
    ensures ParseFiles(name, data + FormatFiles(files)) == [File(name, data)] + files
    decreases |files|
  {
    hide FindMarker, GoodText, GoodName, MarkerLine;
    assert name != [] by { GoodNameNotEmpty(name); }
    if files == [] {
      FindInGoodText(data);
      assert data + [] == data;
    } else {
      var f := files[0];
      GoodTextIsFixed(f.data);
      var rest := f.data + FormatFiles(files[1..]);
      Associative(MarkerLine(f.name), f.data, FormatFiles(files[1..]));
      FindPrintedMarker(data, f.name, rest);
      assert f.name != [] by { GoodNameNotEmpty(f.name); }
      ParsePrintedFiles(f.name, f.data, files[1..]);
      assert File(f.name, f.data) == f && files == [f] + files[1..];
    }
  }

  lemma GoodTextIsFixed(t: ByteString)
    requires GoodText(t)
    ensures FixNL(t) == t
  {
  }

  /** Printing and parsing a well-formed archive gives it back. */
  lemma ParseOfFormat(a: Archive)
    requires WellFormed(a)
    ensures ParseSpec(FormatSpec(a)) == a
  {
    hide FindMarker, GoodText, GoodName, MarkerLine;
    GoodTextIsFixed(a.comment);
    if a.files == [] {
      FindInGoodText(a.comment);
      assert a.comment + [] == a.comment;
    } else {
      var f := a.files[0];
      GoodTextIsFixed(f.data);
      var rest := f.data + FormatFiles(a.files[1..]);
      Associative(MarkerLine(f.name), f.data, FormatFiles(a.files[1..]));
      FindPrintedMarker(a.comment, f.name, rest);
      ParsePrintedFiles(f.name, f.data, a.files[1..]);
      assert File(f.name, f.data) == f && a.files == [f] + a.files[1..];
    }
  }

  // ---------- What the parser returns ----------

  lemma MarkerNameIsGood(data: ByteString)
    requires IsMarker(data).0 != []
    ensures GoodName(IsMarker(data).0)
  {
    hide Trim, HasSuffix, FirstLine;
    FirstLineHasNoNewline(data);
    var line := FirstLine(data).0;
    var inner := line[|MARKER|..|line| - |MARKER_END|];
    TrimIsIdempotent(inner);
    var lead, trail := TrimSplits(inner);
    assert forall b :: b in Trim(inner) ==> b in inner;
  }

  lemma FirstLineHasNoNewline(data: ByteString)
    ensures NEWLINE !in FirstLine(data).0
  {
  }

  /** A line that is no marker in front of a good text gives a good text. */
  lemma GoodTextCons(x: ByteString, k: nat, b: ByteString)
    requires FirstNewline(x) == Some(k) && IsMarker(x).0 == [] && GoodText(b)
    ensures GoodText(x[..k + 1] + b)
  {
    hide IsMarker, MarkerFree;
    var line := x[..k + 1];
    var t := line + b;
    FirstNewlineIs(line, k);
    FirstNewlineIs(t, k);
    assert x == line + x[k + 1..];
    MarkerOfConcat(line, x[k + 1..]);
    MarkerOfConcat(line, b);
    assert t[k + 1..] == b;
    MarkerFreeByLine(t, k);
    assert b != [] ==> t[|t| - 1] == b[|b| - 1];
  }

  lemma EmptyIsGood()
    ensures GoodText([])
  {
    assert forall i: nat :: i <= 0 ==> IsMarker([][i..]).0 == [];
  }

  /** Before a marker the parser returns a good text, and the name of the marker is good. */
  lemma {:induction false} FoundIsGood(x: ByteString)
    requires FindMarker(x).name != []
    ensures GoodText(FindMarker(x).before) && GoodName(FindMarker(x).name)
    decreases |x|
  {
    hide IsMarker, GoodText, GoodName;
    if IsMarker(x).0 != [] {
      MarkerNameIsGood(x);
      EmptyIsGood();
    } else {
      var k := FirstNewline(x).value;
      FindAfterLine(x, k);
      FoundIsGood(x[k + 1..]);
      GoodTextCons(x, k, FindMarker(x[k + 1..]).before);
    }
  }

  // ---------- The last line ----------

  function LastLine(x: ByteString): ByteString
    decreases |x|
  {
    var i := FirstNewline(x);
    if i.None? then x else LastLine(x[i.value + 1..])
  }

  /** The input ends, without a newline, in a carriage return after what a newline would make a marker line. */
  predicate EndsInDanglingMarker(x: ByteString) {
    var line := LastLine(x);
    line != [] && line[|line| - 1] == RETURN && IsMarker(line + [NEWLINE]).0 != []
  }

  lemma {:induction false} LastLineIsSuffix(x: ByteString)
    ensures |LastLine(x)| <= |x| && LastLine(x) == x[|x| - |LastLine(x)|..]
    decreases |x|
  {
    var i := FirstNewline(x);
    if i.Some? {
      LastLineIsSuffix(x[i.value + 1..]);
    }
  }

  /** The first line of a text without newline, open and closed. */
  lemma FirstLineClosed(line: ByteString)
    requires line != [] && NEWLINE !in line
    ensures FirstLine(line) == (line, [])
    ensures FirstLine(line + [NEWLINE]).0 == if line[|line| - 1] == RETURN then line[..|line| - 1] else line
    ensures MARKER <= line + [NEWLINE] <==> MARKER <= line
  {
    var data := line + [NEWLINE];
    assert forall i :: 0 <= i < |line| ==> line[i] in line;
    FirstNewlineIs(data, |line|);
    assert data[..|line|] == line;
    if MARKER <= data {
      NoNewlineInMarker(data, |line|);
      assert line[..3] == data[..3];
    }
  }

  /** A last line that is no marker becomes one by a newline only if it ends in a carriage return. */
  lemma NewlineMakesMarker(line: ByteString)
    requires line != [] && NEWLINE !in line && IsMarker(line).0 == []
    ensures IsMarker(line + [NEWLINE]).0 != [] ==> line[|line| - 1] == RETURN
  {
    hide Trim, HasSuffix, FirstLine;
    FirstLineClosed(line);
  }

  /** A text without newline, closed by one. */
  lemma MarkerFreeWhenClosed(line: ByteString)
    requires line != [] && FirstNewline(line).None?
    ensures MarkerFree(line + [NEWLINE]) <==> IsMarker(line + [NEWLINE]).0 == []
  {
    hide IsMarker, MarkerFree;
    var data := line + [NEWLINE];
    assert forall i :: 0 <= i < |line| ==> line[i] in line;
    FirstNewlineIs(data, |line|);
    MarkerFreeByLine(data, |line|);
    assert data[|line| + 1..] == [];
    assert MarkerFree([]) by { EmptyIsMarkerFree(); }
  }

  lemma EmptyIsMarkerFree()
    ensures MarkerFree([])
  {
    EmptyIsGood();
  }

  lemma ClosedByLine(x: ByteString, k: nat)
    requires FirstNewline(x) == Some(k) && IsMarker(x).0 == []
    ensures GoodText(FixNL(x)) <==> GoodText(FixNL(x[k + 1..]))
  {
    hide IsMarker, MarkerFree, FixNL;
    var line, rest := x[..k + 1], x[k + 1..];
    FixNLOfRest(x, k);
    FirstNewlineIs(line, k);
    assert line + rest == x;
    MarkerOfConcat(line, rest);
    MarkerOfConcat(line, FixNL(rest));
    assert FixNL(x)[k + 1..] == FixNL(rest);
    MarkerFreeByLine(FixNL(x), k);
    FixNLCases(x);
    FixNLCases(rest);
  }

  lemma DanglingByLine(x: ByteString, k: nat)
    requires FirstNewline(x) == Some(k)
    ensures EndsInDanglingMarker(x) <==> EndsInDanglingMarker(x[k + 1..])
  {
    hide IsMarker;
  }

  lemma ClosedOneLine(x: ByteString)
    requires FirstNewline(x).None? && IsMarker(x).0 == []
    ensures GoodText(FixNL(x)) <==> !EndsInDanglingMarker(x)
  {
    hide IsMarker, MarkerFree, FixNL;
    FixNLCases(x);
    if x == [] {
      EmptyIsMarkerFree();
    } else {
      NewlineMakesMarker(x);
      MarkerFreeWhenClosed(x);
    }
  }

  /** Closing the last line of a text without markers gives a good text unless a marker dangles. */
  lemma {:induction false} ClosedIsGoodIff(x: ByteString)
    requires FindMarker(x).name == []
    ensures FindMarker(x).before == FixNL(x)
    ensures GoodText(FixNL(x)) <==> !EndsInDanglingMarker(x)
    decreases |x|
  {
    hide IsMarker, GoodText, FixNL, EndsInDanglingMarker;
    var i := FirstNewline(x);
    if i.None? {
      ClosedOneLine(x);
    } else {
      ClosedIsGoodIff(x[i.value + 1..]);
      FixNLOfRest(x, i.value);
      ClosedByLine(x, i.value);
      DanglingByLine(x, i.value);
    }
  }

  lemma FixNLCases(x: ByteString)
    ensures x == [] ==> FixNL(x) == []
    ensures x != [] ==> FixNL(x) != [] && FixNL(x)[|FixNL(x)| - 1] == NEWLINE
    ensures x != [] && NEWLINE !in x ==> FixNL(x) == x + [NEWLINE]
  {
    assert x != [] ==> x[|x| - 1] in x;
  }

  /** A dangling marker is a matter of what follows the last complete marker. */
  lemma {:induction false} DanglingAfterMarker(x: ByteString)
    requires FindMarker(x).name != []
    ensures EndsInDanglingMarker(x) <==> EndsInDanglingMarker(FindMarker(x).after)
    decreases |x|
  {
    hide IsMarker, EndsInDanglingMarker;
    var i := FirstNewline(x);
    if i.Some? {
      DanglingByLine(x, i.value);
    }
    if IsMarker(x).0 != [] {
      MarkerAtStart(x);
      MarkerEndsInDash(x);
      if i.None? {
        OpenMarkerDoesNotDangle(x);
      }
    } else {
      FindAfterLine(x, i.value);
      DanglingAfterMarker(x[i.value + 1..]);
    }
  }

  lemma OpenMarkerDoesNotDangle(x: ByteString)
    requires FirstNewline(x).None? && x != [] && x[|x| - 1] == DASH
    ensures !EndsInDanglingMarker(x) && !EndsInDanglingMarker([])
  {
    hide IsMarker;
    assert LastLine(x) == x;
    assert LastLine([]) == [];
  }

  lemma MarkerEndsInDash(x: ByteString)
    requires IsMarker(x).0 != []
    ensures FirstNewline(x).None? ==> x != [] && x[|x| - 1] == DASH && IsMarker(x).1 == []
    ensures FirstNewline(x).Some? ==> IsMarker(x).1 == x[FirstNewline(x).value + 1..]
  {
    hide Trim;
    var line := FirstLine(x).0;
    assert line[|line| - 1] == line[|line| - 3..][2];
  }

  lemma {:induction false} ParsedFilesGoodIff(name: ByteString, data: ByteString)
    requires GoodName(name)
    ensures GoodFiles(ParseFiles(name, data)) <==> !EndsInDanglingMarker(data)
    decreases |data|
  {
    hide FindMarker, GoodName, GoodText, EndsInDanglingMarker;
    assert name != [] by { GoodNameNotEmpty(name); }
    var r := FindMarker(data);
    var files := ParseFiles(name, data);
    assert files[0] == File(name, r.before);
    if r.name == [] {
      ClosedIsGoodIff(data);
      assert files == [File(name, r.before)];
    } else {
      FoundIsGood(data);
      DanglingAfterMarker(data);
      ParsedFilesGoodIff(r.name, r.after);
      assert files[1..] == ParseFiles(r.name, r.after);
      assert GoodFiles(files) <==> GoodFiles(files[1..]);
    }
  }

  /** The parser returns a well-formed archive exactly when no marker dangles. */
  lemma ParsedIsWellFormedIff(x: ByteString)
    ensures WellFormed(ParseSpec(x)) <==> !EndsInDanglingMarker(x)
  {
    hide FindMarker, GoodName, GoodText, EndsInDanglingMarker;
    var r := FindMarker(x);
    if r.name == [] {
      ClosedIsGoodIff(x);
    } else {
      FoundIsGood(x);
      DanglingAfterMarker(x);
      ParsedFilesGoodIff(r.name, r.after);
    }
  }

  /** Printed archives end in a newline, so that no marker can dangle. */
  lemma PrintedDoesNotDangle(a: Archive)
    ensures !EndsInDanglingMarker(FormatSpec(a))
  {
    hide MarkerLine, IsMarker;
    var x := FormatSpec(a);
    FixNLCases(a.comment);
    FormattedFilesEnd(a.files);
    LastLineIsSuffix(x);
    var last := LastLine(x);
    assert last != [] ==> last[|last| - 1] == x[|x| - 1];
  }

  lemma {:induction false} FormattedFilesEnd(files: seq<File>)
    ensures FormatFiles(files) == [] || FormatFiles(files)[|FormatFiles(files)| - 1] == NEWLINE
    decreases |files|
  {
    if files != [] {
      FixNLCases(files[0].data);
      FormattedFilesEnd(files[1..]);
    }
  }

  // ---------- The two round trips ----------

  /** Parse undoes Format on exactly the well-formed archives. */
  lemma FormatThenParse(a: Archive)
    ensures ParseSpec(FormatSpec(a)) == a <==> WellFormed(a)
  {
    hide ParseSpec, FormatSpec, WellFormed, EndsInDanglingMarker;
    if WellFormed(a) {
      ParseOfFormat(a);
    }
    PrintedDoesNotDangle(a);
    ParsedIsWellFormedIff(FormatSpec(a));
  }

  /** Printing what was parsed and parsing again changes nothing, exactly when no marker dangles. */
  lemma ParseFormatParse(x: ByteString)
    ensures ParseSpec(FormatSpec(ParseSpec(x))) == ParseSpec(x) <==> !EndsInDanglingMarker(x)
  {
    hide ParseSpec, FormatSpec, WellFormed, EndsInDanglingMarker;
    FormatThenParse(ParseSpec(x));
    ParsedIsWellFormedIff(x);
  }

  /** In particular for every input that does not end in a carriage return. */
  lemma ParseFormatParseWithoutReturn(x: ByteString)
    requires x == [] || x[|x| - 1] != RETURN
    ensures ParseSpec(FormatSpec(ParseSpec(x))) == ParseSpec(x)
  {
    hide ParseSpec, FormatSpec, LastLine, IsMarker;
    LastLineIsSuffix(x);
    assert !EndsInDanglingMarker(x) by {
      var last := LastLine(x);
      assert last != [] ==> last[|last| - 1] == x[|x| - 1];
    }
    ParseFormatParse(x);
  }

  /** The inputs that fail end in "-- name --" and a carriage return. The parser closes the line,
      and parsing again then reads a marker. */
  lemma DanglingMarkerFails(name: ByteString)
    requires GoodName(name)
    ensures var x := MARKER + name + MARKER_END + [RETURN];
            EndsInDanglingMarker(x) && ParseSpec(FormatSpec(ParseSpec(x))) != ParseSpec(x)
  {
    hide Trim, FirstLine, ParseSpec, FormatSpec;
    var line := MARKER + name + MARKER_END;
    var x := line + [RETURN];
    forall b | b in x ensures b != NEWLINE {
      assert b in MARKER || b in name || b in MARKER_END || b == RETURN;
    }
    FirstLineClosed(x);
    assert x[..|x| - 1] == line;
    assert line[|line| - 3..] == MARKER_END && line[3..|line| - 3] == name && x[..3] == MARKER;
    ParseFormatParse(x);
  }

  // ---------- The parser in terms of the bytes alone ----------

  /** A marker line: "-- ", the name with white space around it, " --", and a line ending that only
      the end of the input may omit. */
  ghost predicate MarkerParts(line: ByteString, lead: ByteString, name: ByteString, trail: ByteString,
                              ending: ByteString, atEnd: bool) {
    && line == [45, 45, 32] + (lead + name + trail) + [32, 45, 45] + ending
    && name != [] && TrimsTo(lead + name + trail, lead, name, trail) && 10 !in lead + name + trail
    && (ending == [10] || ending == [13, 10] || (atEnd && ending == []))
  }

  ghost predicate IsMarkerLine(line: ByteString, name: ByteString, atEnd: bool) {
    exists lead, trail, ending :: MarkerParts(line, lead, name, trail, ending, atEnd)
  }

  lemma FirstLineIs(core: ByteString, ending: ByteString, rest: ByteString)
    requires NEWLINE !in core && core != [] && core[|core| - 1] != RETURN
    requires ending == [NEWLINE] || ending == [RETURN, NEWLINE] || (ending == [] && rest == [])
    ensures FirstLine(core + ending + rest) == (core, rest)
  {
    var data := core + ending + rest;
    if ending == [] {
      assert data == core;
    } else {
      var k := |core| + |ending| - 1;
      assert forall i :: 0 <= i < |core| ==> data[i] == core[i];
      assert data[|core|] == ending[0] && data[k] == NEWLINE;
      FirstNewlineIs(data, k);
      assert data[k + 1..] == rest;
      if |ending| == 1 {
        assert data[..k] == core;
      } else {
        assert data[..k] == core + [RETURN] && data[..k][..k - 1] == core;
      }
    }
  }

  lemma MarkerLineReads(line: ByteString, name: ByteString, rest: ByteString)
    requires IsMarkerLine(line, name, rest == [])
    ensures IsMarker(line + rest) == (name, rest)
  {
    hide TrimsTo, FirstLine, Trim;
    var lead, trail, ending :| MarkerParts(line, lead, name, trail, ending, rest == []);
    var inner := lead + name + trail;
    var core := MARKER + inner + MARKER_END;
    TrimIs(inner, lead, name, trail);
    FirstLineIs(core, ending, rest);
    assert line + rest == core + ending + rest;
    assert (line + rest)[..3] == MARKER;
    assert core[|core| - 3..] == MARKER_END && core[3..|core| - 3] == inner;
  }

  /** The first line of data, its ending and the rest make up data. */
  lemma FirstLineSplits(data: ByteString) returns (ending: ByteString)
    ensures var (line, rest) := FirstLine(data);
            && data == line + ending + rest && NEWLINE !in line
            && (ending == [NEWLINE] || ending == [RETURN, NEWLINE] || (ending == [] && rest == []))
  {
    var i := FirstNewline(data);
    if i.None? {
      ending := [];
    } else {
      var k := i.value;
      ending := if k > 0 && data[k - 1] == RETURN then [RETURN, NEWLINE] else [NEWLINE];
      assert data == data[..k] + [NEWLINE] + data[k + 1..];
      assert k > 0 ==> data[..k] == data[..k - 1] + [data[k - 1]];
    }
  }

  lemma MarkerIsLine(data: ByteString) returns (line: ByteString)
    requires IsMarker(data).0 != []
    ensures var (name, rest) := IsMarker(data);
            data == line + rest && IsMarkerLine(line, name, rest == [])
  {
    hide TrimsTo, FirstLine, Trim;
    var ending := FirstLineSplits(data);
    var (core, rest) := FirstLine(data);
    var inner := core[3..|core| - 3];
    var lead, trail := TrimSplits(inner);
    var name := Trim(inner);
    line := core + ending;
    TrimPartsJoin(inner, lead, name, trail);
    assert data[..3] == MARKER == core[..3] && core == core[..3] + inner + core[|core| - 3..];
    assert forall b :: b in inner ==> b in core;
    assert MarkerParts(line, lead, name, trail, ending, rest == []);
  }

  lemma TrimPartsJoin(s: ByteString, lead: ByteString, t: ByteString, trail: ByteString)
    requires TrimsTo(s, lead, t, trail)
    ensures s == lead + t + trail
  {
  }

  /** What the test for a marker line decides. */
  lemma MarkerIff(data: ByteString, name: ByteString, rest: ByteString)
    requires name != []
    ensures IsMarker(data) == (name, rest) <==>
            exists line :: data == line + rest && IsMarkerLine(line, name, rest == [])
  {
    hide IsMarkerLine, IsMarker;
    if IsMarker(data) == (name, rest) {
      var line := MarkerIsLine(data);
    }
    forall line | data == line + rest && IsMarkerLine(line, name, rest == []) ensures IsMarker(data) == (name, rest) {
      MarkerLineReads(line, name, rest);
    }
  }

  /** Marker lines and the data of their files, in order. */
  function Pieces(lines: seq<ByteString>, files: seq<File>): ByteString
    requires |lines| == |files|
  {
    if files == [] then [] else lines[0] + files[0].data + Pieces(lines[1..], files[1..])
  }

  ghost predicate LinesMatch(lines: seq<ByteString>, files: seq<File>) {
    |lines| == |files| && forall i :: 0 <= i < |files| ==>
      IsMarkerLine(lines[i], files[i].name, i == |files| - 1 && files[i].data == [])
  }

  lemma FindInLastLine(x: ByteString)
    requires IsMarker(x).0 == [] && FirstNewline(x).None?
    ensures FindMarker(x) == Found(FixNL(x), [], [])
  {
    hide IsMarker, FixNL, FirstNewline;
  }

  lemma {:induction false} FoundSplits(x: ByteString) returns (line: ByteString)
    ensures var r := FindMarker(x);
            if r.name == [] then r.before == FixNL(x)
            else x == r.before + line + r.after && IsMarkerLine(line, r.name, r.after == [])
    decreases |x|
  {
    hide IsMarker, IsMarkerLine, FixNL, FirstNewline, FindMarker;
    line := [];
    if IsMarker(x).0 != [] {
      MarkerAtStart(x);
      line := MarkerIsLine(x);
      assert [] + line == line;
    } else if FirstNewline(x).Some? {
      var k := FirstNewline(x).value;
      var rest := x[k + 1..];
      FindAfterLine(x, k);
      line := FoundSplits(rest);
      FixNLOfRest(x, k);
      assert x == x[..k + 1] + rest;
      var r := FindMarker(rest);
      if r.name != [] {
        assert x[..k + 1] + (r.before + line + r.after) == (x[..k + 1] + r.before) + line + r.after;
      }
    } else {
      FindInLastLine(x);
    }
  }

  lemma {:induction false} FilesSplit(name: ByteString, data: ByteString) returns (lines: seq<ByteString>)
    requires name != []
    ensures var files := ParseFiles(name, data);
            && files != [] && files[0].name == name
            && |lines| == |files| - 1 && LinesMatch(lines, files[1..])
            && (var whole := files[0].data + Pieces(lines, files[1..]); whole == data || whole == FixNL(data))
            && (data == [] ==> files == [File(name, [])])
    decreases |data|
  {
    hide FindMarker, IsMarkerLine, FixNL, LinesMatch;
    var line := FoundSplits(data);
    var r := FindMarker(data);
    var files := ParseFiles(name, data);
    EmptyFindsNothing();
    if r.name == [] {
      lines := [];
      assert files == [File(name, r.before)] && files[1..] == [] && r.before + [] == r.before;
      FixNLOfSuffix([], []);
      NoLines();
    } else {
      var rest := FilesSplit(r.name, r.after);
      lines := [line] + rest;
      var more := ParseFiles(r.name, r.after);
      assert files[0] == File(name, r.before) && files[1..] == more;
      FixNLOfSuffix(r.before + line, r.after);
      LinesMatchCons(line, rest, more, r.after);
      PiecesCons(r.before, line, r.after, rest, more);
    }
  }

  lemma NoLines()
    ensures LinesMatch([], []) && Pieces([], []) == []
  {
  }

  lemma PiecesCons(before: ByteString, line: ByteString, after: ByteString, rest: seq<ByteString>, files: seq<File>)
    requires files != [] && |rest| == |files| - 1
    ensures before + Pieces([line] + rest, files) == before + line + (files[0].data + Pieces(rest, files[1..]))
  {
    assert ([line] + rest)[1..] == rest;
    var more := Pieces(rest, files[1..]);
    assert Pieces([line] + rest, files) == line + files[0].data + more;
    hide Pieces;
    RegroupPieces(before, line, files[0].data, more);
  }

  lemma RegroupPieces(a: ByteString, b: ByteString, c: ByteString, d: ByteString)
    ensures a + (b + c + d) == a + b + (c + d)
  {
  }

  lemma EmptyFindsNothing()
    ensures FindMarker([]) == Found([], [], [])
  {
  }

  lemma FixNLOfSuffix(a: ByteString, b: ByteString)
    ensures b != [] ==> FixNL(a + b) == a + FixNL(b) && FixNL(b) != []
    ensures FixNL([]) == []
  {
  }

  lemma LinesMatchCons(line: ByteString, rest: seq<ByteString>, files: seq<File>, after: ByteString)
    requires files != [] && LinesMatch(rest, files[1..]) && IsMarkerLine(line, files[0].name, after == [])
    requires after == [] ==> |files| == 1 && files[0].data == []
    requires |files| == 1 && files[0].data == [] ==> after == []
    ensures LinesMatch([line] + rest, files)
  {
    hide IsMarkerLine;
  }

  /** The text with a newline at its end, unless it is empty or has one. */
  ghost predicate Closes(x: ByteString, y: ByteString) {
    if x == [] || x[|x| - 1] == 10 then y == x else y == x + [10]
  }

  ghost predicate PrintedLines(lines: seq<ByteString>, files: seq<File>) {
    |lines| == |files| && forall i :: 0 <= i < |files| ==> lines[i] == [45, 45, 32] + files[i].name + [32, 45, 45, 10]
  }

  ghost predicate ClosedFiles(files: seq<File>, closed: seq<File>) {
    |closed| == |files|
    && forall i :: 0 <= i < |files| ==> closed[i].name == files[i].name && Closes(files[i].data, closed[i].data)
  }

  lemma {:induction false} FilesArePrinted(files: seq<File>) returns (lines: seq<ByteString>, closed: seq<File>)
    ensures PrintedLines(lines, files) && ClosedFiles(files, closed) && FormatFiles(files) == Pieces(lines, closed)
    decreases |files|
  {
    hide MarkerLine, FixNL, Closes;
    lines, closed := [], [];
    if files != [] {
      var f := files[0];
      lines, closed := FilesArePrinted(files[1..]);
      var line, g := MarkerLine(f.name), File(f.name, FixNL(f.data));
      MarkerLineBytes(f.name);
      FixNLCloses(f.data);
      PrintedCons(line, lines, g, closed, files);
      assert ([line] + lines)[1..] == lines && ([g] + closed)[1..] == closed;
      lines, closed := [line] + lines, [g] + closed;
    }
  }

  lemma MarkerLineBytes(name: ByteString)
    ensures MarkerLine(name) == [45, 45, 32] + name + [32, 45, 45, 10]
  {
  }

  lemma PrintedCons(line: ByteString, lines: seq<ByteString>, g: File, closed: seq<File>, files: seq<File>)
    requires files != [] && line == [45, 45, 32] + files[0].name + [32, 45, 45, 10]
    requires g.name == files[0].name && Closes(files[0].data, g.data)
    requires PrintedLines(lines, files[1..]) && ClosedFiles(files[1..], closed)
    ensures PrintedLines([line] + lines, files) && ClosedFiles(files, [g] + closed)
  {
    hide Closes;
    forall i | 0 < i < |files| ensures ([line] + lines)[i] == [45, 45, 32] + files[i].name + [32, 45, 45, 10] {
      assert files[i] == files[1..][i - 1];
    }
    forall i | 0 < i < |files|
      ensures ([g] + closed)[i].name == files[i].name && Closes(files[i].data, ([g] + closed)[i].data)
    {
      assert files[i] == files[1..][i - 1];
    }
  }

  /** The printer writes the comment and, for each file in order, its marker line and its data, each
      text closed by a newline. */
  lemma FormatSplits(a: Archive)
    returns (comment: ByteString, lines: seq<ByteString>, closed: seq<File>)
    ensures Closes(a.comment, comment) && PrintedLines(lines, a.files) && ClosedFiles(a.files, closed)
    ensures FormatSpec(a) == comment + Pieces(lines, closed)
  {
    comment := FixNL(a.comment);
    lines, closed := FilesArePrinted(a.files);
  }

  lemma FixNLCloses(x: ByteString)
    ensures Closes(x, FixNL(x))
  {
  }

  /** The parser cuts its input into texts and marker lines: the comment, then for each file in order
      its marker line and its data. It drops nothing, and adds at most a newline at the end. */
  lemma ParseSplits(x: ByteString) returns (lines: seq<ByteString>)
    ensures var a := ParseSpec(x);
            && LinesMatch(lines, a.files)
            && (var whole := a.comment + Pieces(lines, a.files); whole == x || Closes(x, whole))
  {
    hide FindMarker, IsMarkerLine, FixNL;
    FixNLCloses(x);
    var line := FoundSplits(x);
    var r := FindMarker(x);
    if r.name == [] {
      lines := [];
      assert r.before + [] == r.before;
    } else {
      // Any name will do for the text before the first marker.
      lines := FilesSplit([45], x);
      assert ParseFiles([45], x)[1..] == ParseFiles(r.name, r.after);
    }
  }
}
