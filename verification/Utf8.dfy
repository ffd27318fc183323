/**
 UTF-8 validation against the grammar of section 4 of RFC 3629.
 */
module Utf8 {
  import opened Wrappers
  import opened Bytes

  // ---------- The grammar ----------

  predicate IsTail(b: Byte) {
    0x80 <= b <= 0xBF
  }

  /** UTF8-char of section 4 of RFC 3629. */
  predicate IsChar(c: ByteString) {
    || (|c| == 1 && c[0] <= 0x7F)
    || (|c| == 2 && 0xC2 <= c[0] <= 0xDF && IsTail(c[1]))
    || (|c| == 3 && c[0] == 0xE0 && 0xA0 <= c[1] <= 0xBF && IsTail(c[2]))
    || (|c| == 3 && 0xE1 <= c[0] <= 0xEC && IsTail(c[1]) && IsTail(c[2]))
    || (|c| == 3 && c[0] == 0xED && 0x80 <= c[1] <= 0x9F && IsTail(c[2]))
    || (|c| == 3 && 0xEE <= c[0] <= 0xEF && IsTail(c[1]) && IsTail(c[2]))
    || (|c| == 4 && c[0] == 0xF0 && 0x90 <= c[1] <= 0xBF && IsTail(c[2]) && IsTail(c[3]))
    || (|c| == 4 && 0xF1 <= c[0] <= 0xF3 && IsTail(c[1]) && IsTail(c[2]) && IsTail(c[3]))
    || (|c| == 4 && c[0] == 0xF4 && 0x80 <= c[1] <= 0x8F && IsTail(c[2]) && IsTail(c[3]))
  }

  function Flatten(chars: seq<ByteString>): ByteString {
    if chars == [] then [] else chars[0] + Flatten(chars[1..])
  }

  ghost predicate AllChars(chars: seq<ByteString>) {
    forall i :: 0 <= i < |chars| ==> IsChar(chars[i])
  }

  /** UTF8-octets: any number of UTF8-chars. */
  ghost predicate IsOctets(s: ByteString) {
    exists chars: seq<ByteString> :: AllChars(chars) && Flatten(chars) == s
  }

  // ---------- Reading one character after the other ----------

  /** Length of the character at the start of s, or 0 if s does not start with one. */
  function CharLen(s: ByteString): (n: nat)
    ensures n <= |s| && n <= 4
    ensures n > 0 ==> IsChar(s[..n])
    ensures n == 0 ==> forall k :: 0 <= k <= |s| ==> !IsChar(s[..k])
  {
    if |s| >= 1 && IsChar(s[..1]) then 1
    else if |s| >= 2 && IsChar(s[..2]) then 2
    else if |s| >= 3 && IsChar(s[..3]) then 3
    else if |s| >= 4 && IsChar(s[..4]) then 4
    else 0
  }

  predicate Valid(s: ByteString)
    decreases |s|
  {
    s == [] || (CharLen(s) > 0 && Valid(s[CharLen(s)..]))
  }

  /** No character is a proper prefix of another one. */
  lemma CharLenIs(s: ByteString, n: nat)
    requires n <= |s| && IsChar(s[..n])
    ensures CharLen(s) == n
  {
    var m := CharLen(s);
    assert m > 0;
    assert s[..m][0] == s[..n][0];
  }

  lemma CharLenOfConcat(s: ByteString, t: ByteString)
    requires CharLen(s) > 0
    ensures CharLen(s + t) == CharLen(s)
  {
    var n := CharLen(s);
    assert (s + t)[..n] == s[..n];
    CharLenIs(s + t, n);
  }

  lemma {:induction false} ValidOfConcat(a: ByteString, b: ByteString)
    requires Valid(a)
    ensures Valid(a + b) <==> Valid(b)
    decreases |a|
  {
    hide CharLen;
    if a == [] {
      assert a + b == b;
    } else {
      var n := CharLen(a);
      CharLenOfConcat(a, b);
      assert (a + b)[n..] == a[n..] + b;
      ValidOfConcat(a[n..], b);
    }
  }

  lemma CharIsValid(c: ByteString)
    requires IsChar(c)
    ensures c != [] && Valid(c) && CharLen(c) == |c|
  {
    assert c[..|c|] == c;
    CharLenIs(c, |c|);
  }

  lemma {:induction false} FlattenIsValid(chars: seq<ByteString>)
    requires AllChars(chars)
    ensures Valid(Flatten(chars))
  {
    hide IsChar, Valid;
    if chars == [] {
      assert Valid([]) by { EmptyIsValid(); }
    } else {
      CharIsValid(chars[0]);
      FlattenIsValid(chars[1..]);
      ValidOfConcat(chars[0], Flatten(chars[1..]));
    }
  }

  lemma EmptyIsValid()
    ensures Valid([])
  {
  }

  lemma {:induction false} CharsOfValid(s: ByteString) returns (chars: seq<ByteString>)
    requires Valid(s)
    ensures AllChars(chars) && Flatten(chars) == s
    decreases |s|
  {
    hide IsChar, CharLen;
    if s == [] {
      chars := [];
    } else {
      var n := CharLen(s);
      var rest := CharsOfValid(s[n..]);
      chars := [s[..n]] + rest;
      assert chars[1..] == rest && s == s[..n] + s[n..];
    }
  }

  /** Reading characters from left to right accepts exactly the strings of the grammar. */
  lemma ValidIffOctets(s: ByteString)
    ensures Valid(s) <==> IsOctets(s)
  {
    if Valid(s) {
      var chars := CharsOfValid(s);
    }
    if IsOctets(s) {
      var chars: seq<ByteString> :| AllChars(chars) && Flatten(chars) == s;
      FlattenIsValid(chars);
    }
  }

  // ---------- Prefixes of characters ----------

  ghost predicate IsProperPrefix(p: ByteString) {
    exists c: ByteString :: IsChar(c) && p < c
  }

  /** p is a character or can be extended to one. */
  ghost predicate IsPrefix(p: ByteString) {
    exists c: ByteString :: IsChar(c) && p <= c
  }

  datatype LeadInfo = LeadInfo(width: nat, secondMin: Byte, secondMax: Byte, ok: bool)

  /** Width and range of the second byte for a lead byte of a multi-byte character. */
  function LeadByteInfo(b: Byte): LeadInfo {
    if 0xC2 <= b <= 0xDF then LeadInfo(2, 0x80, 0xBF, true)
    else if b == 0xE0 then LeadInfo(3, 0xA0, 0xBF, true)
    else if 0xE1 <= b <= 0xEC then LeadInfo(3, 0x80, 0xBF, true)
    else if b == 0xED then LeadInfo(3, 0x80, 0x9F, true)
    else if 0xEE <= b <= 0xEF then LeadInfo(3, 0x80, 0xBF, true)
    else if b == 0xF0 then LeadInfo(4, 0x90, 0xBF, true)
    else if 0xF1 <= b <= 0xF3 then LeadInfo(4, 0x80, 0xBF, true)
    else if b == 0xF4 then LeadInfo(4, 0x80, 0x8F, true)
    else LeadInfo(0, 0, 0, false)
  }

  /** The table of lead bytes is the grammar. */
  lemma LeadByteInfoIsGrammar(c: ByteString)
    requires |c| >= 2
    ensures IsChar(c) <==> var info := LeadByteInfo(c[0]);
                           info.ok && |c| == info.width && info.secondMin <= c[1] <= info.secondMax
                           && forall i :: 2 <= i < |c| ==> IsTail(c[i])
  {
  }

  /** Decided by the table: a non-empty p is a proper prefix of a character. */
  predicate Extendable(p: ByteString) {
    && 1 <= |p| && LeadByteInfo(p[0]).ok && |p| < LeadByteInfo(p[0]).width
    && (|p| >= 2 ==> LeadByteInfo(p[0]).secondMin <= p[1] <= LeadByteInfo(p[0]).secondMax)
    && (|p| >= 3 ==> IsTail(p[2]))
  }

  lemma ExtendableIff(p: ByteString)
    requires p != []
    ensures Extendable(p) <==> IsProperPrefix(p)
  {
    if Extendable(p) {
      var info := LeadByteInfo(p[0]);
      var c := if |p| == 1 then p + [info.secondMin] else p;
      var c' := if |c| < info.width then c + [0x80] else c;
      var c'' := if |c'| < info.width then c' + [0x80] else c';
      LeadByteInfoIsGrammar(c'');
      assert IsChar(c'') && p < c'';
    }
    if IsProperPrefix(p) {
      var c: ByteString :| IsChar(c) && p < c;
      LeadByteInfoIsGrammar(c);
      assert forall i :: 0 <= i < |p| ==> p[i] == c[i];
    }
  }

  lemma EmptyIsProperPrefix()
    ensures IsProperPrefix([])
  {
    assert IsChar([0]);
  }

  /** A multi-byte string of at most four bytes that cannot be extended and is no character. */
  lemma NotPrefix(p: ByteString)
    requires p != [] && !Extendable(p) && !IsChar(p)
    ensures !IsPrefix(p)
  {
    ExtendableIff(p);
    assert forall c: ByteString :: p <= c && |p| == |c| ==> p == c;
  }

  // ---------- The first invalid span ----------

  datatype Span = Span(start: nat, end: nat)

  const REPLACEMENT_CHAR := 0xFFFD

  /** The number that a character encodes: the payload of the lead byte, then six bits per tail byte. */
  function CodePoint(c: ByteString): nat
    requires IsChar(c)
  {
    if |c| == 1 then c[0]
    else if |c| == 2 then Join(c[0] % 0x20, c[1])
    else if |c| == 3 then Join(Join(c[0] % 0x10, c[1]), c[2])
    else Join(Join(Join(c[0] % 0x08, c[1]), c[2]), c[3])
  }

  function Join(high: nat, tail: Byte): nat {
    high * 0x40 + tail as int % 0x40
  }

  /** The Unicode scalar values: all code points but the surrogates. */
  predicate IsScalar(n: nat) {
    n <= 0x10FFFF && !(0xD800 <= n <= 0xDFFF)
  }

  /** The encoding of section 3 of RFC 3629. */
  function Encode(n: nat): ByteString
    requires IsScalar(n)
  {
    if n < 0x80 then [n]
    else if n < 0x800 then [0xC0 + n / 0x40, 0x80 + n % 0x40]
    else if n < 0x1_0000 then [0xE0 + n / 0x1000, 0x80 + n / 0x40 % 0x40, 0x80 + n % 0x40]
    else [0xF0 + n / 0x4_0000, 0x80 + n / 0x1000 % 0x40, 0x80 + n / 0x40 % 0x40, 0x80 + n % 0x40]
  }

  lemma JoinSplits(high: nat, tail: Byte)
    requires IsTail(tail)
    ensures Join(high, tail) / 0x40 == high && 0x80 + Join(high, tail) % 0x40 == tail
  {
  }

  lemma SplitTwice(n: nat)
    ensures n / 0x1000 == n / 0x40 / 0x40 && n / 0x4_0000 == n / 0x40 / 0x40 / 0x40
  {
  }

  lemma EncodeOfTwo(c: ByteString)
    requires IsChar(c) && |c| == 2
    ensures IsScalar(CodePoint(c)) && Encode(CodePoint(c)) == c
  {
    var a := c[0] as int - 0xC0;
    assert c[0] % 0x20 == a;
    JoinSplits(a, c[1]);
    assert 0x80 <= Join(a, c[1]) < 0x800;
  }

  lemma EncodeOfThree(c: ByteString)
    requires IsChar(c) && |c| == 3
    ensures IsScalar(CodePoint(c)) && Encode(CodePoint(c)) == c
  {
    var a := c[0] as int - 0xE0;
    assert c[0] % 0x10 == a;
    var m := Join(a, c[1]);
    var n := Join(m, c[2]);
    JoinSplits(a, c[1]);
    JoinSplits(m, c[2]);
    SplitTwice(n);
    assert 0x20 <= m < 0x400 && !(0x360 <= m <= 0x37F);
    assert 0x800 <= n < 0x1_0000 && IsScalar(n);
  }

  lemma EncodeOfFour(c: ByteString)
    requires IsChar(c) && |c| == 4
    ensures IsScalar(CodePoint(c)) && Encode(CodePoint(c)) == c
  {
    var a := c[0] as int - 0xF0;
    assert c[0] % 0x08 == a;
    var l := Join(a, c[1]);
    var m := Join(l, c[2]);
    var n := Join(m, c[3]);
    JoinSplits(a, c[1]);
    JoinSplits(l, c[2]);
    JoinSplits(m, c[3]);
    SplitTwice(n);
    assert 0x10 <= l < 0x110;
    assert 0x1_0000 <= n <= 0x10FFFF;
  }

  /** Every character of the grammar encodes a scalar value, and is the encoding of it. */
  lemma EncodeOfCodePoint(c: ByteString)
    requires IsChar(c)
    ensures IsScalar(CodePoint(c)) && Encode(CodePoint(c)) == c
  {
    if |c| == 2 {
      EncodeOfTwo(c);
    } else if |c| == 3 {
      EncodeOfThree(c);
    } else if |c| == 4 {
      EncodeOfFour(c);
    }
  }

  lemma SplitJoins(n: nat)
    ensures Join(n / 0x40, 0x80 + n % 0x40) == n
  {
  }

  lemma CodePointOfTwo(n: nat)
    requires 0x80 <= n < 0x800
    ensures IsChar(Encode(n)) && CodePoint(Encode(n)) == n
  {
    SplitJoins(n);
    assert (0xC0 + n / 0x40) % 0x20 == n / 0x40;
  }

  lemma CodePointOfThree(n: nat)
    requires 0x800 <= n < 0x1_0000 && IsScalar(n)
    ensures IsChar(Encode(n)) && CodePoint(Encode(n)) == n
  {
    var m := n / 0x40;
    SplitTwice(n);
    SplitJoins(n);
    SplitJoins(m);
    hide Join;
    assert (0xE0 + m / 0x40) % 0x10 == m / 0x40;
    assert 0x20 <= m < 0x400 && !(0x360 <= m <= 0x37F);
  }

  lemma CodePointOfFour(n: nat)
    requires 0x1_0000 <= n && IsScalar(n)
    ensures IsChar(Encode(n)) && CodePoint(Encode(n)) == n
  {
    var m, l := n / 0x40, n / 0x40 / 0x40;
    SplitTwice(n);
    SplitJoins(n);
    SplitJoins(m);
    SplitJoins(l);
    hide Join;
    assert (0xF0 + l / 0x40) % 0x08 == l / 0x40;
    assert 0x10 <= l < 0x110;
  }

  /** Every scalar value has a character in the grammar, from which it can be read back. */
  lemma CodePointOfEncode(n: nat)
    requires IsScalar(n)
    ensures IsChar(Encode(n)) && CodePoint(Encode(n)) == n
  {
    if 0x80 <= n < 0x800 {
      CodePointOfTwo(n);
    } else if 0x800 <= n < 0x1_0000 {
      CodePointOfThree(n);
    } else if 0x1_0000 <= n {
      CodePointOfFour(n);
    }
  }

  /** The standard library's decoder: the first rune and its size, or the replacement character
      with size 1 if s starts with no character, and with size 0 if s is empty. */
  function DecodeRune(s: ByteString): (nat, nat) {
    if s == [] then (REPLACEMENT_CHAR, 0)
    else if CharLen(s) == 0 then (REPLACEMENT_CHAR, 1)
    else (CodePoint(s[..CharLen(s)]), CharLen(s))
  }

  /** The decoder's answer for invalid input cannot be mistaken for a valid replacement character. */
  lemma DecodeTellsInvalid(s: ByteString)
    requires s != []
    ensures DecodeRune(s) == (REPLACEMENT_CHAR, 1) <==> CharLen(s) == 0
  {
  }

  /** The bytes are no prefix of a character, but all of them except the last are. */
  ghost predicate IsMalformed(p: ByteString) {
    p != [] && !IsPrefix(p) && IsProperPrefix(p[..|p| - 1])
  }

  /** The bytes end the input in the middle of a character. */
  ghost predicate IsTruncated(text: ByteString, span: Span)
    requires span.start <= span.end <= |text|
  {
    span.end == |text| && IsProperPrefix(text[span.start..span.end])
  }

  ghost predicate IsInvalidSpan(text: ByteString, span: Span) {
    && span.start < span.end <= |text| && span.end - span.start <= 4
    && (IsTruncated(text, span) || IsMalformed(text[span.start..span.end]))
  }

  lemma NoCharAt(text: ByteString, start: nat, n: nat)
    requires start + n <= |text| && CharLen(text[start..]) == 0
    ensures !IsChar(text[start..start + n])
  {
    assert text[start..][..n] == text[start..start + n];
  }

  lemma TruncatedAt(text: ByteString, start: nat)
    requires start < |text| && Extendable(text[start..])
    ensures IsInvalidSpan(text, Span(start, |text|))
  {
    assert text[start..|text|] == text[start..];
    ExtendableIff(text[start..]);
  }

  /** The span grows to the first byte that ends all hope for a character. */
  lemma MalformedAt(text: ByteString, start: nat, n: nat)
    requires 1 <= n <= 4 && start + n <= |text| && CharLen(text[start..]) == 0
    requires n > 1 ==> Extendable(text[start..start + n - 1])
    requires !Extendable(text[start..start + n])
    ensures IsInvalidSpan(text, Span(start, start + n))
  {
    var p := text[start..start + n];
    NoCharAt(text, start, n);
    NotPrefix(p);
    assert p[..n - 1] == text[start..start + n - 1];
    if n > 1 {
      ExtendableIff(p[..n - 1]);
    } else {
      EmptyIsProperPrefix();
    }
  }

  method InvalidSpanAt(text: ByteString, start: nat) returns (span: Span)
    requires start < |text| && CharLen(text[start..]) == 0
    ensures span.start == start && IsInvalidSpan(text, span)
  {
    hide IsInvalidSpan, CharLen;
    var b0 := text[start];
    var info := LeadByteInfo(b0);
    if !info.ok {
      MalformedAt(text, start, 1);
      return Span(start, start + 1);
    }
    if |text| <= start + 1 {
      TruncatedAt(text, start);
      return Span(start, |text|);
    }
    var b1 := text[start + 1];
    if b1 < info.secondMin || info.secondMax < b1 {
      MalformedAt(text, start, 2);
      return Span(start, start + 2);
    }
    NoCharAt(text, start, 2);
    LeadByteInfoIsGrammar(text[start..start + 2]);
    if info.width == 2 {
      assert false;
    }
    if |text| <= start + 2 {
      TruncatedAt(text, start);
      return Span(start, |text|);
    }
    if !IsTail(text[start + 2]) {
      MalformedAt(text, start, 3);
      return Span(start, start + 3);
    }
    NoCharAt(text, start, 3);
    LeadByteInfoIsGrammar(text[start..start + 3]);
    if info.width == 3 {
      assert false;
    }
    if |text| <= start + 3 {
      TruncatedAt(text, start);
      return Span(start, |text|);
    }
    NoCharAt(text, start, 4);
    LeadByteInfoIsGrammar(text[start..start + 4]);
    if !IsTail(text[start + 3]) {
      MalformedAt(text, start, 4);
      return Span(start, start + 4);
    }
    assert false;
  }

  /** After a valid prefix, an invalid start makes every longer prefix invalid. */
  lemma NoLongerValidPrefix(text: ByteString, start: nat, n: nat)
    requires start < n <= |text| && Valid(text[..start]) && CharLen(text[start..]) == 0
    ensures !Valid(text[..n])
  {
    hide CharLen;
    assert text[..n] == text[..start] + text[start..n];
    ValidOfConcat(text[..start], text[start..n]);
    if CharLen(text[start..n]) > 0 {
      CharLenOfConcat(text[start..n], text[n..]);
      assert text[start..n] + text[n..] == text[start..];
    }
  }

  method FirstInvalidSpan(text: ByteString) returns (r: Option<Span>)
    ensures r.None? <==> IsOctets(text)
    ensures r.Some? ==> IsInvalidSpan(text, r.value) && IsOctets(text[..r.value.start])
    ensures r.Some? ==> forall n :: r.value.start < n <= |text| ==> !IsOctets(text[..n])
  {
    hide CharLen, IsInvalidSpan, IsOctets;
    var i := 0;
    EmptyIsValid();
    while i < |text|
      invariant 0 <= i <= |text| && Valid(text[..i])
    {
      var (rune, size) := DecodeRune(text[i..]);
      DecodeTellsInvalid(text[i..]);
      if rune == REPLACEMENT_CHAR && size == 1 {
        var span := InvalidSpanAt(text, i);
        forall n | i < n <= |text| ensures !IsOctets(text[..n]) {
          NoLongerValidPrefix(text, i, n);
          ValidIffOctets(text[..n]);
        }
        ValidIffOctets(text[..i]);
        assert text[..|text|] == text;
        return Some(span);
      }
      ValidExtends(text, i);
      i := i + size;
    }
    assert text[..|text|] == text;
    ValidIffOctets(text);
    return None;
  }

  lemma ValidExtends(text: ByteString, i: nat)
    requires i < |text| && Valid(text[..i]) && CharLen(text[i..]) > 0
    ensures Valid(text[..i + CharLen(text[i..])])
  {
    var n := CharLen(text[i..]);
    var c := text[i..][..n];
    CharIsValid(c);
    ValidOfConcat(text[..i], c);
    SlicesJoin(text, i, i + n);
  }

  // ---------- Text ----------

  datatype TextParseError = TextParseError(span: Span, bytes: ByteString)

  /** The standard library's test whether p starts with a complete, possibly invalid, encoding. */
  predicate FullRune(p: ByteString) {
    p != [] && !Extendable(p)
  }

  /** Each of the constructor's run-time checks is a precondition here. */
  method NewTextParseError(inputLen: nat, span: Span, invalid: ByteString) returns (e: TextParseError)
    requires span.start <= span.end <= inputLen
    requires |invalid| == span.end - span.start && 1 <= |invalid| <= 4
    requires FullRune(invalid) || span.end == inputLen
    ensures e.span == span && |e.bytes| == 4 && invalid <= e.bytes
    ensures forall i :: |invalid| <= i < 4 ==> e.bytes[i] == 0
  {
    return TextParseError(span, invalid + seq(4 - |invalid|, _ => 0));
  }

  lemma ProperPrefixIsPrefix(p: ByteString)
    ensures IsProperPrefix(p) ==> IsPrefix(p)
  {
    if IsProperPrefix(p) {
      var c: ByteString :| IsChar(c) && p < c;
      assert p <= c;
    }
  }

  method ParseText(s: ByteString) returns (r: Result<ByteString, TextParseError>)
    ensures r.Ok? <==> IsOctets(s)
    ensures r.Ok? ==> r.value == s
    ensures r.Err? ==> IsInvalidSpan(s, r.error.span) && IsOctets(s[..r.error.span.start])
                       && s[r.error.span.start..r.error.span.end] <= r.error.bytes
  {
    var found := FirstInvalidSpan(s);
    if found.None? {
      return Ok(s);
    }
    var span := found.value;
    var invalid := s[span.start..span.end];
    ExtendableIff(invalid);
    ProperPrefixIsPrefix(invalid);
    var e := NewTextParseError(|s|, span, invalid);
    return Err(e);
  }

  // ---------- Boundaries ----------

  /** In valid text, positions between characters are those that hold no tail byte. */
  lemma {:induction false} BoundaryIff(text: ByteString, i: nat)
    requires Valid(text) && i < |text|
    ensures Valid(text[..i]) <==> !IsTail(text[i])
    decreases |text|
  {
    hide CharLen;
    var n := CharLen(text);
    CharBytes(text);
    var c := text[..n];
    if i == 0 {
      assert text[..i] == [];
    } else if i < n {
      NoShorterChar(text, i);
    } else {
      var rest := text[n..];
      BoundaryIff(rest, i - n);
      CharIsValid(c);
      ValidOfConcat(c, rest[..i - n]);
      SlicesJoin(text, n, i);
    }
  }

  lemma NoShorterChar(text: ByteString, i: nat)
    requires 0 < i < CharLen(text)
    ensures CharLen(text[..i]) == 0
  {
    hide IsChar, CharLen;
    var m := CharLen(text[..i]);
    if m > 0 {
      assert text[..i][..m] == text[..m];
      CharLenIs(text, m);
    }
  }

  /** A character starts with a byte that is no tail and continues with tails. */
  lemma CharBytes(text: ByteString)
    requires CharLen(text) > 0
    ensures !IsTail(text[0]) && forall i :: 1 <= i < CharLen(text) ==> IsTail(text[i])
  {
    var c := text[..CharLen(text)];
    assert forall i :: 0 <= i < |c| ==> c[i] == text[i];
    if |c| >= 2 {
      LeadByteInfoIsGrammar(c);
    }
  }

  lemma ValidStartsWithChar(s: ByteString)
    requires Valid(s) && s != []
    ensures CharLen(s) > 0
  {
  }

  /** From a boundary to the next one. */
  lemma NextBoundary(text: ByteString, i: nat)
    requires Valid(text) && i < |text| && Valid(text[..i])
    ensures var n := CharLen(text[i..]);
            && 0 < n && i + n <= |text| && Valid(text[..i + n])
            && (forall j :: i < j < i + n ==> IsTail(text[j]))
            && (i + n < |text| ==> !IsTail(text[i + n]))
  {
    hide CharLen, Valid;
    var rest := text[i..];
    assert text == text[..i] + rest;
    ValidOfConcat(text[..i], rest);
    ValidStartsWithChar(rest);
    var n := CharLen(rest);
    CharBytes(rest);
    forall j | i < j < i + n ensures IsTail(text[j]) {
      assert rest[j - i] == text[j];
    }
    ValidExtends(text, i);
    if i + n < |text| {
      BoundaryIff(text, i + n);
    }
  }

  /** The character that contains offset strictly inside, if there is one. */
  method CodePointContaining(text: ByteString, offset: nat) returns (r: Option<Span>)
    requires Valid(text) && offset <= |text|
    ensures r.None? <==> Valid(text[..offset])
    ensures r.Some? ==> && r.value.start < offset < r.value.end <= |text|
                        && Valid(text[..r.value.start]) && IsChar(text[r.value.start..r.value.end])
  {
    hide CharLen, IsChar;
    if offset == 0 || offset == |text| {
      EmptyIsValid();
      assert text[..|text|] == text && text[..0] == [];
      return None;
    }
    var start: int := offset - 1;
    BoundaryIff(text, 0);
    EmptyIsValid();
    assert text[..0] == [];
    while start >= 0 && IsTail(text[start])
      invariant 0 <= start < offset
      invariant forall j :: start < j < offset ==> IsTail(text[j])
    {
      start := start - 1;
    }
    BoundaryIff(text, start);
    NextBoundary(text, start);
    BoundaryIff(text, offset);
    var (rune, size) := DecodeRune(text[start..]);
    var end := start + size;
    if start < offset && offset < end {
      assert text[start..][..size] == text[start..end];
      return Some(Span(start, end));
    }
    return None;
  }
}
