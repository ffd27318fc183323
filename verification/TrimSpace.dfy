/**
 Removal of leading and trailing white space from a byte string in UTF-8, as the Go standard
 library defines it: the six ASCII characters and the multi-byte encodings of the other
 Unicode white-space characters.
 */
module TrimSpace {
  import opened Bytes
  import Utf8

  /** The encodings of the Unicode white-space characters. */
  predicate IsSpaceEncoding(w: ByteString) {
    || (|w| == 1 && (9 <= w[0] <= 13 || w[0] == 32))
    || (|w| == 2 && w[0] == 0xC2 && (w[1] == 0x85 || w[1] == 0xA0))
    || (|w| == 3 && w[0] == 0xE1 && w[1] == 0x9A && w[2] == 0x80)
    || (|w| == 3 && w[0] == 0xE2 && w[1] == 0x80
        && (0x80 <= w[2] <= 0x8A || w[2] == 0xA8 || w[2] == 0xA9 || w[2] == 0xAF))
    || (|w| == 3 && w[0] == 0xE2 && w[1] == 0x81 && w[2] == 0x9F)
    || (|w| == 3 && w[0] == 0xE3 && w[1] == 0x80 && w[2] == 0x80)
  }

  /** Length of the white-space character at the start of s, or 0. */
  function LeadingSpace(s: ByteString): (n: nat)
    ensures n <= |s|
  {
    if |s| >= 1 && IsSpaceEncoding(s[..1]) then 1
    else if |s| >= 2 && IsSpaceEncoding(s[..2]) then 2
    else if |s| >= 3 && IsSpaceEncoding(s[..3]) then 3
    else 0
  }

  /** Length of the white-space character at the end of s, or 0. */
  function TrailingSpace(s: ByteString): (n: nat)
    ensures n <= |s|
  {
    if |s| >= 1 && IsSpaceEncoding(s[|s| - 1..]) then 1
    else if |s| >= 2 && IsSpaceEncoding(s[|s| - 2..]) then 2
    else if |s| >= 3 && IsSpaceEncoding(s[|s| - 3..]) then 3
    else 0
  }

  lemma LeadingSpaceMeans(s: ByteString)
    ensures LeadingSpace(s) > 0 ==> IsSpaceEncoding(s[..LeadingSpace(s)])
    ensures LeadingSpace(s) == 0 ==> forall k :: 1 <= k <= |s| ==> !IsSpaceEncoding(s[..k])
  {
  }

  lemma TrailingSpaceMeans(s: ByteString)
    ensures TrailingSpace(s) > 0 ==> IsSpaceEncoding(s[|s| - TrailingSpace(s)..])
    ensures TrailingSpace(s) == 0 ==> forall k :: 0 <= k < |s| ==> !IsSpaceEncoding(s[k..])
  {
  }

  function TrimLeft(s: ByteString): ByteString
    decreases |s|
  {
    var n := LeadingSpace(s);
    if n == 0 then s else TrimLeft(s[n..])
  }

  function TrimRight(s: ByteString): ByteString
    decreases |s|
  {
    var n := TrailingSpace(s);
    if n == 0 then s else TrimRight(s[..|s| - n])
  }

  function Trim(s: ByteString): ByteString {
    TrimRight(TrimLeft(s))
  }

  lemma {:induction false} TrimLeftStops(s: ByteString)
    ensures LeadingSpace(TrimLeft(s)) == 0
    decreases |s|
  {
    hide LeadingSpace;
    if LeadingSpace(s) > 0 {
      TrimLeftStops(s[LeadingSpace(s)..]);
    }
  }

  lemma {:induction false} TrimRightStops(s: ByteString)
    ensures TrailingSpace(TrimRight(s)) == 0 && TrimRight(s) <= s
    decreases |s|
  {
    hide TrailingSpace;
    if TrailingSpace(s) > 0 {
      TrimRightStops(s[..|s| - TrailingSpace(s)]);
    }
  }

  lemma NothingToTrim(s: ByteString)
    ensures LeadingSpace(s) == 0 ==> TrimLeft(s) == s
    ensures TrailingSpace(s) == 0 ==> TrimRight(s) == s
  {
    hide LeadingSpace, TrailingSpace;
  }

  /** Cutting the end cannot bring white space to the start. */
  lemma PrefixHasNoLeadingSpace(s: ByteString, t: ByteString)
    requires t <= s && LeadingSpace(s) == 0
    ensures LeadingSpace(t) == 0
  {
    hide IsSpaceEncoding, LeadingSpace;
    LeadingSpaceMeans(s);
    LeadingSpaceMeans(t);
    var n := LeadingSpace(t);
    assert t[..n] == s[..n];
  }

  /** What is trimmed stays as it is. */
  lemma TrimIsIdempotent(s: ByteString)
    ensures Trim(Trim(s)) == Trim(s)
  {
    hide LeadingSpace, TrailingSpace, TrimLeft, TrimRight;
    TrimLeftStops(s);
    TrimRightStops(TrimLeft(s));
    PrefixHasNoLeadingSpace(TrimLeft(s), Trim(s));
    NothingToTrim(Trim(s));
  }

  /** Trimmed strings are those without white space at either end. */
  lemma TrimmedIff(s: ByteString)
    ensures Trim(s) == s <==> LeadingSpace(s) == 0 && TrailingSpace(s) == 0
  {
    hide LeadingSpace, TrailingSpace, TrimLeft, TrimRight;
    NothingToTrim(s);
    TrimLeftShortens(s);
    TrimLeftStops(s);
    TrimRightStops(TrimLeft(s));
    assert Trim(s) <= TrimLeft(s);
  }

  lemma {:induction false} TrimLeftShortens(s: ByteString)
    ensures |TrimLeft(s)| <= |s| && (|TrimLeft(s)| == |s| ==> LeadingSpace(s) == 0)
    decreases |s|
  {
    var n := LeadingSpace(s);
    if n > 0 {
      TrimLeftShortens(s[n..]);
    }
  }

  // ---------- White space is what Unicode says ----------

  /** The code points with the Unicode property White_Space. */
  predicate IsWhiteSpace(n: nat) {
    || 9 <= n <= 13 || n == 0x20 || n == 0x85 || n == 0xA0 || n == 0x1680 || 0x2000 <= n <= 0x200A
    || n == 0x2028 || n == 0x2029 || n == 0x202F || n == 0x205F || n == 0x3000
  }

  lemma EncodedSpace(n: nat)
    requires IsWhiteSpace(n)
    ensures Utf8.IsScalar(n) && IsSpaceEncoding(Utf8.Encode(n))
  {
  }

  lemma SpaceEncodingIff(w: ByteString)
    ensures IsSpaceEncoding(w) <==> exists n: nat :: IsWhiteSpace(n) && Utf8.IsScalar(n) && w == Utf8.Encode(n)
  {
    if IsSpaceEncoding(w) {
      assert Utf8.IsChar(w);
      Utf8.EncodeOfCodePoint(w);
      SpaceCodePoint(w);
    }
    forall n: nat | IsWhiteSpace(n) && Utf8.IsScalar(n) && w == Utf8.Encode(n) ensures IsSpaceEncoding(w) {
      EncodedSpace(n);
    }
  }

  lemma SpaceCodePoint(w: ByteString)
    requires IsSpaceEncoding(w) && Utf8.IsChar(w)
    ensures IsWhiteSpace(Utf8.CodePoint(w))
  {
  }

  // ---------- Trimming removes white space at the ends and nothing else ----------

  /** A concatenation of encodings of white-space characters. */
  ghost predicate IsSpaces(s: ByteString)
    decreases |s|
  {
    s == [] || exists n :: 0 < n <= |s| && IsSpaceEncoding(s[..n]) && IsSpaces(s[n..])
  }

  ghost predicate TrimsTo(s: ByteString, lead: ByteString, t: ByteString, trail: ByteString) {
    && s == lead + t + trail && IsSpaces(lead) && IsSpaces(trail)
    && (forall k :: 0 <= k <= |t| ==> !IsSpaceEncoding(t[..k]) && !IsSpaceEncoding(t[k..]))
  }

  lemma {:induction false} SpacesSnoc(s: ByteString, w: ByteString)
    requires IsSpaces(s) && IsSpaceEncoding(w)
    ensures IsSpaces(s + w)
    decreases |s|
  {
    hide IsSpaceEncoding;
    if s == [] {
      assert w != [] by { EncodingIsNotEmpty(w); }
      assert s + w == w && w[..|w|] == w && w[|w|..] == [];
    } else {
      var n :| 0 < n <= |s| && IsSpaceEncoding(s[..n]) && IsSpaces(s[n..]);
      SpacesSnoc(s[n..], w);
      assert (s + w)[..n] == s[..n] && (s + w)[n..] == s[n..] + w;
    }
  }

  lemma EncodingIsNotEmpty(w: ByteString)
    requires IsSpaceEncoding(w)
    ensures w != []
  {
  }

  lemma {:induction false} TrimLeftSplits(s: ByteString) returns (lead: ByteString)
    ensures s == lead + TrimLeft(s) && IsSpaces(lead)
    decreases |s|
  {
    hide IsSpaceEncoding, LeadingSpace;
    LeadingSpaceMeans(s);
    var n := LeadingSpace(s);
    if n == 0 {
      lead := [];
    } else {
      var rest := TrimLeftSplits(s[n..]);
      lead := s[..n] + rest;
      assert lead[..n] == s[..n] && lead[n..] == rest;
    }
  }

  lemma {:induction false} TrimRightSplits(s: ByteString) returns (trail: ByteString)
    ensures s == TrimRight(s) + trail && IsSpaces(trail)
    decreases |s|
  {
    hide IsSpaceEncoding, TrailingSpace;
    TrailingSpaceMeans(s);
    var n := TrailingSpace(s);
    if n == 0 {
      trail := [];
    } else {
      var m := |s| - n;
      var rest := TrimRightSplits(s[..m]);
      trail := rest + s[m..];
      SpacesSnoc(rest, s[m..]);
      assert s == s[..m] + s[m..];
    }
  }

  /** Trimming takes concatenations of white-space characters from both ends, and what is left
      neither starts nor ends with one. */
  lemma TrimSplits(s: ByteString) returns (lead: ByteString, trail: ByteString)
    ensures TrimsTo(s, lead, Trim(s), trail)
  {
    hide IsSpaceEncoding, LeadingSpace, TrailingSpace, TrimLeft, TrimRight, IsSpaces;
    lead := TrimLeftSplits(s);
    trail := TrimRightSplits(TrimLeft(s));
    var t := Trim(s);
    TrimLeftStops(s);
    TrimRightStops(TrimLeft(s));
    PrefixHasNoLeadingSpace(TrimLeft(s), t);
    LeadingSpaceMeans(t);
    TrailingSpaceMeans(t);
    forall k | 0 <= k <= |t| ensures !IsSpaceEncoding(t[..k]) && !IsSpaceEncoding(t[k..]) {
      if k == 0 || k == |t| {
        EmptyIsNoEncoding();
        assert t[..0] == [] && t[|t|..] == [];
      }
      assert t[0..] == t == t[..|t|];
    }
  }

  lemma EmptyIsNoEncoding()
    ensures !IsSpaceEncoding([])
  {
  }

  /** The first byte tells the length of an encoding, and only the first byte is no tail byte. */
  lemma FirstByteTellsLength(w: ByteString)
    requires IsSpaceEncoding(w)
    ensures 0 < |w| && |w| == if w[0] <= 32 then 1 else if w[0] == 0xC2 then 2 else 3
    ensures !Utf8.IsTail(w[0])
  {
  }

  lemma LaterBytesAreTails(w: ByteString)
    ensures IsSpaceEncoding(w) ==> forall i :: 0 < i < |w| ==> Utf8.IsTail(w[i])
  {
  }

  lemma LeadingSpaceIs(s: ByteString, n: nat)
    requires n <= |s| && IsSpaceEncoding(s[..n])
    ensures LeadingSpace(s) == n
  {
    hide IsSpaceEncoding, LeadingSpace;
    LeadingSpaceMeans(s);
    var m := LeadingSpace(s);
    FirstByteTellsLength(s[..n]);
    FirstByteTellsLength(s[..m]);
  }

  lemma TrailingSpaceIs(s: ByteString, n: nat)
    requires n <= |s| && IsSpaceEncoding(s[|s| - n..])
    ensures TrailingSpace(s) == n
  {
    hide IsSpaceEncoding, TrailingSpace;
    TrailingSpaceMeans(s);
    var m := TrailingSpace(s);
    var v, w := s[|s| - n..], s[|s| - m..];
    FirstByteTellsLength(v);
    FirstByteTellsLength(w);
    LaterBytesAreTails(v);
    LaterBytesAreTails(w);
  }

  lemma {:induction false} TrimLeftOfSpaces(lead: ByteString, x: ByteString)
    requires IsSpaces(lead)
    ensures TrimLeft(lead + x) == TrimLeft(x)
    decreases |lead|
  {
    hide IsSpaceEncoding, LeadingSpace;
    if lead == [] {
      assert lead + x == x;
    } else {
      var n :| 0 < n <= |lead| && IsSpaceEncoding(lead[..n]) && IsSpaces(lead[n..]);
      var s := lead + x;
      assert s[..n] == lead[..n] && s[n..] == lead[n..] + x;
      LeadingSpaceIs(s, n);
      TrimLeftOfSpaces(lead[n..], x);
    }
  }

  lemma {:induction false} TrimRightOfSpaces(x: ByteString, trail: ByteString)
    requires IsSpaces(trail)
    ensures TrimRight(x + trail) == TrimRight(x)
    decreases |trail|
  {
    hide IsSpaceEncoding, TrailingSpace;
    if trail == [] {
      assert x + trail == x;
    } else {
      var n :| 0 < n <= |trail| && IsSpaceEncoding(trail[..n]) && IsSpaces(trail[n..]);
      var w := trail[..n];
      TrimRightOfSpaces(x + w, trail[n..]);
      assert x + trail == x + w + trail[n..];
      assert (x + w)[|x + w| - n..] == w && (x + w)[..|x + w| - n] == x;
      TrailingSpaceIs(x + w, n);
    }
  }

  /** White space after a text that does not start with it does not make the text start with it. */
  lemma NoLeadingSpaceAppears(t: ByteString, trail: ByteString)
    requires t != [] && LeadingSpace(t) == 0 && IsSpaces(trail)
    ensures LeadingSpace(t + trail) == 0
  {
    hide LeadingSpace, IsSpaceEncoding;
    var s := t + trail;
    LeadingSpaceMeans(s);
    LeadingSpaceMeans(t);
    assert forall k :: 0 <= k <= |t| ==> s[..k] == t[..k];
    if trail != [] {
      var m :| 0 < m <= |trail| && IsSpaceEncoding(trail[..m]) && IsSpaces(trail[m..]);
      FirstByteTellsLength(trail[..m]);
    }
    forall k | |t| < k <= |s| ensures !IsSpaceEncoding(s[..k]) {
      LaterBytesAreTails(s[..k]);
      assert s[..k][|t|] == s[|t|];
    }
  }

  /** The decomposition determines the trimmed text. */
  lemma TrimIs(s: ByteString, lead: ByteString, t: ByteString, trail: ByteString)
    requires TrimsTo(s, lead, t, trail)
    ensures Trim(s) == t
  {
    hide IsSpaceEncoding, IsSpaces, TrimLeft, TrimRight;
    TrimLeftOfSpaces(lead, t + trail);
    assert s == lead + (t + trail);
    LeadingSpaceMeans(t);
    TrailingSpaceMeans(t);
    assert LeadingSpace(t) == 0 && TrailingSpace(t) == 0;
    NothingToTrim(t);
    if t == [] {
      TrimLeftOfSpaces(trail, []);
      assert trail + [] == trail == t + trail;
    } else {
      NoLeadingSpaceAppears(t, trail);
      NothingToTrim(t + trail);
      TrimRightOfSpaces(t, trail);
    }
  }
}
