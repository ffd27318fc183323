/** Byte strings. */
module Bytes {
  type Byte = b: int | 0 <= b < 256

  type ByteString = seq<Byte>

  const NEWLINE: Byte := 10
  const RETURN: Byte := 13
  const SPACE: Byte := 32
  const DASH: Byte := 45
  const DOT: Byte := 46
  const SLASH: Byte := 47

  lemma SlicesJoin(s: ByteString, n: nat, i: nat)
    requires n <= i <= |s|
    ensures s[..n] + s[n..][..i - n] == s[..i]
  {
  }
}
