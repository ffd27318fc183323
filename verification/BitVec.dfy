/**
 A fixed-length vector of bits packed into 64-bit words. The scans over words agree with a
 linear scan over the bits.
 */
module BitVec {
  import opened Wrappers
  import opened Bits

  const WORD_LIMIT: nat := 0x1_0000_0000_0000_0000

  type Word = w: nat | w < WORD_LIMIT

  lemma WordWidth()
    ensures Pow2(64) == WORD_LIMIT
  {
    assert Pow2(4) == 16;
    Pow2Sum(4, 4);
    assert Pow2(8) == 0x100;
    Pow2Sum(8, 8);
    assert Pow2(16) == 0x1_0000;
    Pow2Sum(16, 16);
    assert Pow2(32) == 0x1_0000_0000;
    Pow2Sum(32, 32);
  }

  function BlocksForBits(n: nat): nat {
    n / 64 + (if n % 64 != 0 then 1 else 0)
  }

  /** 1 << (i & 63) */
  function BitMask(i: nat): (mask: Word)
    ensures forall j: nat :: Bit(mask, j) <==> j == i % 64
  {
    WordWidth();
    Pow2Grows(i % 64, 64);
    assert forall j: nat :: Bit(Pow2(i % 64), j) <==> j == i % 64 by {
      forall j: nat ensures Bit(Pow2(i % 64), j) <==> j == i % 64 {
        BitOfPow2(i % 64, j);
      }
    }
    Pow2(i % 64)
  }

  /** (1 << n) - 1 in 64-bit arithmetic: at n == 64 the shift gives zero and the subtraction wraps. */
  function LowBitsMask(n: nat): (mask: Word)
    requires n <= 64
    ensures forall j: nat :: Bit(mask, j) <==> j < n
  {
    Pow2Grows(n, 64);
    WordWidth();
    var low := Pow2(n) - 1;
    assert forall j: nat :: Bit(low, j) <==> j < n by {
      forall j: nat ensures Bit(low, j) <==> j < n {
        BitOfLowMask(n, j);
      }
    }
    (Pow2(n) % WORD_LIMIT - 1) % WORD_LIMIT
  }

  // ---------- The linear scans ----------

  function LastSetUpTo(bits: seq<bool>, n: nat): Option<nat>
    requires n <= |bits|
  {
    if n == 0 then None else if bits[n - 1] then Some(n - 1) else LastSetUpTo(bits, n - 1)
  }

  function FirstSetFrom(bits: seq<bool>, i: nat): Option<nat>
    requires i <= |bits|
    decreases |bits| - i
  {
    if i == |bits| then None else if bits[i] then Some(i) else FirstSetFrom(bits, i + 1)
  }

  lemma {:induction false} LastSetIs(bits: seq<bool>, n: nat, j: nat)
    requires j < n <= |bits| && bits[j] && forall k :: j < k < n ==> !bits[k]
    ensures LastSetUpTo(bits, n) == Some(j)
  {
    if j < n - 1 {
      LastSetIs(bits, n - 1, j);
    }
  }

  lemma {:induction false} NoSetUpTo(bits: seq<bool>, n: nat)
    requires n <= |bits| && forall k :: 0 <= k < n ==> !bits[k]
    ensures LastSetUpTo(bits, n) == None
  {
    if n > 0 {
      NoSetUpTo(bits, n - 1);
    }
  }

  lemma {:induction false} FirstSetIs(bits: seq<bool>, i: nat, j: nat)
    requires i <= j < |bits| && bits[j] && forall k :: i <= k < j ==> !bits[k]
    ensures FirstSetFrom(bits, i) == Some(j)
    decreases j - i
  {
    if i < j {
      FirstSetIs(bits, i + 1, j);
    }
  }

  lemma {:induction false} NoSetFrom(bits: seq<bool>, i: nat)
    requires i <= |bits| && forall k :: i <= k < |bits| ==> !bits[k]
    ensures FirstSetFrom(bits, i) == None
    decreases |bits| - i
  {
    if i < |bits| {
      NoSetFrom(bits, i + 1);
    }
  }

  /** Facts about one word. */
  lemma TopOfWord(w: Word)
    requires w > 0
    ensures 0 < BitLen(w) <= 64 && Bit(w, BitLen(w) - 1)
    ensures forall k: nat :: BitLen(w) <= k ==> !Bit(w, k)
  {
    WordWidth();
    BitLenBound(w, 64);
    HighestBit(w, 0);
    forall k: nat | BitLen(w) <= k ensures !Bit(w, k) {
      HighestBit(w, k);
    }
  }

  lemma BottomOfWord(w: Word)
    requires w > 0
    ensures TrailingZeros(w) < 64 && Bit(w, TrailingZeros(w))
    ensures forall k: nat :: k < TrailingZeros(w) ==> !Bit(w, k)
  {
    TopOfWord(w);
    LowestBit(w, 0);
    forall k: nat | k < TrailingZeros(w) ensures !Bit(w, k) {
      LowestBit(w, k);
    }
  }

  class BitVec {
    var blocks: array<Word>
    var len: nat

    ghost predicate BitAt(i: nat)
      requires i / 64 < blocks.Length
      reads this, blocks
    {
      Bit(blocks[i / 64], i % 64)
    }

    /** The unused bits of the last word are zero. */
    ghost predicate Valid()
      reads this, blocks
    {
      && blocks.Length == BlocksForBits(len)
      && forall i: nat :: len <= i < 64 * blocks.Length ==> !BitAt(i)
    }

    ghost function Contents(): (bits: seq<bool>)
      requires Valid()
      reads this, blocks
      ensures |bits| == len && forall i :: 0 <= i < len ==> bits[i] == BitAt(i)
    {
      seq(len, i requires 0 <= i < len reads this, blocks requires Valid() => BitAt(i))
    }

    constructor (n: nat)
      ensures Valid() && fresh(blocks) && Contents() == seq(n, _ => false)
    {
      len := n;
      blocks := new Word[BlocksForBits(n)](_ => 0);
      new;
      forall i: nat | i < 64 * blocks.Length ensures !BitAt(i) {
        ZeroHasNoBits(i % 64);
      }
    }

    method Get(i: nat) returns (b: bool)
      requires Valid() && i < len
      ensures b == Contents()[i]
    {
      AndIsSmaller(blocks[i / 64], BitMask(i));
      var w: Word := And(blocks[i / 64], BitMask(i));
      forall j: nat ensures Bit(w, j) <==> Bit(blocks[i / 64], j) && j == i % 64 {
        BitOfAnd(blocks[i / 64], BitMask(i), j);
      }
      if w == 0 {
        ZeroHasNoBits(i % 64);
      } else {
        TopOfWord(w);
      }
      return w != 0;
    }

    method Set(i: nat)
      requires Valid() && i < len
      modifies blocks
      ensures Valid() && Contents() == old(Contents())[i := true]
    {
      ghost var w := blocks[i / 64];
      WordWidth();
      OrKeepsWidth(w, BitMask(i), 64);
      blocks[i / 64] := Or(blocks[i / 64], BitMask(i));
      forall j: nat | j / 64 < blocks.Length ensures BitAt(j) <==> old(BitAt(j)) || j == i {
        BitOfOr(w, BitMask(i), j % 64);
      }
    }

    method Clear(i: nat)
      requires Valid() && i < len
      modifies blocks
      ensures Valid() && Contents() == old(Contents())[i := false]
    {
      ghost var w := blocks[i / 64];
      AndIsSmaller(w, BitMask(i));
      blocks[i / 64] := AndNot(blocks[i / 64], BitMask(i));
      forall j: nat | j / 64 < blocks.Length ensures BitAt(j) <==> old(BitAt(j)) && j != i {
        BitOfAndNot(w, BitMask(i), j % 64);
      }
    }

    method FindAtOrBefore(i: nat) returns (r: Option<nat>)
      requires Valid() && i < len
      ensures r == LastSetUpTo(Contents(), i + 1)
    {
      hide Bit, And, BitLen, LastSetUpTo;
      var startBlock := i / 64;
      var oi := startBlock;
      while 0 <= oi
        invariant -1 <= oi <= startBlock
        invariant forall k: nat :: 64 * (oi + 1) <= k <= i ==> !BitAt(k)
      {
        var blockBits: Word := blocks[oi];
        if oi == startBlock {
          var mask := LowBitsMask(i % 64 + 1);
          AndIsSmaller(blocks[oi], mask);
          blockBits := And(blockBits, mask);
          forall j: nat ensures Bit(blockBits, j) <==> Bit(blocks[oi], j) && j <= i % 64 {
            BitOfAnd(blocks[oi], mask, j);
          }
        }
        if blockBits != 0 {
          TopOfWord(blockBits);
          var idx := oi * 64 + 63 - (64 - BitLen(blockBits));
          LastSetIs(Contents(), i + 1, idx);
          return Some(idx);
        }
        forall k: nat | 64 * oi <= k <= i ensures !BitAt(k) {
          ZeroHasNoBits(k % 64);
        }
        oi := oi - 1;
      }
      NoSetUpTo(Contents(), i + 1);
      return None;
    }

    method FindAtOrAfter(i: nat) returns (r: Option<nat>)
      requires Valid() && i < len
      ensures r == FirstSetFrom(Contents(), i)
    {
      hide Bit, AndNot, TrailingZeros, FirstSetFrom;
      var startBlock := i / 64;
      var oi := startBlock;
      while oi < blocks.Length
        invariant startBlock <= oi <= blocks.Length
        invariant forall k: nat :: i <= k < 64 * oi ==> !BitAt(k)
      {
        var blockBits: Word := blocks[oi];
        if oi == startBlock {
          var mask := LowBitsMask(i % 64);
          AndIsSmaller(blocks[oi], mask);
          blockBits := AndNot(blockBits, mask);
          forall j: nat ensures Bit(blockBits, j) <==> Bit(blocks[oi], j) && j >= i % 64 {
            BitOfAndNot(blocks[oi], mask, j);
          }
        }
        if blockBits != 0 {
          BottomOfWord(blockBits);
          var idx := oi * 64 + TrailingZeros(blockBits);
          assert BitAt(idx);
          if len <= idx {
            assert false;
          }
          FirstSetIs(Contents(), i, idx);
          return Some(idx);
        }
        forall k: nat | i <= k < 64 * (oi + 1) ensures !BitAt(k) {
          ZeroHasNoBits(k % 64);
        }
        oi := oi + 1;
      }
      NoSetFrom(Contents(), i);
      return None;
    }
  }
}
