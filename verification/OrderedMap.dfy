/**
 The chunked implementation of the insertion-ordered map: fixed-size chunks with a presence
 bitmap, packed positions, tombstones, and self-compaction. It refines the row of slots.
 */
module OrderedMap {
  import opened Wrappers
  import opened Bits
  import Spec = OrderedMapSpec

  const CHUNK_SIZE := 4
  const MAX_ENTRIES: nat := 0x1_0000_0000_0000
  const MAX_CHUNKS: nat := MAX_ENTRIES / CHUNK_SIZE

  datatype Chunk<K, V> = Chunk(keys: seq<K>, values: seq<V>, present: nat)

  ghost predicate ChunkOk<K, V>(chunk: Chunk<K, V>) {
    |chunk.keys| == CHUNK_SIZE && |chunk.values| == CHUNK_SIZE && chunk.present < 256
  }

  // ---------- Bits and positions ----------

  /** With at most 2^46 live entries a reachable map never leaves the range of positions. */
  lemma RangeCheckNeverFires<K, V>(ops: seq<Spec.Op<K, V>>)
    requires 4 * |Spec.Live(Spec.Run(ops))| <= MAX_ENTRIES
    ensures |Spec.Run(ops)| < MAX_ENTRIES
  {
    Spec.RunCost(ops);
  }

  /** Keys 0, 1, ..., n - 1. */
  function FirstKeys(n: nat): (keys: seq<nat>)
    ensures |keys| == n && forall i :: 0 <= i < n ==> keys[i] == i
  {
    seq(n, i => i)
  }

  /** A map with `live` entries can stand at the limit of 2^48 used slots, where the next insertion
      fails the range check, if and only if it has more than 2^46 and at most 2^48 entries. */
  lemma LimitReachedIff<V>(live: nat, value: V)
    ensures (exists ops: seq<Spec.Op<nat, V>> :: Spec.Reaches(ops, MAX_ENTRIES, live)) <==>
            MAX_ENTRIES / 4 < live <= MAX_ENTRIES
  {
    Spec.ReachedIffDense(FirstKeys(MAX_ENTRIES), value, live);
  }

  /** The documented 2^48 live entries are out of reach for a map that has deleted enough: the
      limit is met with 2^46 + 1 live entries. */
  lemma LimitReachedEarly()
    ensures exists ops: seq<Spec.Op<nat, bool>> :: Spec.Reaches(ops, MAX_ENTRIES, 0x4000_0000_0001)
  {
    LimitReachedIff(0x4000_0000_0001, true);
  }

  /** 1 << offset */
  function OffsetBit(offset: nat): (b: nat)
    requires offset < CHUNK_SIZE
    ensures b < 256
  {
    Pow2Grows(offset, 3);
    Pow2(offset)
  }

  predicate IsPresent(present: nat, offset: nat)
    requires offset < CHUNK_SIZE
  {
    And(present, OffsetBit(offset)) != 0
  }

  lemma PresentIsBit(present: nat, offset: nat)
    requires offset < CHUNK_SIZE
    ensures IsPresent(present, offset) <==> Bit(present, offset)
  {
    var w := And(present, OffsetBit(offset));
    BitOfPow2(offset, offset);
    BitOfAnd(present, OffsetBit(offset), offset);
    if w == 0 {
      ZeroHasNoBits(offset);
    } else {
      HighestBit(w, 0);
      BitOfAnd(present, OffsetBit(offset), BitLen(w) - 1);
      BitOfPow2(offset, BitLen(w) - 1);
    }
  }

  lemma SetPresent(present: nat, offset: nat, other: nat)
    requires offset < CHUNK_SIZE && other < CHUNK_SIZE && present < 256
    ensures Or(present, OffsetBit(offset)) < 256
    ensures IsPresent(Or(present, OffsetBit(offset)), other) <==> IsPresent(present, other) || other == offset
  {
    assert Pow2(8) == 256;
    OrKeepsWidth(present, OffsetBit(offset), 8);
    PresentIsBit(present, other);
    PresentIsBit(Or(present, OffsetBit(offset)), other);
    BitOfOr(present, OffsetBit(offset), other);
    BitOfPow2(offset, other);
  }

  lemma ClearPresent(present: nat, offset: nat, other: nat)
    requires offset < CHUNK_SIZE && other < CHUNK_SIZE && present < 256
    ensures AndNot(present, OffsetBit(offset)) < 256
    ensures IsPresent(AndNot(present, OffsetBit(offset)), other) <==> IsPresent(present, other) && other != offset
  {
    AndIsSmaller(present, OffsetBit(offset));
    PresentIsBit(present, other);
    PresentIsBit(AndNot(present, OffsetBit(offset)), other);
    BitOfAndNot(present, OffsetBit(offset), other);
    BitOfPow2(offset, other);
  }

  /** chunk << 2 | offset, for positions inside the supported range. */
  function NewPosition(chunk: nat, offset: nat): nat
    requires chunk < MAX_CHUNKS && offset < CHUNK_SIZE
  {
    Or(4 * chunk, offset)
  }

  /** pos >> 2 and pos & 3 */
  function Split(pos: nat): (nat, nat) {
    (pos / 4, And(pos, CHUNK_SIZE - 1))
  }

  /** The packed position of slot i is i itself, and splitting gives chunk and offset back. */
  lemma PositionRoundTrip(chunk: nat, offset: nat)
    requires chunk < MAX_CHUNKS && offset < CHUNK_SIZE
    ensures NewPosition(chunk, offset) == 4 * chunk + offset
    ensures Split(NewPosition(chunk, offset)) == (chunk, offset)
  {
    hide Or, And;
    var pos, half := Or(4 * chunk, offset), Or(2 * chunk, offset / 2);
    HalfOfOr(4 * chunk, offset);
    HalfOfOr(2 * chunk, offset / 2);
    OrZero(chunk);
    assert pos / 2 == half && half / 2 == chunk;
    var low, high := And(pos, 3), And(pos / 2, 1);
    HalfOfAnd(pos, 3);
    HalfOfAnd(pos / 2, 1);
    AndZero(pos / 4);
    assert low / 2 == high && high / 2 == 0;
  }

  lemma {:induction false} OrZero(a: nat)
    ensures Or(a, 0) == a
  {
    if a > 0 {
      OrZero(a / 2);
    }
  }

  lemma {:induction false} AndZero(a: nat)
    ensures And(a, 0) == 0
  {
    if a > 0 {
      AndZero(a / 2);
    }
  }

  lemma SplitIs(pos: nat)
    requires pos < MAX_ENTRIES
    ensures Split(pos) == (pos / 4, pos % 4)
  {
    PositionRoundTrip(pos / 4, pos % 4);
  }

  // ---------- Chunks as a row of slots ----------

  /** What the chunks store at slot i: key, value, and whether the slot is present. */
  function RawOf<K, V>(chunks: seq<Chunk<K, V>>, i: nat): (K, V, bool)
    requires i < 4 * |chunks| && ChunkOk(chunks[i / 4])
  {
    var chunk := chunks[i / 4];
    (chunk.keys[i % 4], chunk.values[i % 4], IsPresent(chunk.present, i % 4))
  }

  function SlotOf<K, V>(chunks: seq<Chunk<K, V>>, i: nat): Option<(K, V)>
    requires i < 4 * |chunks| && ChunkOk(chunks[i / 4])
  {
    var (key, value, present) := RawOf(chunks, i);
    if present then Some((key, value)) else None
  }

  ghost predicate ChunksOk<K, V>(chunks: seq<Chunk<K, V>>) {
    forall c :: 0 <= c < |chunks| ==> ChunkOk(chunks[c])
  }

  ghost function SlotsOf<K, V>(chunks: seq<Chunk<K, V>>, used: nat): (s: Spec.Slots<K, V>)
    requires ChunksOk(chunks) && used <= 4 * |chunks|
    ensures |s| == used && forall i :: 0 <= i < used ==> s[i] == SlotOf(chunks, i)
  {
    seq(used, i requires 0 <= i < used => SlotOf(chunks, i))
  }

  /** Only slot i differs between the two rows. */
  ghost predicate SlotWritten<K, V>(chunks: seq<Chunk<K, V>>, chunks': seq<Chunk<K, V>>, i: nat, raw: (K, V, bool)) {
    && ChunksOk(chunks) && ChunksOk(chunks') && |chunks'| == |chunks| && i < 4 * |chunks|
    && (forall j: nat :: j < 4 * |chunks| ==> RawOf(chunks', j) == if j == i then raw else RawOf(chunks, j))
  }

  lemma WriteChunk<K, V>(chunks: seq<Chunk<K, V>>, c: nat, offset: nat, key: K, value: V, present: nat)
    requires ChunksOk(chunks) && c < |chunks| && offset < CHUNK_SIZE && present < 256
    requires forall o :: 0 <= o < CHUNK_SIZE && o != offset ==>
                           (IsPresent(present, o) <==> IsPresent(chunks[c].present, o))
    ensures var chunk := Chunk(chunks[c].keys[offset := key], chunks[c].values[offset := value], present);
            SlotWritten(chunks, chunks[c := chunk], 4 * c + offset, (key, value, IsPresent(present, offset)))
  {
    hide IsPresent;
    var chunk := Chunk(chunks[c].keys[offset := key], chunks[c].values[offset := value], present);
    var chunks' := chunks[c := chunk];
    var i, raw := 4 * c + offset, (key, value, IsPresent(present, offset));
    forall j: nat | j < 4 * |chunks| ensures RawOf(chunks', j) == if j == i then raw else RawOf(chunks, j) {
      if j / 4 == c && j != i {
        assert j % 4 != offset;
      }
    }
  }

  lemma WrittenSlots<K, V>(chunks: seq<Chunk<K, V>>, chunks': seq<Chunk<K, V>>, i: nat, raw: (K, V, bool), used: nat)
    requires SlotWritten(chunks, chunks', i, raw) && i < used <= 4 * |chunks|
    ensures SlotsOf(chunks', used) == SlotsOf(chunks, used)[i := if raw.2 then Some((raw.0, raw.1)) else None]
  {
    hide RawOf;
  }

  // ---------- Positions ----------

  ghost predicate PositionsAgree<K, V>(positions: map<K, nat>, s: Spec.Slots<K, V>) {
    && (forall key :: key in positions ==>
          positions[key] < |s| && s[positions[key]].Some? && s[positions[key]].value.0 == key)
    && (forall i :: 0 <= i < |s| && s[i].Some? ==> s[i].value.0 in positions && positions[s[i].value.0] == i)
  }

  lemma PositionsKept<K, V>(positions: map<K, nat>, s: Spec.Slots<K, V>, key: K, value: V)
    requires PositionsAgree(positions, s) && key in positions
    ensures positions[key] < |s| && PositionsAgree(positions, s[positions[key] := Some((key, value))])
  {
  }

  lemma PositionOfKey<K, V>(positions: map<K, nat>, s: Spec.Slots<K, V>, key: K)
    requires PositionsAgree(positions, s)
    ensures Spec.IndexOf(s, key) == if key in positions then Some(positions[key]) else None
  {
    var at := Spec.IndexOf(s, key);
  }

  lemma PositionsOfPrefix<K, V>(positions: map<K, nat>, s: Spec.Slots<K, V>)
    requires PositionsAgree(positions, s) && s != [] && s[|s| - 1].Some?
    ensures var key := s[|s| - 1].value.0;
            && PositionsAgree(positions - {key}, s[..|s| - 1])
            && |positions| == |positions - {key}| + 1
  {
    var key := s[|s| - 1].value.0;
    assert positions.Keys == (positions - {key}).Keys + {key};
  }

  lemma {:induction false} PositionsCount<K, V>(positions: map<K, nat>, s: Spec.Slots<K, V>)
    requires PositionsAgree(positions, s)
    ensures |positions| == |Spec.Live(s)|
    decreases |s|
  {
    if s == [] {
      assert positions == map[];
    } else {
      var n := |s| - 1;
      if s[n].Some? {
        PositionsOfPrefix(positions, s);
        PositionsCount(positions - {s[n].value.0}, s[..n]);
      } else {
        PositionsCount(positions, s[..n]);
      }
    }
  }

  lemma LiveOfNext<K, V>(all: Spec.Slots<K, V>, i: nat)
    requires i < |all|
    ensures Spec.Live(all[..i + 1]) == Spec.Live(all[..i]) + (if all[i].Some? then [all[i].value] else [])
  {
    assert all[..i + 1][..i] == all[..i];
  }

  lemma LiveOfNone<K, V>(all: Spec.Slots<K, V>)
    ensures Spec.Live(all[..0]) == []
  {
  }

  /** While compaction copies slot i, the key of the slot is new to the copy. */
  lemma KeyIsNew<K, V>(all: Spec.Slots<K, V>, i: nat, positions: map<K, nat>)
    requires i < |all| && all[i].Some? && Spec.Distinct(all)
    requires PositionsAgree(positions, Spec.Packed(Spec.Live(all[..i])))
    ensures all[i].value.0 !in positions && |Spec.Live(all[..i])| <= i
  {
    var key, copied := all[i].value.0, Spec.Live(all[..i]);
    if key in positions {
      var e := copied[positions[key]];
      assert Spec.Packed(copied)[positions[key]] == Some(e) && e in copied;
      Spec.LiveMembers(all[..i], e);
    }
    Spec.LiveIsShorter(all[..i]);
  }

  lemma AgreeingIsDistinct<K, V>(positions: map<K, nat>, s: Spec.Slots<K, V>, all: Spec.Slots<K, V>)
    requires PositionsAgree(positions, s) && s <= all && forall i :: |s| <= i < |all| ==> all[i].None?
    ensures Spec.Distinct(all)
  {
    assert forall i :: 0 <= i < |all| && all[i].Some? ==> i < |s| && s[i] == all[i];
  }

  ghost predicate KeysOf<K, V>(keys: seq<K>, list: seq<(K, V)>) {
    |keys| == |list| && forall i :: 0 <= i < |keys| ==> keys[i] == list[i].0
  }

  lemma KeysOfSnoc<K, V>(keys: seq<K>, list: seq<(K, V)>, e: (K, V))
    requires KeysOf(keys, list)
    ensures KeysOf(keys + [e.0], list + [e])
  {
  }

  lemma PackedSnoc<K, V>(list: seq<(K, V)>, e: (K, V))
    ensures Spec.Packed(list) + [Some(e)] == Spec.Packed(list + [e])
  {
  }

  lemma PositionsSnoc<K, V>(positions: map<K, nat>, s: Spec.Slots<K, V>, key: K, value: V)
    requires PositionsAgree(positions, s) && key !in positions
    ensures PositionsAgree(positions[key := |s|], s + [Some((key, value))])
  {
  }

  lemma {:induction false} UnusedAreNotLive<K, V>(all: Spec.Slots<K, V>, used: nat)
    requires used <= |all| && forall i :: used <= i < |all| ==> all[i].None?
    ensures Spec.Live(all) == Spec.Live(all[..used])
    decreases |all|
  {
    if used == |all| {
      assert all[..used] == all;
    } else {
      UnusedAreNotLive(all[..|all| - 1], used);
      assert all[..|all| - 1][..used] == all[..used];
    }
  }

  class OrderedMap<K(==), V> {
    const zeroKey: K
    const zeroValue: V
    var chunks: seq<Chunk<K, V>>
    var positions: map<K, nat>
    var nextOffset: nat

    ghost predicate ShapeOk()
      reads this
    {
      && ChunksOk(chunks)
      && (if chunks == [] then nextOffset == 0 else 1 <= nextOffset <= CHUNK_SIZE)
    }

    function Used(): nat
      requires ShapeOk()
      reads this
    {
      if |chunks| == 0 then 0 else (|chunks| - 1) * CHUNK_SIZE + nextOffset
    }

    ghost function Slots(): Spec.Slots<K, V>
      requires ShapeOk()
      reads this
    {
      SlotsOf(chunks, Used())
    }

    /** A slot that is absent, whether deleted or not yet used, holds zero values. */
    ghost predicate AbsentIsZero()
      requires ChunksOk(chunks)
      reads this
    {
      forall i: nat :: i < 4 * |chunks| && !RawOf(chunks, i).2 ==> RawOf(chunks, i) == (zeroKey, zeroValue, false)
    }

    ghost predicate UnusedIsAbsent()
      requires ShapeOk()
      reads this
    {
      forall i: nat :: Used() <= i < 4 * |chunks| ==> !RawOf(chunks, i).2
    }

    ghost predicate Valid()
      reads this
    {
      && ShapeOk() && Used() <= MAX_ENTRIES
      && AbsentIsZero() && UnusedIsAbsent() && PositionsAgree(positions, Slots())
    }

    constructor (zeroKey: K, zeroValue: V)
      ensures Valid() && Slots() == [] && this.zeroKey == zeroKey && this.zeroValue == zeroValue
    {
      this.zeroKey := zeroKey;
      this.zeroValue := zeroValue;
      chunks := [];
      positions := map[];
      nextOffset := 0;
    }

    method Lookup(key: K) returns (r: Option<V>)
      requires Valid()
      ensures r == Spec.Found(Slots(), key)
    {
      PositionOfKey(positions, Slots(), key);
      if key !in positions {
        return None;
      }
      SplitIs(positions[key]);
      var (chunkIndex, offset) := Split(positions[key]);
      return Some(chunks[chunkIndex].values[offset]);
    }

    method Len() returns (n: nat)
      requires Valid()
      ensures n == |Spec.Live(Slots())|
    {
      PositionsCount(positions, Slots());
      return |positions|;
    }

    method Keys() returns (keys: seq<K>)
      requires Valid()
      ensures KeysOf(keys, Spec.Live(Slots()))
    {
      ghost var all := AllSlots();
      LiveOfNone(all);
      hide Spec.Live, IsPresent, KeysOf;
      keys := [];
      for c := 0 to |chunks|
        invariant KeysOf(keys, Spec.Live(all[..4 * c]))
      {
        for offset := 0 to CHUNK_SIZE
          invariant KeysOf(keys, Spec.Live(all[..4 * c + offset]))
        {
          ghost var i := 4 * c + offset;
          NextSlot(c, offset);
          if !IsPresent(chunks[c].present, offset) {
            continue;
          }
          KeysOfSnoc(keys, Spec.Live(all[..i]), all[i].value);
          keys := keys + [chunks[c].keys[offset]];
        }
      }
      LiveOfAll();
    }

    /** The slots of all chunks, also those not used yet. */
    ghost function AllSlots(): (all: Spec.Slots<K, V>)
      requires ShapeOk()
      reads this
      ensures |all| == 4 * |chunks| && Slots() <= all
    {
      var all := SlotsOf(chunks, 4 * |chunks|);
      assert all[..Used()] == Slots();
      all
    }

    lemma LiveOfAll()
      requires Valid()
      ensures Spec.Live(AllSlots()[..4 * |chunks|]) == Spec.Live(Slots())
    {
      var all := AllSlots();
      assert all[..4 * |chunks|] == all && all[..Used()] == Slots();
      assert forall i :: Used() <= i < |all| ==> all[i] == SlotOf(chunks, i);
      UnusedAreNotLive(all, Used());
    }

    /** What a loop over chunks and offsets sees next. */
    lemma NextSlot(c: nat, offset: nat)
      requires Valid() && c < |chunks| && offset < CHUNK_SIZE
      ensures var all, i, chunk := AllSlots(), 4 * c + offset, chunks[c];
              && all[i] == (if IsPresent(chunk.present, offset) then Some((chunk.keys[offset], chunk.values[offset]))
                            else None)
              && (all[i].Some? ==> i < Used())
              && Spec.Live(all[..i + 1]) == Spec.Live(all[..i]) + (if all[i].Some? then [all[i].value] else [])
              && i / 4 == c && i % 4 == offset
    {
      var all, i := AllSlots(), 4 * c + offset;
      assert i / 4 == c && i % 4 == offset;
      assert all[i] == SlotOf(chunks, i);
      LiveOfNext(all, i);
    }

    method InsertOrKeep(key: K, value: V) returns (inserted: bool)
      requires Valid() && (Used() < MAX_ENTRIES || Spec.Found(Slots(), key).Some?)
      modifies this
      ensures Valid()
      ensures Slots() == Spec.Step(old(Slots()), Spec.InsertOrKeep(key, value))
      ensures inserted <==> Spec.Found(old(Slots()), key).None?
    {
      PositionOfKey(positions, Slots(), key);
      if key in positions {
        return false;
      }
      InsertNew(key, value);
      return true;
    }

    method InsertOrReplace(key: K, value: V) returns (r: Option<V>)
      requires Valid() && (Used() < MAX_ENTRIES || Spec.Found(Slots(), key).Some?)
      modifies this
      ensures Valid()
      ensures Slots() == Spec.Step(old(Slots()), Spec.InsertOrReplace(key, value))
      ensures r == Spec.Found(old(Slots()), key)
    {
      hide Spec.Live, Split, IsPresent, Spec.IndexOf;
      PositionOfKey(positions, Slots(), key);
      if key !in positions {
        InsertNew(key, value);
        return None;
      }
      var pos := positions[key];
      PositionsKept(positions, Slots(), key, value);
      SplitIs(pos);
      var (chunkIndex, offset) := Split(pos);
      var chunk := chunks[chunkIndex];
      r := Some(chunk.values[offset]);
      WriteChunk(chunks, chunkIndex, offset, key, value, chunk.present);
      assert chunk.keys[offset] == key && chunk.keys[offset := key] == chunk.keys;
      chunks := chunks[chunkIndex := chunk.(values := chunk.values[offset := value])];
      WrittenSlots(old(chunks), chunks, pos, (key, value, true), Used());
    }

    method Delete(key: K) returns (r: Option<V>)
      requires Valid()
      modifies this
      ensures Valid()
      ensures Slots() == Spec.Step(old(Slots()), Spec.Delete(key))
      ensures r == Spec.Found(old(Slots()), key)
    {
      hide Spec.Live, Split, IsPresent, Spec.IndexOf;
      PositionOfKey(positions, Slots(), key);
      if key !in positions {
        return None;
      }
      var pos := positions[key];
      SplitIs(pos);
      var (chunkIndex, offset) := Split(pos);
      var chunk := chunks[chunkIndex];
      r := Some(chunk.values[offset]);
      positions := positions - {key};
      ClearSlot(chunkIndex, offset);
      WrittenSlots(old(chunks), chunks, pos, (zeroKey, zeroValue, false), Used());
      CompactIfNeeded();
    }

    /** The slot loses its present bit and its contents. */
    method ClearSlot(chunkIndex: nat, offset: nat)
      requires ShapeOk() && chunkIndex < |chunks| && offset < CHUNK_SIZE
      modifies this`chunks
      ensures SlotWritten(old(chunks), chunks, 4 * chunkIndex + offset, (zeroKey, zeroValue, false))
    {
      hide IsPresent, AndNot, OffsetBit;
      var chunk := chunks[chunkIndex];
      var present := AndNot(chunk.present, OffsetBit(offset));
      ClearPresent(chunk.present, offset, 0);
      forall o | 0 <= o < CHUNK_SIZE
        ensures IsPresent(present, o) <==> IsPresent(chunk.present, o) && o != offset
      {
        ClearPresent(chunk.present, offset, o);
      }
      WriteChunk(chunks, chunkIndex, offset, zeroKey, zeroValue, present);
      chunks := chunks[chunkIndex := Chunk(chunk.keys[offset := zeroKey], chunk.values[offset := zeroValue], present)];
    }

    /** The slot gets a key, a value and its present bit. */
    method FillSlot(chunkIndex: nat, offset: nat, key: K, value: V)
      requires ChunksOk(chunks) && chunkIndex < |chunks| && offset < CHUNK_SIZE
      modifies this`chunks
      ensures SlotWritten(old(chunks), chunks, 4 * chunkIndex + offset, (key, value, true))
    {
      hide IsPresent, Or, OffsetBit;
      var chunk := chunks[chunkIndex];
      var present := Or(chunk.present, OffsetBit(offset));
      SetPresent(chunk.present, offset, 0);
      forall o | 0 <= o < CHUNK_SIZE
        ensures IsPresent(present, o) <==> IsPresent(chunk.present, o) || o == offset
      {
        SetPresent(chunk.present, offset, o);
      }
      WriteChunk(chunks, chunkIndex, offset, key, value, present);
      chunks := chunks[chunkIndex := Chunk(chunk.keys[offset := key], chunk.values[offset := value], present)];
    }

    method InsertNew(key: K, value: V)
      requires Valid() && Used() < MAX_ENTRIES && key !in positions
      modifies this
      ensures Valid() && Slots() == old(Slots()) + [Some((key, value))]
    {
      hide RawOf, NewPosition;
      ghost var used := Used();
      if |chunks| == 0 || nextOffset == CHUNK_SIZE {
        AddChunk();
      }
      ghost var before := chunks;
      var chunkIndex, offset := |chunks| - 1, nextOffset;
      FillSlot(chunkIndex, offset, key, value);
      PositionRoundTrip(chunkIndex, offset);
      positions := positions[key := NewPosition(chunkIndex, offset)];
      nextOffset := nextOffset + 1;
      WrittenSlots(before, chunks, used, (key, value, true), Used());
      assert SlotsOf(before, Used())[..used] == old(Slots());
      assert Slots() == old(Slots()) + [Some((key, value))];
      PositionsSnoc(old(positions), old(Slots()), key, value);
    }

    /** A new chunk at the end, with all its slots free. */
    method AddChunk()
      requires Valid() && (chunks == [] || nextOffset == CHUNK_SIZE)
      modifies this`chunks, this`nextOffset
      ensures ChunksOk(chunks) && |chunks| == |old(chunks)| + 1 && nextOffset == 0
      ensures AbsentIsZero()
      ensures forall i: nat :: i < 4 * |old(chunks)| ==> RawOf(chunks, i) == old(RawOf(chunks, i))
      ensures forall i: nat :: 4 * |old(chunks)| <= i < 4 * |chunks| ==> !RawOf(chunks, i).2
    {
      hide IsPresent;
      PresentIsBit(0, 0);
      PresentIsBit(0, 1);
      PresentIsBit(0, 2);
      PresentIsBit(0, 3);
      chunks := chunks + [Chunk([zeroKey, zeroKey, zeroKey, zeroKey], [zeroValue, zeroValue, zeroValue, zeroValue], 0)];
      nextOffset := 0;
      forall i: nat | 4 * |old(chunks)| <= i < 4 * |chunks|
        ensures RawOf(chunks, i) == (zeroKey, zeroValue, false)
      {
        assert i / 4 == |old(chunks)|;
        ZeroHasNoBits(i % 4);
      }
      forall i: nat | i < 4 * |old(chunks)| ensures RawOf(chunks, i) == old(RawOf(chunks, i)) {
        assert chunks[i / 4] == old(chunks)[i / 4];
      }
    }

    method CompactIfNeeded()
      requires Valid()
      modifies this
      ensures Valid() && Slots() == Spec.Compacted(old(Slots()))
    {
      var usedSlots := Used();
      var live := Len();
      if usedSlots == 0 || 4 * live > usedSlots {
        return;
      }
      var compacted := CopyLive();
      TakeOver(compacted);
    }

    /** *m = compacted */
    method TakeOver(compacted: OrderedMap<K, V>)
      requires compacted != this && compacted.Valid()
      requires zeroKey == compacted.zeroKey && zeroValue == compacted.zeroValue
      modifies this
      ensures Valid() && Slots() == compacted.Slots()
    {
      hide AbsentIsZero, UnusedIsAbsent, ChunksOk, PositionsAgree, SlotsOf;
      chunks, positions, nextOffset := compacted.chunks, compacted.positions, compacted.nextOffset;
      SameFields(compacted);
    }

    lemma SameFields(other: OrderedMap<K, V>)
      requires other.Valid() && zeroKey == other.zeroKey && zeroValue == other.zeroValue
      requires chunks == other.chunks && positions == other.positions && nextOffset == other.nextOffset
      ensures Valid() && Slots() == other.Slots()
    {
      hide RawOf, PositionsAgree;
    }

    /** The map has exactly these entries and no tombstone. */
    ghost predicate Holds(list: seq<(K, V)>)
      reads this
    {
      Valid() && Slots() == Spec.Packed(list)
    }

    /** The two nested loops of the compaction. */
    method CopyLive() returns (compacted: OrderedMap<K, V>)
      requires Valid()
      ensures fresh(compacted) && compacted.Holds(Spec.Live(Slots()))
      ensures compacted.zeroKey == zeroKey && compacted.zeroValue == zeroValue
    {
      ghost var all := AllSlots();
      LiveOfNone(all);
      assert forall i :: Used() <= i < |all| ==> all[i] == SlotOf(chunks, i);
      AgreeingIsDistinct(positions, Slots(), all);
      compacted := new OrderedMap(zeroKey, zeroValue);
      assert compacted.Holds([]);
      hide Spec.Live, Spec.Distinct, AllSlots, AbsentIsZero, UnusedIsAbsent, PositionsAgree, Holds;
      for c := 0 to |chunks|
        invariant fresh(compacted) && compacted.Holds(Spec.Live(all[..4 * c]))
      {
        for offset := 0 to CHUNK_SIZE
          invariant fresh(compacted) && compacted.Holds(Spec.Live(all[..4 * c + offset]))
        {
          CopySlot(c, offset, compacted);
        }
      }
      LiveOfAll();
    }

    /** The body of the inner loop of the compaction. */
    method CopySlot(c: nat, offset: nat, compacted: OrderedMap<K, V>)
      requires Valid() && compacted != this
      requires c < |chunks| && offset < CHUNK_SIZE && Spec.Distinct(AllSlots())
      requires compacted.Holds(Spec.Live(AllSlots()[..4 * c + offset]))
      modifies compacted
      ensures compacted.Holds(Spec.Live(AllSlots()[..4 * c + offset + 1]))
    {
      hide Spec.Live, IsPresent, Spec.Distinct;
      ghost var all, i := AllSlots(), 4 * c + offset;
      NextSlot(c, offset);
      if !IsPresent(chunks[c].present, offset) {
        return;
      }
      KeyIsNew(all, i, compacted.positions);
      PackedSnoc(Spec.Live(all[..i]), all[i].value);
      compacted.InsertNew(chunks[c].keys[offset], chunks[c].values[offset]);
    }
  }
}
