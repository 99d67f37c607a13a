/**
 The slot bitmap of a record page: eight slots to a byte, the first in the highest bit.
 */
module Bitmap {

  function Bit(pos: nat): bv8 {
    0x80 >> (pos % 8)
  }

  predicate HasBit(b: bv8, pos: nat) {
    b & Bit(pos) != 0
  }

  function WithBit(b: bv8, pos: nat): bv8 {
    b | Bit(pos)
  }

  function WithoutBit(b: bv8, pos: nat): bv8 {
    b & !Bit(pos)
  }

  predicate IsSet(bm: seq<bv8>, pos: nat)
    requires pos < 8 * |bm|
  {
    HasBit(bm[pos / 8], pos)
  }

  function Set(bm: seq<bv8>, pos: nat): seq<bv8>
    requires pos < 8 * |bm|
  {
    bm[pos / 8 := WithBit(bm[pos / 8], pos)]
  }

  function Reset(bm: seq<bv8>, pos: nat): seq<bv8>
    requires pos < 8 * |bm|
  {
    bm[pos / 8 := WithoutBit(bm[pos / 8], pos)]
  }

  function Init(size: nat): seq<bv8> {
    seq(size, _ => 0)
  }

  /** Eight positions to a byte, from the highest bit to the lowest. */
  lemma BitsInOrder(bm: seq<bv8>, k: nat)
    requires k < |bm|
    ensures IsSet(bm, 8 * k) <==> bm[k] & 0x80 != 0
    ensures IsSet(bm, 8 * k + 1) <==> bm[k] & 0x40 != 0
    ensures IsSet(bm, 8 * k + 2) <==> bm[k] & 0x20 != 0
    ensures IsSet(bm, 8 * k + 3) <==> bm[k] & 0x10 != 0
    ensures IsSet(bm, 8 * k + 4) <==> bm[k] & 0x08 != 0
    ensures IsSet(bm, 8 * k + 5) <==> bm[k] & 0x04 != 0
    ensures IsSet(bm, 8 * k + 6) <==> bm[k] & 0x02 != 0
    ensures IsSet(bm, 8 * k + 7) <==> bm[k] & 0x01 != 0
  {
  }

  lemma BitsAreDistinct(b: bv8, i: nat, j: nat)
    requires i < 8 && j < 8
    ensures (b | (0x80 >> i)) & (0x80 >> j) != 0 <==> i == j || b & (0x80 >> j) != 0
    ensures (b & !(0x80 >> i)) & (0x80 >> j) != 0 <==> i != j && b & (0x80 >> j) != 0
  {
  }

  lemma BitsMeet(b: bv8, pos: nat, q: nat)
    ensures HasBit(WithBit(b, pos), q) <==> q % 8 == pos % 8 || HasBit(b, q)
    ensures HasBit(WithoutBit(b, pos), q) <==> q % 8 != pos % 8 && HasBit(b, q)
  {
    BitsAreDistinct(b, pos % 8, q % 8);
  }

  lemma OtherByte(bm: seq<bv8>, pos: nat, q: nat)
    requires pos < 8 * |bm| && q < 8 * |bm| && pos / 8 != q / 8
    ensures IsSet(Set(bm, pos), q) == IsSet(bm, q) && IsSet(Reset(bm, pos), q) == IsSet(bm, q)
  {
    hide HasBit, WithBit, WithoutBit;
  }

  lemma SameByte(bm: seq<bv8>, pos: nat, q: nat)
    requires pos < 8 * |bm| && q < 8 * |bm| && pos / 8 == q / 8
    ensures IsSet(Set(bm, pos), q) <==> q % 8 == pos % 8 || IsSet(bm, q)
    ensures IsSet(Reset(bm, pos), q) <==> q % 8 != pos % 8 && IsSet(bm, q)
  {
    hide HasBit, WithBit, WithoutBit;
    BitsMeet(bm[pos / 8], pos, q);
  }

  lemma SetSets(bm: seq<bv8>, pos: nat, q: nat)
    requires pos < 8 * |bm| && q < 8 * |bm|
    ensures IsSet(Set(bm, pos), q) <==> q == pos || IsSet(bm, q)
    ensures IsSet(Reset(bm, pos), q) <==> q != pos && IsSet(bm, q)
  {
    hide IsSet, Set, Reset;
    if pos / 8 == q / 8 {
      SameByte(bm, pos, q);
    } else {
      OtherByte(bm, pos, q);
    }
  }

  lemma InitClears(size: nat, q: nat)
    requires q < 8 * size
    ensures !IsSet(Init(size), q)
  {
  }

  /** The next position after `curr` whose bit is `bit`, or `max` when there is none. */
  method NextBit(bit: bool, bm: seq<bv8>, max: nat, curr: int) returns (pos: nat)
    requires max <= 8 * |bm| && -1 <= curr < max
    ensures curr < pos <= max
    ensures forall i: nat :: curr < i < pos ==> IsSet(bm, i) != bit
    ensures pos < max ==> IsSet(bm, pos) == bit
  {
    pos := curr + 1;
    while pos < max
      invariant curr < pos <= max
      invariant forall i: nat :: curr < i < pos ==> IsSet(bm, i) != bit
    {
      if IsSet(bm, pos) == bit {
        return;
      }
      pos := pos + 1;
    }
  }

  // ---------------------------------------------------------------- counting

  ghost function CountSet(bm: seq<bv8>, n: nat): nat
    requires n <= 8 * |bm|
  {
    if n == 0 then 0 else CountSet(bm, n - 1) + (if IsSet(bm, n - 1) then 1 else 0)
  }

  lemma {:induction false} CountAfterSet(bm: seq<bv8>, pos: nat, n: nat)
    requires n <= 8 * |bm| && pos < 8 * |bm|
    ensures CountSet(Set(bm, pos), n) == CountSet(bm, n) + (if pos < n && !IsSet(bm, pos) then 1 else 0)
    ensures CountSet(Reset(bm, pos), n) == CountSet(bm, n) - (if pos < n && IsSet(bm, pos) then 1 else 0)
  {
    hide IsSet, Set, Reset;
    if n > 0 {
      CountAfterSet(bm, pos, n - 1);
      SetSets(bm, pos, n - 1);
    }
  }

  lemma {:induction false} CountInit(size: nat, n: nat)
    requires n <= 8 * size
    ensures CountSet(Init(size), n) == 0
  {
    if n > 0 {
      CountInit(size, n - 1);
      InitClears(size, n - 1);
    }
  }

  /** The count tells a full bitmap from one with room. */
  lemma {:induction false} CountIsFull(bm: seq<bv8>, n: nat)
    requires n <= 8 * |bm|
    ensures CountSet(bm, n) <= n
    ensures CountSet(bm, n) == n <==> forall i: nat :: i < n ==> IsSet(bm, i)
  {
    if n > 0 {
      CountIsFull(bm, n - 1);
    }
  }
}
