/** The slot bitmap of a record page, one bit a slot, highest bit first. */
module Bitmap {
  const BITMAP_WIDTH: nat := 8

  function GetBit(pos: nat): bv8 {
    0x80 >> (pos % BITMAP_WIDTH)
  }

  predicate InBitmap(bm: seq<bv8>, pos: int) {
    0 <= pos < BITMAP_WIDTH * |bm|
  }

  predicate IsSet(bm: seq<bv8>, pos: int)
    requires InBitmap(bm, pos)
  {
    bm[pos / BITMAP_WIDTH] & GetBit(pos) != 0
  }

  function Set(bm: seq<bv8>, pos: int): seq<bv8>
    requires InBitmap(bm, pos)
  {
    bm[pos / BITMAP_WIDTH := bm[pos / BITMAP_WIDTH] | GetBit(pos)]
  }

  function Reset(bm: seq<bv8>, pos: int): seq<bv8>
    requires InBitmap(bm, pos)
  {
    bm[pos / BITMAP_WIDTH := bm[pos / BITMAP_WIDTH] & !GetBit(pos)]
  }

  lemma Masks(k: nat)
    requires k < 8
    ensures GetBit(k) == match k {
              case 0 => 0x80 case 1 => 0x40 case 2 => 0x20 case 3 => 0x10
              case 4 => 8 case 5 => 4 case 6 => 2 case _ => 1
            }
  {
  }

  lemma MaskOfByte(b: bv8, m: bv8, n: bv8)
    requires m & n == 0 && m != 0
    ensures (b | m) & m != 0 && ((b | m) & n) == (b & n)
    ensures (b & !m) & m == 0 && ((b & !m) & n) == (b & n)
  {
  }

  lemma MasksDiffer(j: nat, k: nat)
    requires j < 8 && k < 8 && j != k
    ensures GetBit(j) & GetBit(k) == 0
  {
    Masks(j);
    Masks(k);
  }

  lemma SetOne(bm: seq<bv8>, pos: int, q: int)
    requires InBitmap(bm, pos) && InBitmap(bm, q)
    ensures IsSet(Set(bm, pos), q) <==> q == pos || IsSet(bm, q)
    ensures IsSet(Reset(bm, pos), q) <==> q != pos && IsSet(bm, q)
  {
    var j, k := pos % 8, q % 8;
    Masks(j);
    Masks(k);
    if pos / 8 == q / 8 {
      if j != k {
        MasksDiffer(j, k);
        MaskOfByte(bm[pos / 8], GetBit(j), GetBit(k));
      } else {
        MaskOfByte(bm[pos / 8], GetBit(j), 0);
      }
    }
  }

  /** How many of the first `n` bits are set. */
  function Count(bm: seq<bv8>, n: nat): nat
    requires n <= BITMAP_WIDTH * |bm|
  {
    if n == 0 then 0 else Count(bm, n - 1) + if IsSet(bm, n - 1) then 1 else 0
  }

  lemma {:induction false} CountChange(a: seq<bv8>, b: seq<bv8>, n: nat, pos: nat)
    requires |a| == |b| && n <= BITMAP_WIDTH * |a| && InBitmap(a, pos)
    requires forall q :: 0 <= q < n && q != pos ==> (IsSet(a, q) <==> IsSet(b, q))
    requires !IsSet(a, pos) && IsSet(b, pos)
    ensures Count(b, n) == Count(a, n) + if pos < n then 1 else 0
  {
    if n > 0 { CountChange(a, b, n - 1, pos); }
  }

  lemma {:induction false} CountBounds(bm: seq<bv8>, n: nat)
    requires n <= BITMAP_WIDTH * |bm|
    ensures Count(bm, n) <= n
    ensures Count(bm, n) == n <==> forall q :: 0 <= q < n ==> IsSet(bm, q)
    ensures Count(bm, n) == 0 <==> forall q :: 0 <= q < n ==> !IsSet(bm, q)
  {
    if n > 0 { CountBounds(bm, n - 1); }
  }

  /** `next_bit`: the first position after `curr` with the given bit, or `maxN`. */
  method NextBit(bit: bool, bm: seq<bv8>, maxN: nat, curr: int) returns (i: int)
    requires maxN <= BITMAP_WIDTH * |bm| && -1 <= curr < maxN
    ensures curr < i <= maxN
    ensures i < maxN ==> IsSet(bm, i) == bit
    ensures forall q :: curr < q < i ==> IsSet(bm, q) != bit
  {
    i := curr + 1;
    while i < maxN
      invariant curr < i <= maxN
      invariant forall q :: curr < q < i ==> IsSet(bm, q) != bit
    {
      if IsSet(bm, i) == bit {
        return;
      }
      i := i + 1;
    }
  }
}
