/** Bitmaps on bytes (src/transaction/event.rs, src/block/mod.rs).

    Setting and clearing runs: the source sets the bits up to the next byte boundary, then whole bytes,
    then the rest, and asserts that each of them changes.  Searching for the next set or clear bit byte
    by byte.  And building the free set of the buddy allocator from a bitmap. */
module Bitmap {
  import opened Wrappers
  import opened Buddy

  type Byte = bv8

  // ---- single bits ---------------------------------------------------------------------------

  /** `1 << k` for k in 0..7. */
  function Mask(k: nat): Byte
    requires k < 8
  {
    if k == 0 then 1 else Mask(k - 1) << 1
  }

  lemma {:induction false} MaskValues()
    ensures Mask(0) == 1 && Mask(1) == 2 && Mask(2) == 4 && Mask(3) == 8
    ensures Mask(4) == 16 && Mask(5) == 32 && Mask(6) == 64 && Mask(7) == 128
  {
    assert Mask(1) == 2;
    assert Mask(2) == 4;
    assert Mask(3) == 8;
    assert Mask(4) == 16;
    assert Mask(5) == 32;
    assert Mask(6) == 64;
  }

  /** Bit k of a byte, counting from the least significant. */
  predicate BitOf(b: Byte, k: nat)
    requires k < 8
  {
    if k == 0 then b & 1 != 0 else BitOf(b >> 1, k - 1)
  }

  /** Bit `pos` of a bitmap. */
  predicate Bit(bitmap: seq<Byte>, pos: nat)
    requires pos < 8 * |bitmap|
  {
    BitOf(bitmap[pos / 8], pos % 8)
  }

  /** The tests the source makes on a byte. */
  lemma {:induction false} BitOfMask(b: Byte, k: nat)
    requires k < 8
    ensures BitOf(b, k) <==> b & Mask(k) != 0
    ensures BitOf(b, k) <==> b & Mask(k) == Mask(k)
  {
    MaskValues();
    if k > 0 { BitOfMask(b >> 1, k - 1); }
  }

  lemma {:induction false} SetBitOf(b: Byte, k: nat, j: nat)
    requires k < 8 && j < 8
    ensures BitOf(b | Mask(k), j) <==> j == k || BitOf(b, j)
  {
    BitOfMask(b | Mask(k), j);
    BitOfMask(b, j);
    MaskValues();
  }

  lemma {:induction false} ClearBitOf(b: Byte, k: nat, j: nat)
    requires k < 8 && j < 8
    ensures BitOf(b & !Mask(k), j) <==> j != k && BitOf(b, j)
  {
    BitOfMask(b & !Mask(k), j);
    BitOfMask(b, j);
    MaskValues();
  }

  lemma {:induction false} FullAndEmpty(k: nat)
    requires k < 8
    ensures BitOf(0xff, k) && !BitOf(0, k)
  {
    BitOfMask(0xff, k);
    BitOfMask(0, k);
    MaskValues();
  }

  /** A byte is determined by its bits. */
  lemma {:induction false} ByteExt(a: Byte, b: Byte)
    requires forall k :: 0 <= k < 8 ==> (BitOf(a, k) <==> BitOf(b, k))
    ensures a == b
  {
    forall k | 0 <= k < 8
      ensures a & Mask(k) != 0 <==> b & Mask(k) != 0
    {
      BitOfMask(a, k);
      BitOfMask(b, k);
    }
    MaskValues();
    assert a & Mask(0) != 0 <==> b & Mask(0) != 0;
    assert a & Mask(1) != 0 <==> b & Mask(1) != 0;
    assert a & Mask(2) != 0 <==> b & Mask(2) != 0;
    assert a & Mask(3) != 0 <==> b & Mask(3) != 0;
    assert a & Mask(4) != 0 <==> b & Mask(4) != 0;
    assert a & Mask(5) != 0 <==> b & Mask(5) != 0;
    assert a & Mask(6) != 0 <==> b & Mask(6) != 0;
    assert a & Mask(7) != 0 <==> b & Mask(7) != 0;
  }

  /** A bitmap is determined by its bits. */
  lemma {:induction false} BitmapExt(a: seq<Byte>, b: seq<Byte>)
    requires |a| == |b|
    requires forall p :: 0 <= p < 8 * |a| ==> (Bit(a, p) <==> Bit(b, p))
    ensures a == b
  {
    forall i | 0 <= i < |a|
      ensures a[i] == b[i]
    {
      forall k | 0 <= k < 8
        ensures BitOf(a[i], k) <==> BitOf(b[i], k)
      {
        assert Bit(a, 8 * i + k) <==> Bit(b, 8 * i + k);
      }
      ByteExt(a[i], b[i]);
    }
  }

  // ---- one bit at a time -----------------------------------------------------------------------

  /** The bits of [lo, hi) set (or cleared) and all others as before. */
  ghost predicate Filled(before: seq<Byte>, after: seq<Byte>, lo: nat, hi: nat, value: bool) {
    && |after| == |before|
    && forall p {:trigger Bit(after, p)} :: 0 <= p < 8 * |before| ==>
         (Bit(after, p) <==> if lo <= p < hi then value else Bit(before, p))
  }

  ghost predicate AllBits(bitmap: seq<Byte>, lo: nat, hi: nat, value: bool) {
    forall p {:trigger Bit(bitmap, p)} :: lo <= p < hi && p < 8 * |bitmap| ==> Bit(bitmap, p) == value
  }

  /** The bitwise form of `set_bitmap` and `unset_bitmap`. */
  function FillBits(bitmap: seq<Byte>, ofs: nat, count: nat, value: bool): (r: seq<Byte>)
    requires ofs + count <= 8 * |bitmap|
    ensures |r| == |bitmap|
    decreases count
  {
    if count == 0 then bitmap
    else
      var rest := FillBits(bitmap, ofs, count - 1, value);
      PutBit(rest, ofs + count - 1, value)
  }

  function PutBitOf(b: Byte, k: nat, value: bool): Byte
    requires k < 8
  {
    if value then b | Mask(k) else b & !Mask(k)
  }

  /** Sets or clears one bit of a bitmap. */
  function PutBit(bitmap: seq<Byte>, pos: nat, value: bool): seq<Byte>
    requires pos < 8 * |bitmap|
  {
    bitmap[pos / 8 := PutBitOf(bitmap[pos / 8], pos % 8, value)]
  }

  lemma {:induction false} PutBitOfAt(b: Byte, k: nat, value: bool, j: nat)
    requires k < 8 && j < 8
    ensures BitOf(PutBitOf(b, k, value), j) <==> if j == k then value else BitOf(b, j)
  {
    SetBitOf(b, k, j);
    ClearBitOf(b, k, j);
  }

  lemma {:induction false} PutBitInPlace(bitmap: seq<Byte>, pos: nat, value: bool)
    requires pos < 8 * |bitmap|
    ensures PutBit(bitmap, pos, value)
         == bitmap[pos / 8 := if value then bitmap[pos / 8] | Mask(pos % 8) else bitmap[pos / 8] & !Mask(pos % 8)]
  {
  }

  lemma {:induction false} PutBitAt(bitmap: seq<Byte>, pos: nat, value: bool, p: nat)
    requires pos < 8 * |bitmap| && p < 8 * |bitmap|
    ensures Bit(PutBit(bitmap, pos, value), p) <==> if p == pos then value else Bit(bitmap, p)
  {
    var q, k, i, j := pos / 8, pos % 8, p / 8, p % 8;
    assert p == pos <==> i == q && j == k;
    PutBitOfAt(bitmap[q], k, value, j);
    assert PutBit(bitmap, pos, value)[i] == if i == q then PutBitOf(bitmap[q], k, value) else bitmap[i];
  }

  lemma {:induction false} FillOne(before: seq<Byte>, mid: seq<Byte>, lo: nat, hi: nat, value: bool)
    requires lo <= hi < 8 * |before| && Filled(before, mid, lo, hi, value)
    ensures Filled(before, PutBit(mid, hi, value), lo, hi + 1, value)
  {
    forall p | 0 <= p < 8 * |before|
      ensures Bit(PutBit(mid, hi, value), p) <==> if lo <= p < hi + 1 then value else Bit(before, p)
    {
      PutBitAt(mid, hi, value, p);
    }
  }

  lemma {:induction false} FillByte(before: seq<Byte>, mid: seq<Byte>, lo: nat, grp: nat, value: bool)
    requires grp < |before| && lo <= 8 * grp && Filled(before, mid, lo, 8 * grp, value)
    ensures Filled(before, mid[grp := if value then 0xff else 0], lo, 8 * (grp + 1), value)
  {
    var after := mid[grp := if value then 0xff else 0];
    forall p | 0 <= p < 8 * |before|
      ensures Bit(after, p) <==> if lo <= p < 8 * (grp + 1) then value else Bit(before, p)
    {
      assert Bit(mid, p) <==> if lo <= p < 8 * grp then value else Bit(before, p);
      FullAndEmpty(p % 8);
    }
  }

  lemma {:induction false} FillBitsFills(bitmap: seq<Byte>, ofs: nat, count: nat, value: bool)
    requires ofs + count <= 8 * |bitmap|
    ensures Filled(bitmap, FillBits(bitmap, ofs, count, value), ofs, ofs + count, value)
  {
    hide Filled;
    hide PutBit;
    if count == 0 {
      NothingFilled(bitmap, ofs, value);
    } else {
      FillBitsFills(bitmap, ofs, count - 1, value);
      FillOne(bitmap, FillBits(bitmap, ofs, count - 1, value), ofs, ofs + count - 1, value);
    }
  }

  lemma {:induction false} FilledIsUnique(before: seq<Byte>, a: seq<Byte>, b: seq<Byte>, lo: nat, hi: nat, value: bool)
    requires Filled(before, a, lo, hi, value) && Filled(before, b, lo, hi, value)
    ensures a == b
  {
    forall p | 0 <= p < 8 * |a|
      ensures Bit(a, p) <==> Bit(b, p)
    {
      assert Bit(a, p) <==> if lo <= p < hi then value else Bit(before, p);
      assert Bit(b, p) <==> if lo <= p < hi then value else Bit(before, p);
    }
    BitmapExt(a, b);
  }

  /** The number of clear bits below n. */
  function Zeros(b: seq<Byte>, n: nat): nat
    requires n <= 8 * |b|
  {
    if n == 0 then 0 else Zeros(b, n - 1) + if Bit(b, n - 1) then 0 else 1
  }

  /** Setting a clear run takes that many clear bits away, and clearing a set one adds them. */
  lemma {:induction false} ZerosOfFilled(before: seq<Byte>, after: seq<Byte>, lo: nat, hi: nat, value: bool, n: nat)
    requires lo <= hi <= 8 * |before| && n <= 8 * |before|
    requires Filled(before, after, lo, hi, value) && AllBits(before, lo, hi, !value)
    ensures Zeros(after, n) == Zeros(before, n) + (Min(n, hi) - Min(n, lo)) * (if value then -1 else 1)
  {
    if n > 0 {
      ZerosOfFilled(before, after, lo, hi, value, n - 1);
      assert Bit(after, n - 1) <==> if lo <= n - 1 < hi then value else Bit(before, n - 1);
    }
  }

  /** Setting a clear run and then clearing it restores the bitmap, and the other way round. */
  lemma {:induction false} FillAndUndo(bitmap: seq<Byte>, ofs: nat, count: nat, value: bool)
    requires ofs + count <= 8 * |bitmap|
    ensures FillBits(FillBits(bitmap, ofs, count, value), ofs, count, !value) == bitmap
            <==> AllBits(bitmap, ofs, ofs + count, !value)
  {
    var mid := FillBits(bitmap, ofs, count, value);
    var end := FillBits(mid, ofs, count, !value);
    FillBitsFills(bitmap, ofs, count, value);
    FillBitsFills(mid, ofs, count, !value);
    if AllBits(bitmap, ofs, ofs + count, !value) {
      forall p | 0 <= p < 8 * |bitmap|
        ensures Bit(end, p) <==> Bit(bitmap, p)
      {
        assert Bit(mid, p) <==> if ofs <= p < ofs + count then value else Bit(bitmap, p);
      }
      BitmapExt(end, bitmap);
    }
    if end == bitmap {
      assert AllBits(end, ofs, ofs + count, !value);
    }
  }

  /** The next bit of the run still has its old value. */
  lemma {:induction false} NotYetFilled(before: seq<Byte>, now: seq<Byte>, lo: nat, pos: nat, value: bool)
    requires pos < 8 * |before| && Filled(before, now, lo, pos, value)
    requires Bit(before, pos) == !value
    ensures now[pos / 8] & Mask(pos % 8) == if value then 0 else Mask(pos % 8)
  {
    assert Bit(now, pos) == !value;
    BitOfMask(now[pos / 8], pos % 8);
  }

  lemma {:induction false} FilledLength(before: seq<Byte>, now: seq<Byte>, lo: nat, hi: nat, value: bool)
    requires Filled(before, now, lo, hi, value)
    ensures |now| == |before|
  {
  }

  lemma {:induction false} NothingFilled(before: seq<Byte>, lo: nat, value: bool)
    ensures Filled(before, before, lo, lo, value)
  {
  }

  // ---- set_bitmap and unset_bitmap ---------------------------------------------------------------

  function RoundUp8(n: nat): nat { (n + 7) / 8 * 8 }
  function RoundDown8(n: nat): nat { n / 8 * 8 }

  /** One of the bit loops of `set_bitmap`; the assertion is the source's: the bit was clear. */
  method SetBits(blk: array<Byte>, lo: nat, hi: nat, ghost before: seq<Byte>, ghost ofs: nat)
    requires ofs <= lo <= hi <= 8 * blk.Length
    requires Filled(before, blk[..], ofs, lo, true)
    requires AllBits(before, lo, hi, false)
    modifies blk
    ensures Filled(before, blk[..], ofs, hi, true)
  {
    hide Filled;
    hide BitOf;
    hide Mask;
    var pos := lo;
    while pos < hi
      invariant lo <= pos <= hi
      invariant Filled(before, blk[..], ofs, pos, true)
    {
      var grp, dofs := pos / 8, pos % 8;
      FilledLength(before, blk[..], ofs, pos, true);
      NotYetFilled(before, blk[..], ofs, pos, true);
      assert blk[grp] & Mask(dofs) == 0;
      FillOne(before, blk[..], ofs, pos, true);
      PutBitInPlace(blk[..], pos, true);
      blk[grp] := blk[grp] | Mask(dofs);
      pos := pos + 1;
    }
  }

  /** Sets a run of bits: the bits up to the next byte boundary, then whole bytes, then the rest.
      It does what setting the bits one at a time does. */
  method SetBitmap(blk: array<Byte>, ofs: nat, count: nat)
    requires ofs + count <= 8 * blk.Length
    requires AllBits(blk[..], ofs, ofs + count, false)
    modifies blk
    ensures blk[..] == FillBits(old(blk[..]), ofs, count, true)
  {
    hide Filled;
    hide BitOf;
    hide FillBits;
    ghost var before := blk[..];
    NothingFilled(before, ofs, true);
    var oe := Min(RoundUp8(ofs), ofs + count);
    var me := RoundDown8(ofs + count);
    var cs, ce := if oe < me then me else oe, ofs + count;
    SetBits(blk, ofs, oe, before, ofs);
    var grp := oe / 8;
    while grp < me / 8
      invariant oe < me ==> oe % 8 == 0 && oe / 8 <= grp <= me / 8
      invariant Filled(before, blk[..], ofs, if oe < me then 8 * grp else oe, true)
    {
      ByteIs(before, blk[..], ofs, grp, ofs + count, true);
      assert blk[grp] == 0;
      FillByte(before, blk[..], ofs, grp, true);
      ghost var next := blk[..][grp := 0xff];
      blk[grp] := 0xff;
      assert blk[..] == next;
      grp := grp + 1;
    }
    SetBits(blk, cs, ce, before, ofs);
    FillBitsFills(before, ofs, count, true);
    FilledIsUnique(before, blk[..], FillBits(before, ofs, count, true), ofs, ofs + count, true);
  }

  /** One of the bit loops of `unset_bitmap`; here the bit must have been set. */
  method ClearBits(blk: array<Byte>, lo: nat, hi: nat, ghost before: seq<Byte>, ghost ofs: nat)
    requires ofs <= lo <= hi <= 8 * blk.Length
    requires Filled(before, blk[..], ofs, lo, false)
    requires AllBits(before, lo, hi, true)
    modifies blk
    ensures Filled(before, blk[..], ofs, hi, false)
  {
    hide Filled;
    hide BitOf;
    hide Mask;
    var pos := lo;
    while pos < hi
      invariant lo <= pos <= hi
      invariant Filled(before, blk[..], ofs, pos, false)
    {
      var grp, dofs := pos / 8, pos % 8;
      FilledLength(before, blk[..], ofs, pos, false);
      NotYetFilled(before, blk[..], ofs, pos, false);
      assert blk[grp] & Mask(dofs) == Mask(dofs);
      FillOne(before, blk[..], ofs, pos, false);
      PutBitInPlace(blk[..], pos, false);
      blk[grp] := blk[grp] & !Mask(dofs);
      pos := pos + 1;
    }
  }

  method UnsetBitmap(blk: array<Byte>, ofs: nat, count: nat)
    requires ofs + count <= 8 * blk.Length
    requires AllBits(blk[..], ofs, ofs + count, true)
    modifies blk
    ensures blk[..] == FillBits(old(blk[..]), ofs, count, false)
  {
    hide Filled;
    hide BitOf;
    hide FillBits;
    ghost var before := blk[..];
    NothingFilled(before, ofs, false);
    var oe := Min(RoundUp8(ofs), ofs + count);
    var me := RoundDown8(ofs + count);
    var cs, ce := if oe < me then me else oe, ofs + count;
    ClearBits(blk, ofs, oe, before, ofs);
    var grp := oe / 8;
    while grp < me / 8
      invariant oe < me ==> oe % 8 == 0 && oe / 8 <= grp <= me / 8
      invariant Filled(before, blk[..], ofs, if oe < me then 8 * grp else oe, false)
    {
      ByteIs(before, blk[..], ofs, grp, ofs + count, false);
      assert blk[grp] == 0xff;
      FillByte(before, blk[..], ofs, grp, false);
      ghost var next := blk[..][grp := 0];
      blk[grp] := 0;
      assert blk[..] == next;
      grp := grp + 1;
    }
    ClearBits(blk, cs, ce, before, ofs);
    FillBitsFills(before, ofs, count, false);
    FilledIsUnique(before, blk[..], FillBits(before, ofs, count, false), ofs, ofs + count, false);
  }

  /** A byte that lies wholly in the part of the run not yet reached still holds the old bits. */
  lemma {:induction false} ByteIs(before: seq<Byte>, now: seq<Byte>, ofs: nat, grp: nat, end: nat, value: bool)
    requires ofs <= 8 * grp && 8 * (grp + 1) <= end <= 8 * |before|
    requires Filled(before, now, ofs, 8 * grp, value)
    requires AllBits(before, ofs, end, !value)
    ensures now[grp] == if value then 0 else 0xff
  {
    forall k | 0 <= k < 8
      ensures BitOf(now[grp], k) <==> BitOf(if value then 0 else 0xff, k)
    {
      assert Bit(now, 8 * grp + k) <==> Bit(before, 8 * grp + k);
      FullAndEmpty(k);
    }
    ByteExt(now[grp], if value then 0 else 0xff);
  }

  // ---- find_one and find_zero ----------------------------------------------------------------------

  function LeadingZeros(b: Byte): (n: nat)
    ensures n <= 8
  {
    if b >= 128 then 0 else if b >= 64 then 1 else if b >= 32 then 2 else if b >= 16 then 3
    else if b >= 8 then 4 else if b >= 4 then 5 else if b >= 2 then 6 else if b >= 1 then 7 else 8
  }

  /** Mask of the bits below k: `(1 << k) - 1`. */
  function Below(k: nat): Byte
    requires k < 8
  {
    Mask(k) - 1
  }

  /** `7 - (b & !(b - 1)).leading_zeros()`. */
  function LowestBit(b: Byte): (k: nat)
    requires b != 0
    ensures k < 8
    ensures BitOf(b, k) && forall j :: 0 <= j < k ==> !BitOf(b, j)
  {
    LowestBitCases(b, b & !(b - 1));
    7 - LeadingZeros(b & !(b - 1))
  }

  lemma {:induction false} LowestBitCases(b: Byte, low: Byte)
    requires b != 0 && low == b & !(b - 1)
    ensures LeadingZeros(low) <= 7
    ensures BitOf(b, 7 - LeadingZeros(low))
    ensures forall j :: 0 <= j < 7 - LeadingZeros(low) ==> !BitOf(b, j)
  {
    var k := LowestIndex(b, low);
    MaskValues();
    BitOfMask(b, k);
    assert b & Mask(k) != 0;
    forall j | 0 <= j < k
      ensures !BitOf(b, j)
    {
      BitOfMask(b, j);
    }
  }

  lemma {:induction false} LowestIndex(b: Byte, low: Byte) returns (k: nat)
    requires b != 0 && low == b & !(b - 1)
    ensures k < 8 && LeadingZeros(low) == 7 - k
    ensures b & Mask(k) != 0
    ensures forall j :: 0 <= j < k ==> b & Mask(j) == 0
  {
    MaskValues();
    if b & 1 != 0 { assert low == 1; return 0; }
    if b & 2 != 0 { assert low == 2; return 1; }
    if b & 4 != 0 { assert low == 4; return 2; }
    if b & 8 != 0 { assert low == 8; return 3; }
    if b & 16 != 0 { assert low == 16; return 4; }
    if b & 32 != 0 { assert low == 32; return 5; }
    if b & 64 != 0 { assert low == 64; return 6; }
    assert low == 128;
    return 7;
  }

  /** The least position not below `start` whose bit has the given value. */
  ghost predicate IsFirst(bitmap: seq<Byte>, start: nat, value: bool, r: Option<nat>) {
    match r
    case Some(p) => start <= p < 8 * |bitmap| && Bit(bitmap, p) == value && AllBits(bitmap, start, p, !value)
    case None => AllBits(bitmap, start, 8 * |bitmap|, !value)
  }

  lemma {:induction false} DropBelow(b: Byte, s: nat, k: nat)
    requires s < 8 && k < 8
    ensures BitOf(b & !Below(s), k) <==> s <= k && BitOf(b, k)
  {
    BitOfMask(b & !Below(s), k);
    BitOfMask(b, k);
    MaskValues();
  }

  lemma {:induction false} FlipAbove(b: Byte, s: nat, k: nat)
    requires s < 8 && k < 8
    ensures BitOf((b | Below(s)) ^ 0xff, k) <==> s <= k && !BitOf(b, k)
  {
    BitOfMask((b | Below(s)) ^ 0xff, k);
    BitOfMask(b, k);
    MaskValues();
  }

  /** The byte that the search looks at: the bits of the wanted value, as ones, from bit s on. */
  function Wanted(b: Byte, s: nat, value: bool): Byte
    requires s < 8
  {
    if value then b & !Below(s) else (b | Below(s)) ^ 0xff
  }

  lemma {:induction false} WantedBit(b: Byte, s: nat, value: bool, k: nat)
    requires s < 8 && k < 8
    ensures BitOf(Wanted(b, s, value), k) <==> s <= k && BitOf(b, k) == value
  {
    DropBelow(b, s, k);
    FlipAbove(b, s, k);
  }

  /** Scans the bytes from the one that holds bit `start`. */
  method FindBit(bitmap: seq<Byte>, start: nat, value: bool) returns (r: Option<nat>)
    ensures IsFirst(bitmap, start, value, r)
  {
    var group := start / 8;
    while group < |bitmap|
      invariant start / 8 <= group
      invariant AllBits(bitmap, start, if group == start / 8 then start else 8 * group, !value)
    {
      var b := Wanted(bitmap[group], if group == start / 8 then start % 8 else 0, value);
      if b != 0 {
        r := Some(group * 8 + LowestBit(b));
        FoundInByte(bitmap, start, value, group, b);
        return;
      }
      NotInByte(bitmap, start, value, group, b);
      group := group + 1;
    }
    return None;
  }

  lemma {:induction false} FoundInByte(bitmap: seq<Byte>, start: nat, value: bool, group: nat, b: Byte)
    requires start / 8 <= group < |bitmap| && b != 0
    requires b == Wanted(bitmap[group], if group == start / 8 then start % 8 else 0, value)
    requires AllBits(bitmap, start, if group == start / 8 then start else 8 * group, !value)
    ensures IsFirst(bitmap, start, value, Some(group * 8 + LowestBit(b)))
  {
    hide BitOf;
    hide Wanted;
    var s, k := if group == start / 8 then start % 8 else 0, LowestBit(b);
    var p := group * 8 + k;
    assert p / 8 == group && p % 8 == k;
    WantedBit(bitmap[group], s, value, k);
    forall q | start <= q < p
      ensures Bit(bitmap, q) == !value
    {
      if q >= 8 * group {
        assert q / 8 == group && q % 8 < k;
        WantedBit(bitmap[group], s, value, q % 8);
      }
    }
  }

  lemma {:induction false} NotInByte(bitmap: seq<Byte>, start: nat, value: bool, group: nat, b: Byte)
    requires start / 8 <= group < |bitmap| && b == 0
    requires b == Wanted(bitmap[group], if group == start / 8 then start % 8 else 0, value)
    requires AllBits(bitmap, start, if group == start / 8 then start else 8 * group, !value)
    ensures AllBits(bitmap, start, 8 * (group + 1), !value)
  {
    forall q | start <= q < 8 * (group + 1)
      ensures Bit(bitmap, q) == !value
    {
      if q >= 8 * group {
        var s := if group == start / 8 then start % 8 else 0;
        FullAndEmpty(q % 8);
        assert q / 8 == group;
        WantedBit(bitmap[group], s, value, q % 8);
      }
    }
  }

  method FindOne(bitmap: seq<Byte>, start: nat) returns (r: Option<nat>)
    ensures IsFirst(bitmap, start, true, r)
  {
    r := FindBit(bitmap, start, true);
  }

  method FindZero(bitmap: seq<Byte>, start: nat) returns (r: Option<nat>)
    ensures IsFirst(bitmap, start, false, r)
  {
    r := FindBit(bitmap, start, false);
  }

  // ---- build_buddy -----------------------------------------------------------------------------------

  predicate IsClear(bitmap: seq<Byte>, base: nat, end: nat, b: nat)
    requires end <= 8 * |bitmap|
  {
    base <= b < base + end && !Bit(bitmap, b - base)
  }

  /** The blocks of a group whose bit is clear, among the first `end` of the group. */
  ghost function ClearBlocks(bitmap: seq<Byte>, base: nat, end: nat): set<nat>
    requires end <= 8 * |bitmap|
  {
    set b | 0 <= b < base + end && IsClear(bitmap, base, end, b)
  }

  /** Between `pos` and `end` only the run [zero, end) is clear. */
  lemma {:induction false} ClearRun(bitmap: seq<Byte>, base: nat, pos: nat, zero: nat, end: nat, blocksCount: nat)
    requires pos <= zero <= end <= blocksCount <= 8 * |bitmap|
    requires AllBits(bitmap, pos, zero, true) && AllBits(bitmap, zero, end, false)
    ensures ClearBlocks(bitmap, base, end) == ClearBlocks(bitmap, base, pos) + Run(base + zero, end - zero)
    ensures ClearBlocks(bitmap, base, pos) !! Run(base + zero, end - zero)
    ensures ClearBlocks(bitmap, base, end) <= ClearBlocks(bitmap, base, blocksCount)
  {
    forall b: nat
      ensures b in Run(base + zero, end - zero) <==> IsClear(bitmap, base, end, b) && !IsClear(bitmap, base, pos, b)
    {
      if base <= b < base + end {
        assert Bit(bitmap, b - base) || !Bit(bitmap, b - base);
      }
    }
  }

  lemma {:induction false} NothingIsAdded(backref: Index, bitmap: seq<Byte>, base: nat, blocksCount: nat)
    requires blocksCount <= 8 * |bitmap|
    ensures AddedIn(backref, backref, base, blocksCount)
    ensures ClearBlocks(bitmap, base, 0) == {} && Run(base + blocksCount, 0) == {}
  {
    forall p | p in backref
      ensures AddedChunk(backref, backref, base, blocksCount, p)
    {
    }
  }

  lemma {:induction false} AddedMore(after: Index, mid: Index, before: Index, start: nat, len: nat, at: nat, n: nat)
    requires AddedIn(mid, before, start, len) && AddedIn(after, mid, at, n)
    requires start <= at && at + n <= start + len
    ensures AddedIn(after, before, start, len)
  {
    forall p | p in after
      ensures AddedChunk(after, before, start, len, p)
    {
      assert AddedChunk(after, mid, at, n, p);
      if p in mid && after[p] == mid[p] { assert AddedChunk(mid, before, start, len, p); }
    }
  }

  /** A chunk of order k at p cannot be twice as large: it has the largest order, or 64 if that is less, or
      p is not aligned to the double size, or not all of that is clear. */
  ghost predicate AsLargeAsClear(maxOrder: nat, p: nat, k: nat, clear: set<nat>) {
    k >= Min(maxOrder, 64) || !Aligned(p, k + 1) || !(Run(p, Pow2(k + 1)) <= clear)
  }

  ghost predicate LargestClearAt(after: Index, before: Index, maxOrder: nat, clear: set<nat>, p: nat)
    requires p in after
  {
    (p in before && after[p] == before[p]) || AsLargeAsClear(maxOrder, p, after[p], clear)
  }

  ghost predicate LargestClear(after: Index, before: Index, maxOrder: nat, clear: set<nat>) {
    forall p :: p in after ==> LargestClearAt(after, before, maxOrder, clear, p)
  }

  lemma {:induction false} SameIsLargestClear(backref: Index, maxOrder: nat, clear: set<nat>)
    ensures LargestClear(backref, backref, maxOrder, clear) && Extends(backref, backref)
  {
    forall p | p in backref
      ensures LargestClearAt(backref, backref, maxOrder, clear, p)
    {
    }
  }

  /** Behind the pushed run comes a block that is not clear, so chunks as large as they may be in the run
      are so among all clear blocks. */
  lemma {:induction false} LargestMore(after: Index, mid: Index, before: Index, maxOrder: nat, clear: set<nat>,
      at: nat, n: nat)
    requires LargestClear(mid, before, maxOrder, clear) && Extends(mid, before)
    requires AddedIn(after, mid, at, n) && Largest(after, mid, maxOrder, at + n) && Extends(after, mid)
    requires at + n !in clear
    ensures LargestClear(after, before, maxOrder, clear) && Extends(after, before)
  {
    forall p | p in after
      ensures LargestClearAt(after, before, maxOrder, clear, p)
    {
      assert LargestAt(after, mid, maxOrder, at + n, p) && AddedChunk(after, mid, at, n, p);
      if p in mid && after[p] == mid[p] {
        assert LargestClearAt(mid, before, maxOrder, clear, p);
      } else if p + Pow2(after[p] + 1) > at + n {
        assert at + n in Run(p, Pow2(after[p] + 1));
      }
    }
  }

  /** Fills the allocator with the free runs of one group's bitmap.  The bits past the last block
      of the group must be set, as the formatter leaves them. */
  method BuildBuddy(bitmap: seq<Byte>, blocksCount: nat, base: nat, buddy: BlockGroupBuddy)
    requires blocksCount <= 8 * |bitmap|
    requires AllBits(bitmap, blocksCount, 8 * |bitmap|, true)
    requires buddy.Valid() && ClearBlocks(bitmap, base, blocksCount) !! buddy.Free()
    modifies buddy
    ensures buddy.Valid()
    ensures buddy.Free() == old(buddy.Free()) + ClearBlocks(bitmap, base, blocksCount)
    ensures AddedIn(buddy.backref, old(buddy.backref), base, blocksCount)
    ensures Extends(buddy.backref, old(buddy.backref))
    ensures LargestClear(buddy.backref, old(buddy.backref), buddy.maxOrder, ClearBlocks(bitmap, base, blocksCount))
  {
    hide Extends;
    hide LargestClear;
    hide Largest;
    hide Run;
    hide FreeBlocks;
    hide AddedIn;
    hide WellFormed;
    hide BucketsAgree;
    NothingIsAdded(buddy.backref, bitmap, base, blocksCount);
    SameIsLargestClear(buddy.backref, buddy.maxOrder, ClearBlocks(bitmap, base, blocksCount));
    var pos := 0;
    while pos < blocksCount
      invariant pos <= blocksCount
      invariant buddy.Valid()
      invariant buddy.Free() == old(buddy.Free()) + ClearBlocks(bitmap, base, pos)
      invariant AddedIn(buddy.backref, old(buddy.backref), base, blocksCount)
      invariant Extends(buddy.backref, old(buddy.backref))
      invariant LargestClear(buddy.backref, old(buddy.backref), buddy.maxOrder, ClearBlocks(bitmap, base, blocksCount))
    {
      var z := FindZero(bitmap, pos);
      if z.None? {
        ClearRun(bitmap, base, pos, blocksCount, blocksCount, blocksCount);
        break;
      }
      var firstZero := z.value;
      var o := FindOne(bitmap, firstZero);
      var len := (if o.Some? then o.value else blocksCount) - firstZero;
      assert !Bit(bitmap, firstZero);
      assert blocksCount < 8 * |bitmap| ==> Bit(bitmap, blocksCount);
      ClearRun(bitmap, base, pos, firstZero, firstZero + len, blocksCount);
      pos := firstZero + len;
      ghost var before := buddy.backref;
      buddy.PushChunk(base + firstZero, len);
      AddedMore(buddy.backref, before, old(buddy.backref), base, blocksCount, base + firstZero, len);
      assert base + pos !in ClearBlocks(bitmap, base, blocksCount);
      LargestMore(buddy.backref, before, old(buddy.backref), buddy.maxOrder, ClearBlocks(bitmap, base, blocksCount),
                  base + firstZero, len);
    }
  }
}
