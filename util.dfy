/**
 * The byte- and bit-level toolkit of src/util/util.h: the size macros, the
 * bit tables, single-bit get/set/xor on byte arrays (LSB-first and
 * MSB-first), the fixed-length XOR loops, GetLSB and compare128.
 *
 * A `uint8_t*` into a caller's buffer is modelled as an array together with
 * an offset into it. Bytes are `bv8`.
 */
module Util {
  import opened GlobalConstants

  // ---------------------------------------------------------------------
  // Size macros
  // ---------------------------------------------------------------------

  lemma CeilDivideBounds(x: nat, y: nat)
    requires y > 0
    ensures ((x + y - 1) / y) * y >= x
    ensures (x + y - 1) / y == 0 || ((x + y - 1) / y - 1) * y < x
  {
    var q, r := (x + y - 1) / y, (x + y - 1) % y;
    assert x + y - 1 == q * y + r && 0 <= r < y;
    assert (q - 1) * y == q * y - y;
  }

  /** CEIL_DIVIDE(x, y): the least q with q * y >= x. */
  function CeilDivide(x: nat, y: nat): (q: nat)
    requires y > 0
    ensures q * y >= x
    ensures q == 0 || (q - 1) * y < x
  {
    CeilDivideBounds(x, y);
    (x + y - 1) / y
  }

  /** BITS_TO_BYTES(bits): the number of bytes that hold `bits` bits. */
  function BitsToBytes(bits: nat): (n: nat)
    ensures CHAR_BIT * n >= bits
    ensures CHAR_BIT * n < bits + CHAR_BIT
  {
    CeilDivide(bits, CHAR_BIT)
  }

  /** BYTES_TO_BITS(bytes); BITS_TO_BYTES undoes it. */
  function BytesToBits(bytes: nat): (bits: nat)
    ensures bits % CHAR_BIT == 0
    ensures BitsToBytes(bits) == bytes
  {
    bytes * CHAR_BIT
  }

  lemma MultipleOf(q: nat, y: nat)
    requires y > 0
    ensures (q * y) % y == 0
  {
    var d, r := (q * y) / y, (q * y) % y;
    assert q * y == d * y + r && 0 <= r < y;
    assert (q - d) * y == r;
    if q - d >= 1 {
      assert false;
    } else if q - d <= -1 {
      assert false;
    }
  }

  /** PAD_TO_MULTIPLE(x, y): the least multiple of y that is at least x. */
  function PadToMultiple(x: nat, y: nat): (r: nat)
    requires y > 0
    ensures r % y == 0
    ensures x <= r < x + y
  {
    var q := CeilDivide(x, y);
    MultipleOf(q, y);
    assert q * y - y == (q - 1) * y;
    q * y
  }

  // ---------------------------------------------------------------------
  // Bit tables
  // ---------------------------------------------------------------------

  const MASK_BIT: seq<bv8> := [0x80, 0x40, 0x20, 0x10, 0x08, 0x04, 0x02, 0x01]
  const BIT: seq<bv8> := [0x01, 0x02, 0x04, 0x08, 0x10, 0x20, 0x40, 0x80]
  const CMASK_BIT: seq<bv8> := [0x7F, 0xBF, 0xDF, 0xEF, 0xF7, 0xFB, 0xFD, 0xFE]
  const MASK_SET_BIT_C: seq<seq<bv8>> := [
    [0x80, 0x40, 0x20, 0x10, 0x08, 0x04, 0x02, 0x01],
    [0x00, 0x00, 0x00, 0x00, 0x00, 0x00, 0x00, 0x00]
  ]
  const SET_BIT_C: seq<seq<bv8>> := [
    [0x01, 0x02, 0x04, 0x08, 0x10, 0x20, 0x40, 0x80],
    [0x00, 0x00, 0x00, 0x00, 0x00, 0x00, 0x00, 0x00]
  ]
  const C_BIT: seq<bv8> := [0xFE, 0xFD, 0xFB, 0xF7, 0xEF, 0xDF, 0xBF, 0x7F]

  /** REVERSE_BYTE_ORDER, stored as sixteen rows of sixteen entries. */
  const REVERSE_BYTE_ORDER_ROWS: seq<seq<bv8>> := [
    [0x00, 0x80, 0x40, 0xC0, 0x20, 0xA0, 0x60, 0xE0, 0x10, 0x90, 0x50, 0xD0, 0x30, 0xB0, 0x70, 0xF0],
    [0x08, 0x88, 0x48, 0xC8, 0x28, 0xA8, 0x68, 0xE8, 0x18, 0x98, 0x58, 0xD8, 0x38, 0xB8, 0x78, 0xF8],
    [0x04, 0x84, 0x44, 0xC4, 0x24, 0xA4, 0x64, 0xE4, 0x14, 0x94, 0x54, 0xD4, 0x34, 0xB4, 0x74, 0xF4],
    [0x0C, 0x8C, 0x4C, 0xCC, 0x2C, 0xAC, 0x6C, 0xEC, 0x1C, 0x9C, 0x5C, 0xDC, 0x3C, 0xBC, 0x7C, 0xFC],
    [0x02, 0x82, 0x42, 0xC2, 0x22, 0xA2, 0x62, 0xE2, 0x12, 0x92, 0x52, 0xD2, 0x32, 0xB2, 0x72, 0xF2],
    [0x0A, 0x8A, 0x4A, 0xCA, 0x2A, 0xAA, 0x6A, 0xEA, 0x1A, 0x9A, 0x5A, 0xDA, 0x3A, 0xBA, 0x7A, 0xFA],
    [0x06, 0x86, 0x46, 0xC6, 0x26, 0xA6, 0x66, 0xE6, 0x16, 0x96, 0x56, 0xD6, 0x36, 0xB6, 0x76, 0xF6],
    [0x0E, 0x8E, 0x4E, 0xCE, 0x2E, 0xAE, 0x6E, 0xEE, 0x1E, 0x9E, 0x5E, 0xDE, 0x3E, 0xBE, 0x7E, 0xFE],
    [0x01, 0x81, 0x41, 0xC1, 0x21, 0xA1, 0x61, 0xE1, 0x11, 0x91, 0x51, 0xD1, 0x31, 0xB1, 0x71, 0xF1],
    [0x09, 0x89, 0x49, 0xC9, 0x29, 0xA9, 0x69, 0xE9, 0x19, 0x99, 0x59, 0xD9, 0x39, 0xB9, 0x79, 0xF9],
    [0x05, 0x85, 0x45, 0xC5, 0x25, 0xA5, 0x65, 0xE5, 0x15, 0x95, 0x55, 0xD5, 0x35, 0xB5, 0x75, 0xF5],
    [0x0D, 0x8D, 0x4D, 0xCD, 0x2D, 0xAD, 0x6D, 0xED, 0x1D, 0x9D, 0x5D, 0xDD, 0x3D, 0xBD, 0x7D, 0xFD],
    [0x03, 0x83, 0x43, 0xC3, 0x23, 0xA3, 0x63, 0xE3, 0x13, 0x93, 0x53, 0xD3, 0x33, 0xB3, 0x73, 0xF3],
    [0x0B, 0x8B, 0x4B, 0xCB, 0x2B, 0xAB, 0x6B, 0xEB, 0x1B, 0x9B, 0x5B, 0xDB, 0x3B, 0xBB, 0x7B, 0xFB],
    [0x07, 0x87, 0x47, 0xC7, 0x27, 0xA7, 0x67, 0xE7, 0x17, 0x97, 0x57, 0xD7, 0x37, 0xB7, 0x77, 0xF7],
    [0x0F, 0x8F, 0x4F, 0xCF, 0x2F, 0xAF, 0x6F, 0xEF, 0x1F, 0x9F, 0x5F, 0xDF, 0x3F, 0xBF, 0x7F, 0xFF]
  ]

  /** REVERSE_BYTE_ORDER[b]: row b / 16, column b % 16. */
  function ReverseByteOrder(b: bv8): bv8
  {
    REVERSE_BYTE_ORDER_ROWS[(b / 16) as int][(b % 16) as int]
  }

  /** BIT_TO_BYTE: a bit spread over a whole byte. */
  const BIT_TO_BYTE: seq<bv8> := [0x00, 0xFF]

  /** The relations between the tables that the bit operations rely on. */
  lemma BitTables()
    ensures forall k :: 0 <= k < 8 ==> BIT[k] == 1 << k && MASK_BIT[k] == BIT[7 - k]
    ensures forall k :: 0 <= k < 8 ==> C_BIT[k] == !BIT[k] && CMASK_BIT[k] == !MASK_BIT[k]
    ensures forall k :: 0 <= k < 8 ==> SET_BIT_C[0][k] == BIT[k] && SET_BIT_C[1][k] == 0
    ensures forall k :: 0 <= k < 8 ==> MASK_SET_BIT_C[0][k] == MASK_BIT[k] && MASK_SET_BIT_C[1][k] == 0
    ensures forall j, k :: 0 <= j < 8 && 0 <= k < 8 && j != k ==> BIT[j] & BIT[k] == 0
    ensures BIT_TO_BYTE[0] == 0x00 && BIT_TO_BYTE[1] == 0xFF
  {
  }

  // ---------------------------------------------------------------------
  // Single bits
  // ---------------------------------------------------------------------

  /** Bit k of byte x, counted from the least significant bit. */
  function BitOf(x: bv8, k: nat): bv8
    requires k < 8
  {
    (x >> k) & 1
  }

  /** The table test !!(x & BIT[k]) of the source reads bit k. */
  lemma BitOfTable(x: bv8, k: nat)
    requires k < 8
    ensures (if x & BIT[k] != 0 then 1 else 0) == BitOf(x, k)
  {
    if k == 0 {} else if k == 1 {} else if k == 2 {} else if k == 3 {}
    else if k == 4 {} else if k == 5 {} else if k == 6 {} else {}
  }

  /**
   * GetBit(idx, a): bit idx % 8 of byte idx / 8, LSB-first (the source shifts
   * idx right by 3 and masks it with 7, the same for the non-negative
   * indexes it is called with).
   */
  function GetBit(idx: nat, a: seq<bv8>): (r: bv8)
    requires idx / 8 < |a|
    ensures r == 0 || r == 1
  {
    BitOf(a[idx / 8], idx % 8)
  }

  /** GetBit is the source's table lookup !!(a[idx >> 3] & BIT[idx & 7]). */
  lemma GetBitTable(idx: nat, a: seq<bv8>)
    requires idx / 8 < |a|
    ensures GetBit(idx, a) == if a[idx / 8] & BIT[idx % 8] != 0 then 1 else 0
  {
    BitOfTable(a[idx / 8], idx % 8);
  }

  lemma MaskBitOf(x: bv8, k: nat)
    requires k < 8
    ensures (if x & MASK_BIT[k] != 0 then 1 else 0) == BitOf(x, 7 - k)
  {
    if k == 0 {} else if k == 1 {} else if k == 2 {} else if k == 3 {}
    else if k == 4 {} else if k == 5 {} else if k == 6 {} else {}
  }

  lemma ReversedIndex(idx: nat)
    ensures (8 * (idx / 8) + 7 - idx % 8) / 8 == idx / 8
    ensures (8 * (idx / 8) + 7 - idx % 8) % 8 == 7 - idx % 8
  {
  }

  /** GetBitReversed(idx, a): the same byte, bits counted from the MSB. */
  function GetBitReversed(idx: nat, a: seq<bv8>): (r: bv8)
    requires idx / 8 < |a|
    ensures r == GetBit(8 * (idx / 8) + 7 - idx % 8, a)
  {
    MaskBitOf(a[idx / 8], idx % 8);
    ReversedIndex(idx);
    if a[idx / 8] & MASK_BIT[idx % 8] != 0 then 1 else 0
  }

  /** Two bytes with the same eight bits are the same byte. */
  lemma ByteExt(x: bv8, y: bv8)
    requires forall k :: 0 <= k < 8 ==> BitOf(x, k) == BitOf(y, k)
    ensures x == y
  {
    assert BitOf(x, 0) == BitOf(y, 0) && BitOf(x, 1) == BitOf(y, 1);
    assert BitOf(x, 2) == BitOf(y, 2) && BitOf(x, 3) == BitOf(y, 3);
    assert BitOf(x, 4) == BitOf(y, 4) && BitOf(x, 5) == BitOf(y, 5);
    assert BitOf(x, 6) == BitOf(y, 6) && BitOf(x, 7) == BitOf(y, 7);
  }

  /** The byte SetBit stores: bit k of x replaced by bit 0 of b. */
  function SetBitInByte(x: bv8, k: nat, b: bv8): bv8
    requires k < 8
  {
    (x & C_BIT[k]) | SET_BIT_C[if b & 1 == 1 then 0 else 1][k]
  }

  /** The byte XORBit stores: bit k of x flipped when bit 0 of b is set. */
  function XorBitInByte(x: bv8, k: nat, b: bv8): bv8
    requires k < 8
  {
    x ^ SET_BIT_C[if b & 1 == 1 then 0 else 1][k]
  }

  /** Bit j after clearing bit k of x and or-ing in v << k. */
  lemma SetShift(x: bv8, k: nat, v: bv8, j: nat)
    requires k < 8 && j < 8 && v <= 1
    ensures (((x & !(1 << k)) | (v << k)) >> j) & 1 == if j == k then v else (x >> j) & 1
  {
    if k == 0 {} else if k == 1 {} else if k == 2 {} else if k == 3 {}
    else if k == 4 {} else if k == 5 {} else if k == 6 {} else {}
  }

  /** Bit j after XOR-ing v << k into x. */
  lemma XorShift(x: bv8, k: nat, v: bv8, j: nat)
    requires k < 8 && j < 8 && v <= 1
    ensures ((x ^ (v << k)) >> j) & 1 == if j == k then ((x >> j) & 1) ^ v else (x >> j) & 1
  {
  }

  /** The SET_BIT_C entry chosen by bit 0 of b is that bit moved to position k. */
  lemma SetBitCEntry(k: nat, b: bv8)
    requires k < 8
    ensures SET_BIT_C[if b & 1 == 1 then 0 else 1][k] == (b & 1) << k
  {
    if b & 1 == 1 {
      if k == 0 {} else if k == 1 {} else if k == 2 {} else if k == 3 {}
      else if k == 4 {} else if k == 5 {} else if k == 6 {} else {}
    } else {
      assert b & 1 == 0;
    }
  }

  /** C_BIT[k] is the byte with every bit but bit k set. */
  lemma CBitEntry(k: nat)
    requires k < 8
    ensures C_BIT[k] == !(1 << k)
  {
    if k == 0 {} else if k == 1 {} else if k == 2 {} else if k == 3 {}
    else if k == 4 {} else if k == 5 {} else if k == 6 {} else {}
  }

  lemma SetBitInByteBits(x: bv8, k: nat, b: bv8, j: nat)
    requires k < 8 && j < 8
    ensures BitOf(SetBitInByte(x, k, b), j) == if j == k then b & 1 else BitOf(x, j)
  {
    SetBitInByteForm(x, k, b);
    SetShift(x, k, b & 1, j);
  }

  /** SetBitInByte as shifts: bit k cleared, then bit 0 of b moved to position k or-ed in. */
  lemma SetBitInByteForm(x: bv8, k: nat, b: bv8)
    requires k < 8
    ensures b & 1 <= 1
    ensures SetBitInByte(x, k, b) == (x & !(1 << k)) | ((b & 1) << k)
  {
    SetBitCEntry(k, b);
    CBitEntry(k);
  }

  lemma XorBitInByteBits(x: bv8, k: nat, b: bv8, j: nat)
    requires k < 8 && j < 8
    ensures BitOf(XorBitInByte(x, k, b), j) == if j == k then BitOf(x, j) ^ (b & 1) else BitOf(x, j)
  {
    SetBitCEntry(k, b);
    XorShift(x, k, b & 1, j);
  }

  /** The array SetBit(idx, b, a) leaves behind, on values. */
  function WithBit(a: seq<bv8>, idx: nat, b: bv8): (r: seq<bv8>)
    requires idx / 8 < |a|
    ensures |r| == |a|
  {
    a[idx / 8 := SetBitInByte(a[idx / 8], idx % 8, b)]
  }

  /** The array XORBit(idx, b, a) leaves behind, on values. */
  function WithXorBit(a: seq<bv8>, idx: nat, b: bv8): (r: seq<bv8>)
    requires idx / 8 < |a|
    ensures |r| == |a|
  {
    a[idx / 8 := XorBitInByte(a[idx / 8], idx % 8, b)]
  }

  /** The array SetBitReversed(idx, b, a) leaves behind, on values. */
  function WithBitReversed(a: seq<bv8>, idx: nat, b: bv8): (r: seq<bv8>)
    requires idx / 8 < |a|
    ensures |r| == |a|
  {
    a[idx / 8 := (a[idx / 8] & CMASK_BIT[idx % 8]) | MASK_SET_BIT_C[if b & 1 == 1 then 0 else 1][idx % 8]]
  }

  /** The array XORBitReversed(idx, b, a) leaves behind, on values. */
  function WithXorBitReversed(a: seq<bv8>, idx: nat, b: bv8): (r: seq<bv8>)
    requires idx / 8 < |a|
    ensures |r| == |a|
  {
    a[idx / 8 := a[idx / 8] ^ MASK_SET_BIT_C[if b & 1 == 1 then 0 else 1][idx % 8]]
  }

  /** SetBit makes bit idx equal to bit 0 of b and changes no other bit. */
  lemma SetBitSpec(a: seq<bv8>, idx: nat, b: bv8)
    requires idx / 8 < |a|
    ensures forall j :: 0 <= j < 8 * |a| ==>
      GetBit(j, WithBit(a, idx, b)) == if j == idx then b & 1 else GetBit(j, a)
  {
    forall j | 0 <= j < 8 * |a|
      ensures GetBit(j, WithBit(a, idx, b)) == if j == idx then b & 1 else GetBit(j, a)
    {
      if j / 8 == idx / 8 {
        SetBitInByteBits(a[idx / 8], idx % 8, b, j % 8);
      }
    }
  }

  /** XORBit flips bit idx exactly when bit 0 of b is set; no other bit changes. */
  lemma XorBitSpec(a: seq<bv8>, idx: nat, b: bv8)
    requires idx / 8 < |a|
    ensures forall j :: 0 <= j < 8 * |a| ==>
      GetBit(j, WithXorBit(a, idx, b)) == if j == idx then GetBit(idx, a) ^ (b & 1) else GetBit(j, a)
  {
    forall j | 0 <= j < 8 * |a|
      ensures GetBit(j, WithXorBit(a, idx, b)) == if j == idx then GetBit(idx, a) ^ (b & 1) else GetBit(j, a)
    {
      if j / 8 == idx / 8 {
        XorBitInByteBits(a[idx / 8], idx % 8, b, j % 8);
      }
    }
  }

  /** The four-argument XORBit (SetBit with x, then XORBit with y) leaves (x ^ y) & 1 in bit idx. */
  lemma XorBitPairSpec(a: seq<bv8>, idx: nat, x: bv8, y: bv8)
    requires idx / 8 < |a|
    ensures forall j :: 0 <= j < 8 * |a| ==>
      GetBit(j, WithXorBit(WithBit(a, idx, x), idx, y)) == if j == idx then (x ^ y) & 1 else GetBit(j, a)
  {
    SetBitSpec(a, idx, x);
    XorBitSpec(WithBit(a, idx, x), idx, y);
    forall j | 0 <= j < 8 * |a|
      ensures GetBit(j, WithXorBit(WithBit(a, idx, x), idx, y)) == if j == idx then (x ^ y) & 1 else GetBit(j, a)
    {
      if j == idx {
        assert (x & 1) ^ (y & 1) == (x ^ y) & 1;
      }
    }
  }

  /** SetBitReversed addresses the bits of a byte from the MSB down. */
  lemma SetBitReversedSpec(a: seq<bv8>, idx: nat, b: bv8)
    requires idx / 8 < |a|
    ensures WithBitReversed(a, idx, b) == WithBit(a, 8 * (idx / 8) + 7 - idx % 8, b)
  {
    BitTables();
    ReversedIndex(idx);
  }

  /** XORBitReversed addresses the bits of a byte from the MSB down. */
  lemma XorBitReversedSpec(a: seq<bv8>, idx: nat, b: bv8)
    requires idx / 8 < |a|
    ensures WithXorBitReversed(a, idx, b) == WithXorBit(a, 8 * (idx / 8) + 7 - idx % 8, b)
  {
    BitTables();
    ReversedIndex(idx);
  }

  /** A bit index below 8 * bytes lies in one of the bytes. */
  lemma BitIndexBound(idx: nat, bytes: nat)
    requires idx < 8 * bytes
    ensures idx / 8 < bytes
  {
  }

  lemma PointerIndex(off: nat, idx: nat)
    ensures (8 * off + idx) / 8 == off + idx / 8 && (8 * off + idx) % 8 == idx % 8
  {
  }

  /** Bit idx of the array that starts at byte off of a. */
  lemma GetBitAt(a: seq<bv8>, off: nat, idx: nat)
    requires off + idx / 8 < |a|
    ensures GetBit(idx, a[off..]) == GetBit(8 * off + idx, a)
  {
  }

  /** SetBit(idx, b, a + off). */
  method SetBit(idx: nat, b: bv8, a: array<bv8>, off: nat)
    requires off + idx / 8 < a.Length
    modifies a
    ensures a[..] == WithBit(old(a[..]), 8 * off + idx, b)
  {
    PointerIndex(off, idx);
    a[off + idx / 8] := (a[off + idx / 8] & C_BIT[idx % 8]) | SET_BIT_C[if b & 1 == 1 then 0 else 1][idx % 8];
  }

  /** XORBit(idx, b, a + off). */
  method XorBit(idx: nat, b: bv8, a: array<bv8>, off: nat)
    requires off + idx / 8 < a.Length
    modifies a
    ensures a[..] == WithXorBit(old(a[..]), 8 * off + idx, b)
  {
    PointerIndex(off, idx);
    a[off + idx / 8] := a[off + idx / 8] ^ SET_BIT_C[if b & 1 == 1 then 0 else 1][idx % 8];
  }

  /** The four-argument XORBit(idx, x, y, a + off). */
  method XorBitPair(idx: nat, x: bv8, y: bv8, a: array<bv8>, off: nat)
    requires off + idx / 8 < a.Length
    modifies a
    ensures a[..] == WithXorBit(WithBit(old(a[..]), 8 * off + idx, x), 8 * off + idx, y)
  {
    SetBit(idx, x, a, off);
    XorBit(idx, y, a, off);
  }

  /** SetBitReversed(idx, b, a + off). */
  method SetBitReversed(idx: nat, b: bv8, a: array<bv8>, off: nat)
    requires off + idx / 8 < a.Length
    modifies a
    ensures a[..] == WithBitReversed(old(a[..]), 8 * off + idx, b)
  {
    PointerIndex(off, idx);
    a[off + idx / 8] := (a[off + idx / 8] & CMASK_BIT[idx % 8]) | MASK_SET_BIT_C[if b & 1 == 1 then 0 else 1][idx % 8];
  }

  /** XORBitReversed(idx, b, a + off). */
  method XorBitReversed(idx: nat, b: bv8, a: array<bv8>, off: nat)
    requires off + idx / 8 < a.Length
    modifies a
    ensures a[..] == WithXorBitReversed(old(a[..]), 8 * off + idx, b)
  {
    PointerIndex(off, idx);
    a[off + idx / 8] := a[off + idx / 8] ^ MASK_SET_BIT_C[if b & 1 == 1 then 0 else 1][idx % 8];
  }

  // ---------------------------------------------------------------------
  // 128-bit helpers
  // ---------------------------------------------------------------------

  /**
   * _mm_movemask_pd on the 16 bytes at a: bit 0 is the sign bit of the low
   * 64-bit lane (top bit of byte 7), bit 1 that of the high lane (top bit of
   * byte 15).
   */
  function MoveMaskPd(a: seq<bv8>): (r: nat)
    requires |a| >= 16
    ensures r < 4
    ensures r % 2 == 1 <==> BitOf(a[7], 7) == 1
    ensures r / 2 == 1 <==> BitOf(a[15], 7) == 1
  {
    (if a[7] & 0x80 != 0 then 1 else 0) + (if a[15] & 0x80 != 0 then 2 else 0)
  }

  /** GetLSB: movemask result 2 or 3, which is exactly bit 127 of the block. */
  function GetLSB(a: seq<bv8>): (r: bv8)
    requires |a| >= CSEC_BYTES
    ensures r == GetBit(127, a)
  {
    var m := MoveMaskPd(a);
    if m == 2 || m == 3 then 1 else 0
  }

  /** compare128: the XOR of the two blocks tests all-zero exactly when they are equal. */
  function Compare128(a: seq<bv8>, b: seq<bv8>): (r: bool)
    requires |a| >= CSEC_BYTES && |b| >= CSEC_BYTES
    ensures r <==> a[..CSEC_BYTES] == b[..CSEC_BYTES]
  {
    var c := Xor(a[..CSEC_BYTES], b[..CSEC_BYTES]);
    assert forall i :: 0 <= i < CSEC_BYTES ==> (c[i] == 0 <==> a[i] == b[i]);
    forall i :: 0 <= i < CSEC_BYTES ==> c[i] == 0
  }

  // ---------------------------------------------------------------------
  // Byte strings
  // ---------------------------------------------------------------------

  /** Byte-wise XOR of two equally long byte strings. */
  function Xor(a: seq<bv8>, b: seq<bv8>): (r: seq<bv8>)
    requires |a| == |b|
    ensures |r| == |a|
    ensures forall i :: 0 <= i < |a| ==> r[i] == a[i] ^ b[i]
  {
    seq(|a|, i requires 0 <= i < |a| => a[i] ^ b[i])
  }

  /** s with the bytes from off on overwritten by mid. */
  function Splice(s: seq<bv8>, off: nat, mid: seq<bv8>): (r: seq<bv8>)
    requires off + |mid| <= |s|
    ensures |r| == |s|
    ensures forall i :: 0 <= i < |s| ==> r[i] == if off <= i < off + |mid| then mid[i - off] else s[i]
  {
    s[..off] + mid + s[off + |mid|..]
  }

  /** A run of n copies of v. */
  function Repeat(n: nat, v: bv8): (r: seq<bv8>)
    ensures |r| == n
    ensures forall i :: 0 <= i < n ==> r[i] == v
  {
    seq(n, _ => v)
  }

  /** std::fill(a + off, a + off + n, v). */
  method Fill(a: array<bv8>, off: nat, n: nat, v: bv8)
    requires off + n <= a.Length
    modifies a
    ensures a[..] == Splice(old(a[..]), off, Repeat(n, v))
  {
    ghost var a0 := a[..];
    var i := 0;
    while i < n
      invariant 0 <= i <= n
      invariant forall k :: 0 <= k < a.Length ==> a[k] == if off <= k < off + i then v else a0[k]
    {
      a[off + i] := v;
      i := i + 1;
    }
    assert a[..] == Splice(a0, off, Repeat(n, v));
  }

  /** std::copy of the bytes src into a + off. */
  method Copy(a: array<bv8>, off: nat, src: seq<bv8>)
    requires off + |src| <= a.Length
    modifies a
    ensures a[..] == Splice(old(a[..]), off, src)
  {
    ghost var a0 := a[..];
    var i := 0;
    while i < |src|
      invariant 0 <= i <= |src|
      invariant forall k :: 0 <= k < a.Length ==> a[k] == if off <= k < off + i then src[k - off] else a0[k]
    {
      a[off + i] := src[i];
      i := i + 1;
    }
    assert a[..] == Splice(a0, off, src);
  }

  /** The spliced-in bytes read back. */
  lemma SpliceSlice(s: seq<bv8>, off: nat, mid: seq<bv8>)
    requires off + |mid| <= |s|
    ensures Splice(s, off, mid)[off..off + |mid|] == mid
  {
  }

  /** A splice over the whole string is its replacement. */
  lemma SpliceWhole(s: seq<bv8>, mid: seq<bv8>)
    requires |mid| == |s|
    ensures Splice(s, 0, mid) == mid
  {
  }

  /** A second splice over the same bytes overrides the first. */
  lemma SpliceTwice(s: seq<bv8>, off: nat, m1: seq<bv8>, m2: seq<bv8>)
    requires off + |m1| <= |s| && |m2| == |m1|
    ensures Splice(Splice(s, off, m1), off, m2) == Splice(s, off, m2)
  {
  }

  /** Splicing in a prefix, then the rest of the same block, splices in the block. */
  lemma SpliceJoin(s: seq<bv8>, off: nat, m1: seq<bv8>, m2: seq<bv8>)
    requires off + |m1| + |m2| <= |s|
    ensures Splice(Splice(s, off, m1), off + |m1|, m2) == Splice(s, off, m1 + m2)
  {
  }

  /** Writing back the bytes already there changes nothing. */
  lemma SpliceOwn(s: seq<bv8>, off: nat, len: nat)
    requires off + len <= |s|
    ensures Splice(s, off, s[off..off + len]) == s
  {
  }

  /** Overwriting a prefix of a run is overwriting the whole run with that prefix and the run's old tail. */
  lemma SpliceHead(s: seq<bv8>, off: nat, mid: seq<bv8>, e: seq<bv8>)
    requires off + |e| <= |s| && e == s[off..off + |e|] && |mid| <= |e|
    ensures Splice(s, off, mid) == Splice(s, off, mid + e[|mid|..])
  {
  }

  /** SetBit at bit idx of a spliced block is SetBit inside the block. */
  lemma SpliceWithBit(s: seq<bv8>, off: nat, mid: seq<bv8>, idx: nat, b: bv8)
    requires off + |mid| <= |s| && idx / 8 < |mid|
    ensures (8 * off + idx) / 8 < |s|
    ensures WithBit(Splice(s, off, mid), 8 * off + idx, b) == Splice(s, off, WithBit(mid, idx, b))
  {
    PointerIndex(off, idx);
  }

  // ---------------------------------------------------------------------
  // XOR loops
  // ---------------------------------------------------------------------

  /** XOR_UINT8_T(dest + dOff, src + sOff, size): dest[i] ^= src[i] for i < size. */
  method XorUint8(dest: array<bv8>, dOff: nat, src: array<bv8>, sOff: nat, size: nat)
    requires dOff + size <= dest.Length && sOff + size <= src.Length
    requires src != dest
    modifies dest
    ensures dest[..] == Splice(old(dest[..]), dOff, Xor(old(dest[dOff..dOff + size]), src[sOff..sOff + size]))
  {
    ghost var d0 := dest[..];
    ghost var mid := Xor(dest[dOff..dOff + size], src[sOff..sOff + size]);
    var i := 0;
    while i < size
      invariant 0 <= i <= size
      invariant forall k :: 0 <= k < dest.Length ==> dest[k] == if dOff <= k < dOff + i then mid[k - dOff] else d0[k]
    {
      dest[dOff + i] := dest[dOff + i] ^ src[sOff + i];
      i := i + 1;
    }
    assert dest[..] == Splice(d0, dOff, mid);
  }

  /** XOR_UINT8_T(dest + dOff, src0 + s0Off, src1 + s1Off, size): dest[i] = src0[i] ^ src1[i]. */
  method XorUint8Pair(dest: array<bv8>, dOff: nat, src0: array<bv8>, s0Off: nat, src1: array<bv8>, s1Off: nat, size: nat)
    requires dOff + size <= dest.Length && s0Off + size <= src0.Length && s1Off + size <= src1.Length
    requires src0 != dest && src1 != dest
    modifies dest
    ensures dest[..] == Splice(old(dest[..]), dOff, Xor(src0[s0Off..s0Off + size], src1[s1Off..s1Off + size]))
  {
    ghost var d0 := dest[..];
    ghost var mid := Xor(src0[s0Off..s0Off + size], src1[s1Off..s1Off + size]);
    var i := 0;
    while i < size
      invariant 0 <= i <= size
      invariant forall k :: 0 <= k < dest.Length ==> dest[k] == if dOff <= k < dOff + i then mid[k - dOff] else d0[k]
    {
      dest[dOff + i] := src0[s0Off + i] ^ src1[s1Off + i];
      i := i + 1;
    }
    assert dest[..] == Splice(d0, dOff, mid);
  }

  /** XOR_128: 16 bytes. */
  method Xor128(dest: array<bv8>, dOff: nat, src: array<bv8>, sOff: nat)
    requires dOff + CSEC_BYTES <= dest.Length && sOff + CSEC_BYTES <= src.Length && src != dest
    modifies dest
    ensures dest[..] == Splice(old(dest[..]), dOff, Xor(old(dest[dOff..dOff + CSEC_BYTES]), src[sOff..sOff + CSEC_BYTES]))
  {
    XorUint8(dest, dOff, src, sOff, CSEC_BYTES);
  }

  /** The three-operand XOR_128. */
  method Xor128Pair(dest: array<bv8>, dOff: nat, src0: array<bv8>, s0Off: nat, src1: array<bv8>, s1Off: nat)
    requires dOff + CSEC_BYTES <= dest.Length && s0Off + CSEC_BYTES <= src0.Length && s1Off + CSEC_BYTES <= src1.Length
    requires src0 != dest && src1 != dest
    modifies dest
    ensures dest[..] == Splice(old(dest[..]), dOff, Xor(src0[s0Off..s0Off + CSEC_BYTES], src1[s1Off..s1Off + CSEC_BYTES]))
  {
    XorUint8Pair(dest, dOff, src0, s0Off, src1, s1Off, CSEC_BYTES);
  }

  /** XOR_CheckBits: CODEWORD_BYTES - CSEC_BYTES = 17 bytes. */
  method XorCheckBits(dest: array<bv8>, dOff: nat, src: array<bv8>, sOff: nat)
    requires dOff + BCH_BYTES <= dest.Length && sOff + BCH_BYTES <= src.Length && src != dest
    modifies dest
    ensures dest[..] == Splice(old(dest[..]), dOff, Xor(old(dest[dOff..dOff + BCH_BYTES]), src[sOff..sOff + BCH_BYTES]))
  {
    XorUint8(dest, dOff, src, sOff, CODEWORD_BYTES - CSEC_BYTES);
  }

  /** The three-operand XOR_CheckBits. */
  method XorCheckBitsPair(dest: array<bv8>, dOff: nat, src0: array<bv8>, s0Off: nat, src1: array<bv8>, s1Off: nat)
    requires dOff + BCH_BYTES <= dest.Length && s0Off + BCH_BYTES <= src0.Length && s1Off + BCH_BYTES <= src1.Length
    requires src0 != dest && src1 != dest
    modifies dest
    ensures dest[..] == Splice(old(dest[..]), dOff, Xor(src0[s0Off..s0Off + BCH_BYTES], src1[s1Off..s1Off + BCH_BYTES]))
  {
    XorUint8Pair(dest, dOff, src0, s0Off, src1, s1Off, CODEWORD_BYTES - CSEC_BYTES);
  }

  /** XOR_CodeWords: 33 bytes. */
  method XorCodeWords(dest: array<bv8>, dOff: nat, src: array<bv8>, sOff: nat)
    requires dOff + CODEWORD_BYTES <= dest.Length && sOff + CODEWORD_BYTES <= src.Length && src != dest
    modifies dest
    ensures dest[..] == Splice(old(dest[..]), dOff, Xor(old(dest[dOff..dOff + CODEWORD_BYTES]), src[sOff..sOff + CODEWORD_BYTES]))
  {
    XorUint8(dest, dOff, src, sOff, CODEWORD_BYTES);
  }

  /** The three-operand XOR_CodeWords. */
  method XorCodeWordsPair(dest: array<bv8>, dOff: nat, src0: array<bv8>, s0Off: nat, src1: array<bv8>, s1Off: nat)
    requires dOff + CODEWORD_BYTES <= dest.Length && s0Off + CODEWORD_BYTES <= src0.Length && s1Off + CODEWORD_BYTES <= src1.Length
    requires src0 != dest && src1 != dest
    modifies dest
    ensures dest[..] == Splice(old(dest[..]), dOff, Xor(src0[s0Off..s0Off + CODEWORD_BYTES], src1[s1Off..s1Off + CODEWORD_BYTES]))
  {
    XorUint8Pair(dest, dOff, src0, s0Off, src1, s1Off, CODEWORD_BYTES);
  }

  /** XOR_BitCodeWords: 5 bytes. */
  method XorBitCodeWords(dest: array<bv8>, dOff: nat, src: array<bv8>, sOff: nat)
    requires dOff + BIT_CODEWORD_BYTES <= dest.Length && sOff + BIT_CODEWORD_BYTES <= src.Length && src != dest
    modifies dest
    ensures dest[..] == Splice(old(dest[..]), dOff, Xor(old(dest[dOff..dOff + BIT_CODEWORD_BYTES]), src[sOff..sOff + BIT_CODEWORD_BYTES]))
  {
    XorUint8(dest, dOff, src, sOff, BIT_CODEWORD_BYTES);
  }

  /** The three-operand XOR_BitCodeWords. */
  method XorBitCodeWordsPair(dest: array<bv8>, dOff: nat, src0: array<bv8>, s0Off: nat, src1: array<bv8>, s1Off: nat)
    requires dOff + BIT_CODEWORD_BYTES <= dest.Length && s0Off + BIT_CODEWORD_BYTES <= src0.Length
    requires s1Off + BIT_CODEWORD_BYTES <= src1.Length
    requires src0 != dest && src1 != dest
    modifies dest
    ensures dest[..] == Splice(old(dest[..]), dOff, Xor(src0[s0Off..s0Off + BIT_CODEWORD_BYTES], src1[s1Off..s1Off + BIT_CODEWORD_BYTES]))
  {
    XorUint8Pair(dest, dOff, src0, s0Off, src1, s1Off, BIT_CODEWORD_BYTES);
  }

  // ---------------------------------------------------------------------
  // REVERSE_BYTE_ORDER
  // ---------------------------------------------------------------------

  /** The bit reversal of a byte: bit k moves to bit 7 - k. */
  function ReverseBits(b: bv8): bv8
  {
    ((b & 0x01) << 7) | ((b & 0x02) << 5) | ((b & 0x04) << 3) | ((b & 0x08) << 1) |
    ((b & 0x10) >> 1) | ((b & 0x20) >> 3) | ((b & 0x40) >> 5) | ((b & 0x80) >> 7)
  }

  /** ReverseBits moves bit k to bit 7 - k. */
  lemma ReverseBitsSpec(b: bv8, k: nat)
    requires k < 8
    ensures BitOf(ReverseBits(b), k) == BitOf(b, 7 - k)
  {
    if k == 0 {} else if k == 1 {} else if k == 2 {} else if k == 3 {}
    else if k == 4 {} else if k == 5 {} else if k == 6 {} else {}
  }

  lemma ReversesRow0()
    ensures forall b: bv8 :: b / 16 == 0 ==> ReverseByteOrder(b) == ReverseBits(b)
  {
  }

  lemma ReversesRow1()
    ensures forall b: bv8 :: b / 16 == 1 ==> ReverseByteOrder(b) == ReverseBits(b)
  {
  }

  lemma ReversesRow2()
    ensures forall b: bv8 :: b / 16 == 2 ==> ReverseByteOrder(b) == ReverseBits(b)
  {
  }

  lemma ReversesRow3()
    ensures forall b: bv8 :: b / 16 == 3 ==> ReverseByteOrder(b) == ReverseBits(b)
  {
  }

  lemma ReversesRow4()
    ensures forall b: bv8 :: b / 16 == 4 ==> ReverseByteOrder(b) == ReverseBits(b)
  {
  }

  lemma ReversesRow5()
    ensures forall b: bv8 :: b / 16 == 5 ==> ReverseByteOrder(b) == ReverseBits(b)
  {
  }

  lemma ReversesRow6()
    ensures forall b: bv8 :: b / 16 == 6 ==> ReverseByteOrder(b) == ReverseBits(b)
  {
  }

  lemma ReversesRow7()
    ensures forall b: bv8 :: b / 16 == 7 ==> ReverseByteOrder(b) == ReverseBits(b)
  {
  }

  lemma ReversesRow8()
    ensures forall b: bv8 :: b / 16 == 8 ==> ReverseByteOrder(b) == ReverseBits(b)
  {
  }

  lemma ReversesRow9()
    ensures forall b: bv8 :: b / 16 == 9 ==> ReverseByteOrder(b) == ReverseBits(b)
  {
  }

  lemma ReversesRow10()
    ensures forall b: bv8 :: b / 16 == 10 ==> ReverseByteOrder(b) == ReverseBits(b)
  {
  }

  lemma ReversesRow11()
    ensures forall b: bv8 :: b / 16 == 11 ==> ReverseByteOrder(b) == ReverseBits(b)
  {
  }

  lemma ReversesRow12()
    ensures forall b: bv8 :: b / 16 == 12 ==> ReverseByteOrder(b) == ReverseBits(b)
  {
  }

  lemma ReversesRow13()
    ensures forall b: bv8 :: b / 16 == 13 ==> ReverseByteOrder(b) == ReverseBits(b)
  {
  }

  lemma ReversesRow14()
    ensures forall b: bv8 :: b / 16 == 14 ==> ReverseByteOrder(b) == ReverseBits(b)
  {
  }

  lemma ReversesRow15()
    ensures forall b: bv8 :: b / 16 == 15 ==> ReverseByteOrder(b) == ReverseBits(b)
  {
  }

  /** REVERSE_BYTE_ORDER[b] is the bit reversal of b; in particular entry 1 is 0x80. */
  lemma ReverseByteOrderSpec()
    ensures forall b: bv8 :: ReverseByteOrder(b) == ReverseBits(b)
    ensures ReverseByteOrder(1) == 0x80
  {
    ReversesRow0(); ReversesRow1(); ReversesRow2(); ReversesRow3();
    ReversesRow4(); ReversesRow5(); ReversesRow6(); ReversesRow7();
    ReversesRow8(); ReversesRow9(); ReversesRow10(); ReversesRow11();
    ReversesRow12(); ReversesRow13(); ReversesRow14(); ReversesRow15();
    forall b: bv8
      ensures ReverseByteOrder(b) == ReverseBits(b)
    {
      var r := b / 16;
      if r == 0 {} else if r == 1 {} else if r == 2 {} else if r == 3 {} else if r == 4 {} else if r == 5 {} else if r == 6 {} else if r == 7 {} else if r == 8 {} else if r == 9 {} else if r == 10 {} else if r == 11 {} else if r == 12 {} else if r == 13 {} else if r == 14 {} else { assert r == 15; }
    }
  }
}
