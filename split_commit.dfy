/**
 * The part of the commitment scheme the Sender and the Receiver share
 * (src/split-commit/split-commit.cpp): the code parameters derived from the
 * message size, the repetition encoder for 1-bit messages, and the
 * per-commitment theory both sides rely on.
 *
 * A commitment to a message is a codeword of `cword_bytes` bytes: message
 * bytes at the front, `parity_bytes` check bytes from `msg_in_cword_offset`
 * on. The Sender holds two XOR-shares s0, s1 of it; the Receiver holds, for
 * every bit position j, bit j of s0 or of s1 as bit j of its OT choice
 * vector c says. `Agree(c, r, s0, s1)` is that relation, stated byte-wise
 * the way the code computes with it; `AgreeBits` is the bit-wise form the
 * test asserts.
 */
module SplitCommit {
  import opened GlobalConstants
  import opened Util
  import opened Errors
  import opened ByteArrayVec

  /** std::numeric_limits<uint32_t>::max(): "no threshold" for set_lsb_start_idx. */
  const UINT32_MAX: nat := 0xFFFF_FFFF

  /** COMMIT_TYPE. */
  datatype CommitType = Normal | AllZeroLsbRnd | AllRndLsbZero

  /** The size fields of a SplitCommit object. */
  datatype Params = Params(
    msgBits: nat,
    msgBytes: nat,
    cwordBits: nat,
    cwordBytes: nat,
    parityBits: nat,
    parityBytes: nat,
    msgInCwordOffset: nat)

  /** plaintextU8Size() and codewordU8Size() of the 128-bit code the constructor loads. */
  const PLAINTEXT_U8_SIZE: nat := CSEC_BYTES
  const CODEWORD_U8_SIZE: nat := BCH_BYTES

  /** The derived fields, computed as the constructor computes them. */
  function WithSizes(msgBits: nat, parityBytes: nat, cwordBytes: nat, offset: nat): Params
  {
    Params(msgBits, BitsToBytes(msgBits), cwordBytes * CHAR_BIT, cwordBytes,
           parityBytes * CHAR_BIT, parityBytes, offset)
  }

  /**
   * SplitCommit(msg_bits): the parameters for 1-bit and 128-bit messages;
   * any other size throws.
   */
  function DeriveParams(msgBits: nat): (r: Result<Params>)
    ensures r.Ok? <==> msgBits == 1 || msgBits == 128
    ensures r.Err? ==> r.error == UnsupportedMsgSize
    ensures r.Ok? ==>
      r.value.msgBits == msgBits &&
      r.value.msgBytes == BitsToBytes(msgBits) &&
      r.value.cwordBits == CHAR_BIT * r.value.cwordBytes &&
      r.value.parityBits == CHAR_BIT * r.value.parityBytes &&
      r.value.msgInCwordOffset + r.value.parityBytes == r.value.cwordBytes
    ensures msgBits == 1 ==>
      r.value.parityBytes == 5 && r.value.cwordBytes == 5 && r.value.msgInCwordOffset == 0
    ensures msgBits == 128 ==>
      r.value.msgInCwordOffset == PLAINTEXT_U8_SIZE &&
      r.value.parityBytes == CODEWORD_U8_SIZE &&
      r.value.cwordBytes == r.value.parityBytes + r.value.msgInCwordOffset
  {
    if msgBits == 1 then
      Ok(WithSizes(1, 5, 5, 0))
    else if msgBits == 128 then
      Ok(WithSizes(128, CODEWORD_U8_SIZE, CODEWORD_U8_SIZE + PLAINTEXT_U8_SIZE, PLAINTEXT_U8_SIZE))
    else
      Err(UnsupportedMsgSize)
  }

  const BIT_PARAMS: Params := Params(1, 1, 40, 5, 40, 5, 0)
  const BLOCK_PARAMS: Params := Params(128, 16, 264, 33, 136, 17, 16)

  /** The parameters of a successfully constructed object. */
  predicate ValidParams(p: Params)
  {
    p == BIT_PARAMS || p == BLOCK_PARAMS
  }

  /** The two supported parameter sets are exactly what the constructor derives. */
  lemma DeriveParamsValues(msgBits: nat)
    ensures DeriveParams(msgBits).Ok? ==> ValidParams(DeriveParams(msgBits).value)
    ensures DeriveParams(1) == Ok(BIT_PARAMS) && DeriveParams(128) == Ok(BLOCK_PARAMS)
    ensures BLOCK_PARAMS.cwordBytes == CODEWORD_BYTES && BIT_PARAMS.cwordBytes == BIT_CODEWORD_BYTES
  {
    assert BitsToBytes(1) == 1;
    assert BitsToBytes(128) == 16;
  }

  /**
   * code.encode: maps the 16 message bytes at the front of its input to the
   * codewordU8Size() check bytes. It is a parameter: nothing is assumed of
   * it but its output length.
   */
  type Encoder = seq<bv8> -> CheckBlock

  /** The codewordU8Size() check bytes the encoder produces. */
  type CheckBlock = s: seq<bv8> | |s| == CODEWORD_U8_SIZE witness Repeat(CODEWORD_U8_SIZE, 0)

  // ---------------------------------------------------------------------
  // The repetition code of 1-bit commitments
  // ---------------------------------------------------------------------

  /** The n bytes BitEncode writes for bit d: all 0x00 or all 0xFF. */
  function BitEncoded(n: nat, d: bv8): (r: seq<bv8>)
    requires d <= 1
    ensures |r| == n
    ensures forall i :: 0 <= i < n ==> r[i] == if d == 0 then 0x00 else 0xFF
  {
    Repeat(n, BIT_TO_BYTE[d])
  }

  /** Bit 0 of the encoding gives the bit back. */
  lemma BitEncodedDecodes(n: nat, d: bv8)
    requires d <= 1 && n > 0
    ensures GetBit(0, BitEncoded(n, d)) == d
  {
    assert BitEncoded(n, d)[0] == if d == 0 then 0x00 else 0xFF;
  }

  /** The check bytes the verifier recomputes from a candidate codeword w. */
  function CheckBits(p: Params, enc: Encoder, w: seq<bv8>): (r: seq<bv8>)
    requires ValidParams(p) && |w| == p.cwordBytes
    ensures |r| == p.parityBytes
  {
    if p.msgBits == 1 then BitEncoded(p.cwordBytes, GetBit(0, w))
    else enc(w[..PLAINTEXT_U8_SIZE])
  }

  /** w is a codeword: its check bytes are those of its message. */
  predicate IsCodeword(p: Params, enc: Encoder, w: seq<bv8>)
    requires ValidParams(p)
  {
    |w| == p.cwordBytes &&
    w[p.msgInCwordOffset..p.msgInCwordOffset + p.parityBytes] == CheckBits(p, enc, w)
  }

  /** A 1-bit codeword is five bytes all 0x00 or all 0xFF, i.e. a BitEncode output. */
  lemma BitCodewords(enc: Encoder, w: seq<bv8>)
    requires |w| == BIT_PARAMS.cwordBytes
    ensures IsCodeword(BIT_PARAMS, enc, w) <==> w == BitEncoded(5, GetBit(0, w))
  {
  }

  /** The message bytes a codeword carries. */
  function Message(p: Params, w: seq<bv8>): (m: seq<bv8>)
    requires ValidParams(p) && |w| == p.cwordBytes
    ensures |m| == p.msgBytes
  {
    w[..p.msgBytes]
  }

  // ---------------------------------------------------------------------
  // Choice-bit selection
  // ---------------------------------------------------------------------

  /** Byte-wise selection by a choice byte m: the bits of b where m is set, of a elsewhere. */
  function SelectByte(m: bv8, a: bv8, b: bv8): bv8
  {
    (b & m) | (a & !m)
  }

  /** Bit k of a selected byte comes from b when bit k of m is set and from a otherwise. */
  lemma SelectByteBits(m: bv8, a: bv8, b: bv8, k: nat)
    requires k < 8
    ensures BitOf(SelectByte(m, a, b), k) == if BitOf(m, k) == 1 then BitOf(b, k) else BitOf(a, k)
  {
    if k == 0 {} else if k == 1 {} else if k == 2 {} else if k == 3 {}
    else if k == 4 {} else if k == 5 {} else if k == 6 {} else {}
  }

  /** Byte i of r is the selection of byte i of s0 and s1 by choice byte c[i]. */
  predicate SelectedAt(c: seq<bv8>, r: seq<bv8>, s0: seq<bv8>, s1: seq<bv8>, i: nat)
    requires i < |r| == |s0| == |s1| <= |c|
  {
    r[i] == SelectByte(c[i], s0[i], s1[i])
  }

  /** The Receiver's share r agrees with the Sender's shares under choice bytes c. */
  predicate Agree(c: seq<bv8>, r: seq<bv8>, s0: seq<bv8>, s1: seq<bv8>)
  {
    |r| == |s0| == |s1| <= |c| &&
    forall i :: 0 <= i < |r| ==> SelectedAt(c, r, s0, s1, i)
  }

  /** The bit-wise statement of agreement: bit j of r is bit j of s[c_j]. */
  predicate AgreeBits(c: seq<bv8>, r: seq<bv8>, s0: seq<bv8>, s1: seq<bv8>)
  {
    |r| == |s0| == |s1| <= |c| &&
    forall j :: 0 <= j < 8 * |r| ==>
      GetBit(j, r) == if GetBit(j, c) == 1 then GetBit(j, s1) else GetBit(j, s0)
  }

  /** The byte-wise and the bit-wise statements of agreement are the same. */
  lemma AgreeIffBits(c: seq<bv8>, r: seq<bv8>, s0: seq<bv8>, s1: seq<bv8>)
    ensures Agree(c, r, s0, s1) <==> AgreeBits(c, r, s0, s1)
  {
    if |r| == |s0| == |s1| <= |c| {
      if Agree(c, r, s0, s1) {
        forall j | 0 <= j < 8 * |r|
          ensures GetBit(j, r) == if GetBit(j, c) == 1 then GetBit(j, s1) else GetBit(j, s0)
        {
          assert SelectedAt(c, r, s0, s1, j / 8);
          SelectByteBits(c[j / 8], s0[j / 8], s1[j / 8], j % 8);
        }
      }
      if AgreeBits(c, r, s0, s1) {
        forall i | 0 <= i < |r|
          ensures SelectedAt(c, r, s0, s1, i)
        {
          var sel := SelectByte(c[i], s0[i], s1[i]);
          forall k | 0 <= k < 8
            ensures BitOf(r[i], k) == BitOf(sel, k)
          {
            var j := 8 * i + k;
            assert j / 8 == i && j % 8 == k;
            assert GetBit(j, r) == if GetBit(j, c) == 1 then GetBit(j, s1) else GetBit(j, s0);
            SelectByteBits(c[i], s0[i], s1[i], k);
          }
          ByteExt(r[i], sel);
        }
      }
    }
  }

  /** Selecting from s1 ^ d instead of s1 adds the chosen bits of d. */
  lemma SelectXor(m: bv8, a: bv8, b: bv8, d: bv8)
    ensures SelectByte(m, a, b ^ d) == SelectByte(m, a, b) ^ (d & m)
  {
  }

  /** Replacing byte k of s1 by y and byte k of r by its new selection keeps agreement. */
  lemma AgreeUpdate(c: seq<bv8>, r: seq<bv8>, s0: seq<bv8>, s1: seq<bv8>, k: nat, x: bv8, y: bv8)
    requires Agree(c, r, s0, s1) && k < |r| && x == SelectByte(c[k], s0[k], y)
    ensures Agree(c, r[k := x], s0, s1[k := y])
  {
    var r', s1' := r[k := x], s1[k := y];
    forall i | 0 <= i < |r|
      ensures SelectedAt(c, r', s0, s1', i)
    {
      if i != k {
        assert SelectedAt(c, r, s0, s1, i);
      }
    }
  }

  /** Where both shares hold the same byte, the selection is that byte. */
  lemma SelectSame(m: bv8, a: bv8)
    ensures SelectByte(m, a, a) == a
  {
  }

  // ---------------------------------------------------------------------
  // Commit-type shaping (the loops at the start of both Commit methods)
  // ---------------------------------------------------------------------

  /**
   * One entry after the commit-type loop: ALL_ZERO_LSB_RND zeroes the
   * msg_bytes message bytes and puts the old bit 127 back; ALL_RND_LSB_ZERO
   * clears bit 127; NORMAL leaves the entry alone.
   */
  function Shape(t: CommitType, msgBytes: nat, e: seq<bv8>): (r: seq<bv8>)
    requires t != Normal ==> msgBytes == CSEC_BYTES && |e| >= CSEC_BYTES
    ensures |r| == |e|
  {
    match t
    case Normal => e
    case AllZeroLsbRnd => WithBit(Repeat(msgBytes, 0) + e[msgBytes..], 127, GetLSB(e))
    case AllRndLsbZero => WithBit(e, 127, 0)
  }

  /**
   * What shaping does to each bit: ALL_ZERO_LSB_RND clears bits 0..126 and
   * keeps bit 127, ALL_RND_LSB_ZERO clears bit 127 only; every bit from 128
   * on is kept.
   */
  lemma ShapeBits(t: CommitType, e: seq<bv8>)
    requires |e| >= CSEC_BYTES
    ensures forall j :: 0 <= j < 8 * |e| ==>
      GetBit(j, Shape(t, CSEC_BYTES, e)) ==
        if t == AllZeroLsbRnd && j < 127 then 0
        else if t == AllRndLsbZero && j == 127 then 0
        else GetBit(j, e)
  {
    match t
    case Normal =>
    case AllZeroLsbRnd =>
      var z := Repeat(CSEC_BYTES, 0) + e[CSEC_BYTES..];
      SetBitSpec(z, 127, GetLSB(e));
      forall j | 0 <= j < 8 * |e|
        ensures GetBit(j, Shape(t, CSEC_BYTES, e)) == if j < 127 then 0 else GetBit(j, e)
      {
        if j < 127 {
          assert z[j / 8] == 0;
        } else if j > 127 {
          assert z[j / 8] == e[j / 8];
        }
      }
    case AllRndLsbZero =>
      SetBitSpec(e, 127, 0);
  }

  /**
   * Shaping commutes with selection: the Receiver shaping its selected share
   * gets the selection of the Sender's two shaped shares.
   */
  lemma ShapeAgrees(t: CommitType, c: seq<bv8>, r: seq<bv8>, s0: seq<bv8>, s1: seq<bv8>)
    requires |r| >= CSEC_BYTES && Agree(c, r, s0, s1)
    ensures Agree(c, Shape(t, CSEC_BYTES, r), Shape(t, CSEC_BYTES, s0), Shape(t, CSEC_BYTES, s1))
  {
    var r', s0', s1' := Shape(t, CSEC_BYTES, r), Shape(t, CSEC_BYTES, s0), Shape(t, CSEC_BYTES, s1);
    AgreeIffBits(c, r, s0, s1);
    ShapeBits(t, r);
    ShapeBits(t, s0);
    ShapeBits(t, s1);
    assert AgreeBits(c, r', s0', s1') by {
      forall j | 0 <= j < 8 * |r'|
        ensures GetBit(j, r') == if GetBit(j, c) == 1 then GetBit(j, s1') else GetBit(j, s0')
      {
      }
    }
    AgreeIffBits(c, r', s0', s1');
  }

  // ---------------------------------------------------------------------
  // Threshold LSB correction
  // ---------------------------------------------------------------------

  /** flip_table: the byte that sets bit 127 (bit 7 of byte 15), and no flip. */
  function FlipTable(): seq<bv8>
  {
    [0x80, 0x00]
  }

  /** The table is the source's {REVERSE_BYTE_ORDER[1], 0}. */
  lemma FlipTableIsReversedOne()
    ensures FlipTable() == [ReverseByteOrder(1), 0]
  {
    ReverseByteOrderSpec();
  }

  /** commit_share[msg_bytes - 1] ^= flip_table[bit]. */
  function LsbFlip(e: seq<bv8>, msgBytes: nat, bit: bv8): (r: seq<bv8>)
    requires 0 < msgBytes <= |e| && bit <= 1
    ensures |r| == |e|
  {
    e[msgBytes - 1 := e[msgBytes - 1] ^ FlipTable()[if bit == 0 then 0 else 1]]
  }

  /** The correction bit the Sender sends for one commitment: the LSB of s0 ^ s1. */
  function LsbCorrection(s0: seq<bv8>, s1: seq<bv8>): (b: bv8)
    requires |s0| >= CSEC_BYTES && |s1| >= CSEC_BYTES
    ensures b <= 1
    ensures b == GetBit(127, Xor(s0[..CSEC_BYTES], s1[..CSEC_BYTES]))
  {
    assert Xor(s0[..CSEC_BYTES], s1[..CSEC_BYTES])[15] == s0[15] ^ s1[15];
    XorBitOf(s0[15], s1[15], 7);
    GetLSB(s0) ^ GetLSB(s1)
  }

  lemma XorBitOf(x: bv8, y: bv8, k: nat)
    requires k < 8
    ensures BitOf(x ^ y, k) == BitOf(x, k) ^ BitOf(y, k)
  {
    if k == 0 {} else if k == 1 {} else if k == 2 {} else if k == 3 {}
    else if k == 4 {} else if k == 5 {} else if k == 6 {} else {}
  }

  /** Bit k of a XOR of two strings is the XOR of their bits k. */
  lemma GetBitXor(a: seq<bv8>, b: seq<bv8>, k: nat)
    requires |a| == |b| && k < 8 * |a|
    ensures GetBit(k, Xor(a, b)) == GetBit(k, a) ^ GetBit(k, b)
  {
    XorBitOf(a[k / 8], b[k / 8], k % 8);
  }

  /** The LSB of a XOR is the XOR of the LSBs. */
  lemma GetLSBXor(a: seq<bv8>, b: seq<bv8>)
    requires |a| == |b| >= CSEC_BYTES
    ensures GetLSB(Xor(a, b)) == GetLSB(a) ^ GetLSB(b)
  {
    GetBitXor(a, b, 127);
  }

  /** GetLSB reads only the first 16 bytes. */
  lemma GetLSBPrefix(a: seq<bv8>, b: seq<bv8>)
    requires |a| >= CSEC_BYTES && |b| >= CSEC_BYTES && a[..CSEC_BYTES] == b[..CSEC_BYTES]
    ensures GetLSB(a) == GetLSB(b)
  {
    assert a[15] == b[15];
  }

  /**
   * The Sender's flip sets bit 127 of s1 to the complement of bit 127 of s0,
   * so the LSB of s0 ^ s1 becomes 1; nothing else changes.
   */
  lemma SenderLsbFlip(s0: seq<bv8>, s1: seq<bv8>)
    requires |s0| >= CSEC_BYTES && |s1| >= CSEC_BYTES
    ensures LsbFlip(s1, CSEC_BYTES, LsbCorrection(s0, s1)) == WithBit(s1, 127, GetLSB(s0) ^ 1)
    ensures GetLSB(s0) ^ GetLSB(LsbFlip(s1, CSEC_BYTES, LsbCorrection(s0, s1))) == 1
  {
    var b := LsbCorrection(s0, s1);
    var s1' := LsbFlip(s1, CSEC_BYTES, b);
    assert s1'[15] == SetBitInByte(s1[15], 7, GetLSB(s0) ^ 1) by {
      assert BitOf(s0[15], 7) == GetLSB(s0) && BitOf(s1[15], 7) == GetLSB(s1);
    }
    assert s1' == WithBit(s1, 127, GetLSB(s0) ^ 1);
    SetBitSpec(s1, 127, GetLSB(s0) ^ 1);
  }

  lemma FlipSelect(x: bv8, y: bv8, m: bv8, f: bv8)
    requires y == x ^ (f & m) && (f == 0x80 || f == 0)
    ensures (if (m >> 7) & 1 == 1 then x ^ f else x) == y
  {
    if f == 0 {} else {}
  }

  /** The flip byte is taken into the selection exactly when the choice byte's top bit is set. */
  lemma FlipByteAgrees(m: bv8, a: bv8, b: bv8, x: bv8, f: bv8)
    requires x == SelectByte(m, a, b) && (f == 0x80 || f == 0)
    ensures BitOf(m, 7) == 1 ==> x ^ f == SelectByte(m, a, b ^ f)
    ensures BitOf(m, 7) == 0 ==> x == SelectByte(m, a, b ^ f)
  {
    SelectXor(m, a, b, f);
    FlipSelect(x, SelectByte(m, a, b ^ f), m, f);
  }

  /** Flipping byte 15 of both shares keeps it selected when choice bit 127 is set. */
  lemma FlipByte15Both(c: seq<bv8>, r: seq<bv8>, s0: seq<bv8>, s1: seq<bv8>, b: bv8)
    requires CSEC_BYTES <= |r| == |s0| == |s1| <= |c| && b <= 1
    requires SelectedAt(c, r, s0, s1, 15) && BitOf(c[15], 7) == 1
    ensures SelectedAt(c, LsbFlip(r, CSEC_BYTES, b), s0, LsbFlip(s1, CSEC_BYTES, b), 15)
  {
    var f := FlipTable()[if b == 0 then 0 else 1];
    LsbFlipAt15(s1, b);
    LsbFlipAt15(r, b);
    FlipBothSelects(c[15], s0[15], s1[15], r[15], f);
  }

  /** x is the selection of a and b by choice byte m. */
  predicate Selects(m: bv8, a: bv8, b: bv8, x: bv8)
  {
    x == SelectByte(m, a, b)
  }

  /** With the top choice bit set, flipping the top bit of both x and b keeps x selected. */
  lemma FlipBothSelects(m: bv8, a: bv8, b: bv8, x: bv8, f: bv8)
    requires Selects(m, a, b, x) && BitOf(m, 7) == 1
    requires f == 0x80 || f == 0
    ensures Selects(m, a, b ^ f, x ^ f)
  {
    FlipByteAgrees(m, a, b, x, f);
  }

  /** Flipping byte 15 of s1 alone keeps it selected when choice bit 127 is clear. */
  lemma FlipByte15One(c: seq<bv8>, r: seq<bv8>, s0: seq<bv8>, s1: seq<bv8>, b: bv8)
    requires CSEC_BYTES <= |r| == |s0| == |s1| <= |c| && b <= 1
    requires SelectedAt(c, r, s0, s1, 15) && BitOf(c[15], 7) == 0
    ensures SelectedAt(c, r, s0, LsbFlip(s1, CSEC_BYTES, b), 15)
  {
    LsbFlipAt15(s1, b);
    FlipByteAgrees(c[15], s0[15], s1[15], r[15], FlipTable()[if b == 0 then 0 else 1]);
  }

  /**
   * The Receiver applies the same flip, but only when its choice bit 127 is
   * set; agreement with the flipped Sender share is kept.
   */
  lemma ReceiverLsbFlipAgrees(c: seq<bv8>, r: seq<bv8>, s0: seq<bv8>, s1: seq<bv8>, b: bv8)
    requires |r| >= CSEC_BYTES && Agree(c, r, s0, s1) && b <= 1
    ensures GetBit(127, c) == 1 ==> Agree(c, LsbFlip(r, CSEC_BYTES, b), s0, LsbFlip(s1, CSEC_BYTES, b))
    ensures GetBit(127, c) == 0 ==> Agree(c, r, s0, LsbFlip(s1, CSEC_BYTES, b))
  {
    var r', s1' := LsbFlip(r, CSEC_BYTES, b), LsbFlip(s1, CSEC_BYTES, b);
    var g := BitOf(c[15], 7);
    assert GetBit(127, c) == g;
    assert SelectedAt(c, r, s0, s1, 15);
    if g == 1 {
      FlipByte15Both(c, r, s0, s1, b);
    } else {
      FlipByte15One(c, r, s0, s1, b);
    }
    forall i | 0 <= i < |r| && i != 15
      ensures SelectedAt(c, r', s0, s1', i) && SelectedAt(c, r, s0, s1', i)
    {
      assert SelectedAt(c, r, s0, s1, i);
    }
  }

  /** With 16 message bytes the flip is on byte 15. */
  lemma LsbFlipAt15(e: seq<bv8>, bit: bv8)
    requires |e| >= CSEC_BYTES && bit <= 1
    ensures LsbFlip(e, CSEC_BYTES, bit) == e[15 := e[15] ^ FlipTable()[if bit == 0 then 0 else 1]]
  {
  }

  lemma UpdateSame(e: seq<bv8>, k: nat)
    requires k < |e|
    ensures e[k := e[k]] == e
  {
  }

  // ---------------------------------------------------------------------
  // Check-bit correction
  // ---------------------------------------------------------------------

  /** The new s1 CheckbitCorrection writes: s0's check bytes XOR the check bytes of s0 ^ s1. */
  function CorrectedShare(p: Params, enc: Encoder, s0: seq<bv8>, s1: seq<bv8>): (r: seq<bv8>)
    requires ValidParams(p) && |s0| == |s1| == p.cwordBytes
    ensures |r| == p.cwordBytes
  {
    var off := p.msgInCwordOffset;
    s1[..off] + Xor(s0[off..], CheckBits(p, enc, Xor(s0, s1)))
  }

  /** The correction CheckbitCorrection sends: the check bytes of s0 ^ s1 XOR its actual check bytes. */
  function Correction(p: Params, enc: Encoder, s0: seq<bv8>, s1: seq<bv8>): (r: seq<bv8>)
    requires ValidParams(p) && |s0| == |s1| == p.cwordBytes
    ensures |r| == p.parityBytes
  {
    var off := p.msgInCwordOffset;
    Xor(CheckBits(p, enc, Xor(s0, s1)), Xor(s0, s1)[off..])
  }

  /**
   * After the correction s0 ^ s1 is a codeword carrying the same message
   * bytes as before; for 1-bit messages it is BitEncode of the old bit 0,
   * and bit 0 of s1 is unchanged.
   */
  lemma CorrectionMakesCodeword(p: Params, enc: Encoder, s0: seq<bv8>, s1: seq<bv8>)
    requires ValidParams(p) && |s0| == |s1| == p.cwordBytes
    ensures IsCodeword(p, enc, Xor(s0, CorrectedShare(p, enc, s0, s1)))
    ensures Xor(s0, CorrectedShare(p, enc, s0, s1))[..p.msgInCwordOffset] == Xor(s0, s1)[..p.msgInCwordOffset]
    ensures p.msgBits == 128 ==> Message(p, Xor(s0, CorrectedShare(p, enc, s0, s1))) == Message(p, Xor(s0, s1))
    ensures p.msgBits == 1 ==>
      Xor(s0, CorrectedShare(p, enc, s0, s1)) == BitEncoded(5, GetBit(0, Xor(s0, s1))) &&
      GetBit(0, CorrectedShare(p, enc, s0, s1)) == GetBit(0, s1)
  {
    var off := p.msgInCwordOffset;
    var v := Xor(s0, s1);
    var code := CheckBits(p, enc, v);
    var s1' := CorrectedShare(p, enc, s0, s1);
    var v' := Xor(s0, s1');
    assert v'[off..] == code;
    if p.msgBits == 1 {
      var d := GetBit(0, v);
      assert v' == code;
      assert v[0] == s0[0] ^ s1[0];
      XorBitOf(s0[0], s1[0], 0);
      XorBitOf(s0[0], code[0], 0);
      BitEncodedDecodes(5, d);
    } else {
      assert v'[..PLAINTEXT_U8_SIZE] == v[..PLAINTEXT_U8_SIZE];
    }
  }

  /** s with d XORed into the bytes from off on. */
  function XorAt(s: seq<bv8>, off: nat, d: seq<bv8>): (r: seq<bv8>)
    requires off + |d| <= |s|
    ensures |r| == |s|
  {
    Splice(s, off, Xor(s[off..off + |d|], d))
  }

  /** The sent correction is exactly the change to s1's check bytes; the rest of s1 stays. */
  lemma CorrectionIsDelta(p: Params, enc: Encoder, s0: seq<bv8>, s1: seq<bv8>)
    requires ValidParams(p) && |s0| == |s1| == p.cwordBytes
    ensures CorrectedShare(p, enc, s0, s1) == XorAt(s1, p.msgInCwordOffset, Correction(p, enc, s0, s1))
  {
    var off := p.msgInCwordOffset;
    var s1' := CorrectedShare(p, enc, s0, s1);
    var x := XorAt(s1, off, Correction(p, enc, s0, s1));
    forall i | 0 <= i < |s1|
      ensures s1'[i] == x[i]
    {
    }
  }

  /** The Receiver's step: share[off + q] ^= corr[q] & c[off + q]. */
  function ApplyCorrection(c: seq<bv8>, r: seq<bv8>, off: nat, corr: seq<bv8>): (r': seq<bv8>)
    requires off + |corr| <= |r| <= |c|
    ensures |r'| == |r|
  {
    Splice(r, off, seq(|corr|, q requires 0 <= q < |corr| => r[off + q] ^ (corr[q] & c[off + q])))
  }

  /** XORing d into the selected byte's b side adds the masked d to the selection. */
  lemma SelectXorStep(x: bv8, m: bv8, a: bv8, b: bv8, d: bv8)
    requires x == SelectByte(m, a, b)
    ensures x ^ (d & m) == SelectByte(m, a, b ^ d)
  {
    SelectXor(m, a, b, d);
  }

  /** Byte i of the Receiver's corrected share. */
  lemma ApplyCorrectionAt(c: seq<bv8>, r: seq<bv8>, off: nat, d: seq<bv8>, i: nat)
    requires off + |d| <= |r| <= |c| && i < |r|
    ensures ApplyCorrection(c, r, off, d)[i] == if off <= i < off + |d| then r[i] ^ (d[i - off] & c[i]) else r[i]
  {
    var m := seq(|d|, q requires 0 <= q < |d| => r[off + q] ^ (d[q] & c[off + q]));
    assert ApplyCorrection(c, r, off, d) == Splice(r, off, m);
    if off <= i < off + |d| {
      assert m[i - off] == r[i] ^ (d[i - off] & c[i]);
    }
  }

  /** Byte i of s with d XORed in from off on. */
  lemma XorAtAt(s: seq<bv8>, off: nat, d: seq<bv8>, i: nat)
    requires off + |d| <= |s| && i < |s|
    ensures XorAt(s, off, d)[i] == if off <= i < off + |d| then s[i] ^ d[i - off] else s[i]
  {
    var x := Xor(s[off..off + |d|], d);
    assert XorAt(s, off, d) == Splice(s, off, x);
    if off <= i < off + |d| {
      assert x[i - off] == s[off..off + |d|][i - off] ^ d[i - off];
    }
  }

  lemma ApplyCorrectionByte(c: seq<bv8>, r: seq<bv8>, s0: seq<bv8>, s1: seq<bv8>, off: nat, d: seq<bv8>, i: nat)
    requires |r| == |s0| == |s1| <= |c| && off + |d| <= |r| && i < |r|
    requires r[i] == SelectByte(c[i], s0[i], s1[i])
    ensures ApplyCorrection(c, r, off, d)[i] == SelectByte(c[i], s0[i], XorAt(s1, off, d)[i])
  {
    ApplyCorrectionAt(c, r, off, d, i);
    XorAtAt(s1, off, d, i);
    if off <= i < off + |d| {
      SelectXorStep(r[i], c[i], s0[i], s1[i], d[i - off]);
    }
  }

  /** XORing d into s1 from off on is mirrored by the Receiver's masked XOR of d. */
  lemma ApplyCorrectionAgrees(c: seq<bv8>, r: seq<bv8>, s0: seq<bv8>, s1: seq<bv8>, off: nat, d: seq<bv8>)
    requires Agree(c, r, s0, s1) && off + |d| <= |r|
    ensures Agree(c, ApplyCorrection(c, r, off, d), s0, XorAt(s1, off, d))
  {
    var r' := ApplyCorrection(c, r, off, d);
    var s1' := XorAt(s1, off, d);
    forall i | 0 <= i < |r|
      ensures SelectedAt(c, r', s0, s1', i)
    {
      assert SelectedAt(c, r, s0, s1, i);
      ApplyCorrectionByte(c, r, s0, s1, off, d, i);
    }
  }

  /**
   * Fed the Sender's correction, the Receiver's step maps the selection of
   * (s0, s1) to the selection of (s0, s1'), s1' the corrected share.
   */
  lemma CorrectionAgrees(p: Params, enc: Encoder, c: seq<bv8>, r: seq<bv8>, s0: seq<bv8>, s1: seq<bv8>)
    requires ValidParams(p) && |s0| == |s1| == p.cwordBytes && Agree(c, r, s0, s1)
    ensures Agree(c, ApplyCorrection(c, r, p.msgInCwordOffset, Correction(p, enc, s0, s1)),
                  s0, CorrectedShare(p, enc, s0, s1))
  {
    CorrectionIsDelta(p, enc, s0, s1);
    ApplyCorrectionAgrees(c, r, s0, s1, p.msgInCwordOffset, Correction(p, enc, s0, s1));
  }

  // ---------------------------------------------------------------------
  // Decommitment
  // ---------------------------------------------------------------------

  /** The byte test of VerifyDecommits: x ^ (b & m) ^ (a & ~m) is zero. */
  predicate ByteOpens(x: bv8, m: bv8, a: bv8, b: bv8)
  {
    x ^ (b & m) ^ (a & !m) == 0
  }

  /** The byte test passes exactly when x is the selection of a and b by m. */
  lemma ByteOpensIff(x: bv8, m: bv8, a: bv8, b: bv8)
    ensures ByteOpens(x, m, a, b) <==> x == SelectByte(m, a, b)
  {
  }

  /** The byte test at index i of a share. */
  predicate OpensAt(c: seq<bv8>, r: seq<bv8>, d0: seq<bv8>, d1: seq<bv8>, i: nat)
    requires i < |c| == |r| == |d0| == |d1|
  {
    ByteOpens(r[i], c[i], d0[i], d1[i])
  }

  /**
   * The per-commitment test of VerifyDecommits: every checked byte of the
   * Receiver's share is the selection of the opened shares, and the opened
   * check bytes are those of the opened message. The checked bytes are
   * 0 .. msg_bytes - 1 and msg_in_cword_offset .. + parity_bytes - 1.
   */
  predicate DecommitOk(p: Params, enc: Encoder, c: seq<bv8>, r: seq<bv8>, d0: seq<bv8>, d1: seq<bv8>)
    requires ValidParams(p) && |c| == |r| == |d0| == |d1| == p.cwordBytes
  {
    var off := p.msgInCwordOffset;
    (forall i :: 0 <= i < p.msgBytes ==> OpensAt(c, r, d0, d1, i)) &&
    (forall i :: off <= i < off + p.parityBytes ==> OpensAt(c, r, d0, d1, i)) &&
    (forall q :: 0 <= q < p.parityBytes ==> CheckBits(p, enc, Xor(d0, d1))[q] == Xor(d0, d1)[off + q])
  }

  /** The checked bytes are all the bytes of the codeword. */
  lemma DecommitOkBytes(p: Params, enc: Encoder, c: seq<bv8>, r: seq<bv8>, d0: seq<bv8>, d1: seq<bv8>)
    requires ValidParams(p) && |c| == |r| == |d0| == |d1| == p.cwordBytes
    ensures DecommitOk(p, enc, c, r, d0, d1) <==>
      (forall i :: 0 <= i < |r| ==> OpensAt(c, r, d0, d1, i)) &&
      (forall q :: 0 <= q < p.parityBytes ==>
        CheckBits(p, enc, Xor(d0, d1))[q] == Xor(d0, d1)[p.msgInCwordOffset + q])
  {
    var off := p.msgInCwordOffset;
    if DecommitOk(p, enc, c, r, d0, d1) {
      forall i | 0 <= i < |r|
        ensures OpensAt(c, r, d0, d1, i)
      {
        assert i < p.msgBytes || off <= i < off + p.parityBytes by {
          if p == BIT_PARAMS {} else {}
        }
      }
    }
  }

  /**
   * Since the checked bytes cover the whole codeword in both parameter
   * sets, the test passes exactly when the share agrees with the opened
   * shares and their XOR is a codeword.
   */
  lemma DecommitOkIff(p: Params, enc: Encoder, c: seq<bv8>, r: seq<bv8>, d0: seq<bv8>, d1: seq<bv8>)
    requires ValidParams(p) && |c| == |r| == |d0| == |d1| == p.cwordBytes
    ensures DecommitOk(p, enc, c, r, d0, d1) <==> Agree(c, r, d0, d1) && IsCodeword(p, enc, Xor(d0, d1))
  {
    var off := p.msgInCwordOffset;
    var v := Xor(d0, d1);
    var code := CheckBits(p, enc, v);
    DecommitOkBytes(p, enc, c, r, d0, d1);
    if DecommitOk(p, enc, c, r, d0, d1) {
      forall i | 0 <= i < |r|
        ensures SelectedAt(c, r, d0, d1, i)
      {
        assert OpensAt(c, r, d0, d1, i);
        ByteOpensIff(r[i], c[i], d0[i], d1[i]);
      }
      assert v[off..off + p.parityBytes] == code;
    }
    if Agree(c, r, d0, d1) && IsCodeword(p, enc, v) {
      forall i | 0 <= i < |r|
        ensures OpensAt(c, r, d0, d1, i)
      {
        assert SelectedAt(c, r, d0, d1, i);
        ByteOpensIff(r[i], c[i], d0[i], d1[i]);
      }
      forall q | 0 <= q < p.parityBytes
        ensures code[q] == v[off + q]
      {
        assert v[off..off + p.parityBytes][q] == v[off + q];
      }
    }
  }

  // ---------------------------------------------------------------------
  // Bit-matrix transpose (osuCrypto::sse_transpose, as a specification)
  // ---------------------------------------------------------------------

  /** The byte whose bit t is bit 0 of f[t]. */
  function ByteFromBits(f: seq<bv8>): bv8
    requires |f| == 8
  {
    (f[0] & 1) | ((f[1] & 1) << 1) | ((f[2] & 1) << 2) | ((f[3] & 1) << 3) |
    ((f[4] & 1) << 4) | ((f[5] & 1) << 5) | ((f[6] & 1) << 6) | ((f[7] & 1) << 7)
  }

  lemma ByteFromBitsSpec(f: seq<bv8>, t: nat)
    requires |f| == 8 && t < 8
    ensures BitOf(ByteFromBits(f), t) == f[t] & 1
  {
    var a0, a1, a2, a3, a4, a5, a6, a7 := f[0], f[1], f[2], f[3], f[4], f[5], f[6], f[7];
    var b := ByteFromBits(f);
    assert b == (a0 & 1) | ((a1 & 1) << 1) | ((a2 & 1) << 2) | ((a3 & 1) << 3) |
      ((a4 & 1) << 4) | ((a5 & 1) << 5) | ((a6 & 1) << 6) | ((a7 & 1) << 7);
    if t == 0 {} else if t == 1 {} else if t == 2 {} else if t == 3 {}
    else if t == 4 {} else if t == 5 {} else if t == 6 {} else {}
  }

  /** Bit k of row i of a bit matrix, 0 beyond its last row. */
  function MatrixBit(rows: seq<seq<bv8>>, i: nat, k: nat): (r: bv8)
    requires forall l :: 0 <= l < |rows| ==> k / 8 < |rows[l]|
    ensures r <= 1
  {
    if i < |rows| then GetBit(k, rows[i]) else 0
  }

  /** Column k of a bit matrix, packed LSB-first into nbytes bytes. */
  function Column(rows: seq<seq<bv8>>, k: nat, nbytes: nat): (w: seq<bv8>)
    requires forall l :: 0 <= l < |rows| ==> k / 8 < |rows[l]|
    ensures |w| == nbytes
  {
    seq(nbytes, j requires 0 <= j < nbytes => ByteFromBits(seq(8, t requires 0 <= t < 8 => MatrixBit(rows, 8 * j + t, k))))
  }

  /** Bit i of column k is bit k of row i: the transpose maps bit (i, k) to (k, i). */
  lemma ColumnBits(rows: seq<seq<bv8>>, k: nat, nbytes: nat, i: nat)
    requires forall l :: 0 <= l < |rows| ==> k / 8 < |rows[l]|
    requires i < 8 * nbytes
    ensures GetBit(i, Column(rows, k, nbytes)) == MatrixBit(rows, i, k)
  {
    var j, t := i / 8, i % 8;
    var f := seq(8, t requires 0 <= t < 8 => MatrixBit(rows, 8 * j + t, k));
    assert Column(rows, k, nbytes)[j] == ByteFromBits(f);
    ByteFromBitsSpec(f, t);
    assert 8 * j + t == i;
  }

  /** The transpose of a bit matrix: ncols rows of nbytes bytes, row k being column k. */
  function Transpose(rows: seq<seq<bv8>>, ncols: nat, nbytes: nat): (t: seq<seq<bv8>>)
    requires forall l :: 0 <= l < |rows| ==> ncols <= 8 * |rows[l]|
    ensures |t| == ncols
    ensures forall k :: 0 <= k < ncols ==> |t[k]| == nbytes
  {
    seq(ncols, k requires 0 <= k < ncols => Column(rows, k, nbytes))
  }

  /** Bit i of row k of the transpose is bit k of row i of the input. */
  lemma TransposeBits(rows: seq<seq<bv8>>, ncols: nat, nbytes: nat, k: nat, i: nat)
    requires forall l :: 0 <= l < |rows| ==> ncols <= 8 * |rows[l]|
    requires k < ncols && i < 8 * nbytes
    ensures GetBit(i, Transpose(rows, ncols, nbytes)[k]) == MatrixBit(rows, i, k)
  {
    ColumnBits(rows, k, nbytes, i);
  }

  // ---------------------------------------------------------------------
  // The per-entry steps, on caller buffers
  // ---------------------------------------------------------------------

  /** BitEncode(d, a + off): cword_bytes copies of BIT_TO_BYTE[d]. */
  method BitEncode(p: Params, d: bv8, a: array<bv8>, off: nat)
    requires d <= 1 && off + p.cwordBytes <= a.Length
    modifies a
    ensures a[..] == Splice(old(a[..]), off, BitEncoded(p.cwordBytes, d))
  {
    Fill(a, off, p.cwordBytes, BIT_TO_BYTE[d]);
  }

  /** The commit-type step on the entry of cw bytes at a + off. */
  method ShapeEntry(t: CommitType, msgBytes: nat, a: array<bv8>, off: nat, cw: nat)
    requires off + cw <= a.Length
    requires t != Normal ==> msgBytes == CSEC_BYTES && cw >= CSEC_BYTES
    modifies a
    ensures a[..] == Splice(old(a[..]), off, Shape(t, msgBytes, old(a[off..off + cw])))
  {
    match t
    case Normal =>
      SpliceOwn(a[..], off, cw);
    case AllZeroLsbRnd =>
      ShapeZeroLsbRnd(msgBytes, a, off, cw);
    case AllRndLsbZero =>
      ShapeRndLsbZero(msgBytes, a, off, cw);
  }

  /** ALL_ZERO_LSB_RND on the entry at a + off: the message bytes zeroed, then bit 127 set to the old LSB. */
  method ShapeZeroLsbRnd(msgBytes: nat, a: array<bv8>, off: nat, cw: nat)
    requires off + cw <= a.Length && msgBytes == CSEC_BYTES <= cw
    modifies a
    ensures a[..] == Splice(old(a[..]), off, Shape(AllZeroLsbRnd, msgBytes, old(a[off..off + cw])))
  {
    ghost var a0 := a[..];
    ghost var e := a[off..off + cw];
    var lsb := GetLSB(a[off..off + cw]);
    Fill(a, off, msgBytes, 0);
    SpliceHead(a0, off, Repeat(msgBytes, 0), e);
    SpliceWithBit(a0, off, Repeat(msgBytes, 0) + e[msgBytes..], 127, lsb);
    SetBit(127, lsb, a, off);
  }

  /** ALL_RND_LSB_ZERO on the entry at a + off: bit 127 cleared. */
  method ShapeRndLsbZero(msgBytes: nat, a: array<bv8>, off: nat, cw: nat)
    requires off + cw <= a.Length && msgBytes == CSEC_BYTES <= cw
    modifies a
    ensures a[..] == Splice(old(a[..]), off, Shape(AllRndLsbZero, msgBytes, old(a[off..off + cw])))
  {
    ghost var a0 := a[..];
    SpliceOwn(a0, off, cw);
    SpliceWithBit(a0, off, a0[off..off + cw], 127, 0);
    SetBit(127, 0, a, off);
  }

  /** Entry i of the commit-type loop over a buffer of n entries of cw bytes. */
  method ShapeAt(t: CommitType, msgBytes: nat, a: array<bv8>, cw: nat, n: nat, i: nat,
                 ghost rows: seq<seq<bv8>>, ghost target: seq<seq<bv8>>)
    requires t != Normal ==> msgBytes == CSEC_BYTES && cw >= CSEC_BYTES
    requires |rows| == n && EntriesSized(rows, cw) && i < n
    requires target == ShapeAll(t, msgBytes, rows)
    requires RewrittenUpTo(a[..], cw, n, i, rows, target)
    modifies a
    ensures RewrittenUpTo(a[..], cw, n, i + 1, rows, target)
  {
    var o := i * cw;
    EntrySlice(a[..], cw, n, i);
    assert a[o..o + cw] == rows[i];
    ghost var before := a[..];
    ShapeEntry(t, msgBytes, a, o, cw);
    assert target[i] == Shape(t, msgBytes, rows[i]);
    RewriteStep(before, a[..], cw, n, i, o, rows, target);
  }

  /** commit_share[msg_bytes - 1] ^= flip_table[bit] on the entry at a + off. */
  method FlipEntry(msgBytes: nat, bit: bv8, a: array<bv8>, off: nat, cw: nat)
    requires 0 < msgBytes <= cw && off + cw <= a.Length && bit <= 1
    modifies a
    ensures a[..] == Splice(old(a[..]), off, LsbFlip(old(a[off..off + cw]), msgBytes, bit))
  {
    var flipTable := FlipTable();
    a[off + msgBytes - 1] := a[off + msgBytes - 1] ^ flipTable[if bit == 0 then 0 else 1];
  }

  /**
   * One iteration of the threshold loop: the correction bit of the pair at
   * s0 + o0, s1 + o1, and the flip it calls for applied to s1.
   */
  method LsbFlipEntry(msgBytes: nat, s0: array<bv8>, o0: nat, s1: array<bv8>, o1: nat, cw: nat) returns (b: bv8)
    requires msgBytes == CSEC_BYTES <= cw && o0 + cw <= s0.Length && o1 + cw <= s1.Length && s0 != s1
    modifies s1
    ensures b == LsbCorrection(s0[o0..o0 + cw], old(s1[o1..o1 + cw]))
    ensures s1[..] == Splice(old(s1[..]), o1, LsbFlip(old(s1[o1..o1 + cw]), msgBytes, b))
  {
    b := GetLSB(s0[o0..o0 + cw]) ^ GetLSB(s1[o1..o1 + cw]);
    FlipEntry(msgBytes, b, s1, o1, cw);
  }

  /**
   * One iteration of CheckbitCorrection on the share pair at s0 + o0,
   * s1 + o1, writing the correction to corr + oc and using vals as
   * values_buffer: s1 becomes CorrectedShare and the correction is
   * Correction, both of the old shares.
   */
  method CorrectEntry(p: Params, enc: Encoder, s0: array<bv8>, o0: nat, s1: array<bv8>, o1: nat,
                      corr: array<bv8>, oc: nat, vals: array<bv8>)
    requires ValidParams(p) && vals.Length == p.cwordBytes
    requires o0 + p.cwordBytes <= s0.Length && o1 + p.cwordBytes <= s1.Length && oc + p.parityBytes <= corr.Length
    requires s0 != s1 && s0 != corr && s1 != corr && vals != s0 && vals != s1 && vals != corr
    modifies s1, corr, vals
    ensures s1[..] == Splice(old(s1[..]), o1,
      CorrectedShare(p, enc, s0[o0..o0 + p.cwordBytes], old(s1[o1..o1 + p.cwordBytes])))
    ensures corr[..] == Splice(old(corr[..]), oc,
      Correction(p, enc, s0[o0..o0 + p.cwordBytes], old(s1[o1..o1 + p.cwordBytes])))
  {
    if p.msgBits == 1 {
      CorrectBitEntry(p, enc, s0, o0, s1, o1, corr, oc, vals);
    } else {
      CorrectBlockEntry(p, enc, s0, o0, s1, o1, corr, oc, vals);
    }
  }

  /** The 1-bit branch: XOR_BitCodeWords, BitEncode of bit 0, two more XOR_BitCodeWords. */
  method CorrectBitEntry(p: Params, enc: Encoder, s0: array<bv8>, o0: nat, s1: array<bv8>, o1: nat,
                         corr: array<bv8>, oc: nat, vals: array<bv8>)
    requires p == BIT_PARAMS && vals.Length == p.cwordBytes
    requires o0 + p.cwordBytes <= s0.Length && o1 + p.cwordBytes <= s1.Length && oc + p.parityBytes <= corr.Length
    requires s0 != s1 && s0 != corr && s1 != corr && vals != s0 && vals != s1 && vals != corr
    modifies s1, corr, vals
    ensures s1[..] == Splice(old(s1[..]), o1,
      CorrectedShare(p, enc, s0[o0..o0 + p.cwordBytes], old(s1[o1..o1 + p.cwordBytes])))
    ensures corr[..] == Splice(old(corr[..]), oc,
      Correction(p, enc, s0[o0..o0 + p.cwordBytes], old(s1[o1..o1 + p.cwordBytes])))
  {
    ghost var e0, e1 := s0[o0..o0 + 5], s1[o1..o1 + 5];
    ghost var x := Xor(e0, e1);
    ghost var c0 := corr[..];
    ghost var code := CheckBits(p, enc, x);
    XorBitCodeWordsPair(vals, 0, s0, o0, s1, o1);
    SpliceWhole(old(vals[..]), x);
    BitEncode(p, GetBit(0, vals[..]), corr, oc);
    SpliceSlice(c0, oc, code);
    XorBitCodeWordsPair(s1, o1, s0, o0, corr, oc);
    assert Xor(e0, code) == CorrectedShare(p, enc, e0, e1);
    XorBitCodeWords(corr, oc, vals, 0);
    SpliceTwice(c0, oc, code, Xor(code, x));
  }

  /**
   * The 128-bit branch: XOR_CodeWords, code.encode of the 16 message
   * bytes, XOR_CheckBits into s1's check bytes and into the correction.
   */
  method CorrectBlockEntry(p: Params, enc: Encoder, s0: array<bv8>, o0: nat, s1: array<bv8>, o1: nat,
                           corr: array<bv8>, oc: nat, vals: array<bv8>)
    requires p == BLOCK_PARAMS && vals.Length == p.cwordBytes
    requires o0 + p.cwordBytes <= s0.Length && o1 + p.cwordBytes <= s1.Length && oc + p.parityBytes <= corr.Length
    requires s0 != s1 && s0 != corr && s1 != corr && vals != s0 && vals != s1 && vals != corr
    modifies s1, corr, vals
    ensures s1[..] == Splice(old(s1[..]), o1,
      CorrectedShare(p, enc, s0[o0..o0 + p.cwordBytes], old(s1[o1..o1 + p.cwordBytes])))
    ensures corr[..] == Splice(old(corr[..]), oc,
      Correction(p, enc, s0[o0..o0 + p.cwordBytes], old(s1[o1..o1 + p.cwordBytes])))
  {
    ghost var e0, e1 := s0[o0..o0 + 33], s1[o1..o1 + 33];
    ghost var x := Xor(e0, e1);
    ghost var c0, t1 := corr[..], s1[..];
    ghost var code := CheckBits(p, enc, x);
    XorCodeWordsPair(vals, 0, s0, o0, s1, o1);
    SpliceWhole(old(vals[..]), x);
    Copy(corr, oc, enc(vals[..PLAINTEXT_U8_SIZE]));
    SpliceSlice(c0, oc, code);
    XorCheckBitsPair(s1, o1 + CSEC_BYTES, s0, o0 + CSEC_BYTES, corr, oc);
    BlockShareSplice(t1, o1, e1, Xor(e0[CSEC_BYTES..], code));
    assert e1[..CSEC_BYTES] + Xor(e0[CSEC_BYTES..], code) == CorrectedShare(p, enc, e0, e1);
    XorCheckBits(corr, oc, vals, CSEC_BYTES);
    SpliceTwice(c0, oc, code, Xor(code, x[CSEC_BYTES..]));
  }

  /** Rewriting the bytes after the first 16 of an entry is splicing in the whole new entry. */
  lemma BlockShareSplice(s: seq<bv8>, off: nat, e: seq<bv8>, tail: seq<bv8>)
    requires |e| == CODEWORD_BYTES && off + |e| <= |s| && s[off..off + |e|] == e && |tail| == BCH_BYTES
    ensures Splice(s, off + CSEC_BYTES, tail) == Splice(s, off, e[..CSEC_BYTES] + tail)
  {
  }

  /** x ^ (d & m): d XORed in where the mask m has its bits set. */
  function MaskedXor(x: bv8, d: bv8, m: bv8): bv8
  {
    x ^ (d & m)
  }

  /** The byte-wise description of ApplyCorrection on an entry inside a larger string. */
  lemma ApplyCorrectionSplice(c: seq<bv8>, s: seq<bv8>, t: seq<bv8>, off: nat, cw: nat, msgOff: nat, d: seq<bv8>)
    requires msgOff + |d| <= cw <= |c| && off + cw <= |s| == |t|
    requires forall k :: 0 <= k < |s| ==>
      t[k] == if off + msgOff <= k < off + msgOff + |d| then MaskedXor(s[k], d[k - off - msgOff], c[k - off]) else s[k]
    ensures t == Splice(s, off, ApplyCorrection(c, s[off..off + cw], msgOff, d))
  {
    var u := Splice(s, off, ApplyCorrection(c, s[off..off + cw], msgOff, d));
    forall k | 0 <= k < |s|
      ensures t[k] == u[k]
    {
      ApplyCorrectionSpliceAt(c, s, off, cw, msgOff, d, k);
    }
  }

  /** Byte k of an entry corrected inside a larger string. */
  lemma ApplyCorrectionSpliceAt(c: seq<bv8>, s: seq<bv8>, off: nat, cw: nat, msgOff: nat, d: seq<bv8>, k: nat)
    requires msgOff + |d| <= cw <= |c| && off + cw <= |s| && k < |s|
    ensures Splice(s, off, ApplyCorrection(c, s[off..off + cw], msgOff, d))[k] ==
      if off + msgOff <= k < off + msgOff + |d| then MaskedXor(s[k], d[k - off - msgOff], c[k - off]) else s[k]
  {
    if off <= k < off + cw {
      ApplyCorrectionAt(c, s[off..off + cw], msgOff, d, k - off);
    }
  }

  /**
   * The Receiver's loop over the check bytes of the entry at a + off:
   * byte msgOff + q gets corr[oc + q] masked by choice byte msgOff + q.
   */
  method ApplyCorrectionEntry(c: seq<bv8>, a: array<bv8>, off: nat, cw: nat, msgOff: nat,
                              corr: array<bv8>, oc: nat, parity: nat)
    requires msgOff + parity <= cw <= |c| && off + cw <= a.Length && oc + parity <= corr.Length
    requires a != corr
    modifies a
    ensures a[..] == Splice(old(a[..]), off, ApplyCorrection(c, old(a[off..off + cw]), msgOff, corr[oc..oc + parity]))
  {
    var q := 0;
    while q < parity
      invariant 0 <= q <= parity
      invariant forall k :: 0 <= k < a.Length ==>
        a[k] == if off + msgOff <= k < off + msgOff + q then MaskedXor(old(a[k]), corr[oc + k - off - msgOff], c[k - off])
                else old(a[k])
    {
      a[off + msgOff + q] := MaskedXor(a[off + msgOff + q], corr[oc + q], c[msgOff + q]);
      q := q + 1;
    }
    ApplyCorrectionSplice(c, old(a[..]), a[..], off, cw, msgOff, corr[oc..oc + parity]);
  }

  // ---------------------------------------------------------------------
  // Whole share buffers, as sequences of entries
  // ---------------------------------------------------------------------

  /** Every entry has n bytes. */
  predicate EntriesSized(es: seq<seq<bv8>>, n: nat)
  {
    forall j :: 0 <= j < |es| ==> |es[j]| == n
  }

  /** The commit-type loop over a whole buffer. */
  function ShapeAll(t: CommitType, msgBytes: nat, es: seq<seq<bv8>>): (r: seq<seq<bv8>>)
    requires t != Normal ==> msgBytes == CSEC_BYTES && forall j :: 0 <= j < |es| ==> |es[j]| >= CSEC_BYTES
    ensures |r| == |es|
  {
    seq(|es|, j requires 0 <= j < |es| => Shape(t, msgBytes, es[j]))
  }

  /** The threshold branch runs: an index was given and it is below the number of commitments. */
  predicate ThresholdActive(start: nat, n: nat)
  {
    start != UINT32_MAX && start < n
  }

  /** lsb_corrections: one bit per commitment from start on. */
  function LsbCorrections(s0: seq<seq<bv8>>, s1: seq<seq<bv8>>, start: nat): (r: seq<bv8>)
    requires start <= |s0| == |s1|
    requires forall j :: 0 <= j < |s0| ==> |s0[j]| >= CSEC_BYTES && |s1[j]| >= CSEC_BYTES
    ensures |r| == |s0| - start
    ensures forall k :: 0 <= k < |r| ==> r[k] <= 1
  {
    var r := seq(|s0| - start, k requires 0 <= k < |s0| - start => LsbCorrection(s0[start + k], s1[start + k]));
    assert forall k :: 0 <= k < |r| ==> r[k] == LsbCorrection(s0[start + k], s1[start + k]);
    r
  }

  /** Bit i - start is computed from entry i of both buffers. */
  lemma LsbCorrectionsAt(s0: seq<seq<bv8>>, s1: seq<seq<bv8>>, start: nat, i: nat)
    requires start <= i < |s0| == |s1|
    requires forall j :: 0 <= j < |s0| ==> |s0[j]| >= CSEC_BYTES && |s1[j]| >= CSEC_BYTES
    ensures LsbCorrections(s0, s1, start)[i - start] == LsbCorrection(s0[i], s1[i])
  {
    assert LsbCorrections(s0, s1, start)[i - start] == LsbCorrection(s0[start + (i - start)], s1[start + (i - start)]);
  }

  /** Entries from start on flipped by the matching correction bit, the rest kept. */
  function FlipFrom(es: seq<seq<bv8>>, msgBytes: nat, start: nat, bits: seq<bv8>): (r: seq<seq<bv8>>)
    requires start <= |es| && |bits| == |es| - start
    requires forall k :: 0 <= k < |bits| ==> bits[k] <= 1
    requires forall j :: 0 <= j < |es| ==> 0 < msgBytes <= |es[j]|
    ensures |r| == |es|
  {
    seq(|es|, j requires 0 <= j < |es| => if j < start then es[j] else LsbFlip(es[j], msgBytes, bits[j - start]))
  }

  /** The bits the threshold branch sends: none when it does not run. */
  function ThresholdBits(s0: seq<seq<bv8>>, s1: seq<seq<bv8>>, start: nat): (r: seq<bv8>)
    requires |s0| == |s1|
    requires ThresholdActive(start, |s0|) ==> forall j :: 0 <= j < |s0| ==> |s0[j]| >= CSEC_BYTES && |s1[j]| >= CSEC_BYTES
    ensures |r| == if ThresholdActive(start, |s0|) then |s0| - start else 0
    ensures forall k :: 0 <= k < |r| ==> r[k] <= 1
  {
    if ThresholdActive(start, |s0|) then LsbCorrections(s0, s1, start) else []
  }

  /** The second share buffer after the threshold branch. */
  function ThresholdFlipped(msgBytes: nat, s0: seq<seq<bv8>>, s1: seq<seq<bv8>>, start: nat): (r: seq<seq<bv8>>)
    requires |s0| == |s1|
    requires ThresholdActive(start, |s0|) ==>
      msgBytes == CSEC_BYTES && forall j :: 0 <= j < |s0| ==> |s0[j]| >= CSEC_BYTES && |s1[j]| >= CSEC_BYTES
    ensures |r| == |s1|
    ensures forall j :: 0 <= j < |s1| ==> |r[j]| == |s1[j]|
  {
    if ThresholdActive(start, |s0|) then FlipFrom(s1, msgBytes, start, LsbCorrections(s0, s1, start)) else s1
  }

  /** Entry j of the flipped buffer: flipped by its own correction bit from start on. */
  lemma ThresholdFlippedAt(msgBytes: nat, s0: seq<seq<bv8>>, s1: seq<seq<bv8>>, start: nat, j: nat)
    requires |s0| == |s1| && j < |s1|
    requires ThresholdActive(start, |s0|) ==>
      msgBytes == CSEC_BYTES && forall i :: 0 <= i < |s0| ==> |s0[i]| >= CSEC_BYTES && |s1[i]| >= CSEC_BYTES
    ensures ThresholdActive(start, |s0|) && start <= j ==>
      ThresholdFlipped(msgBytes, s0, s1, start)[j] == LsbFlip(s1[j], msgBytes, LsbCorrection(s0[j], s1[j]))
    ensures !(ThresholdActive(start, |s0|) && start <= j) ==> ThresholdFlipped(msgBytes, s0, s1, start)[j] == s1[j]
  {
    if ThresholdActive(start, |s0|) {
      var bits := LsbCorrections(s0, s1, start);
      assert ThresholdFlipped(msgBytes, s0, s1, start) == FlipFrom(s1, msgBytes, start, bits);
      if start <= j {
        LsbCorrectionsAt(s0, s1, start, j);
      }
    }
  }

  /**
   * One step of the threshold loop: appending the bit of entry i extends the
   * prefix of LsbCorrections, and entry i of the target is that bit's flip.
   */
  lemma ThresholdStep(s0: seq<seq<bv8>>, s1: seq<seq<bv8>>, msgBytes: nat, start: nat, i: nat, bits: seq<bv8>, b: bv8)
    requires start <= i < |s0| == |s1| && msgBytes == CSEC_BYTES
    requires forall j :: 0 <= j < |s0| ==> |s0[j]| >= CSEC_BYTES && |s1[j]| >= CSEC_BYTES
    requires bits == LsbCorrections(s0, s1, start)[..i - start] && b == LsbCorrection(s0[i], s1[i])
    ensures bits + [b] == LsbCorrections(s0, s1, start)[..i + 1 - start]
    ensures FlipFrom(s1, msgBytes, start, LsbCorrections(s0, s1, start))[i] == LsbFlip(s1[i], msgBytes, b)
  {
    LsbCorrectionsAt(s0, s1, start, i);
    var full := LsbCorrections(s0, s1, start);
    assert full[..i + 1 - start] == full[..i - start] + [full[i - start]];
  }

  /** CorrectedShare over a whole buffer pair. */
  function CorrectedAll(p: Params, enc: Encoder, s0: seq<seq<bv8>>, s1: seq<seq<bv8>>): (r: seq<seq<bv8>>)
    requires ValidParams(p) && |s0| == |s1| && EntriesSized(s0, p.cwordBytes) && EntriesSized(s1, p.cwordBytes)
    ensures |r| == |s0| && EntriesSized(r, p.cwordBytes)
  {
    seq(|s0|, j requires 0 <= j < |s0| => CorrectedShare(p, enc, s0[j], s1[j]))
  }

  /** Correction over a whole buffer pair. */
  function CorrectionsAll(p: Params, enc: Encoder, s0: seq<seq<bv8>>, s1: seq<seq<bv8>>): (r: seq<seq<bv8>>)
    requires ValidParams(p) && |s0| == |s1| && EntriesSized(s0, p.cwordBytes) && EntriesSized(s1, p.cwordBytes)
    ensures |r| == |s0| && EntriesSized(r, p.parityBytes)
  {
    seq(|s0|, j requires 0 <= j < |s0| => Correction(p, enc, s0[j], s1[j]))
  }

  /** The Receiver's correction step over a whole buffer. */
  function ApplyAll(c: seq<bv8>, rs: seq<seq<bv8>>, off: nat, ds: seq<seq<bv8>>): (r: seq<seq<bv8>>)
    requires |rs| == |ds|
    requires forall j :: 0 <= j < |rs| ==> off + |ds[j]| <= |rs[j]| <= |c|
    ensures |r| == |rs|
    ensures forall j :: 0 <= j < |rs| ==> |r[j]| == |rs[j]|
  {
    seq(|rs|, j requires 0 <= j < |rs| => ApplyCorrection(c, rs[j], off, ds[j]))
  }

  /**
   * The blinding loop of ConsistencyCheck and BatchDecommitLSB: the first
   * numChecks bytes of transposed row i are XORed into row i.
   */
  function Blinded(rows: seq<seq<bv8>>, trans: seq<seq<bv8>>, numChecks: nat): (r: seq<seq<bv8>>)
    requires |trans| == |rows| && EntriesSized(rows, numChecks)
    requires forall i :: 0 <= i < |trans| ==> numChecks <= |trans[i]|
    ensures |r| == |rows| && EntriesSized(r, numChecks)
  {
    seq(|rows|, i requires 0 <= i < |rows| => Xor(rows[i], trans[i][..numChecks]))
  }

  /** dest[off + q] ^= src[q] for every byte of src. */
  method XorInto(a: array<bv8>, off: nat, src: seq<bv8>)
    requires off + |src| <= a.Length
    modifies a
    ensures a[..] == Splice(old(a[..]), off, Xor(old(a[off..off + |src|]), src))
  {
    ghost var a0 := a[..];
    ghost var mid := Xor(a[off..off + |src|], src);
    var q := 0;
    while q < |src|
      invariant 0 <= q <= |src|
      invariant forall k :: 0 <= k < a.Length ==> a[k] == if off <= k < off + q then mid[k - off] else a0[k]
    {
      a[off + q] := a[off + q] ^ src[q];
      q := q + 1;
    }
    assert a[..] == Splice(a0, off, mid);
  }

  /** resulting_shares[i][j] ^= trans_matrix[i][j] for every row i and every j < numChecks. */
  method BlindRows(res: ByteArrayVector, trans: seq<seq<bv8>>, numChecks: nat)
    requires res.Valid() && res.entrySize == numChecks && |trans| == res.numEntries
    requires forall i :: 0 <= i < |trans| ==> numChecks <= |trans[i]|
    modifies res.vec
    ensures res.Valid() && res.Entries() == Blinded(old(res.Entries()), trans, numChecks)
  {
    ghost var rows := res.Entries();
    ghost var target := Blinded(rows, trans, numChecks);
    var n := res.numEntries;
    var i := 0;
    while i < n
      invariant 0 <= i <= n && res.Valid()
      invariant RewrittenUpTo(res.vec[..], numChecks, n, i, rows, target)
    {
      BlindRow(res, i, trans[i][..numChecks], rows, target);
      i := i + 1;
    }
    RewriteDone(res.vec[..], numChecks, n, i, rows, target);
  }

  /** One row of BlindRows: row i is XORed with its transposed blinding row. */
  method BlindRow(res: ByteArrayVector, i: nat, t: seq<bv8>, ghost rows: seq<seq<bv8>>, ghost target: seq<seq<bv8>>)
    requires res.Valid() && i < res.numEntries && |t| == res.entrySize
    requires RewrittenUpTo(res.vec[..], res.entrySize, res.numEntries, i, rows, target)
    requires |rows[i]| == res.entrySize && target[i] == Xor(rows[i], t)
    modifies res.vec
    ensures res.Valid()
    ensures RewrittenUpTo(res.vec[..], res.entrySize, res.numEntries, i + 1, rows, target)
  {
    var p, off := res.Index(i);
    ghost var before := res.vec[..];
    assert before[off..off + res.entrySize] == rows[i];
    XorInto(p, off, t);
    RewriteStep(before, res.vec[..], res.entrySize, res.numEntries, i, off, rows, target);
  }
}
