/**
 * The Sender of the commitment scheme (src/split-commit/split-commit-snd.cpp).
 *
 * The Sender holds two share buffers s0, s1: entry j of s0 XOR entry j of
 * s1 is commitment j. Commit turns the random shares that the OT
 * extension produced into shares of codewords and computes the messages
 * the Receiver needs to mirror that; the decommit operations compute what
 * is sent to open commitments.
 *
 * The OT extension, the PRNG draws and the channel are outside the model:
 * the share buffers a method is given already hold what ExpandAndTranspose
 * would have written, the rows ComputeShares would have produced are
 * parameters, and what the source sends is returned.
 */
module SplitCommitSnd {
  import opened GlobalConstants
  import opened Util
  import opened Errors
  import opened ByteArrayVec
  import opened SplitCommit

  /** The seeds of ot_rnds[0][i] and ot_rnds[1][i]. */
  datatype SeedPair = SeedPair(seed0: seq<bv8>, seed1: seq<bv8>)

  /** What Commit sends: the threshold LSB corrections (one bit per byte) and the check-bit corrections. */
  datatype CommitMessages = CommitMessages(lsbCorrections: seq<bv8>, checkbitCorrections: seq<seq<bv8>>)

  /** What Decommit sends: the raw contents of both share buffers. */
  datatype Opening = Opening(shares0: seq<bv8>, shares1: seq<bv8>)

  /** The commitment shares after Commit, and the messages it sends about them. */
  datatype CommitOutcome = CommitOutcome(
    shares0: seq<seq<bv8>>,
    shares1: seq<seq<bv8>>,
    lsbCorrections: seq<bv8>,
    corrections: seq<seq<bv8>>)

  /**
   * The argument checks at the start of Commit, in the source's order:
   * OTs set, no threshold for 1-bit messages, entries of cword_bytes, equal
   * share counts, and a non-NORMAL type only for 128-bit messages.
   */
  function CommitCheck(p: Params, otsSet: bool, start: nat, t: CommitType,
                       e0: nat, e1: nat, n0: nat, n1: nat): (r: Result<()>)
    ensures r.Ok? <==>
      otsSet && (p.msgBits == 1 ==> start == UINT32_MAX) &&
      e0 == p.cwordBytes && e1 == p.cwordBytes && n0 == n1 &&
      (t != Normal ==> p.msgBits == 128)
    ensures !otsSet ==> r == Err(OtsNotSet)
    ensures otsSet && p.msgBits == 1 && start != UINT32_MAX ==> r == Err(LsbForBitCommit)
  {
    if !otsSet then Err(OtsNotSet)
    else if p.msgBits == 1 && start != UINT32_MAX then Err(LsbForBitCommit)
    else if e0 != p.cwordBytes || e1 != p.cwordBytes then Err(IncorrectCodewordSize)
    else if n0 != n1 then Err(ShareSizeMismatch)
    else if t != Normal && p.msgBits != 128 then Err(OnlyFor128)
    else Ok(())
  }

  /** The argument checks of Decommit and BatchDecommit. */
  function SharesCheck(p: Params, e0: nat, e1: nat, n0: nat, n1: nat): (r: Result<()>)
    ensures r.Ok? <==> e0 == p.cwordBytes && e1 == p.cwordBytes && n0 == n1
    ensures (e0 != p.cwordBytes || e1 != p.cwordBytes) ==> r == Err(IncorrectCodewordSize)
    ensures e0 == p.cwordBytes && e1 == p.cwordBytes && n0 != n1 ==> r == Err(ShareSizeMismatch)
  {
    if e0 != p.cwordBytes || e1 != p.cwordBytes then Err(IncorrectCodewordSize)
    else if n0 != n1 then Err(ShareSizeMismatch)
    else Ok(())
  }

  /**
   * The commitment shares and messages Commit produces from the random
   * shares e0, e1: shaping, the threshold flip of s1, then check-bit
   * correction of s1.
   */
  function SenderCommitted(p: Params, enc: Encoder, t: CommitType, start: nat,
                           e0: seq<seq<bv8>>, e1: seq<seq<bv8>>): (r: CommitOutcome)
    requires ValidParams(p) && |e0| == |e1| && EntriesSized(e0, p.cwordBytes) && EntriesSized(e1, p.cwordBytes)
    requires t != Normal || ThresholdActive(start, |e0|) ==> p == BLOCK_PARAMS
    ensures |r.shares0| == |r.shares1| == |r.corrections| == |e0|
    ensures EntriesSized(r.shares0, p.cwordBytes) && EntriesSized(r.shares1, p.cwordBytes)
  {
    var s0 := ShapeAll(t, p.msgBytes, e0);
    var s1 := ShapeAll(t, p.msgBytes, e1);
    var f1 := ThresholdFlipped(p.msgBytes, s0, s1, start);
    CommitOutcome(s0, CorrectedAll(p, enc, s0, f1), ThresholdBits(s0, s1, start), CorrectionsAll(p, enc, s0, f1))
  }

  /**
   * Every commitment the Sender ends up with is a codeword: s0 is only
   * shaped, and s1 differs from the shaped (and flipped) share exactly by
   * the correction sent for it, in the check bytes.
   */
  lemma SenderCommittedCodewords(p: Params, enc: Encoder, t: CommitType, start: nat,
                                 e0: seq<seq<bv8>>, e1: seq<seq<bv8>>)
    requires ValidParams(p) && |e0| == |e1| && EntriesSized(e0, p.cwordBytes) && EntriesSized(e1, p.cwordBytes)
    requires t != Normal || ThresholdActive(start, |e0|) ==> p == BLOCK_PARAMS
    ensures var out := SenderCommitted(p, enc, t, start, e0, e1);
      var f1 := ThresholdFlipped(p.msgBytes, out.shares0, ShapeAll(t, p.msgBytes, e1), start);
      out.shares0 == ShapeAll(t, p.msgBytes, e0) &&
      forall j :: 0 <= j < |e0| ==>
        IsCodeword(p, enc, Xor(out.shares0[j], out.shares1[j])) &&
        out.shares1[j] == XorAt(f1[j], p.msgInCwordOffset, out.corrections[j])
  {
    var out := SenderCommitted(p, enc, t, start, e0, e1);
    var s0, s1 := ShapeAll(t, p.msgBytes, e0), ShapeAll(t, p.msgBytes, e1);
    var f1 := ThresholdFlipped(p.msgBytes, s0, s1, start);
    forall j | 0 <= j < |e0|
      ensures IsCodeword(p, enc, Xor(out.shares0[j], out.shares1[j]))
      ensures out.shares1[j] == XorAt(f1[j], p.msgInCwordOffset, out.corrections[j])
    {
      assert out.shares1[j] == CorrectedShare(p, enc, s0[j], f1[j]);
      assert out.corrections[j] == Correction(p, enc, s0[j], f1[j]);
      CorrectionMakesCodeword(p, enc, s0[j], f1[j]);
      CorrectionIsDelta(p, enc, s0[j], f1[j]);
    }
  }

  /** The first 16 bytes of a committed value are those of the shaped and flipped shares. */
  lemma CommittedPrefix(enc: Encoder, t: CommitType, start: nat, e0: seq<seq<bv8>>, e1: seq<seq<bv8>>, j: nat)
    requires |e0| == |e1| && EntriesSized(e0, BLOCK_PARAMS.cwordBytes) && EntriesSized(e1, BLOCK_PARAMS.cwordBytes)
    requires j < |e0|
    ensures var out := SenderCommitted(BLOCK_PARAMS, enc, t, start, e0, e1);
      var s0 := ShapeAll(t, CSEC_BYTES, e0);
      var f1 := ThresholdFlipped(CSEC_BYTES, s0, ShapeAll(t, CSEC_BYTES, e1), start);
      Xor(out.shares0[j], out.shares1[j])[..CSEC_BYTES] == Xor(s0[j], f1[j])[..CSEC_BYTES]
  {
    var p := BLOCK_PARAMS;
    var s0, s1 := ShapeAll(t, p.msgBytes, e0), ShapeAll(t, p.msgBytes, e1);
    var f1 := ThresholdFlipped(p.msgBytes, s0, s1, start);
    CorrectionMakesCodeword(p, enc, s0[j], f1[j]);
  }

  /**
   * With a threshold below n, every commitment from start on has LSB 1,
   * and the bit sent for it is the LSB the shaped shares had.
   */
  lemma SenderThresholdLsb(enc: Encoder, t: CommitType, start: nat, e0: seq<seq<bv8>>, e1: seq<seq<bv8>>)
    requires |e0| == |e1| && EntriesSized(e0, BLOCK_PARAMS.cwordBytes) && EntriesSized(e1, BLOCK_PARAMS.cwordBytes)
    requires ThresholdActive(start, |e0|)
    ensures var out := SenderCommitted(BLOCK_PARAMS, enc, t, start, e0, e1);
      |out.lsbCorrections| == |e0| - start &&
      forall j :: start <= j < |e0| ==>
        GetLSB(Xor(out.shares0[j], out.shares1[j])) == 1 &&
        out.lsbCorrections[j - start] ==
          GetLSB(Xor(ShapeAll(t, CSEC_BYTES, e0)[j], ShapeAll(t, CSEC_BYTES, e1)[j]))
  {
    var out := SenderCommitted(BLOCK_PARAMS, enc, t, start, e0, e1);
    var s0, s1 := ShapeAll(t, CSEC_BYTES, e0), ShapeAll(t, CSEC_BYTES, e1);
    forall j | start <= j < |e0|
      ensures GetLSB(Xor(out.shares0[j], out.shares1[j])) == 1
      ensures out.lsbCorrections[j - start] == GetLSB(Xor(s0[j], s1[j]))
    {
      ThresholdLsbAt(enc, t, start, e0, e1, j);
    }
  }

  /** SenderThresholdLsb for commitment j. */
  lemma ThresholdLsbAt(enc: Encoder, t: CommitType, start: nat, e0: seq<seq<bv8>>, e1: seq<seq<bv8>>, j: nat)
    requires |e0| == |e1| && EntriesSized(e0, BLOCK_PARAMS.cwordBytes) && EntriesSized(e1, BLOCK_PARAMS.cwordBytes)
    requires ThresholdActive(start, |e0|) && start <= j < |e0|
    ensures var out := SenderCommitted(BLOCK_PARAMS, enc, t, start, e0, e1);
      GetLSB(Xor(out.shares0[j], out.shares1[j])) == 1 &&
      out.lsbCorrections[j - start] == GetLSB(Xor(ShapeAll(t, CSEC_BYTES, e0)[j], ShapeAll(t, CSEC_BYTES, e1)[j]))
  {
    var out := SenderCommitted(BLOCK_PARAMS, enc, t, start, e0, e1);
    var s0, s1 := ShapeAll(t, CSEC_BYTES, e0), ShapeAll(t, CSEC_BYTES, e1);
    var f1 := ThresholdFlipped(CSEC_BYTES, s0, s1, start);
    CommittedPrefix(enc, t, start, e0, e1, j);
    LsbCorrectionsAt(s0, s1, start, j);
    ThresholdFlippedAt(CSEC_BYTES, s0, s1, start, j);
    FlippedLsb(Xor(out.shares0[j], out.shares1[j]), s0[j], s1[j], f1[j]);
  }

  /** A value whose first 16 bytes are those of s0 ^ LsbFlip(s1) has LSB 1. */
  lemma FlippedLsb(v: seq<bv8>, s0: seq<bv8>, s1: seq<bv8>, f1: seq<bv8>)
    requires |s0| == |s1| >= CSEC_BYTES && |v| >= CSEC_BYTES
    requires f1 == LsbFlip(s1, CSEC_BYTES, LsbCorrection(s0, s1))
    requires v[..CSEC_BYTES] == Xor(s0, f1)[..CSEC_BYTES]
    ensures GetLSB(v) == 1
    ensures LsbCorrection(s0, s1) == GetLSB(Xor(s0, s1))
  {
    GetLSBPrefix(v, Xor(s0, f1));
    GetLSBXor(s0, f1);
    SenderLsbFlip(s0, s1);
    GetLSBXor(s0, s1);
  }

  /**
   * The commit types shape the committed values: ALL_ZERO_LSB_RND leaves
   * bits 0..126 zero, ALL_RND_LSB_ZERO leaves bit 127 zero unless the
   * threshold set it.
   */
  lemma SenderCommitTypeBits(enc: Encoder, t: CommitType, start: nat, e0: seq<seq<bv8>>, e1: seq<seq<bv8>>, j: nat)
    requires |e0| == |e1| && EntriesSized(e0, BLOCK_PARAMS.cwordBytes) && EntriesSized(e1, BLOCK_PARAMS.cwordBytes)
    requires j < |e0|
    ensures var out := SenderCommitted(BLOCK_PARAMS, enc, t, start, e0, e1);
      var v := Xor(out.shares0[j], out.shares1[j]);
      (t == AllZeroLsbRnd ==> forall k :: 0 <= k < 127 ==> GetBit(k, v) == 0) &&
      (t == AllRndLsbZero && !(ThresholdActive(start, |e0|) && start <= j) ==> GetBit(127, v) == 0)
  {
    var out := SenderCommitted(BLOCK_PARAMS, enc, t, start, e0, e1);
    var s0, s1 := ShapeAll(t, CSEC_BYTES, e0), ShapeAll(t, CSEC_BYTES, e1);
    var f1 := ThresholdFlipped(CSEC_BYTES, s0, s1, start);
    var flipped := ThresholdActive(start, |e0|) && start <= j;
    CommittedPrefix(enc, t, start, e0, e1, j);
    ThresholdFlippedAt(CSEC_BYTES, s0, s1, start, j);
    if flipped {
      SenderLsbFlip(s0[j], s1[j]);
    }
    ShapedXorBits(t, Xor(out.shares0[j], out.shares1[j]), e0[j], e1[j], f1[j], flipped, GetLSB(s0[j]) ^ 1);
  }

  /** The bit-level core of SenderCommitTypeBits, on one commitment. */
  lemma ShapedXorBits(t: CommitType, v: seq<bv8>, e0: seq<bv8>, e1: seq<bv8>, f1: seq<bv8>, flipped: bool, x: bv8)
    requires |e0| == |e1| >= CSEC_BYTES && |v| >= CSEC_BYTES
    requires f1 == if flipped then WithBit(Shape(t, CSEC_BYTES, e1), 127, x) else Shape(t, CSEC_BYTES, e1)
    requires v[..CSEC_BYTES] == Xor(Shape(t, CSEC_BYTES, e0), f1)[..CSEC_BYTES]
    ensures t == AllZeroLsbRnd ==> forall k :: 0 <= k < 127 ==> GetBit(k, v) == 0
    ensures t == AllRndLsbZero && !flipped ==> GetBit(127, v) == 0
  {
    var s0, s1 := Shape(t, CSEC_BYTES, e0), Shape(t, CSEC_BYTES, e1);
    ShapeBits(t, e0);
    ShapeBits(t, e1);
    SetBitSpec(s1, 127, x);
    forall k | 0 <= k < 128
      ensures GetBit(k, v) == GetBit(k, s0) ^ GetBit(k, f1)
    {
      assert v[k / 8] == Xor(s0, f1)[k / 8];
      GetBitXor(s0, f1, k);
    }
  }

  /**
   * A NORMAL commitment that the threshold does not touch carries the value
   * the random shares e0, e1 held: their first 16 bytes for 128-bit
   * messages, BitEncode of their bit 0 for 1-bit messages.
   */
  lemma SenderCommittedValue(p: Params, enc: Encoder, start: nat, e0: seq<seq<bv8>>, e1: seq<seq<bv8>>, j: nat)
    requires ValidParams(p) && |e0| == |e1| && EntriesSized(e0, p.cwordBytes) && EntriesSized(e1, p.cwordBytes)
    requires ThresholdActive(start, |e0|) ==> p == BLOCK_PARAMS
    requires j < |e0| && !(ThresholdActive(start, |e0|) && start <= j)
    ensures var out := SenderCommitted(p, enc, Normal, start, e0, e1);
      var v := Xor(out.shares0[j], out.shares1[j]);
      (p.msgBits == 128 ==> Message(p, v) == Message(p, Xor(e0[j], e1[j]))) &&
      (p.msgBits == 1 ==> v == BitEncoded(5, GetBit(0, Xor(e0[j], e1[j]))))
  {
    var s0, s1 := ShapeAll(Normal, p.msgBytes, e0), ShapeAll(Normal, p.msgBytes, e1);
    var f1 := ThresholdFlipped(p.msgBytes, s0, s1, start);
    assert s0[j] == e0[j] && f1[j] == e1[j];
    CorrectionMakesCodeword(p, enc, e0[j], e1[j]);
  }

  /** XORing a with b whose bit 127 was set to the complement of a's sets bit 127 of a ^ b. */
  lemma XorFlippedPrefix(a: seq<bv8>, b: seq<bv8>)
    requires |a| == |b| >= CSEC_BYTES
    ensures Xor(a, WithBit(b, 127, GetLSB(a) ^ 1))[..CSEC_BYTES] == WithBit(Xor(a, b)[..CSEC_BYTES], 127, 1)
  {
    var l := GetLSB(a) ^ 1;
    var u := Xor(a, WithBit(b, 127, l))[..CSEC_BYTES];
    var w := WithBit(Xor(a, b)[..CSEC_BYTES], 127, 1);
    assert GetLSB(a) == BitOf(a[15], 7);
    XorSetTopBit(a[15], b[15]);
    forall i | 0 <= i < CSEC_BYTES
      ensures u[i] == w[i]
    {
      if i != 15 {
        assert u[i] == a[i] ^ b[i];
      }
    }
  }

  /** Byte form of XorFlippedPrefix: set y's top bit to the complement of x's, then XOR with x. */
  lemma XorSetTopBit(x: bv8, y: bv8)
    ensures x ^ SetBitInByte(y, 7, BitOf(x, 7) ^ 1) == SetBitInByte(x ^ y, 7, 1)
  {
    SetBitInByteForm(y, 7, BitOf(x, 7) ^ 1);
    SetBitInByteForm(x ^ y, 7, 1);
  }

  /**
   * A NORMAL 128-bit commitment at or past the LSB threshold carries the
   * value of e0 ^ e1 with its LSB (bit 127) forced to 1.
   */
  lemma SenderThresholdValue(enc: Encoder, start: nat, e0: seq<seq<bv8>>, e1: seq<seq<bv8>>, j: nat)
    requires |e0| == |e1| && EntriesSized(e0, BLOCK_PARAMS.cwordBytes) && EntriesSized(e1, BLOCK_PARAMS.cwordBytes)
    requires ThresholdActive(start, |e0|) && start <= j < |e0|
    ensures var out := SenderCommitted(BLOCK_PARAMS, enc, Normal, start, e0, e1);
      Message(BLOCK_PARAMS, Xor(out.shares0[j], out.shares1[j])) ==
        WithBit(Message(BLOCK_PARAMS, Xor(e0[j], e1[j])), 127, 1)
  {
    var s0, s1 := ShapeAll(Normal, CSEC_BYTES, e0), ShapeAll(Normal, CSEC_BYTES, e1);
    var f1 := ThresholdFlipped(CSEC_BYTES, s0, s1, start);
    assert s0[j] == e0[j] && s1[j] == e1[j];
    CommittedPrefix(enc, Normal, start, e0, e1, j);
    ThresholdFlippedAt(CSEC_BYTES, s0, s1, start, j);
    SenderLsbFlip(e0[j], e1[j]);
    XorFlippedPrefix(e0[j], e1[j]);
  }

  /** Entry l of the buffers the values of BatchDecommit are computed from. */
  function PostulatedBit(d0: seq<seq<bv8>>, d1: seq<seq<bv8>>, l: nat): (b: bv8)
    requires l < |d0| == |d1| && |d0[l]| > 0 && |d1[l]| > 0
    ensures b <= 1
  {
    GetBit(0, d0[l]) ^ GetBit(0, d1[l])
  }

  /** The 128-bit postulated values: the first 16 bytes of every d0[l] ^ d1[l]. */
  function BlockValues(d0: seq<seq<bv8>>, d1: seq<seq<bv8>>): (r: seq<seq<bv8>>)
    requires |d0| == |d1| && forall l :: 0 <= l < |d0| ==> |d0[l]| >= CSEC_BYTES && |d1[l]| >= CSEC_BYTES
    ensures |r| == |d0| && EntriesSized(r, CSEC_BYTES)
  {
    seq(|d0|, l requires 0 <= l < |d0| => Xor(d0[l][..CSEC_BYTES], d1[l][..CSEC_BYTES]))
  }

  /**
   * The postulated values of BatchDecommit: for 1-bit messages bit l of a
   * BITS_TO_BYTES(n)-byte string is bit 0 of d0[l] ^ d1[l], the padding bits
   * zero; for 128-bit messages entry l is the first 16 bytes of d0[l] ^ d1[l];
   * any other size throws.
   */
  method PostulatedValues(msgBits: nat, d0: ByteArrayVector, d1: ByteArrayVector) returns (r: Result<seq<bv8>>)
    requires d0.Valid() && d1.Valid() && d0.numEntries == d1.numEntries && d0.entrySize == d1.entrySize
    requires msgBits == 1 ==> d0.entrySize >= 1
    requires msgBits == 128 ==> d0.entrySize >= CSEC_BYTES
    ensures r.Ok? <==> msgBits == 1 || msgBits == 128
    ensures r.Err? ==> r.error == InvalidBatchDecommit
    ensures r.Ok? && msgBits == 1 ==>
      |r.value| == BitsToBytes(d0.numEntries) &&
      (forall l :: 0 <= l < d0.numEntries ==> GetBit(l, r.value) == PostulatedBit(d0.Entries(), d1.Entries(), l)) &&
      (forall l :: d0.numEntries <= l < 8 * |r.value| ==> GetBit(l, r.value) == 0)
    ensures r.Ok? && msgBits == 128 ==>
      |r.value| == d0.numEntries * CSEC_BYTES &&
      EntriesOf(r.value, CSEC_BYTES, d0.numEntries) == BlockValues(d0.Entries(), d1.Entries())
  {
    if msgBits == 1 {
      var v := PackedBitValues(d0, d1);
      return Ok(v);
    } else if msgBits == 128 {
      var v := XoredBlockValues(d0, d1);
      return Ok(v);
    } else {
      return Err(InvalidBatchDecommit);
    }
  }

  /** The 1-bit branch: SetBit and XORBit of bit 0 of both shares into a zeroed bit string. */
  method PackedBitValues(d0: ByteArrayVector, d1: ByteArrayVector) returns (v: seq<bv8>)
    requires d0.Valid() && d1.Valid() && d0.numEntries == d1.numEntries && d0.entrySize == d1.entrySize >= 1
    ensures |v| == BitsToBytes(d0.numEntries)
    ensures forall l :: 0 <= l < d0.numEntries ==> GetBit(l, v) == PostulatedBit(d0.Entries(), d1.Entries(), l)
    ensures forall l :: d0.numEntries <= l < 8 * |v| ==> GetBit(l, v) == 0
  {
    var n := d0.numEntries;
    ghost var e0, e1 := d0.Entries(), d1.Entries();
    ghost var want := PostulatedBits(e0, e1);
    var values := new ByteArrayVector(BitsToBytes(n), 1);
    var data, _ := values.Data();
    ZeroBits(data[..]);
    var l := 0;
    while l < n
      invariant 0 <= l <= n && data.Length == BitsToBytes(n)
      invariant BitsUpTo(want, data[..], l)
    {
      var x, y := PostulatedAt(d0, d1, e0, e1, want, l);
      SetXorWantedBit(data, want, l, x, y);
      l := l + 1;
    }
    v := data[..];
    PackedBitValuesDone(e0, e1, v);
  }

  /** The postulated bits of all n commitments, in order. */
  function PostulatedBits(d0: seq<seq<bv8>>, d1: seq<seq<bv8>>): (r: seq<bv8>)
    requires |d0| == |d1| && forall l :: 0 <= l < |d0| ==> |d0[l]| > 0 && |d1[l]| > 0
    ensures |r| == |d0| && forall l :: 0 <= l < |r| ==> r[l] == PostulatedBit(d0, d1, l)
  {
    seq(|d0|, l requires 0 <= l < |d0| => PostulatedBit(d0, d1, l))
  }

  /** Bit 0 of d0[l] and of d1[l], read from the two buffers. */
  method PostulatedAt(d0: ByteArrayVector, d1: ByteArrayVector, ghost e0: seq<seq<bv8>>, ghost e1: seq<seq<bv8>>,
                      ghost want: seq<bv8>, l: nat) returns (x: bv8, y: bv8)
    requires d0.Valid() && d1.Valid() && d0.numEntries == d1.numEntries && d0.entrySize == d1.entrySize >= 1
    requires l < d0.numEntries && e0 == d0.Entries() && e1 == d1.Entries() && want == PostulatedBits(e0, e1)
    ensures x <= 1 && y <= 1 && x ^ y == want[l]
  {
    var p0, o0 := d0.Index(l);
    var p1, o1 := d1.Index(l);
    x, y := GetBit(0, p0[o0..o0 + d0.entrySize]), GetBit(0, p1[o1..o1 + d1.entrySize]);
  }

  /** SetBit(l, x, data) then XORBit(l, y, data), where x ^ y is bit l of want. */
  method SetXorWantedBit(data: array<bv8>, ghost want: seq<bv8>, l: nat, x: bv8, y: bv8)
    requires BitsUpTo(want, data[..], l) && l < |want| <= 8 * data.Length
    requires x <= 1 && y <= 1 && x ^ y == want[l]
    modifies data
    ensures BitsUpTo(want, data[..], l + 1)
  {
    ghost var before := data[..];
    BitIndexBound(l, data.Length);
    SetBit(l, x, data, 0);
    XorBit(l, y, data, 0);
    XorBitPairSpec(before, l, x, y);
    assert (x ^ y) & 1 == x ^ y;
  }

  /** The packed postulated bits, read back bit by bit. */
  lemma PackedBitValuesDone(e0: seq<seq<bv8>>, e1: seq<seq<bv8>>, v: seq<bv8>)
    requires |e0| == |e1| && forall l :: 0 <= l < |e0| ==> |e0[l]| > 0 && |e1[l]| > 0
    requires |e0| <= 8 * |v| && BitsUpTo(PostulatedBits(e0, e1), v, |e0|)
    ensures forall l :: 0 <= l < |e0| ==> GetBit(l, v) == PostulatedBit(e0, e1, l)
    ensures forall l :: |e0| <= l < 8 * |v| ==> GetBit(l, v) == 0
  {
    forall l | 0 <= l < |e0|
      ensures GetBit(l, v) == PostulatedBit(e0, e1, l)
    {
      assert PostulatedBits(e0, e1)[l] == PostulatedBit(e0, e1, l);
    }
  }

  /** Every bit of a zeroed string is 0. */
  lemma ZeroBits(s: seq<bv8>)
    requires forall i :: 0 <= i < |s| ==> s[i] == 0
    ensures forall k :: 0 <= k < 8 * |s| ==> GetBit(k, s) == 0
  {
  }

  /** The 128-bit branch: XOR_128 of both shares into entry l of an (n, 16) buffer. */
  method XoredBlockValues(d0: ByteArrayVector, d1: ByteArrayVector) returns (v: seq<bv8>)
    requires d0.Valid() && d1.Valid() && d0.numEntries == d1.numEntries && d0.entrySize == d1.entrySize >= CSEC_BYTES
    ensures |v| == d0.numEntries * CSEC_BYTES
    ensures EntriesOf(v, CSEC_BYTES, d0.numEntries) == BlockValues(d0.Entries(), d1.Entries())
  {
    var n := d0.numEntries;
    ghost var e0, e1 := d0.Entries(), d1.Entries();
    ghost var target := BlockValues(e0, e1);
    ghost var zeros := seq(n, _ => Repeat(CSEC_BYTES, 0));
    var values := new ByteArrayVector(n, CSEC_BYTES);
    var a := values.vec;
    EntriesOfZeros(a[..], CSEC_BYTES, n);
    var l := 0;
    while l < n
      invariant 0 <= l <= n && a.Length == n * CSEC_BYTES && fresh(a)
      invariant values.vec == a && values.numEntries == n && values.entrySize == CSEC_BYTES
      invariant forall k :: 0 <= k < n ==>
        EntriesOf(a[..], CSEC_BYTES, n)[k] == if k < l then target[k] else zeros[k]
    {
      var p, off := values.Index(l);
      var p0, o0 := d0.Index(l);
      var p1, o1 := d1.Index(l);
      assert p0[o0..o0 + CSEC_BYTES] == e0[l][..CSEC_BYTES];
      assert p1[o1..o1 + CSEC_BYTES] == e1[l][..CSEC_BYTES];
      ghost var before := a[..];
      Xor128Pair(p, off, p0, o0, p1, o1);
      EntriesStep(before, a[..], CSEC_BYTES, n, l, zeros, target);
      l := l + 1;
    }
    EntriesDone(a[..], CSEC_BYTES, n, target);
    v := a[..];
  }

  /**
   * The values BatchDecommitLSB sends: bit l of a BitVector of n bits
   * (LSB-first in BITS_TO_BYTES(n) bytes) is the LSB of d0[l] ^ d1[l].
   */
  method LsbValues(d0: ByteArrayVector, d1: ByteArrayVector) returns (v: seq<bv8>)
    requires d0.Valid() && d1.Valid() && d0.numEntries == d1.numEntries
    requires d0.entrySize >= CSEC_BYTES && d1.entrySize >= CSEC_BYTES
    ensures |v| == BitsToBytes(d0.numEntries)
    ensures forall l :: 0 <= l < d0.numEntries ==> GetBit(l, v) == LsbCorrection(d0.Entries()[l], d1.Entries()[l])
    ensures forall l :: d0.numEntries <= l < 8 * |v| ==> GetBit(l, v) == 0
  {
    var n := d0.numEntries;
    ghost var e0, e1 := d0.Entries(), d1.Entries();
    ghost var want := LsbCorrections(e0, e1, 0);
    var data := new bv8[BitsToBytes(n)](_ => 0);
    ZeroBits(data[..]);
    var l := 0;
    while l < n
      invariant 0 <= l <= n && 8 * data.Length >= n
      invariant BitsUpTo(want, data[..], l)
    {
      var b := LsbAt(d0, d1, e0, e1, want, l);
      SetWantedBit(data, want, l, b);
      l := l + 1;
    }
    v := data[..];
    LsbValuesDone(e0, e1, v);
  }

  /** LSB(d0[l]) ^ LSB(d1[l]), read from the two buffers. */
  method LsbAt(d0: ByteArrayVector, d1: ByteArrayVector, ghost e0: seq<seq<bv8>>, ghost e1: seq<seq<bv8>>,
               ghost want: seq<bv8>, l: nat) returns (b: bv8)
    requires d0.Valid() && d1.Valid() && d0.numEntries == d1.numEntries && l < d0.numEntries
    requires d0.entrySize >= CSEC_BYTES && d1.entrySize >= CSEC_BYTES && e0 == d0.Entries() && e1 == d1.Entries()
    requires want == LsbCorrections(e0, e1, 0)
    ensures b == LsbCorrection(e0[l], e1[l]) == want[l] && b <= 1
  {
    var p0, o0 := d0.Index(l);
    var p1, o1 := d1.Index(l);
    b := GetLSB(p0[o0..o0 + d0.entrySize]) ^ GetLSB(p1[o1..o1 + d1.entrySize]);
    LsbCorrectionsAt(e0, e1, 0, l);
  }

  /** SetBit(l, b, data) where b is bit l of want. */
  method SetWantedBit(data: array<bv8>, ghost want: seq<bv8>, l: nat, b: bv8)
    requires BitsUpTo(want, data[..], l) && l < |want| <= 8 * data.Length && b == want[l] && b <= 1
    modifies data
    ensures BitsUpTo(want, data[..], l + 1)
  {
    ghost var before := data[..];
    BitIndexBound(l, data.Length);
    SetBit(l, b, data, 0);
    BitsUpToStep(want, before, l, b);
  }

  /** Bits 0 .. l - 1 of data are the first l bits of want, every later bit is 0. */
  ghost predicate BitsUpTo(want: seq<bv8>, data: seq<bv8>, l: nat)
  {
    l <= |want| && forall k :: 0 <= k < 8 * |data| ==> GetBit(k, data) == if k < l then want[k] else 0
  }

  /** Setting bit l to the next wanted bit extends the prefix by one. */
  lemma BitsUpToStep(want: seq<bv8>, data: seq<bv8>, l: nat, b: bv8)
    requires BitsUpTo(want, data, l) && l < |want| && l / 8 < |data| && b == want[l] && b <= 1
    ensures BitsUpTo(want, WithBit(data, l, b), l + 1)
  {
    SetBitSpec(data, l, b);
  }

  /** The whole LSB-correction string, read back bit by bit. */
  lemma LsbValuesDone(e0: seq<seq<bv8>>, e1: seq<seq<bv8>>, v: seq<bv8>)
    requires |e0| == |e1| && forall k :: 0 <= k < |e0| ==> |e0[k]| >= CSEC_BYTES && |e1[k]| >= CSEC_BYTES
    requires |e0| <= 8 * |v| && BitsUpTo(LsbCorrections(e0, e1, 0), v, |e0|)
    ensures forall l :: 0 <= l < |e0| ==> GetBit(l, v) == LsbCorrection(e0[l], e1[l])
    ensures forall l :: |e0| <= l < 8 * |v| ==> GetBit(l, v) == 0
  {
    forall l | 0 <= l < |e0|
      ensures GetBit(l, v) == LsbCorrection(e0[l], e1[l])
    {
      LsbCorrectionsAt(e0, e1, 0, l);
    }
  }

  /** An entry sequence with the run from base on replaced by mid. */
  function SpliceEntries(es: seq<seq<bv8>>, base: nat, mid: seq<seq<bv8>>): (r: seq<seq<bv8>>)
    requires base + |mid| <= |es|
    ensures |r| == |es|
    ensures forall k :: 0 <= k < |es| ==> r[k] == if base <= k < base + |mid| then mid[k - base] else es[k]
  {
    es[..base] + mid + es[base + |mid|..]
  }

  /** Splicing two runs that cover an entry sequence leaves just the two runs. */
  lemma SpliceEntriesCover(es: seq<seq<bv8>>, m1: seq<seq<bv8>>, m2: seq<seq<bv8>>)
    requires |es| == |m1| + |m2|
    ensures SpliceEntries(SpliceEntries(es, 0, m1), |m1|, m2) == m1 + m2
  {
  }

  /**
   * CorrectEntry on share pair j, its correction going to entry i of the
   * corrections: both rewrite loops advance by one entry.
   */
  method CorrectArrays(p: Params, enc: Encoder, s0: array<bv8>, o0: nat, s1: array<bv8>, corr: array<bv8>,
                       vals: array<bv8>, n: nat, j: nat, nc: nat, i: nat,
                       ghost rows1: seq<seq<bv8>>, ghost target1: seq<seq<bv8>>,
                       ghost rowsC: seq<seq<bv8>>, ghost targetC: seq<seq<bv8>>)
    requires ValidParams(p) && vals.Length == p.cwordBytes
    requires s0 != s1 && s0 != corr && s1 != corr && vals != s0 && vals != s1 && vals != corr
    requires o0 + p.cwordBytes <= s0.Length && j < n && i < nc
    requires RewrittenUpTo(s1[..], p.cwordBytes, n, j, rows1, target1)
    requires RewrittenUpTo(corr[..], p.parityBytes, nc, i, rowsC, targetC)
    requires target1[j] == CorrectedShare(p, enc, s0[o0..o0 + p.cwordBytes], rows1[j])
    requires targetC[i] == Correction(p, enc, s0[o0..o0 + p.cwordBytes], rows1[j])
    modifies s1, corr, vals
    ensures RewrittenUpTo(s1[..], p.cwordBytes, n, j + 1, rows1, target1)
    ensures RewrittenUpTo(corr[..], p.parityBytes, nc, i + 1, rowsC, targetC)
  {
    var o1 := j * p.cwordBytes;
    var oc := i * p.parityBytes;
    EntrySlice(s1[..], p.cwordBytes, n, j);
    EntryBounds(i, nc, p.parityBytes);
    ghost var before1, beforeC := s1[..], corr[..];
    CorrectEntry(p, enc, s0, o0, s1, o1, corr, oc, vals);
    RewriteStep(before1, s1[..], p.cwordBytes, n, j, o1, rows1, target1);
    RewriteStep(beforeC, corr[..], p.parityBytes, nc, i, oc, rowsC, targetC);
  }

  /** Entry k of target1 is the corrected share k, and entry base + k of targetC its correction. */
  ghost predicate CorrectionTargets(p: Params, enc: Encoder, rows0: seq<seq<bv8>>, rows1: seq<seq<bv8>>, base: nat,
                                    target1: seq<seq<bv8>>, targetC: seq<seq<bv8>>)
  {
    ValidParams(p) && |rows0| == |rows1| == |target1| && base + |rows0| <= |targetC| &&
    EntriesSized(rows0, p.cwordBytes) && EntriesSized(rows1, p.cwordBytes) &&
    forall k :: 0 <= k < |rows0| ==>
      target1[k] == CorrectedShare(p, enc, rows0[k], rows1[k]) &&
      targetC[base + k] == Correction(p, enc, rows0[k], rows1[k])
  }

  /** CorrectedAll and the spliced CorrectionsAll are such targets. */
  lemma CorrectionTargetsHold(p: Params, enc: Encoder, rows0: seq<seq<bv8>>, rows1: seq<seq<bv8>>,
                              rowsC: seq<seq<bv8>>, base: nat)
    requires ValidParams(p) && |rows0| == |rows1| && EntriesSized(rows0, p.cwordBytes) && EntriesSized(rows1, p.cwordBytes)
    requires base + |rows0| <= |rowsC|
    ensures CorrectionTargets(p, enc, rows0, rows1, base, CorrectedAll(p, enc, rows0, rows1),
                              SpliceEntries(rowsC, base, CorrectionsAll(p, enc, rows0, rows1)))
  {
  }

  /** Iteration j of CorrectShares, on the backing arrays. */
  method CorrectAt(p: Params, enc: Encoder, a0: array<bv8>, a1: array<bv8>, ac: array<bv8>, vals: array<bv8>,
                   n: nat, nc: nat, base: nat, j: nat, ghost rows0: seq<seq<bv8>>, ghost rows1: seq<seq<bv8>>,
                   ghost rowsC: seq<seq<bv8>>, ghost target1: seq<seq<bv8>>, ghost targetC: seq<seq<bv8>>)
    requires ValidParams(p) && vals.Length == p.cwordBytes
    requires a0 != a1 && a0 != ac && a1 != ac && vals != a0 && vals != a1 && vals != ac
    requires a0.Length == n * p.cwordBytes && EntriesOf(a0[..], p.cwordBytes, n) == rows0
    requires |rows0| == n && base + n <= nc && j < n
    requires CorrectionTargets(p, enc, rows0, rows1, base, target1, targetC)
    requires RewrittenUpTo(a1[..], p.cwordBytes, n, j, rows1, target1)
    requires RewrittenUpTo(ac[..], p.parityBytes, nc, base + j, rowsC, targetC)
    modifies a1, ac, vals
    ensures RewrittenUpTo(a1[..], p.cwordBytes, n, j + 1, rows1, target1)
    ensures RewrittenUpTo(ac[..], p.parityBytes, nc, base + j + 1, rowsC, targetC)
  {
    EntrySlice(a0[..], p.cwordBytes, n, j);
    CorrectArrays(p, enc, a0, j * p.cwordBytes, a1, ac, vals, n, j, nc, base + j, rows1, target1, rowsC, targetC);
  }

  /**
   * One correction loop of CheckbitCorrection: every share pair of s0, s1
   * gets its check bits corrected, and the corrections are written to the
   * entries of corr from base on. vals is values_buffer.
   */
  method CorrectShares(p: Params, enc: Encoder, s0: ByteArrayVector, s1: ByteArrayVector,
                       corr: ByteArrayVector, base: nat, vals: array<bv8>)
    requires ValidParams(p) && s0.Valid() && s1.Valid() && corr.Valid() && vals.Length == p.cwordBytes
    requires s0.entrySize == s1.entrySize == p.cwordBytes && s0.numEntries == s1.numEntries
    requires corr.entrySize == p.parityBytes && base + s0.numEntries <= corr.numEntries
    requires s0.vec != s1.vec && s0.vec != corr.vec && s1.vec != corr.vec
    requires vals != s0.vec && vals != s1.vec && vals != corr.vec
    modifies s1.vec, corr.vec, vals
    ensures s1.Valid() && corr.Valid()
    ensures s1.Entries() == CorrectedAll(p, enc, s0.Entries(), old(s1.Entries()))
    ensures corr.Entries() ==
      SpliceEntries(old(corr.Entries()), base, CorrectionsAll(p, enc, s0.Entries(), old(s1.Entries())))
  {
    var n, cw, pb := s0.numEntries, s1.entrySize, corr.entrySize;
    var N := corr.numEntries;
    var a0, a1, ac := s0.vec, s1.vec, corr.vec;
    ghost var rows0, rows1, rowsC := s0.Entries(), s1.Entries(), corr.Entries();
    ghost var target1 := CorrectedAll(p, enc, rows0, rows1);
    ghost var targetC := SpliceEntries(rowsC, base, CorrectionsAll(p, enc, rows0, rows1));
    CorrectionTargetsHold(p, enc, rows0, rows1, rowsC, base);
    var j := 0;
    while j < n
      invariant 0 <= j <= n
      invariant RewrittenUpTo(a1[..], cw, n, j, rows1, target1)
      invariant RewrittenUpTo(ac[..], pb, N, base + j, rowsC, targetC)
    {
      CorrectAt(p, enc, a0, a1, ac, vals, n, N, base, j, rows0, rows1, rowsC, target1, targetC);
      j := j + 1;
    }
    RewriteDone(a1[..], cw, n, j, rows1, target1);
    RewriteDone(ac[..], pb, N, base + n, rowsC, targetC);
  }

  /**
   * Iteration i of the threshold loop of CheckbitCorrection, on the backing
   * arrays: the LSB correction of entry pair i is returned and entry i of a1
   * flipped by it.
   */
  method LsbStep(msgBytes: nat, a0: array<bv8>, a1: array<bv8>, cw: nat, n: nat, start: nat, i: nat,
                 ghost rows0: seq<seq<bv8>>, ghost rows1: seq<seq<bv8>>, ghost bits: seq<bv8>,
                 ghost full: seq<bv8>, ghost target: seq<seq<bv8>>) returns (b: bv8)
    requires msgBytes == CSEC_BYTES <= cw && a0 != a1 && start <= i < n
    requires a0.Length == n * cw && EntriesOf(a0[..], cw, n) == rows0
    requires |rows0| == |rows1| == n && EntriesSized(rows0, cw) && EntriesSized(rows1, cw)
    requires full == LsbCorrections(rows0, rows1, start) && target == FlipFrom(rows1, msgBytes, start, full)
    requires bits == full[..i - start]
    requires RewrittenUpTo(a1[..], cw, n, i, rows1, target)
    modifies a1
    ensures bits + [b] == full[..i + 1 - start]
    ensures RewrittenUpTo(a1[..], cw, n, i + 1, rows1, target)
  {
    var o := i * cw;
    EntrySlice(a0[..], cw, n, i);
    EntrySlice(a1[..], cw, n, i);
    assert a0[o..o + cw] == rows0[i] && a1[o..o + cw] == rows1[i];
    ghost var before := a1[..];
    b := LsbFlipEntry(msgBytes, a0, o, a1, o, cw);
    LsbTargetsAt(rows0, rows1, msgBytes, cw, start, i, bits, full, target, b);
    RewriteStep(before, a1[..], cw, n, i, o, rows1, target);
  }

  /** ThresholdStep on the named bit string and flipped buffer of the threshold loop. */
  lemma LsbTargetsAt(rows0: seq<seq<bv8>>, rows1: seq<seq<bv8>>, msgBytes: nat, cw: nat, start: nat, i: nat,
                     bits: seq<bv8>, full: seq<bv8>, target: seq<seq<bv8>>, b: bv8)
    requires msgBytes == CSEC_BYTES <= cw && start <= i < |rows0| == |rows1|
    requires EntriesSized(rows0, cw) && EntriesSized(rows1, cw)
    requires full == LsbCorrections(rows0, rows1, start) && target == FlipFrom(rows1, msgBytes, start, full)
    requires bits == full[..i - start] && b == LsbCorrection(rows0[i], rows1[i])
    ensures bits + [b] == full[..i + 1 - start]
    ensures |target[i]| == cw && target[i] == LsbFlip(rows1[i], msgBytes, b)
  {
    ThresholdStep(rows0, rows1, msgBytes, start, i, bits, b);
  }

  class Sender {
    /** msg_bits and the sizes derived from it. */
    var params: Params
    /** The linear code of 128-bit commitments. */
    var code: Encoder
    var otsSet: bool
    /** The seeds of ot_rnds[0] and ot_rnds[1]; a PRNG not yet seeded has the empty seed. */
    var seeds: seq<SeedPair>

    ghost predicate Valid()
      reads this
    {
      ValidParams(params) && |seeds| == params.cwordBits
    }

    /**
     * The object SplitCommitSender(msg_bits) builds once the parameters are
     * derived. The source leaves ots_set uninitialised; here it starts false.
     */
    constructor Init(p: Params, code: Encoder)
      requires ValidParams(p)
      ensures Valid() && params == p && this.code == code && !otsSet
      ensures seeds == seq(p.cwordBits, _ => SeedPair([], []))
    {
      params := p;
      this.code := code;
      otsSet := false;
      seeds := seq(p.cwordBits, _ => SeedPair([], []));
    }

    /** SplitCommitSender(msg_bits): 1-bit and 128-bit messages only. */
    static method Create(msgBits: nat, code: Encoder) returns (r: Result<Sender>)
      ensures r.Ok? <==> msgBits == 1 || msgBits == 128
      ensures r.Err? ==> r.error == UnsupportedMsgSize
      ensures r.Ok? ==> (fresh(r.value) && r.value.Valid() && !r.value.otsSet &&
                         r.value.params == DeriveParams(msgBits).value && r.value.code == code)
    {
      var p := DeriveParams(msgBits);
      if p.Err? {
        return Err(p.error);
      }
      DeriveParamsValues(msgBits);
      var s := new Sender.Init(p.value, code);
      return Ok(s);
    }

    /** The move constructor: every field carried over. */
    constructor Move(cp: Sender)
      ensures params == cp.params && code == cp.code && otsSet == cp.otsSet && seeds == cp.seeds
    {
      params := cp.params;
      code := cp.code;
      otsSet := cp.otsSet;
      seeds := cp.seeds;
    }

    /** SetSeedOTs: seeds the first |seedOts| PRNG pairs and marks the OTs as set. */
    method SetSeedOTs(seedOts: seq<SeedPair>)
      requires Valid() && |seedOts| <= |seeds|
      modifies this
      ensures Valid() && otsSet
      ensures seeds == seedOts + old(seeds)[|seedOts|..]
      ensures params == old(params) && code == old(code)
    {
      var s := seeds;
      var i := 0;
      while i < |seedOts|
        invariant 0 <= i <= |seedOts| && |s| == |seeds|
        invariant forall k :: 0 <= k < |s| ==> s[k] == if k < i then seedOts[k] else seeds[k]
      {
        s := s[i := seedOts[i]];
        i := i + 1;
      }
      assert s == seedOts + seeds[|seedOts|..];
      seeds := s;
      otsSet := true;
    }

    /**
     * GetCloneSenders: refused before the OTs are set; otherwise numExecs
     * new Senders of the same message size, clone e seeded with draws[e],
     * the seeds drawn from PRNGs keyed with this Sender's seeds.
     */
    method GetCloneSenders(numExecs: nat, draws: seq<seq<SeedPair>>) returns (r: Result<seq<Sender>>)
      requires Valid() && |draws| == numExecs
      requires forall e :: 0 <= e < numExecs ==> |draws[e]| == params.cwordBits
      ensures r.Err? <==> !otsSet
      ensures r.Err? ==> r.error == OtsNotSet
      ensures r.Ok? ==> |r.value| == numExecs
      ensures r.Ok? ==> forall e :: 0 <= e < numExecs ==>
                          (fresh(r.value[e]) && r.value[e].Valid() && r.value[e].params == params &&
                           r.value[e].code == code && r.value[e].otsSet && r.value[e].seeds == draws[e])
    {
      if !otsSet {
        return Err(OtsNotSet);
      }
      var senders: seq<Sender> := [];
      var e := 0;
      while e < numExecs
        invariant 0 <= e <= numExecs && |senders| == e
        invariant forall k :: 0 <= k < e ==>
          fresh(senders[k]) && senders[k].Valid() && senders[k].params == params &&
          senders[k].code == code && senders[k].otsSet && senders[k].seeds == draws[k]
      {
        var s := new Sender.Init(params, code);
        s.SetSeedOTs(draws[e]);
        senders := senders + [s];
        e := e + 1;
      }
      return Ok(senders);
    }

    /** The commit-type loop over both share buffers. */
    method ShapeShares(t: CommitType, s0: ByteArrayVector, s1: ByteArrayVector)
      requires Valid() && s0.Valid() && s1.Valid() && s0.vec != s1.vec
      requires s0.entrySize == s1.entrySize == params.cwordBytes && s0.numEntries == s1.numEntries
      requires t != Normal ==> params == BLOCK_PARAMS
      modifies s0.vec, s1.vec
      ensures s0.Valid() && s0.Entries() == ShapeAll(t, params.msgBytes, old(s0.Entries()))
      ensures s1.Valid() && s1.Entries() == ShapeAll(t, params.msgBytes, old(s1.Entries()))
    {
      if t == Normal {
        assert ShapeAll(t, params.msgBytes, s0.Entries()) == s0.Entries();
        assert ShapeAll(t, params.msgBytes, s1.Entries()) == s1.Entries();
        return;
      }
      var n, cw, msgBytes := s0.numEntries, params.cwordBytes, params.msgBytes;
      var a0, a1 := s0.vec, s1.vec;
      ghost var rows0, rows1 := s0.Entries(), s1.Entries();
      ghost var target0, target1 := ShapeAll(t, msgBytes, rows0), ShapeAll(t, msgBytes, rows1);
      var i := 0;
      while i < n
        invariant 0 <= i <= n
        invariant RewrittenUpTo(a0[..], cw, n, i, rows0, target0)
        invariant RewrittenUpTo(a1[..], cw, n, i, rows1, target1)
      {
        ShapeAt(t, msgBytes, a0, cw, n, i, rows0, target0);
        ShapeAt(t, msgBytes, a1, cw, n, i, rows1, target1);
        i := i + 1;
      }
      RewriteDone(a0[..], cw, n, n, rows0, target0);
      RewriteDone(a1[..], cw, n, n, rows1, target1);
    }
  
    /**
     * The threshold branch of CheckbitCorrection: from start on, the LSB of
     * s0 ^ s1 is sent and s1 is flipped so that the LSB of s0 ^ s1 becomes 1.
     */
    method LsbThreshold(start: nat, s0: ByteArrayVector, s1: ByteArrayVector) returns (bits: seq<bv8>)
      requires Valid() && s0.Valid() && s1.Valid() && s0.vec != s1.vec
      requires s0.entrySize == s1.entrySize == params.cwordBytes && s0.numEntries == s1.numEntries
      requires ThresholdActive(start, s0.numEntries) ==> params == BLOCK_PARAMS
      modifies s1.vec
      ensures s1.Valid()
      ensures bits == ThresholdBits(s0.Entries(), old(s1.Entries()), start)
      ensures s1.Entries() == ThresholdFlipped(params.msgBytes, s0.Entries(), old(s1.Entries()), start)
    {
      var n, cw, msgBytes := s0.numEntries, params.cwordBytes, params.msgBytes;
      if !ThresholdActive(start, n) {
        return [];
      }
      var a0, a1 := s0.vec, s1.vec;
      ghost var rows0, rows1 := s0.Entries(), s1.Entries();
      ghost var fullBits := LsbCorrections(rows0, rows1, start);
      ghost var target := FlipFrom(rows1, msgBytes, start, fullBits);
      bits := [];
      var i := start;
      while i < n
        invariant start <= i <= n && bits == fullBits[..i - start]
        invariant RewrittenUpTo(a1[..], cw, n, i, rows1, target)
      {
        var b := LsbStep(msgBytes, a0, a1, cw, n, start, i, rows0, rows1, bits, fullBits, target);
        bits := bits + [b];
        i := i + 1;
      }
      RewriteDone(a1[..], cw, n, i, rows1, target);
      assert bits == fullBits;
    }
  
    /**
     * CheckbitCorrection: the threshold branch, then every commitment and
     * every blind share pair corrected to a codeword; the lsb and check-bit
     * corrections are returned rather than sent.
     */
    method CheckbitCorrection(start: nat, s0: ByteArrayVector, s1: ByteArrayVector,
                              b0: ByteArrayVector, b1: ByteArrayVector)
      returns (bits: seq<bv8>, corrections: ByteArrayVector)
      requires Valid() && s0.Valid() && s1.Valid() && b0.Valid() && b1.Valid()
      requires s0.entrySize == s1.entrySize == b0.entrySize == b1.entrySize == params.cwordBytes
      requires s0.numEntries == s1.numEntries && b0.numEntries == b1.numEntries == NUM_PAR_CHECKS
      requires s0.vec != s1.vec && s0.vec != b0.vec && s0.vec != b1.vec
      requires s1.vec != b0.vec && s1.vec != b1.vec && b0.vec != b1.vec
      requires ThresholdActive(start, s0.numEntries) ==> params == BLOCK_PARAMS
      modifies s1.vec, b1.vec
      ensures s1.Valid() && b1.Valid()
      ensures fresh(corrections) && fresh(corrections.vec) && corrections.Valid()
      ensures corrections.numEntries == s0.numEntries + NUM_PAR_CHECKS && corrections.entrySize == params.parityBytes
      ensures bits == ThresholdBits(s0.Entries(), old(s1.Entries()), start)
      ensures s1.Entries() ==
        CorrectedAll(params, code, s0.Entries(), ThresholdFlipped(params.msgBytes, s0.Entries(), old(s1.Entries()), start))
      ensures b1.Entries() == CorrectedAll(params, code, b0.Entries(), old(b1.Entries()))
      ensures corrections.Entries() ==
        CorrectionsAll(params, code, s0.Entries(), ThresholdFlipped(params.msgBytes, s0.Entries(), old(s1.Entries()), start)) +
        CorrectionsAll(params, code, b0.Entries(), old(b1.Entries()))
    {
      var n := s0.numEntries;
      bits := LsbThreshold(start, s0, s1);
      ghost var rows0, f1, blinds0, blinds1 := s0.Entries(), s1.Entries(), b0.Entries(), b1.Entries();
      corrections := new ByteArrayVector(n + NUM_PAR_CHECKS, params.parityBytes);
      var vals := new bv8[params.cwordBytes];
      ghost var zeros := corrections.Entries();
      CorrectShares(params, code, s0, s1, corrections, 0, vals);
      CorrectShares(params, code, b0, b1, corrections, n, vals);
      SpliceEntriesCover(zeros, CorrectionsAll(params, code, rows0, f1), CorrectionsAll(params, code, blinds0, blinds1));
    }
  
    /**
     * The blinding of ConsistencyCheck and BatchDecommitLSB: the rows res0,
     * res1 that ComputeShares produced each get the first numChecks bytes
     * of the matching row of the transposed blind shares XORed in.
     */
    method BlindResults(b0: ByteArrayVector, b1: ByteArrayVector, res0: ByteArrayVector, res1: ByteArrayVector,
                        numChecks: nat)
      requires Valid() && b0.Valid() && b1.Valid() && res0.Valid() && res1.Valid()
      requires b0.entrySize == b1.entrySize == params.cwordBytes && numChecks <= NUM_PAR_CHECKS_BYTES
      requires res0.numEntries == res1.numEntries == params.cwordBits
      requires res0.entrySize == res1.entrySize == numChecks
      requires res0.vec != res1.vec && b0.vec != res0.vec && b0.vec != res1.vec && b1.vec != res0.vec && b1.vec != res1.vec
      modifies res0.vec, res1.vec
      ensures res0.Valid() && res1.Valid()
      ensures res0.Entries() ==
        Blinded(old(res0.Entries()), Transpose(b0.Entries(), params.cwordBits, NUM_PAR_CHECKS_BYTES), numChecks)
      ensures res1.Entries() ==
        Blinded(old(res1.Entries()), Transpose(b1.Entries(), params.cwordBits, NUM_PAR_CHECKS_BYTES), numChecks)
    {
      ghost var blinds1 := b1.Entries();
      BlindRows(res0, Transpose(b0.Entries(), params.cwordBits, NUM_PAR_CHECKS_BYTES), numChecks);
      assert b1.Entries() == blinds1;
      BlindRows(res1, Transpose(b1.Entries(), params.cwordBits, NUM_PAR_CHECKS_BYTES), numChecks);
    }
  
    /**
     * Commit: the argument checks, then shaping by commit type, check-bit
     * correction and the consistency check. b0, b1 hold the blind shares
     * ExpandAndTranspose drew and res0, res1 the rows ComputeShares
     * produced; what the source sends is the result and the final
     * contents of res0, res1.
     */
    method Commit(s0: ByteArrayVector, s1: ByteArrayVector, start: nat, t: CommitType,
                  b0: ByteArrayVector, b1: ByteArrayVector, res0: ByteArrayVector, res1: ByteArrayVector)
      returns (r: Result<CommitMessages>)
      requires Valid() && s0.Valid() && s1.Valid() && b0.Valid() && b1.Valid() && res0.Valid() && res1.Valid()
      requires b0.numEntries == b1.numEntries == NUM_PAR_CHECKS && b0.entrySize == b1.entrySize == params.cwordBytes
      requires res0.numEntries == res1.numEntries == params.cwordBits && res0.entrySize == res1.entrySize == CONSISTENCY
      requires s0.vec != s1.vec && s0.vec != b0.vec && s0.vec != b1.vec && s0.vec != res0.vec && s0.vec != res1.vec
      requires s1.vec != b0.vec && s1.vec != b1.vec && s1.vec != res0.vec && s1.vec != res1.vec
      requires b0.vec != b1.vec && b0.vec != res0.vec && b0.vec != res1.vec
      requires b1.vec != res0.vec && b1.vec != res1.vec && res0.vec != res1.vec
      modifies s0.vec, s1.vec, b1.vec, res0.vec, res1.vec
      ensures s0.Valid() && s1.Valid() && b1.Valid() && res0.Valid() && res1.Valid()
      ensures r.Ok? <==>
        CommitCheck(params, otsSet, start, t, s0.entrySize, s1.entrySize, s0.numEntries, s1.numEntries).Ok?
      ensures r.Err? ==>
        r.error == CommitCheck(params, otsSet, start, t, s0.entrySize, s1.entrySize, s0.numEntries, s1.numEntries).error
      ensures r.Err? ==> unchanged(s0.vec, s1.vec, b1.vec, res0.vec, res1.vec)
      ensures r.Ok? ==>
        var out := SenderCommitted(params, code, t, start, old(s0.Entries()), old(s1.Entries()));
        s0.Entries() == out.shares0 && s1.Entries() == out.shares1 &&
        r.value.lsbCorrections == out.lsbCorrections &&
        r.value.checkbitCorrections == out.corrections + CorrectionsAll(params, code, b0.Entries(), old(b1.Entries())) &&
        b1.Entries() == CorrectedAll(params, code, b0.Entries(), old(b1.Entries())) &&
        res0.Entries() == Blinded(old(res0.Entries()), Transpose(b0.Entries(), params.cwordBits, NUM_PAR_CHECKS_BYTES), CONSISTENCY) &&
        res1.Entries() == Blinded(old(res1.Entries()), Transpose(b1.Entries(), params.cwordBits, NUM_PAR_CHECKS_BYTES), CONSISTENCY)
    {
      var check := CommitCheck(params, otsSet, start, t, s0.entrySize, s1.entrySize, s0.numEntries, s1.numEntries);
      if check.Err? {
        return Err(check.error);
      }
      ConstantRelations();
      ShapeShares(t, s0, s1);
      var bits, corrections := CheckbitCorrection(start, s0, s1, b0, b1);
      BlindResults(b0, b1, res0, res1, CONSISTENCY);
      return Ok(CommitMessages(bits, corrections.Entries()));
    }
  
    /** Decommit: the argument checks, then both share buffers as they are. */
    method Decommit(d0: ByteArrayVector, d1: ByteArrayVector) returns (r: Result<Opening>)
      requires Valid() && d0.Valid() && d1.Valid()
      ensures r.Ok? <==> SharesCheck(params, d0.entrySize, d1.entrySize, d0.numEntries, d1.numEntries).Ok?
      ensures r.Err? ==> r.error == SharesCheck(params, d0.entrySize, d1.entrySize, d0.numEntries, d1.numEntries).error
      ensures r.Ok? ==>
        |r.value.shares0| == d0.numEntries * params.cwordBytes &&
        |r.value.shares1| == d1.numEntries * params.cwordBytes &&
        EntriesOf(r.value.shares0, params.cwordBytes, d0.numEntries) == d0.Entries() &&
        EntriesOf(r.value.shares1, params.cwordBytes, d1.numEntries) == d1.Entries()
    {
      var check := SharesCheck(params, d0.entrySize, d1.entrySize, d0.numEntries, d1.numEntries);
      if check.Err? {
        return Err(check.error);
      }
      var data0, size0 := d0.Data();
      var data1, size1 := d1.Data();
      return Ok(Opening(data0[..], data1[..]));
    }

    /**
     * BatchDecommit: the argument checks, then the postulated values unless
     * they were sent already. The rows ComputeShares sends after them are
     * not part of this result.
     */
    method BatchDecommit(d0: ByteArrayVector, d1: ByteArrayVector, valuesSent: bool) returns (r: Result<Option<seq<bv8>>>)
      requires Valid() && d0.Valid() && d1.Valid()
      ensures r.Ok? <==> SharesCheck(params, d0.entrySize, d1.entrySize, d0.numEntries, d1.numEntries).Ok?
      ensures r.Err? ==> r.error == SharesCheck(params, d0.entrySize, d1.entrySize, d0.numEntries, d1.numEntries).error
      ensures r.Ok? ==> (r.value.Some? <==> !valuesSent)
      ensures r.Ok? && r.value.Some? && params.msgBits == 1 ==>
        |r.value.value| == BitsToBytes(d0.numEntries) &&
        (forall l :: 0 <= l < d0.numEntries ==> GetBit(l, r.value.value) == PostulatedBit(d0.Entries(), d1.Entries(), l)) &&
        (forall l :: d0.numEntries <= l < 8 * |r.value.value| ==> GetBit(l, r.value.value) == 0)
      ensures r.Ok? && r.value.Some? && params.msgBits == 128 ==>
        |r.value.value| == d0.numEntries * CSEC_BYTES &&
        EntriesOf(r.value.value, CSEC_BYTES, d0.numEntries) == BlockValues(d0.Entries(), d1.Entries())
    {
      var check := SharesCheck(params, d0.entrySize, d1.entrySize, d0.numEntries, d1.numEntries);
      if check.Err? {
        return Err(check.error);
      }
      if valuesSent {
        return Ok(None);
      }
      var values := PostulatedValues(params.msgBits, d0, d1);
      return Ok(Some(values.value));
    }

    /**
     * BatchDecommitLSB: unless sent already, the LSBs of the committed
     * values as a BitVector; then the ComputeShares rows res0, res1 blinded
     * with the transposed blind shares b0, b1.
     */
    method BatchDecommitLSB(d0: ByteArrayVector, d1: ByteArrayVector, b0: ByteArrayVector, b1: ByteArrayVector,
                            valuesSent: bool, res0: ByteArrayVector, res1: ByteArrayVector)
      returns (values: Option<seq<bv8>>)
      requires Valid() && d0.Valid() && d1.Valid() && b0.Valid() && b1.Valid() && res0.Valid() && res1.Valid()
      requires d0.numEntries == d1.numEntries && d0.entrySize >= CSEC_BYTES && d1.entrySize >= CSEC_BYTES
      requires b0.entrySize == b1.entrySize == params.cwordBytes
      requires res0.numEntries == res1.numEntries == params.cwordBits && res0.entrySize == res1.entrySize == BATCH_DECOMMIT
      requires res0.vec != res1.vec && b0.vec != res0.vec && b0.vec != res1.vec && b1.vec != res0.vec && b1.vec != res1.vec
      modifies res0.vec, res1.vec
      ensures res0.Valid() && res1.Valid()
      ensures values.Some? <==> !valuesSent
      ensures values.Some? ==>
        |values.value| == BitsToBytes(d0.numEntries) &&
        (forall l :: 0 <= l < d0.numEntries ==>
           GetBit(l, values.value) == LsbCorrection(old(d0.Entries())[l], old(d1.Entries())[l])) &&
        (forall l :: d0.numEntries <= l < 8 * |values.value| ==> GetBit(l, values.value) == 0)
      ensures res0.Entries() ==
        Blinded(old(res0.Entries()), Transpose(b0.Entries(), params.cwordBits, NUM_PAR_CHECKS_BYTES), BATCH_DECOMMIT)
      ensures res1.Entries() ==
        Blinded(old(res1.Entries()), Transpose(b1.Entries(), params.cwordBits, NUM_PAR_CHECKS_BYTES), BATCH_DECOMMIT)
    {
      values := None;
      if !valuesSent {
        var v := LsbValues(d0, d1);
        values := Some(v);
      }
      ConstantRelations();
      BlindResults(b0, b1, res0, res1, BATCH_DECOMMIT);
    }
  }
}
