/**
 * The Receiver of the commitment scheme (src/split-commit/split-commit-rec.cpp).
 *
 * The Receiver holds one share per commitment. Bit j of it is bit j of the
 * Sender's share s0 or s1, as the OT choice bit j says; byte-wise that is
 * SelectByte(c[i], s0[i], s1[i]) with c the packed choice bits. Commit
 * mirrors the Sender's local steps on this single share, feeding it the
 * messages the Sender sent; the decommit operations check what the Sender
 * opens against the held shares.
 *
 * The OT extension, the PRNG draws, ComputeShares and the channel are
 * outside the model: buffers a method is given already hold what
 * ExpandAndTranspose or ComputeShares would have written, and what the
 * source receives is a parameter.
 */
module SplitCommitRec {
  import opened GlobalConstants
  import opened Util
  import opened Errors
  import opened ByteArrayVec
  import opened SplitCommit

  // ---------------------------------------------------------------------
  // Argument checks
  // ---------------------------------------------------------------------

  /**
   * The argument checks at the start of the Receiver's Commit, in the
   * source's order: OTs set, no threshold for 1-bit messages, entries of
   * cword_bytes, and a non-NORMAL type only for 128-bit messages.
   */
  function CommitCheck(p: Params, otsSet: bool, start: nat, t: CommitType, e: nat): (r: Result<()>)
    ensures r.Ok? <==>
      otsSet && (p.msgBits == 1 ==> start == UINT32_MAX) && e == p.cwordBytes && (t != Normal ==> p.msgBits == 128)
    ensures !otsSet ==> r == Err(OtsNotSet)
    ensures otsSet && p.msgBits == 1 && start != UINT32_MAX ==> r == Err(LsbForBitCommit)
    ensures r.Err? && otsSet && (p.msgBits == 1 ==> start == UINT32_MAX) && e == p.cwordBytes ==> r == Err(OnlyFor128)
  {
    if !otsSet then Err(OtsNotSet)
    else if p.msgBits == 1 && start != UINT32_MAX then Err(LsbForBitCommit)
    else if e != p.cwordBytes then Err(IncorrectCodewordSize)
    else if t != Normal && p.msgBits != 128 then Err(OnlyFor128)
    else Ok(())
  }

  /** The number of result entries Decommit and BatchDecommit expect for n commitments. */
  function ResultCount(p: Params, n: nat): (k: nat)
    ensures p.msgBits == 1 ==> k * CHAR_BIT >= n && k * CHAR_BIT < n + CHAR_BIT
    ensures p.msgBits != 1 ==> k == n
  {
    if p.msgBits == 1 then BitsToBytes(n) else n
  }

  /**
   * The argument checks of Decommit and BatchDecommit: the held shares have
   * cword_bytes entries, the result buffer msg_bytes entries, and there is
   * one result entry per commitment (one bit per commitment for 1-bit
   * messages).
   */
  function DecommitCheck(p: Params, e: nat, n: nat, ve: nat, vn: nat): (r: Result<()>)
    ensures r.Ok? <==> e == p.cwordBytes && ve == p.msgBytes && vn == ResultCount(p, n)
    ensures e != p.cwordBytes ==> r == Err(IncorrectCodewordSize)
    ensures e == p.cwordBytes && ve != p.msgBytes ==> r == Err(IncorrectMsgSize)
    ensures e == p.cwordBytes && ve == p.msgBytes && vn != ResultCount(p, n) ==> r == Err(DecommitCountMismatch)
  {
    if e != p.cwordBytes then Err(IncorrectCodewordSize)
    else if ve != p.msgBytes then Err(IncorrectMsgSize)
    else if p.msgBits == 1 && BitsToBytes(n) != vn then Err(DecommitCountMismatch)
    else if p.msgBits != 1 && n != vn then Err(DecommitCountMismatch)
    else Ok(())
  }

  // ---------------------------------------------------------------------
  // Commit, on entry sequences
  // ---------------------------------------------------------------------

  /** The LSB corrections fit the threshold branch: one bit per commitment from start on. */
  predicate BitsFit(start: nat, n: nat, bits: seq<bv8>)
  {
    ThresholdActive(start, n) ==> |bits| == n - start && forall k :: 0 <= k < |bits| ==> bits[k] <= 1
  }

  /**
   * The threshold branch of the Receiver's CheckbitCorrection: the Sender's
   * flips are applied only when the choice bit of the message's last bit is
   * set.
   */
  function ReceiverFlipped(p: Params, c: seq<bv8>, rs: seq<seq<bv8>>, start: nat, bits: seq<bv8>): (r: seq<seq<bv8>>)
    requires ValidParams(p) && |c| == p.cwordBytes && EntriesSized(rs, p.cwordBytes)
    requires ThresholdActive(start, |rs|) ==> p == BLOCK_PARAMS
    requires BitsFit(start, |rs|, bits)
    ensures |r| == |rs| && EntriesSized(r, p.cwordBytes)
  {
    if ThresholdActive(start, |rs|) && GetBit(p.msgBits - 1, c) == 1 then FlipFrom(rs, p.msgBytes, start, bits) else rs
  }

  /**
   * The commitment shares the Receiver ends up with: its random shares es
   * shaped by commit type, flipped by the received LSB corrections, and
   * corrected by the received check-bit corrections corrs.
   */
  function ReceiverCommitted(p: Params, c: seq<bv8>, t: CommitType, start: nat,
                             es: seq<seq<bv8>>, bits: seq<bv8>, corrs: seq<seq<bv8>>): (r: seq<seq<bv8>>)
    requires ValidParams(p) && |c| == p.cwordBytes && EntriesSized(es, p.cwordBytes)
    requires t != Normal || ThresholdActive(start, |es|) ==> p == BLOCK_PARAMS
    requires BitsFit(start, |es|, bits)
    requires |corrs| == |es| && EntriesSized(corrs, p.parityBytes)
    ensures |r| == |es| && EntriesSized(r, p.cwordBytes)
  {
    var shaped := ShapeAll(t, p.msgBytes, es);
    ApplyAll(c, ReceiverFlipped(p, c, shaped, start, bits), p.msgInCwordOffset, corrs)
  }

  /** Every entry of a buffer agrees with the matching pair of Sender entries. */
  predicate AllAgree(c: seq<bv8>, rs: seq<seq<bv8>>, s0: seq<seq<bv8>>, s1: seq<seq<bv8>>)
  {
    |rs| == |s0| == |s1| && forall j :: 0 <= j < |rs| ==> Agree(c, rs[j], s0[j], s1[j])
  }

  // ---------------------------------------------------------------------
  // Commit, on the Receiver's buffers
  // ---------------------------------------------------------------------

  /** Iteration j of ApplyCorrections: entry j gets the masked correction base + j. */
  method ApplyStep(p: Params, c: seq<bv8>, rs: ByteArrayVector, corr: ByteArrayVector, base: nat, j: nat,
                   ghost rows: seq<seq<bv8>>, ghost target: seq<seq<bv8>>)
    requires ValidParams(p) && |c| == p.cwordBytes && rs.Valid() && corr.Valid() && rs.vec != corr.vec
    requires rs.entrySize == p.cwordBytes && corr.entrySize == p.parityBytes
    requires j < rs.numEntries && base + j < corr.numEntries
    requires RewrittenUpTo(rs.vec[..], p.cwordBytes, rs.numEntries, j, rows, target)
    requires target[j] == ApplyCorrection(c, rows[j], p.msgInCwordOffset, corr.Entries()[base + j])
    modifies rs.vec
    ensures rs.Valid() && RewrittenUpTo(rs.vec[..], p.cwordBytes, rs.numEntries, j + 1, rows, target)
  {
    var a, off := rs.Index(j);
    var pc, oc := corr.Index(base + j);
    ghost var before := a[..];
    ApplyPair(c, a, off, p.cwordBytes, p.msgInCwordOffset, pc, oc, p.parityBytes, rows[j], corr.Entries()[base + j]);
    RewriteStep(before, a[..], p.cwordBytes, rs.numEntries, j, off, rows, target);
  }

  /** ApplyCorrectionEntry with the entry and its correction named. */
  method ApplyPair(c: seq<bv8>, a: array<bv8>, off: nat, cw: nat, msgOff: nat,
                   corr: array<bv8>, oc: nat, parity: nat, ghost r: seq<bv8>, ghost d: seq<bv8>)
    requires msgOff + parity <= cw <= |c| && off + cw <= a.Length && oc + parity <= corr.Length
    requires a != corr && a[off..off + cw] == r && corr[oc..oc + parity] == d
    modifies a
    ensures a[..] == Splice(old(a[..]), off, ApplyCorrection(c, r, msgOff, d))
  {
    ApplyCorrectionEntry(c, a, off, cw, msgOff, corr, oc, parity);
  }

  /**
   * One correction loop of the Receiver's CheckbitCorrection: check byte q
   * of entry j gets byte q of correction base + j, masked by choice byte
   * msg_in_cword_offset + q.
   */
  method ApplyCorrections(p: Params, c: seq<bv8>, rs: ByteArrayVector, corr: ByteArrayVector, base: nat)
    requires ValidParams(p) && |c| == p.cwordBytes && rs.Valid() && corr.Valid() && rs.vec != corr.vec
    requires rs.entrySize == p.cwordBytes && corr.entrySize == p.parityBytes
    requires base + rs.numEntries <= corr.numEntries
    modifies rs.vec
    ensures rs.Valid()
    ensures rs.Entries() ==
      ApplyAll(c, old(rs.Entries()), p.msgInCwordOffset, corr.Entries()[base..base + rs.numEntries])
  {
    var n := rs.numEntries;
    ghost var rows := rs.Entries();
    ghost var ds := corr.Entries()[base..base + n];
    ghost var target := ApplyAll(c, rows, p.msgInCwordOffset, ds);
    var j := 0;
    while j < n
      invariant 0 <= j <= n && rs.Valid()
      invariant corr.Entries()[base..base + n] == ds
      invariant RewrittenUpTo(rs.vec[..], p.cwordBytes, n, j, rows, target)
    {
      assert target[j] == ApplyCorrection(c, rows[j], p.msgInCwordOffset, corr.Entries()[base + j]);
      ApplyStep(p, c, rs, corr, base, j, rows, target);
      j := j + 1;
    }
    RewriteDone(rs.vec[..], p.cwordBytes, n, j, rows, target);
  }

  /**
   * The threshold branch of the Receiver's CheckbitCorrection: when it runs
   * and choice bit msg_bits - 1 is set, entry i from start on is flipped by
   * the received bit i - start.
   */
  method ReceiverLsbThreshold(p: Params, c: seq<bv8>, start: nat, rs: ByteArrayVector, bits: seq<bv8>)
    requires ValidParams(p) && |c| == p.cwordBytes && rs.Valid() && rs.entrySize == p.cwordBytes
    requires ThresholdActive(start, rs.numEntries) ==> p == BLOCK_PARAMS
    requires BitsFit(start, rs.numEntries, bits)
    modifies rs.vec
    ensures rs.Valid()
    ensures rs.Entries() == ReceiverFlipped(p, c, old(rs.Entries()), start, bits)
  {
    var n, cw := rs.numEntries, p.cwordBytes;
    if !(ThresholdActive(start, n) && GetBit(p.msgBits - 1, c) == 1) {
      return;
    }
    ghost var rows := rs.Entries();
    ghost var target := FlipFrom(rows, p.msgBytes, start, bits);
    var a := rs.vec;
    var i := start;
    while i < n
      invariant start <= i <= n && rs.Valid() && rs.vec == a
      invariant RewrittenUpTo(a[..], cw, n, i, rows, target)
    {
      var q, off := rs.Index(i);
      ghost var before := a[..];
      assert target[i] == LsbFlip(rows[i], p.msgBytes, bits[i - start]);
      FlipPair(p.msgBytes, bits[i - start], a, off, cw, rows[i]);
      RewriteStep(before, a[..], cw, n, i, off, rows, target);
      i := i + 1;
    }
    RewriteDone(a[..], cw, n, i, rows, target);
  }

  /** FlipEntry with the entry named. */
  method FlipPair(msgBytes: nat, bit: bv8, a: array<bv8>, off: nat, cw: nat, ghost r: seq<bv8>)
    requires 0 < msgBytes <= cw && off + cw <= a.Length && bit <= 1 && a[off..off + cw] == r
    modifies a
    ensures a[..] == Splice(old(a[..]), off, LsbFlip(r, msgBytes, bit))
  {
    FlipEntry(msgBytes, bit, a, off, cw);
  }

  // ---------------------------------------------------------------------
  // Decommitment
  // ---------------------------------------------------------------------

  /** The held shares and both opened buffers line up: n entries of cword_bytes each. */
  predicate OpeningShaped(p: Params, rs: seq<seq<bv8>>, d0s: seq<seq<bv8>>, d1s: seq<seq<bv8>>)
  {
    |rs| == |d0s| == |d1s| &&
    EntriesSized(rs, p.cwordBytes) && EntriesSized(d0s, p.cwordBytes) && EntriesSized(d1s, p.cwordBytes)
  }

  /**
   * How many commitments from j on pass the test of VerifyDecommits before
   * the first that fails: the loop stops there, having written the values
   * of the ones before it.
   */
  function OkPrefix(p: Params, enc: Encoder, c: seq<bv8>, rs: seq<seq<bv8>>, d0s: seq<seq<bv8>>, d1s: seq<seq<bv8>>,
                    j: nat): (m: nat)
    requires ValidParams(p) && |c| == p.cwordBytes && OpeningShaped(p, rs, d0s, d1s) && j <= |rs|
    ensures j <= m <= |rs|
    ensures forall k :: j <= k < m ==> DecommitOk(p, enc, c, rs[k], d0s[k], d1s[k])
    ensures m < |rs| ==> !DecommitOk(p, enc, c, rs[m], d0s[m], d1s[m])
    decreases |rs| - j
  {
    if j == |rs| || !DecommitOk(p, enc, c, rs[j], d0s[j], d1s[j]) then j
    else OkPrefix(p, enc, c, rs, d0s, d1s, j + 1)
  }

  /** Inside the passing prefix exactly the commitments before its end open. */
  lemma PrefixOpens(p: Params, enc: Encoder, c: seq<bv8>, rs: seq<seq<bv8>>, d0s: seq<seq<bv8>>, d1s: seq<seq<bv8>>,
                    m: nat, j: nat)
    requires ValidParams(p) && |c| == p.cwordBytes && OpeningShaped(p, rs, d0s, d1s)
    requires m == OkPrefix(p, enc, c, rs, d0s, d1s, 0) && j <= m && j < |rs|
    ensures DecommitOk(p, enc, c, rs[j], d0s[j], d1s[j]) <==> j < m
  {
  }

  /** The value an opening carries: the message bytes of d0 ^ d1. */
  function Opened(p: Params, d0: seq<bv8>, d1: seq<bv8>): (m: seq<bv8>)
    requires ValidParams(p) && |d0| == |d1| == p.cwordBytes
    ensures |m| == p.msgBytes
  {
    Message(p, Xor(d0, d1))
  }

  /**
   * The test of VerifyDecommits on one commitment, as the source runs it:
   * the message bytes first, then XOR_CodeWords (XOR_BitCodeWords), the
   * check bytes recomputed, and the check bytes together with the codeword
   * test. The XOR of the opened shares is returned for the caller to store.
   */
  method OpenEntry(p: Params, enc: Encoder, c: seq<bv8>, ra: array<bv8>, ro: nat,
                   a0: array<bv8>, o0: nat, a1: array<bv8>, o1: nat) returns (ok: bool, v: seq<bv8>)
    requires ValidParams(p) && |c| == p.cwordBytes
    requires ro + p.cwordBytes <= ra.Length && o0 + p.cwordBytes <= a0.Length && o1 + p.cwordBytes <= a1.Length
    ensures ok <==> DecommitOk(p, enc, c, ra[ro..ro + p.cwordBytes], a0[o0..o0 + p.cwordBytes], a1[o1..o1 + p.cwordBytes])
    ensures ok ==> v == Xor(a0[o0..o0 + p.cwordBytes], a1[o1..o1 + p.cwordBytes])
  {
    ghost var r, d0, d1 := ra[ro..ro + p.cwordBytes], a0[o0..o0 + p.cwordBytes], a1[o1..o1 + p.cwordBytes];
    ok := MsgBytesOpen(p, c, ra, ro, a0, o0, a1, o1, r, d0, d1);
    if !ok {
      return false, [];
    }
    var vals := new bv8[p.cwordBytes];
    var checkBits := new bv8[p.parityBytes](_ => 0);
    OpenedCode(p, enc, a0, o0, a1, o1, vals, checkBits);
    ok := ParityOpen(p, enc, c, ra, ro, a0, o0, a1, o1, vals, checkBits, r, d0, d1);
    v := vals[..];
  }

  /** The first loop of the test: every message byte opens. */
  method MsgBytesOpen(p: Params, c: seq<bv8>, ra: array<bv8>, ro: nat, a0: array<bv8>, o0: nat, a1: array<bv8>, o1: nat,
                      ghost r: seq<bv8>, ghost d0: seq<bv8>, ghost d1: seq<bv8>) returns (ok: bool)
    requires ValidParams(p) && |c| == p.cwordBytes
    requires ro + p.cwordBytes <= ra.Length && o0 + p.cwordBytes <= a0.Length && o1 + p.cwordBytes <= a1.Length
    requires r == ra[ro..ro + p.cwordBytes] && d0 == a0[o0..o0 + p.cwordBytes] && d1 == a1[o1..o1 + p.cwordBytes]
    ensures ok <==> forall i :: 0 <= i < p.msgBytes ==> OpensAt(c, r, d0, d1, i)
  {
    var i := 0;
    while i < p.msgBytes
      invariant 0 <= i <= p.msgBytes
      invariant forall k :: 0 <= k < i ==> OpensAt(c, r, d0, d1, k)
    {
      var x, y0, y1 := ra[ro + i], a0[o0 + i], a1[o1 + i];
      assert x == r[i] && y0 == d0[i] && y1 == d1[i];
      if !ByteOpens(x, c[i], y0, y1) {
        assert !OpensAt(c, r, d0, d1, i);
        return false;
      }
      i := i + 1;
    }
    return true;
  }

  /** XOR_CodeWords (XOR_BitCodeWords) of the opened shares into vals, and their check bytes into checkBits. */
  method OpenedCode(p: Params, enc: Encoder, a0: array<bv8>, o0: nat, a1: array<bv8>, o1: nat,
                    vals: array<bv8>, checkBits: array<bv8>)
    requires ValidParams(p) && vals.Length == p.cwordBytes && checkBits.Length == p.parityBytes
    requires o0 + p.cwordBytes <= a0.Length && o1 + p.cwordBytes <= a1.Length
    requires vals != a0 && vals != a1 && checkBits != a0 && checkBits != a1 && vals != checkBits
    modifies vals, checkBits
    ensures vals[..] == Xor(a0[o0..o0 + p.cwordBytes], a1[o1..o1 + p.cwordBytes])
    ensures checkBits[..] == CheckBits(p, enc, vals[..])
  {
    ghost var x := Xor(a0[o0..o0 + p.cwordBytes], a1[o1..o1 + p.cwordBytes]);
    if p.msgBits == 1 {
      XorBitCodeWordsPair(vals, 0, a0, o0, a1, o1);
      SpliceWhole(old(vals[..]), x);
      BitEncode(p, GetBit(0, vals[..]), checkBits, 0);
      SpliceWhole(old(checkBits[..]), CheckBits(p, enc, vals[..]));
    } else {
      XorCodeWordsPair(vals, 0, a0, o0, a1, o1);
      SpliceWhole(old(vals[..]), x);
      Copy(checkBits, 0, enc(vals[..PLAINTEXT_U8_SIZE]));
      SpliceWhole(old(checkBits[..]), CheckBits(p, enc, vals[..]));
    }
  }

  /**
   * The second loop of the test, run once the message bytes opened: every
   * check byte opens and equals the recomputed one.
   */
  method ParityOpen(p: Params, enc: Encoder, c: seq<bv8>, ra: array<bv8>, ro: nat,
                    a0: array<bv8>, o0: nat, a1: array<bv8>, o1: nat, vals: array<bv8>, checkBits: array<bv8>,
                    ghost r: seq<bv8>, ghost d0: seq<bv8>, ghost d1: seq<bv8>) returns (ok: bool)
    requires ValidParams(p) && |c| == p.cwordBytes
    requires ro + p.cwordBytes <= ra.Length && o0 + p.cwordBytes <= a0.Length && o1 + p.cwordBytes <= a1.Length
    requires r == ra[ro..ro + p.cwordBytes] && d0 == a0[o0..o0 + p.cwordBytes] && d1 == a1[o1..o1 + p.cwordBytes]
    requires forall i :: 0 <= i < p.msgBytes ==> OpensAt(c, r, d0, d1, i)
    requires vals.Length == p.cwordBytes && vals[..] == Xor(d0, d1)
    requires checkBits.Length == p.parityBytes && checkBits[..] == CheckBits(p, enc, vals[..])
    ensures ok <==> DecommitOk(p, enc, c, r, d0, d1)
  {
    var off, pb := p.msgInCwordOffset, p.parityBytes;
    ghost var x := vals[..];
    ghost var code := checkBits[..];
    var q := 0;
    while q < pb
      invariant 0 <= q <= pb
      invariant forall k :: off <= k < off + q ==> OpensAt(c, r, d0, d1, k)
      invariant forall k :: 0 <= k < q ==> code[k] == x[off + k]
    {
      var b := ParityByte(p, c, ra, ro, a0, o0, a1, o1, vals, checkBits, r, d0, d1, x, code, q);
      if !b {
        return false;
      }
      q := q + 1;
    }
    return true;
  }

  /** Check byte q of the test: the byte opens and equals the recomputed check byte. */
  method ParityByte(p: Params, c: seq<bv8>, ra: array<bv8>, ro: nat, a0: array<bv8>, o0: nat, a1: array<bv8>, o1: nat,
                    vals: array<bv8>, checkBits: array<bv8>, ghost r: seq<bv8>, ghost d0: seq<bv8>, ghost d1: seq<bv8>,
                    ghost x: seq<bv8>, ghost code: seq<bv8>, q: nat) returns (b: bool)
    requires ValidParams(p) && |c| == p.cwordBytes && q < p.parityBytes
    requires ro + p.cwordBytes <= ra.Length && o0 + p.cwordBytes <= a0.Length && o1 + p.cwordBytes <= a1.Length
    requires r == ra[ro..ro + p.cwordBytes] && d0 == a0[o0..o0 + p.cwordBytes] && d1 == a1[o1..o1 + p.cwordBytes]
    requires vals.Length == p.cwordBytes && vals[..] == x && checkBits.Length == p.parityBytes && checkBits[..] == code
    ensures b <==> OpensAt(c, r, d0, d1, p.msgInCwordOffset + q) && code[q] == x[p.msgInCwordOffset + q]
  {
    var k := p.msgInCwordOffset + q;
    var y, y0, y1 := ra[ro + k], a0[o0 + k], a1[o1 + k];
    assert y == r[k] && y0 == d0[k] && y1 == d1[k];
    b := ByteOpens(y, c[k], y0, y1) && checkBits[q] == vals[k];
  }

  // ---------------------------------------------------------------------
  // Checks on opened linear combinations
  // ---------------------------------------------------------------------

  /** Row i of the received shares that choice bit i selects. */
  function Selected(c: seq<bv8>, r0s: seq<seq<bv8>>, r1s: seq<seq<bv8>>, i: nat): seq<bv8>
    requires i / 8 < |c| && i < |r0s| && i < |r1s|
  {
    if GetBit(i, c) == 1 then r1s[i] else r0s[i]
  }

  /** The first nc bytes of a row in one 16-byte block, the rest zero: a row loaded and ANDed with store_mask. */
  function MaskedRow(row: seq<bv8>, nc: nat): (m: seq<bv8>)
    requires nc <= CSEC_BYTES && nc <= |row|
    ensures |m| == CSEC_BYTES
  {
    row[..nc] + Repeat(CSEC_BYTES - nc, 0)
  }

  /** The Receiver's rows and both received row sets: cword_bits rows of nc bytes each. */
  predicate ProofShaped(p: Params, shares: seq<seq<bv8>>, r0s: seq<seq<bv8>>, r1s: seq<seq<bv8>>, nc: nat)
  {
    |shares| == |r0s| == |r1s| == p.cwordBits &&
    EntriesSized(shares, nc) && EntriesSized(r0s, nc) && EntriesSized(r1s, nc)
  }

  /** Every row the Receiver computed is the received row its choice bit selects. */
  predicate RowsMatch(c: seq<bv8>, shares: seq<seq<bv8>>, r0s: seq<seq<bv8>>, r1s: seq<seq<bv8>>)
    requires |shares| == |r0s| == |r1s| <= 8 * |c|
  {
    forall i :: 0 <= i < |shares| ==> shares[i] == Selected(c, r0s, r1s, i)
  }

  /** The matrix VerifyTransposedDecommits fills: row i is the XOR of the two masked received rows. */
  function DecommitMatrix(r0s: seq<seq<bv8>>, r1s: seq<seq<bv8>>, nc: nat): (m: seq<seq<bv8>>)
    requires |r0s| == |r1s| && nc <= CSEC_BYTES && EntriesSized(r0s, nc) && EntriesSized(r1s, nc)
    ensures |m| == |r0s| && EntriesSized(m, CSEC_BYTES)
  {
    seq(|r0s|, i requires 0 <= i < |r0s| => Xor(MaskedRow(r0s[i], nc), MaskedRow(r1s[i], nc)))
  }

  /** A matrix whose every row is the XOR of the masked received rows is the decommit matrix. */
  lemma DecommitMatrixRows(r0s: seq<seq<bv8>>, r1s: seq<seq<bv8>>, nc: nat, m: seq<seq<bv8>>)
    requires |r0s| == |r1s| == |m| && nc <= CSEC_BYTES && EntriesSized(r0s, nc) && EntriesSized(r1s, nc)
    requires forall k :: 0 <= k < |m| ==> m[k] == Xor(MaskedRow(r0s[k], nc), MaskedRow(r1s[k], nc))
    ensures m == DecommitMatrix(r0s, r1s, nc)
  {
  }

  /** The transpose of the decommit matrix: row i is opened linear combination i, a would-be codeword. */
  function Combinations(p: Params, m: seq<seq<bv8>>): (t: seq<seq<bv8>>)
    requires EntriesSized(m, CSEC_BYTES)
    ensures |t| == NUM_PAR_CHECKS && EntriesSized(t, p.cwordBytes)
  {
    Transpose(m, NUM_PAR_CHECKS, p.cwordBytes)
  }

  /**
   * VerifyTransposedDecommits on rows of nc bytes: more than 128 values
   * throw; otherwise every row must be the one its choice bit selects and
   * every one of the 8 * nc opened combinations must be a codeword.
   */
  function TransposedCheck(p: Params, enc: Encoder, c: seq<bv8>, shares: seq<seq<bv8>>,
                           r0s: seq<seq<bv8>>, r1s: seq<seq<bv8>>, nc: nat): (r: Result<bool>)
    requires ValidParams(p) && |c| == p.cwordBytes && ProofShaped(p, shares, r0s, r1s, nc)
    ensures r.Err? <==> 8 * nc > NUM_PAR_CHECKS
    ensures r.Err? ==> r.error == UnsupportedNumValues
  {
    if 8 * nc > NUM_PAR_CHECKS then Err(UnsupportedNumValues)
    else
      var cols := Combinations(p, DecommitMatrix(r0s, r1s, nc));
      Ok(RowsMatch(c, shares, r0s, r1s) && forall i :: 0 <= i < 8 * nc ==> IsCodeword(p, enc, cols[i]))
  }

  /** Two byte strings with the same bits are equal. */
  lemma BytesExt(a: seq<bv8>, b: seq<bv8>)
    requires |a| == |b|
    requires forall k :: 0 <= k < 8 * |a| ==> GetBit(k, a) == GetBit(k, b)
    ensures a == b
  {
    forall j | 0 <= j < |a|
      ensures a[j] == b[j]
    {
      forall t | 0 <= t < 8
        ensures BitOf(a[j], t) == BitOf(b[j], t)
      {
        var k := 8 * j + t;
        assert k / 8 == j && k % 8 == t;
        assert GetBit(k, a) == GetBit(k, b);
      }
      ByteExt(a[j], b[j]);
    }
  }

  /** Bit k of a masked row is bit k of the row within the first nc bytes and 0 beyond. */
  lemma MaskedRowBit(row: seq<bv8>, nc: nat, k: nat)
    requires nc <= CSEC_BYTES && nc <= |row| && k < 8 * CSEC_BYTES
    ensures GetBit(k, MaskedRow(row, nc)) == if k < 8 * nc then GetBit(k, row) else 0
  {
    var m := MaskedRow(row, nc);
    if k < 8 * nc {
      assert m[k / 8] == row[k / 8];
    } else {
      assert m[k / 8] == 0;
    }
  }

  /**
   * Opened combination i is the XOR of column i of the two received row
   * sets: the Receiver checks the combinations of s0 ^ s1 that the Sender's
   * two share matrices open to.
   */
  lemma {:induction false} CombinationIsXor(p: Params, r0s: seq<seq<bv8>>, r1s: seq<seq<bv8>>, nc: nat, i: nat)
    requires |r0s| == |r1s| == p.cwordBits == 8 * p.cwordBytes
    requires nc <= CSEC_BYTES && EntriesSized(r0s, nc) && EntriesSized(r1s, nc) && i < 8 * nc
    ensures Combinations(p, DecommitMatrix(r0s, r1s, nc))[i] ==
            Xor(Column(r0s, i, p.cwordBytes), Column(r1s, i, p.cwordBytes))
  {
    var m := DecommitMatrix(r0s, r1s, nc);
    var col := Combinations(p, m)[i];
    var x := Xor(Column(r0s, i, p.cwordBytes), Column(r1s, i, p.cwordBytes));
    forall k | 0 <= k < 8 * p.cwordBytes
      ensures GetBit(k, col) == GetBit(k, x)
    {
      TransposeBits(m, NUM_PAR_CHECKS, p.cwordBytes, i, k);
      GetBitXor(Column(r0s, i, p.cwordBytes), Column(r1s, i, p.cwordBytes), k);
      ColumnBits(r0s, i, p.cwordBytes, k);
      ColumnBits(r1s, i, p.cwordBytes, k);
      if k < |m| {
        GetBitXor(MaskedRow(r0s[k], nc), MaskedRow(r1s[k], nc), i);
        MaskedRowBit(r0s[k], nc, i);
        MaskedRowBit(r1s[k], nc, i);
      }
    }
    BytesExt(col, x);
  }

  /**
   * VerifyTransposedDecommits accepts exactly when every row agrees with
   * the choice bits and every linear combination the two received row sets
   * open to (column i of one XOR column i of the other) is a codeword.
   */
  lemma TransposedCheckIff(p: Params, enc: Encoder, c: seq<bv8>, shares: seq<seq<bv8>>,
                           r0s: seq<seq<bv8>>, r1s: seq<seq<bv8>>, nc: nat)
    requires ValidParams(p) && |c| == p.cwordBytes && ProofShaped(p, shares, r0s, r1s, nc)
    requires 8 * nc <= NUM_PAR_CHECKS
    ensures TransposedCheck(p, enc, c, shares, r0s, r1s, nc) == Ok(true) <==>
      RowsMatch(c, shares, r0s, r1s) &&
      forall i :: 0 <= i < 8 * nc ==>
        IsCodeword(p, enc, Xor(Column(r0s, i, p.cwordBytes), Column(r1s, i, p.cwordBytes)))
  {
    forall i | 0 <= i < 8 * nc
      ensures Combinations(p, DecommitMatrix(r0s, r1s, nc))[i] ==
              Xor(Column(r0s, i, p.cwordBytes), Column(r1s, i, p.cwordBytes))
    {
      CombinationIsXor(p, r0s, r1s, nc, i);
    }
  }

  /**
   * The commit-type checks of ConsistencyCheck against the transposed blind
   * shares: ALL_ZERO_LSB_RND checks rows 0..126, ALL_RND_LSB_ZERO row 127,
   * on the first CONSISTENCY bytes.
   */
  predicate TypeRowsMatch(t: CommitType, c: seq<bv8>, trans: seq<seq<bv8>>, r0s: seq<seq<bv8>>, r1s: seq<seq<bv8>>)
    requires |trans| == |r0s| == |r1s| <= 8 * |c|
    requires t != Normal ==> |trans| >= CSEC
    requires forall i :: 0 <= i < |trans| ==> |trans[i]| >= CONSISTENCY
  {
    match t
    case Normal => true
    case AllZeroLsbRnd => forall i :: 0 <= i < CSEC - 1 ==> trans[i][..CONSISTENCY] == Selected(c, r0s, r1s, i)
    case AllRndLsbZero => trans[CSEC - 1][..CONSISTENCY] == Selected(c, r0s, r1s, CSEC - 1)
  }

  /** The commit-type rows of ConsistencyCheck, tested in the source's order. */
  method TypeRowsCheck(t: CommitType, c: seq<bv8>, trans: seq<seq<bv8>>, r0s: seq<seq<bv8>>, r1s: seq<seq<bv8>>)
    returns (ok: bool)
    requires |trans| == |r0s| == |r1s| <= 8 * |c|
    requires t != Normal ==> |trans| >= CSEC
    requires forall i :: 0 <= i < |trans| ==> |trans[i]| >= CONSISTENCY
    ensures ok <==> TypeRowsMatch(t, c, trans, r0s, r1s)
  {
    if t == AllZeroLsbRnd {
      var i := 0;
      while i < CSEC - 1
        invariant 0 <= i <= CSEC - 1
        invariant forall k :: 0 <= k < i ==> trans[k][..CONSISTENCY] == Selected(c, r0s, r1s, k)
      {
        if trans[i][..CONSISTENCY] != Selected(c, r0s, r1s, i) {
          return false;
        }
        i := i + 1;
      }
    } else if t == AllRndLsbZero {
      if trans[CSEC - 1][..CONSISTENCY] != Selected(c, r0s, r1s, CSEC - 1) {
        return false;
      }
    }
    return true;
  }

  /** Every blind share the Receiver holds agrees with the Sender's pair. */
  predicate BlindsAgree(c: seq<bv8>, rb: seq<seq<bv8>>, b0: seq<seq<bv8>>, b1: seq<seq<bv8>>)
  {
    |rb| == |b0| == |b1| && forall j :: 0 <= j < |rb| ==> Agree(c, rb[j], b0[j], b1[j])
  }

  /**
   * Transposing commutes with choice selection: when the Receiver's blind
   * shares agree with the Sender's, row i of their transpose is row i of
   * the transposed s0 or s1 blinds, as choice bit i says.
   */
  lemma {:induction false} TransposeSelects(c: seq<bv8>, rb: seq<seq<bv8>>, b0: seq<seq<bv8>>, b1: seq<seq<bv8>>, i: nat)
    requires BlindsAgree(c, rb, b0, b1) && |rb| == NUM_PAR_CHECKS
    requires EntriesSized(rb, |c|) && i < 8 * |c|
    ensures Transpose(rb, 8 * |c|, NUM_PAR_CHECKS_BYTES)[i] ==
            Selected(c, Transpose(b0, 8 * |c|, NUM_PAR_CHECKS_BYTES), Transpose(b1, 8 * |c|, NUM_PAR_CHECKS_BYTES), i)
  {
    var n := 8 * |c|;
    var t, t0, t1 := Transpose(rb, n, NUM_PAR_CHECKS_BYTES), Transpose(b0, n, NUM_PAR_CHECKS_BYTES), Transpose(b1, n, NUM_PAR_CHECKS_BYTES);
    var sel := Selected(c, t0, t1, i);
    forall k | 0 <= k < 8 * NUM_PAR_CHECKS_BYTES
      ensures GetBit(k, t[i]) == GetBit(k, sel)
    {
      TransposeBits(rb, n, NUM_PAR_CHECKS_BYTES, i, k);
      TransposeBits(b0, n, NUM_PAR_CHECKS_BYTES, i, k);
      TransposeBits(b1, n, NUM_PAR_CHECKS_BYTES, i, k);
      assert Agree(c, rb[k], b0[k], b1[k]);
      AgreeIffBits(c, rb[k], b0[k], b1[k]);
    }
    BytesExt(t[i], sel);
  }

  /**
   * The rows the commit-type check reads are zero rows of the Sender's
   * linear combinations blinded with its transposed blind shares.
   */
  predicate ZeroRowsBlinded(t: CommitType, rs: seq<seq<bv8>>, res: seq<seq<bv8>>, trans: seq<seq<bv8>>)
    requires |rs| == |res| == |trans| && (t != Normal ==> |rs| >= CSEC)
    requires forall i :: 0 <= i < |trans| ==> |trans[i]| >= CONSISTENCY
    requires EntriesSized(res, CONSISTENCY)
  {
    rs == Blinded(res, trans, CONSISTENCY) &&
    match t
    case Normal => true
    case AllZeroLsbRnd => forall i :: 0 <= i < CSEC - 1 ==> res[i] == Repeat(CONSISTENCY, 0)
    case AllRndLsbZero => res[CSEC - 1] == Repeat(CONSISTENCY, 0)
  }

  /**
   * An honest Sender passes the commit-type check: when the checked rows of
   * its linear combinations are zero (the shaped bits of every commitment
   * are zero in both shares), the rows it sends are its transposed blind
   * shares, and the Receiver's transposed blinds select them.
   */
  lemma {:induction false} TypeRowsHonest(t: CommitType, c: seq<bv8>, rb: seq<seq<bv8>>, b0: seq<seq<bv8>>, b1: seq<seq<bv8>>,
                                          res0: seq<seq<bv8>>, res1: seq<seq<bv8>>, r0s: seq<seq<bv8>>, r1s: seq<seq<bv8>>)
    requires BlindsAgree(c, rb, b0, b1) && |rb| == NUM_PAR_CHECKS && EntriesSized(rb, |c|) && |c| >= CSEC_BYTES
    requires |res0| == |res1| == |r0s| == |r1s| == 8 * |c|
    requires EntriesSized(res0, CONSISTENCY) && EntriesSized(res1, CONSISTENCY)
    requires ZeroRowsBlinded(t, r0s, res0, Transpose(b0, 8 * |c|, NUM_PAR_CHECKS_BYTES))
    requires ZeroRowsBlinded(t, r1s, res1, Transpose(b1, 8 * |c|, NUM_PAR_CHECKS_BYTES))
    ensures TypeRowsMatch(t, c, Transpose(rb, 8 * |c|, NUM_PAR_CHECKS_BYTES), r0s, r1s)
  {
    var n := 8 * |c|;
    var t0, t1 := Transpose(b0, n, NUM_PAR_CHECKS_BYTES), Transpose(b1, n, NUM_PAR_CHECKS_BYTES);
    var trans := Transpose(rb, n, NUM_PAR_CHECKS_BYTES);
    forall i | 0 <= i < CSEC && ((t == AllZeroLsbRnd && i < CSEC - 1) || (t == AllRndLsbZero && i == CSEC - 1))
      ensures trans[i][..CONSISTENCY] == Selected(c, r0s, r1s, i)
    {
      TransposeSelects(c, rb, b0, b1, i);
      assert res0[i] == Repeat(CONSISTENCY, 0) && res1[i] == Repeat(CONSISTENCY, 0);
      assert r0s[i] == Xor(res0[i], t0[i][..CONSISTENCY]);
      assert r1s[i] == Xor(res1[i], t1[i][..CONSISTENCY]);
      assert Xor(Repeat(CONSISTENCY, 0), t0[i][..CONSISTENCY]) == t0[i][..CONSISTENCY];
      assert Xor(Repeat(CONSISTENCY, 0), t1[i][..CONSISTENCY]) == t1[i][..CONSISTENCY];
    }
  }

  /** What ConsistencyCheck accepts: the commit-type rows, then VerifyTransposedDecommits on CONSISTENCY bytes. */
  predicate ConsistencyOk(p: Params, enc: Encoder, c: seq<bv8>, t: CommitType, trans: seq<seq<bv8>>,
                          shares: seq<seq<bv8>>, r0s: seq<seq<bv8>>, r1s: seq<seq<bv8>>)
    requires ValidParams(p) && |c| == p.cwordBytes && ProofShaped(p, shares, r0s, r1s, CONSISTENCY)
    requires |trans| == p.cwordBits && forall i :: 0 <= i < |trans| ==> |trans[i]| >= CONSISTENCY
    requires t != Normal ==> p == BLOCK_PARAMS
  {
    TypeRowsMatch(t, c, trans, r0s, r1s) && TransposedCheck(p, enc, c, shares, r0s, r1s, CONSISTENCY) == Ok(true)
  }

  /** One column of VerifyTransposedDecommits: recompute its check bits and compare. */
  method ColumnCheck(p: Params, enc: Encoder, w: seq<bv8>, checkBits: array<bv8>) returns (ok: bool)
    requires ValidParams(p) && |w| == p.cwordBytes && checkBits.Length == p.parityBytes
    modifies checkBits
    ensures ok <==> IsCodeword(p, enc, w)
  {
    Fill(checkBits, 0, p.parityBytes, 0);
    EncodeInto(p, enc, w, checkBits);
    ok := checkBits[..] == w[p.msgInCwordOffset..p.msgInCwordOffset + p.parityBytes];
  }

  /** BitEncode of bit 0 of w, or code.encode of its 16 message bytes, into checkBits. */
  method EncodeInto(p: Params, enc: Encoder, w: seq<bv8>, checkBits: array<bv8>)
    requires ValidParams(p) && |w| == p.cwordBytes && checkBits.Length == p.parityBytes
    modifies checkBits
    ensures checkBits[..] == CheckBits(p, enc, w)
  {
    if p.msgBits == 1 {
      BitEncode(p, GetBit(0, w), checkBits, 0);
    } else {
      Copy(checkBits, 0, enc(w[..PLAINTEXT_U8_SIZE]));
    }
    SpliceWhole(old(checkBits[..]), CheckBits(p, enc, w));
  }

  /** Both sides of Compare128 on masked rows: the masked rows are equal exactly when the rows are. */
  lemma MaskedRowsEqual(a: seq<bv8>, b: seq<bv8>, nc: nat)
    requires |a| == |b| == nc <= CSEC_BYTES
    ensures MaskedRow(a, nc)[..CSEC_BYTES] == MaskedRow(b, nc)[..CSEC_BYTES] <==> a == b
  {
    assert MaskedRow(a, nc)[..nc] == a && MaskedRow(b, nc)[..nc] == b;
  }

  /**
   * The 128-bit result buffer VerifyDecommits leaves behind when the first
   * m commitments pass: their opened values, then the old entries.
   */
  function DecommittedValues(p: Params, d0s: seq<seq<bv8>>, d1s: seq<seq<bv8>>, vs: seq<seq<bv8>>, m: nat): (r: seq<seq<bv8>>)
    requires ValidParams(p) && |d0s| == |d1s| == |vs| && m <= |vs|
    requires EntriesSized(d0s, p.cwordBytes) && EntriesSized(d1s, p.cwordBytes)
    ensures |r| == |vs|
  {
    seq(|vs|, k requires 0 <= k < |vs| => if k < m then Opened(p, d0s[k], d1s[k]) else vs[k])
  }

  /**
   * The packed 1-bit result buffer VerifyDecommits leaves behind when the
   * first m commitments pass: bit k is bit 0 of opened value k for k < m,
   * every other bit as before.
   */
  predicate DecommittedBits(d0s: seq<seq<bv8>>, d1s: seq<seq<bv8>>, before: seq<bv8>, after: seq<bv8>, m: nat)
    requires |d0s| == |d1s|
    requires forall k :: 0 <= k < |d0s| ==> 0 < |d0s[k]| == |d1s[k]|
  {
    m <= |d0s| && |after| == |before| &&
    forall k :: 0 <= k < 8 * |before| ==>
      GetBit(k, after) == if k < m then GetBit(0, Xor(d0s[k], d1s[k])) else GetBit(k, before)
  }

  /** Storing bit 0 of the next opened value extends the stored prefix by one commitment. */
  lemma DecommittedBitsStep(d0s: seq<seq<bv8>>, d1s: seq<seq<bv8>>, before: seq<bv8>, after: seq<bv8>, j: nat, b: bv8)
    requires |d0s| == |d1s| && forall k :: 0 <= k < |d0s| ==> 0 < |d0s[k]| == |d1s[k]|
    requires DecommittedBits(d0s, d1s, before, after, j) && j < |d0s| && j / 8 < |after|
    requires b == GetBit(0, Xor(d0s[j], d1s[j]))
    ensures DecommittedBits(d0s, d1s, before, WithBit(after, j, b), j + 1)
  {
    SetBitSpec(after, j, b);
  }

  /** The value check of BatchDecommit: row i of the opened proof is the value-combination row i, for every message bit. */
  predicate ValuesMatch(p: Params, r0s: seq<seq<bv8>>, r1s: seq<seq<bv8>>, vs: seq<seq<bv8>>)
    requires p.msgBits <= |r0s| == |r1s| && p.msgBits <= |vs|
    requires forall i :: 0 <= i < p.msgBits ==> |r0s[i]| == |r1s[i]|
  {
    forall i :: 0 <= i < p.msgBits ==> Xor(r0s[i], r1s[i]) == vs[i]
  }

  /** resulting_values_in_bytes: bit i of the packed values as byte i, for n values. */
  method ValuesInBytes(packed: seq<bv8>, n: nat) returns (b: seq<bv8>)
    requires n <= 8 * |packed|
    ensures |b| == n
    ensures forall i :: 0 <= i < n ==> b[i] == GetBit(i, packed)
  {
    var a := new bv8[n];
    var i := 0;
    while i < n
      invariant 0 <= i <= n
      invariant forall k :: 0 <= k < i ==> a[k] == GetBit(k, packed)
    {
      a[i] := GetBit(i, packed);
      i := i + 1;
    }
    b := a[..];
  }

  /** A BYTEArrayVector(n, e) filled by chl.recv with the bytes that arrived. */
  method ReceiveVector(n: nat, e: nat, bytes: seq<bv8>) returns (v: ByteArrayVector)
    requires |bytes| == n * e
    ensures fresh(v) && fresh(v.vec) && v.Valid() && v.numEntries == n && v.entrySize == e
    ensures v.vec[..] == bytes && v.Entries() == EntriesOf(bytes, e, n)
  {
    v := new ByteArrayVector(n, e);
    var a, off := v.Data();
    ghost var zeros := a[..];
    Copy(a, off, bytes);
    SpliceWhole(zeros, bytes);
  }

  /** The 1-bit value check: the 40 bits of the XOR of the first opened rows against the value-combination row. */
  method CompareBits(x: seq<bv8>, v: seq<bv8>) returns (ok: bool)
    requires |x| == |v|
    ensures ok <==> x == v
  {
    var i := 0;
    while i < 8 * |x|
      invariant 0 <= i <= 8 * |x|
      invariant forall k :: 0 <= k < i ==> GetBit(k, x) == GetBit(k, v)
    {
      if GetBit(i, x) != GetBit(i, v) {
        return false;
      }
      i := i + 1;
    }
    BytesExt(x, v);
    return true;
  }

  /**
   * Row i of the row loop of VerifyTransposedDecommits: whether the computed
   * row is the one c selects, and the XOR of the two masked received rows.
   */
  method CompareRow(c: seq<bv8>, r0s: seq<seq<bv8>>, r1s: seq<seq<bv8>>, shares: ByteArrayVector, ghost rows: seq<seq<bv8>>,
                    i: nat) returns (same: bool, row: seq<bv8>)
    requires shares.Valid() && shares.entrySize <= CSEC_BYTES && rows == shares.Entries()
    requires |rows| == |r0s| == |r1s| <= 8 * |c| && i < |rows|
    requires EntriesSized(rows, shares.entrySize) && EntriesSized(r0s, shares.entrySize) && EntriesSized(r1s, shares.entrySize)
    ensures same <==> rows[i] == Selected(c, r0s, r1s, i)
    ensures row == Xor(MaskedRow(r0s[i], shares.entrySize), MaskedRow(r1s[i], shares.entrySize))
  {
    var nc := shares.entrySize;
    var a, off := shares.Index(i);
    var share := MaskedRow(a[off..off + nc], nc);
    var share0 := MaskedRow(r0s[i], nc);
    var share1 := MaskedRow(r1s[i], nc);
    row := Xor(share0, share1);
    var chosen := if GetBit(i, c) == 1 then share1 else share0;
    MaskedRowsEqual(rows[i], Selected(c, r0s, r1s, i), nc);
    same := Compare128(share, chosen);
  }

  class Receiver {
    /** msg_bits and the sizes derived from it. */
    var params: Params
    /** The linear code of 128-bit commitments. */
    var code: Encoder
    var otsSet: bool
    /** The seeds of ot_rnds[i]; a PRNG not yet seeded has the empty seed. */
    var seeds: seq<seq<bv8>>
    /** seed_ot_choices: one choice bit per codeword bit, packed LSB-first. */
    var choices: seq<bv8>

    ghost predicate Valid()
      reads this
    {
      ValidParams(params) && |seeds| == params.cwordBits && |choices| == params.cwordBytes
    }

    /**
     * The object SplitCommitReceiver(msg_bits) builds once the parameters
     * are derived: cword_bits unseeded PRNGs and a zeroed choice vector.
     * The source leaves ots_set uninitialised; here it starts false.
     */
    constructor Init(p: Params, code: Encoder)
      requires ValidParams(p)
      ensures Valid() && params == p && this.code == code && !otsSet
      ensures seeds == seq(p.cwordBits, _ => []) && choices == Repeat(p.cwordBytes, 0)
    {
      params := p;
      this.code := code;
      otsSet := false;
      seeds := seq(p.cwordBits, _ => []);
      choices := Repeat(p.cwordBytes, 0);
    }

    /** SplitCommitReceiver(msg_bits): 1-bit and 128-bit messages only. */
    static method Create(msgBits: nat, code: Encoder) returns (r: Result<Receiver>)
      ensures r.Ok? <==> msgBits == 1 || msgBits == 128
      ensures r.Err? ==> r.error == UnsupportedMsgSize
      ensures r.Ok? ==> (fresh(r.value) && r.value.Valid() && !r.value.otsSet &&
                         r.value.params == DeriveParams(msgBits).value && r.value.code == code &&
                         r.value.choices == Repeat(r.value.params.cwordBytes, 0))
    {
      var p := DeriveParams(msgBits);
      if p.Err? {
        return Err(p.error);
      }
      DeriveParamsValues(msgBits);
      var rec := new Receiver.Init(p.value, code);
      return Ok(rec);
    }

    /** The move constructor: every field carried over. */
    constructor Move(cp: Receiver)
      ensures params == cp.params && code == cp.code && otsSet == cp.otsSet
      ensures seeds == cp.seeds && choices == cp.choices
    {
      params := cp.params;
      code := cp.code;
      otsSet := cp.otsSet;
      seeds := cp.seeds;
      choices := cp.choices;
    }

    /** SetSeedOTs: seeds the first |seedOts| PRNGs, takes over the choice bits and marks the OTs as set. */
    method SetSeedOTs(seedOts: seq<seq<bv8>>, newChoices: seq<bv8>)
      requires Valid() && |seedOts| <= |seeds| && |newChoices| == params.cwordBytes
      modifies this
      ensures Valid() && otsSet && choices == newChoices
      ensures seeds == seedOts + old(seeds)[|seedOts|..]
      ensures params == old(params) && code == old(code)
    {
      var s := seeds;
      var i := 0;
      while i < |seedOts|
        invariant 0 <= i <= |seedOts| && |s| == |seeds|
        invariant forall k :: 0 <= k < |s| ==> s[k] == if k < i then seedOts[k] else seeds[k]
      {
        s := s[i := seedOts[i]];
        i := i + 1;
      }
      assert s == seedOts + seeds[|seedOts|..];
      seeds := s;
      choices := newChoices;
      otsSet := true;
    }

    /**
     * GetCloneReceivers: refused before the OTs are set; otherwise numExecs
     * new Receivers of the same message size, clone e seeded with draws[e]
     * and given this Receiver's choice bits.
     */
    method GetCloneReceivers(numExecs: nat, draws: seq<seq<seq<bv8>>>) returns (r: Result<seq<Receiver>>)
      requires Valid() && |draws| == numExecs
      requires forall e :: 0 <= e < numExecs ==> |draws[e]| == params.cwordBits
      ensures r.Err? <==> !otsSet
      ensures r.Err? ==> r.error == OtsNotSet
      ensures r.Ok? ==> |r.value| == numExecs
      ensures r.Ok? ==> forall e :: 0 <= e < numExecs ==>
                          (fresh(r.value[e]) && r.value[e].Valid() && r.value[e].params == params &&
                           r.value[e].code == code && r.value[e].otsSet && r.value[e].seeds == draws[e] &&
                           r.value[e].choices == choices)
    {
      if !otsSet {
        return Err(OtsNotSet);
      }
      var receivers: seq<Receiver> := [];
      var e := 0;
      while e < numExecs
        invariant 0 <= e <= numExecs && |receivers| == e
        invariant forall k :: 0 <= k < e ==>
          fresh(receivers[k]) && receivers[k].Valid() && receivers[k].params == params &&
          receivers[k].code == code && receivers[k].otsSet && receivers[k].seeds == draws[k] &&
          receivers[k].choices == choices
      {
        var rec := new Receiver.Init(params, code);
        rec.SetSeedOTs(draws[e], choices);
        receivers := receivers + [rec];
        e := e + 1;
      }
      return Ok(receivers);
    }

    /** The commit-type loop over the Receiver's share buffer. */
    method ShapeShares(t: CommitType, rs: ByteArrayVector)
      requires Valid() && rs.Valid() && rs.entrySize == params.cwordBytes
      requires t != Normal ==> params == BLOCK_PARAMS
      modifies rs.vec
      ensures rs.Valid() && rs.Entries() == ShapeAll(t, params.msgBytes, old(rs.Entries()))
    {
      if t == Normal {
        assert ShapeAll(t, params.msgBytes, rs.Entries()) == rs.Entries();
        return;
      }
      var n, cw, msgBytes := rs.numEntries, params.cwordBytes, params.msgBytes;
      var a := rs.vec;
      ghost var rows := rs.Entries();
      ghost var target := ShapeAll(t, msgBytes, rows);
      var i := 0;
      while i < n
        invariant 0 <= i <= n
        invariant RewrittenUpTo(a[..], cw, n, i, rows, target)
      {
        ShapeAt(t, msgBytes, a, cw, n, i, rows, target);
        i := i + 1;
      }
      RewriteDone(a[..], cw, n, n, rows, target);
    }

    /**
     * CheckbitCorrection: the threshold branch with the received LSB
     * corrections, then the received check-bit corrections applied to the
     * commitments (entries 0..n-1) and to the blind shares (entries n on).
     */
    method CheckbitCorrection(rs: ByteArrayVector, bs: ByteArrayVector, start: nat, bits: seq<bv8>, corr: ByteArrayVector)
      requires Valid() && rs.Valid() && bs.Valid() && corr.Valid()
      requires rs.vec != bs.vec && rs.vec != corr.vec && bs.vec != corr.vec
      requires rs.entrySize == bs.entrySize == params.cwordBytes && bs.numEntries == NUM_PAR_CHECKS
      requires corr.entrySize == params.parityBytes && corr.numEntries == rs.numEntries + NUM_PAR_CHECKS
      requires ThresholdActive(start, rs.numEntries) ==> params == BLOCK_PARAMS
      requires BitsFit(start, rs.numEntries, bits)
      modifies rs.vec, bs.vec
      ensures rs.Valid() && bs.Valid()
      ensures rs.Entries() == ApplyAll(choices, ReceiverFlipped(params, choices, old(rs.Entries()), start, bits),
                                       params.msgInCwordOffset, corr.Entries()[..rs.numEntries])
      ensures bs.Entries() == ApplyAll(choices, old(bs.Entries()), params.msgInCwordOffset,
                                       corr.Entries()[rs.numEntries..rs.numEntries + NUM_PAR_CHECKS])
    {
      var n := rs.numEntries;
      ReceiverLsbThreshold(params, choices, start, rs, bits);
      ApplyCorrections(params, choices, rs, corr, 0);
      assert corr.Entries()[0..n] == corr.Entries()[..n];
      ApplyCorrections(params, choices, bs, corr, n);
    }

    /**
     * ConsistencyCheck: the rows res that ComputeShares produced are blinded
     * with the transposed blind shares; then the commit-type rows and
     * VerifyTransposedDecommits decide, on the rows r0s, r1s the Sender sent.
     */
    method ConsistencyCheck(bs: ByteArrayVector, t: CommitType, res: ByteArrayVector,
                            r0s: seq<seq<bv8>>, r1s: seq<seq<bv8>>) returns (ok: bool)
      requires Valid() && bs.Valid() && res.Valid() && bs.vec != res.vec
      requires bs.entrySize == params.cwordBytes && bs.numEntries == NUM_PAR_CHECKS
      requires res.numEntries == params.cwordBits && res.entrySize == CONSISTENCY
      requires |r0s| == |r1s| == params.cwordBits && EntriesSized(r0s, CONSISTENCY) && EntriesSized(r1s, CONSISTENCY)
      requires t != Normal ==> params == BLOCK_PARAMS
      modifies res.vec
      ensures res.Valid()
      ensures res.Entries() ==
        Blinded(old(res.Entries()), Transpose(bs.Entries(), params.cwordBits, NUM_PAR_CHECKS_BYTES), CONSISTENCY)
      ensures ok <==> ConsistencyOk(params, code, choices, t, Transpose(bs.Entries(), params.cwordBits, NUM_PAR_CHECKS_BYTES),
                                    res.Entries(), r0s, r1s)
    {
      ConstantRelations();
      var trans := Transpose(bs.Entries(), params.cwordBits, NUM_PAR_CHECKS_BYTES);
      BlindRows(res, trans, CONSISTENCY);
      var rowsOk := TypeRowsCheck(t, choices, trans, r0s, r1s);
      if !rowsOk {
        return false;
      }
      var v := VerifyTransposedDecommits(r0s, r1s, res);
      return v == Ok(true);
    }

    /**
     * VerifyTransposedDecommits: more than 128 values throw; then the row
     * comparison, then the codeword test of every opened combination.
     */
    method VerifyTransposedDecommits(r0s: seq<seq<bv8>>, r1s: seq<seq<bv8>>, shares: ByteArrayVector) returns (r: Result<bool>)
      requires Valid() && shares.Valid()
      requires ProofShaped(params, shares.Entries(), r0s, r1s, shares.entrySize)
      ensures r == TransposedCheck(params, code, choices, shares.Entries(), r0s, r1s, shares.entrySize)
    {
      var nc := shares.entrySize;
      if 8 * nc > NUM_PAR_CHECKS {
        return Err(UnsupportedNumValues);
      }
      var ok, m := CompareRows(r0s, r1s, shares);
      if !ok {
        return Ok(false);
      }
      var cols := Combinations(params, m);
      ok := CheckColumns(cols, 8 * nc);
      return Ok(ok);
    }

    /**
     * The row loop of VerifyTransposedDecommits: the masked computed row is
     * compared with the masked received row its choice bit selects, and the
     * XOR of the two masked received rows goes into the decommit matrix.
     */
    method CompareRows(r0s: seq<seq<bv8>>, r1s: seq<seq<bv8>>, shares: ByteArrayVector) returns (ok: bool, m: seq<seq<bv8>>)
      requires Valid() && shares.Valid() && shares.entrySize <= CSEC_BYTES
      requires ProofShaped(params, shares.Entries(), r0s, r1s, shares.entrySize)
      ensures ok <==> RowsMatch(choices, shares.Entries(), r0s, r1s)
      ensures ok ==> m == DecommitMatrix(r0s, r1s, shares.entrySize)
    {
      var nc, n, c := shares.entrySize, params.cwordBits, choices;
      ghost var rows := shares.Entries();
      assert n <= 8 * |c|;
      m := [];
      var i := 0;
      while i < n
        invariant 0 <= i <= n && |m| == i
        invariant forall k :: 0 <= k < i ==> m[k] == Xor(MaskedRow(r0s[k], nc), MaskedRow(r1s[k], nc))
        invariant forall k :: 0 <= k < i ==> rows[k] == Selected(c, r0s, r1s, k)
      {
        var same, row := CompareRow(c, r0s, r1s, shares, rows, i);
        m := m + [row];
        if !same {
          return false, m;
        }
        i := i + 1;
      }
      DecommitMatrixRows(r0s, r1s, nc, m);
      return true, m;
    }

    /** The column loop of VerifyTransposedDecommits: the first nv opened combinations are codewords. */
    method CheckColumns(cols: seq<seq<bv8>>, nv: nat) returns (ok: bool)
      requires Valid() && nv <= |cols| && EntriesSized(cols, params.cwordBytes)
      ensures ok <==> forall l :: 0 <= l < nv ==> IsCodeword(params, code, cols[l])
    {
      var p, enc := params, code;
      var checkBits := new bv8[p.parityBytes];
      var k := 0;
      while k < nv
        invariant 0 <= k <= nv && checkBits.Length == p.parityBytes
        invariant forall l :: 0 <= l < k ==> IsCodeword(p, enc, cols[l])
      {
        var okk := ColumnCheck(p, enc, cols[k], checkBits);
        if !okk {
          return false;
        }
        k := k + 1;
      }
      return true;
    }

    /**
     * Commit: the argument checks, then shaping by commit type, check-bit
     * correction with the received corrections, and the consistency check.
     * rs and bs hold the shares ExpandAndTranspose drew, bits and corr what
     * the Sender sent, res the rows ComputeShares produced and r0s, r1s the
     * rows the Sender opened.
     */
    method Commit(rs: ByteArrayVector, start: nat, t: CommitType, bs: ByteArrayVector, bits: seq<bv8>,
                  corr: ByteArrayVector, res: ByteArrayVector, r0s: seq<seq<bv8>>, r1s: seq<seq<bv8>>)
      returns (r: Result<bool>)
      requires Valid() && rs.Valid() && bs.Valid() && corr.Valid() && res.Valid()
      requires rs.vec != bs.vec && rs.vec != corr.vec && rs.vec != res.vec
      requires bs.vec != corr.vec && bs.vec != res.vec && corr.vec != res.vec
      requires bs.entrySize == params.cwordBytes && bs.numEntries == NUM_PAR_CHECKS
      requires corr.entrySize == params.parityBytes && corr.numEntries == rs.numEntries + NUM_PAR_CHECKS
      requires res.numEntries == params.cwordBits && res.entrySize == CONSISTENCY
      requires |r0s| == |r1s| == params.cwordBits && EntriesSized(r0s, CONSISTENCY) && EntriesSized(r1s, CONSISTENCY)
      requires BitsFit(start, rs.numEntries, bits)
      modifies rs.vec, bs.vec, res.vec
      ensures rs.Valid() && bs.Valid() && res.Valid()
      ensures r.Ok? <==> CommitCheck(params, otsSet, start, t, rs.entrySize).Ok?
      ensures r.Err? ==> r.error == CommitCheck(params, otsSet, start, t, rs.entrySize).error
      ensures r.Err? ==> unchanged(rs.vec, bs.vec, res.vec)
      ensures r.Ok? ==>
        rs.Entries() == ReceiverCommitted(params, choices, t, start, old(rs.Entries()), bits, corr.Entries()[..rs.numEntries]) &&
        bs.Entries() == ApplyAll(choices, old(bs.Entries()), params.msgInCwordOffset,
                                 corr.Entries()[rs.numEntries..rs.numEntries + NUM_PAR_CHECKS]) &&
        res.Entries() == Blinded(old(res.Entries()), Transpose(bs.Entries(), params.cwordBits, NUM_PAR_CHECKS_BYTES), CONSISTENCY) &&
        (r.value <==> ConsistencyOk(params, code, choices, t, Transpose(bs.Entries(), params.cwordBits, NUM_PAR_CHECKS_BYTES),
                                    res.Entries(), r0s, r1s))
    {
      var check := CommitCheck(params, otsSet, start, t, rs.entrySize);
      if check.Err? {
        return Err(check.error);
      }
      ShapeShares(t, rs);
      CheckbitCorrection(rs, bs, start, bits, corr);
      var ok := ConsistencyCheck(bs, t, res, r0s, r1s);
      return Ok(ok);
    }

    /**
     * VerifyDecommits: commitment by commitment, the opened shares are
     * tested against the held share; the first failure ends the loop with
     * false, and every commitment before it has had its value stored.
     */
    method VerifyDecommits(d0: ByteArrayVector, d1: ByteArrayVector, rs: ByteArrayVector, values: ByteArrayVector)
      returns (ok: bool)
      requires Valid() && d0.Valid() && d1.Valid() && rs.Valid() && values.Valid()
      requires d0.entrySize == d1.entrySize == rs.entrySize == params.cwordBytes
      requires d0.numEntries == d1.numEntries == rs.numEntries
      requires values.entrySize == params.msgBytes && values.numEntries == ResultCount(params, rs.numEntries)
      requires values.vec != rs.vec && values.vec != d0.vec && values.vec != d1.vec
      modifies values.vec
      ensures values.Valid()
      ensures ok <==> OkPrefix(params, code, choices, rs.Entries(), d0.Entries(), d1.Entries(), 0) == rs.numEntries
      ensures params.msgBits == 128 ==>
        values.Entries() == DecommittedValues(params, d0.Entries(), d1.Entries(), old(values.Entries()),
                                              OkPrefix(params, code, choices, rs.Entries(), d0.Entries(), d1.Entries(), 0))
      ensures params.msgBits == 1 ==>
        DecommittedBits(d0.Entries(), d1.Entries(), old(values.vec[..]), values.vec[..],
                        OkPrefix(params, code, choices, rs.Entries(), d0.Entries(), d1.Entries(), 0))
    {
      var n := rs.numEntries;
      ghost var rows, d0s, d1s := rs.Entries(), d0.Entries(), d1.Entries();
      ghost var m := OkPrefix(params, code, choices, rows, d0s, d1s, 0);
      ghost var vals0, flat0 := values.Entries(), values.vec[..];
      ghost var target := if params.msgBits == 128 then DecommittedValues(params, d0s, d1s, vals0, m) else vals0;
      assert params.msgBits == 1 ==> |flat0| == values.numEntries && 8 * |flat0| >= n;
      var j := 0;
      while j < n
        invariant 0 <= j <= m && values.Valid()
        invariant params.msgBits == 128 ==> RewrittenUpTo(values.vec[..], CSEC_BYTES, n, j, vals0, target)
        invariant params.msgBits == 1 ==> DecommittedBits(d0s, d1s, flat0, values.vec[..], j)
      {
        var okj, v := OpenAt(d0, d1, rs, j, rows, d0s, d1s);
        PrefixOpens(params, code, choices, rows, d0s, d1s, m, j);
        if !okj {
          break;
        }
        StoreOpened(values, j, v, d0s, d1s, m, vals0, flat0, target);
        j := j + 1;
      }
      assert j == m;
      if params.msgBits == 128 {
        RewriteDone(values.vec[..], CSEC_BYTES, n, j, vals0, target);
      }
      return j == n;
    }

    /** The test of commitment j in the VerifyDecommits loop, and the XOR of its opened shares. */
    method OpenAt(d0: ByteArrayVector, d1: ByteArrayVector, rs: ByteArrayVector, j: nat,
                  ghost rows: seq<seq<bv8>>, ghost d0s: seq<seq<bv8>>, ghost d1s: seq<seq<bv8>>)
      returns (okj: bool, v: seq<bv8>)
      requires Valid() && d0.Valid() && d1.Valid() && rs.Valid()
      requires d0.entrySize == d1.entrySize == rs.entrySize == params.cwordBytes
      requires d0.numEntries == d1.numEntries == rs.numEntries && j < rs.numEntries
      requires rows == rs.Entries() && d0s == d0.Entries() && d1s == d1.Entries()
      ensures okj <==> DecommitOk(params, code, choices, rows[j], d0s[j], d1s[j])
      ensures okj ==> v == Xor(d0s[j], d1s[j])
    {
      var ra, ro := rs.Index(j);
      var a0, o0 := d0.Index(j);
      var a1, o1 := d1.Index(j);
      okj, v := OpenEntry(params, code, choices, ra, ro, a0, o0, a1, o1);
    }

    /** The store in the VerifyDecommits loop once commitment j has opened to v. */
    method StoreOpened(values: ByteArrayVector, j: nat, v: seq<bv8>, ghost d0s: seq<seq<bv8>>, ghost d1s: seq<seq<bv8>>,
                       ghost m: nat, ghost vals0: seq<seq<bv8>>, ghost flat0: seq<bv8>, ghost target: seq<seq<bv8>>)
      requires Valid() && values.Valid() && values.entrySize == params.msgBytes
      requires |d0s| == |d1s| && EntriesSized(d0s, params.cwordBytes) && EntriesSized(d1s, params.cwordBytes)
      requires values.numEntries == ResultCount(params, |d0s|)
      requires j < m <= |d0s| && v == Xor(d0s[j], d1s[j])
      requires params.msgBits == 1 ==> 8 * |flat0| >= |d0s| && DecommittedBits(d0s, d1s, flat0, values.vec[..], j)
      requires params.msgBits == 128 ==> |vals0| == |d0s| && target == DecommittedValues(params, d0s, d1s, vals0, m)
      requires params.msgBits == 128 ==> RewrittenUpTo(values.vec[..], CSEC_BYTES, |d0s|, j, vals0, target)
      modifies values.vec
      ensures values.Valid()
      ensures params.msgBits == 128 ==> RewrittenUpTo(values.vec[..], CSEC_BYTES, |d0s|, j + 1, vals0, target)
      ensures params.msgBits == 1 ==> DecommittedBits(d0s, d1s, flat0, values.vec[..], j + 1)
    {
      if params.msgBits == 1 {
        StoreBit(values, j, v, d0s, d1s, flat0);
      } else {
        assert target[j] == Opened(params, d0s[j], d1s[j]) == v[..CSEC_BYTES];
        StoreBlock(values, j, v, vals0, target);
      }
    }

    /** The 1-bit store of VerifyDecommits: SetBit(j, bit 0 of the opened value, data()). */
    method StoreBit(values: ByteArrayVector, j: nat, v: seq<bv8>, ghost d0s: seq<seq<bv8>>, ghost d1s: seq<seq<bv8>>,
                    ghost flat0: seq<bv8>)
      requires Valid() && params.msgBits == 1 && values.Valid()
      requires |d0s| == |d1s| && j < |d0s| && j < 8 * |flat0| && |v| == params.cwordBytes
      requires forall k :: 0 <= k < |d0s| ==> |d0s[k]| == |d1s[k]| == params.cwordBytes
      requires v == Xor(d0s[j], d1s[j])
      requires DecommittedBits(d0s, d1s, flat0, values.vec[..], j)
      modifies values.vec
      ensures values.Valid() && DecommittedBits(d0s, d1s, flat0, values.vec[..], j + 1)
    {
      ghost var before := values.vec[..];
      var a, off := values.Data();
      var b := GetBit(0, v);
      assert j / 8 < a.Length;
      SetBit(j, b, a, off);
      DecommittedBitsStep(d0s, d1s, flat0, before, j, b);
    }

    /** The 128-bit store of VerifyDecommits: the 16 message bytes of the opened value into entry j. */
    method StoreBlock(values: ByteArrayVector, j: nat, v: seq<bv8>, ghost vals0: seq<seq<bv8>>, ghost target: seq<seq<bv8>>)
      requires Valid() && params == BLOCK_PARAMS && values.Valid() && values.entrySize == CSEC_BYTES
      requires RewrittenUpTo(values.vec[..], CSEC_BYTES, values.numEntries, j, vals0, target)
      requires j < values.numEntries && |v| == params.cwordBytes && target[j] == v[..CSEC_BYTES]
      modifies values.vec
      ensures values.Valid() && RewrittenUpTo(values.vec[..], CSEC_BYTES, values.numEntries, j + 1, vals0, target)
    {
      var a, off := values.Index(j);
      ghost var before := a[..];
      Copy(a, off, v[..params.msgInCwordOffset]);
      RewriteStep(before, a[..], CSEC_BYTES, values.numEntries, j, off, vals0, target);
    }

    /**
     * Decommit: the argument checks, then the two share vectors the Sender
     * sends (in0, in1) are received and VerifyDecommits runs on them.
     */
    method Decommit(rs: ByteArrayVector, values: ByteArrayVector, in0: seq<bv8>, in1: seq<bv8>) returns (r: Result<bool>)
      requires Valid() && rs.Valid() && values.Valid() && rs.vec != values.vec
      requires |in0| == |in1| == rs.numEntries * params.cwordBytes
      modifies values.vec
      ensures values.Valid()
      ensures r.Ok? <==> DecommitCheck(params, rs.entrySize, rs.numEntries, values.entrySize, values.numEntries).Ok?
      ensures r.Err? ==> r.error == DecommitCheck(params, rs.entrySize, rs.numEntries, values.entrySize, values.numEntries).error
      ensures r.Err? ==> unchanged(values.vec)
      ensures r.Ok? ==>
        var d0s, d1s := EntriesOf(in0, params.cwordBytes, rs.numEntries), EntriesOf(in1, params.cwordBytes, rs.numEntries);
        var m := OkPrefix(params, code, choices, rs.Entries(), d0s, d1s, 0);
        (r.value <==> m == rs.numEntries) &&
        (params.msgBits == 128 ==> values.Entries() == DecommittedValues(params, d0s, d1s, old(values.Entries()), m)) &&
        (params.msgBits == 1 ==> DecommittedBits(d0s, d1s, old(values.vec[..]), values.vec[..], m))
    {
      var check := DecommitCheck(params, rs.entrySize, rs.numEntries, values.entrySize, values.numEntries);
      if check.Err? {
        return Err(check.error);
      }
      var d0 := ReceiveVector(rs.numEntries, params.cwordBytes, in0);
      var d1 := ReceiveVector(rs.numEntries, params.cwordBytes, in1);
      var ok := VerifyDecommits(d0, d1, rs, values);
      return Ok(ok);
    }

    /**
     * BatchDecommit: the argument checks; unless they were received already,
     * the postulated values arrive into values. The values, unpacked to a
     * byte per value when they are bits, are what ComputeShares gets
     * (valueBytes); shares and vs are the rows ComputeShares produces from
     * them, r0s, r1s the opened rows. The check is the transposed-decommit
     * check on BATCH_DECOMMIT bytes and the value check on the message rows.
     */
    method BatchDecommit(rs: ByteArrayVector, values: ByteArrayVector, incoming: seq<bv8>, valuesReceived: bool,
                         shares: ByteArrayVector, vs: seq<seq<bv8>>, r0s: seq<seq<bv8>>, r1s: seq<seq<bv8>>)
      returns (r: Result<bool>, valueBytes: seq<bv8>)
      requires Valid() && rs.Valid() && values.Valid() && shares.Valid()
      requires !valuesReceived ==> |incoming| == values.vec.Length
      requires shares.entrySize == BATCH_DECOMMIT && ProofShaped(params, shares.Entries(), r0s, r1s, BATCH_DECOMMIT)
      requires |vs| == params.msgBits && EntriesSized(vs, BATCH_DECOMMIT)
      modifies values.vec
      ensures values.Valid()
      ensures r.Ok? <==> DecommitCheck(params, rs.entrySize, rs.numEntries, values.entrySize, values.numEntries).Ok?
      ensures r.Err? ==> r.error == DecommitCheck(params, rs.entrySize, rs.numEntries, values.entrySize, values.numEntries).error
      ensures r.Err? || valuesReceived ==> unchanged(values.vec)
      ensures r.Ok? && !valuesReceived ==> values.vec[..] == incoming
      ensures r.Ok? && params.msgBits == 1 ==>
        |valueBytes| == rs.numEntries && forall i :: 0 <= i < rs.numEntries ==> valueBytes[i] == GetBit(i, values.vec[..])
      ensures r.Ok? && params.msgBits == 128 ==> valueBytes == values.vec[..]
      ensures r.Ok? ==>
        (r.value <==> TransposedCheck(params, code, choices, shares.Entries(), r0s, r1s, BATCH_DECOMMIT) == Ok(true) &&
                      ValuesMatch(params, r0s, r1s, vs))
    {
      ConstantRelations();
      valueBytes := [];
      var check := DecommitCheck(params, rs.entrySize, rs.numEntries, values.entrySize, values.numEntries);
      if check.Err? {
        return Err(check.error), valueBytes;
      }
      if !valuesReceived {
        var a, off := values.Data();
        Copy(a, off, incoming);
        SpliceWhole(old(a[..]), incoming);
      }
      if params.msgBits == 1 {
        valueBytes := ValuesInBytes(values.vec[..], rs.numEntries);
      } else {
        valueBytes := values.vec[..];
      }
      var t := VerifyTransposedDecommits(r0s, r1s, shares);
      if t != Ok(true) {
        return Ok(false), valueBytes;
      }
      var ok := MessageRowsMatch(r0s, r1s, vs);
      return Ok(ok), valueBytes;
    }

    /** The value check of BatchDecommit: the opened message rows against the value-combination rows. */
    method MessageRowsMatch(r0s: seq<seq<bv8>>, r1s: seq<seq<bv8>>, vs: seq<seq<bv8>>) returns (ok: bool)
      requires Valid() && |r0s| == |r1s| == params.cwordBits && EntriesSized(r0s, BATCH_DECOMMIT) && EntriesSized(r1s, BATCH_DECOMMIT)
      requires |vs| == params.msgBits && EntriesSized(vs, BATCH_DECOMMIT)
      ensures ok <==> ValuesMatch(params, r0s, r1s, vs)
    {
      if params.msgBits == 1 {
        ok := CompareBits(Xor(r0s[0], r1s[0]), vs[0]);
        return;
      }
      var i := 0;
      while i < params.msgBits
        invariant 0 <= i <= params.msgBits
        invariant forall k :: 0 <= k < i ==> Xor(r0s[k], r1s[k]) == vs[k]
      {
        if Xor(r0s[i], r1s[i]) != vs[i] {
          return false;
        }
        i := i + 1;
      }
      return true;
    }

    /**
     * BatchDecommitLSB, for 128-bit commitments: unless they were received
     * already, the postulated LSBs arrive as a packed bit vector; the LSBs
     * of the first rs.numEntries values are what ComputeShares gets
     * (valueBytes). res holds the rows ComputeShares produced and is blinded
     * with the transposed blind shares; the check is the transposed-decommit
     * check on BATCH_DECOMMIT bytes and the LSB row against the value row.
     */
    method BatchDecommitLSB(rs: ByteArrayVector, values: seq<bv8>, incoming: seq<bv8>, valuesReceived: bool,
                            bs: ByteArrayVector, res: ByteArrayVector, vs: seq<seq<bv8>>,
                            r0s: seq<seq<bv8>>, r1s: seq<seq<bv8>>)
      returns (ok: bool, newValues: seq<bv8>, valueBytes: seq<bv8>)
      requires Valid() && params == BLOCK_PARAMS && rs.Valid() && bs.Valid() && res.Valid() && bs.vec != res.vec
      requires rs.numEntries <= 8 * |if valuesReceived then values else incoming|
      requires bs.entrySize == params.cwordBytes && bs.numEntries == NUM_PAR_CHECKS
      requires res.numEntries == params.cwordBits && res.entrySize == BATCH_DECOMMIT
      requires |r0s| == |r1s| == params.cwordBits && EntriesSized(r0s, BATCH_DECOMMIT) && EntriesSized(r1s, BATCH_DECOMMIT)
      requires |vs| == 1 && |vs[0]| == BATCH_DECOMMIT
      modifies res.vec
      ensures res.Valid()
      ensures newValues == if valuesReceived then values else incoming
      ensures |valueBytes| == rs.numEntries && forall i :: 0 <= i < rs.numEntries ==> valueBytes[i] == GetBit(i, newValues)
      ensures res.Entries() ==
        Blinded(old(res.Entries()), Transpose(bs.Entries(), params.cwordBits, NUM_PAR_CHECKS_BYTES), BATCH_DECOMMIT)
      ensures ok <==> TransposedCheck(params, code, choices, res.Entries(), r0s, r1s, BATCH_DECOMMIT) == Ok(true) &&
                      Xor(r0s[CSEC - 1], r1s[CSEC - 1]) == vs[0]
    {
      ConstantRelations();
      newValues := if valuesReceived then values else incoming;
      valueBytes := ValuesInBytes(newValues, rs.numEntries);
      var trans := Transpose(bs.Entries(), params.cwordBits, NUM_PAR_CHECKS_BYTES);
      BlindRows(res, trans, BATCH_DECOMMIT);
      var t := VerifyTransposedDecommits(r0s, r1s, res);
      if t != Ok(true) {
        return false, newValues, valueBytes;
      }
      ok := CompareBits(Xor(r0s[CSEC - 1], r1s[CSEC - 1]), vs[0]);
    }
  }
}
