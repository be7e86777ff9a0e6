/**
 * The two parties together: what the tests of the scheme check end to end.
 * The Receiver's share agrees with the Sender's shares under the OT choice
 * bits before Commit (that is what the OT extension delivers); Commit on
 * both sides keeps that agreement, and the Sender's honest opening then
 * passes the Receiver's VerifyDecommits, which outputs the committed value.
 */
module Protocol {
  import opened GlobalConstants
  import opened Util
  import opened Errors
  import opened ByteArrayVec
  import opened SplitCommit
  import opened SplitCommitSnd
  import opened SplitCommitRec

  /**
   * The central invariant survives Commit, for commitment j: if the
   * Receiver's random share agrees with the Sender's two random shares,
   * then after both run Commit, the Receiver fed the Sender's messages,
   * the Receiver's share agrees with the Sender's two committed shares.
   */
  lemma ReceiverCommitAgreesAt(p: Params, enc: Encoder, c: seq<bv8>, t: CommitType, start: nat,
                               e: seq<seq<bv8>>, e0: seq<seq<bv8>>, e1: seq<seq<bv8>>, j: nat)
    requires ValidParams(p) && |c| == p.cwordBytes
    requires |e| == |e0| == |e1| && EntriesSized(e, p.cwordBytes)
    requires EntriesSized(e0, p.cwordBytes) && EntriesSized(e1, p.cwordBytes)
    requires t != Normal || ThresholdActive(start, |e0|) ==> p == BLOCK_PARAMS
    requires j < |e| && Agree(c, e[j], e0[j], e1[j])
    ensures var out := SenderCommitted(p, enc, t, start, e0, e1);
      Agree(c, ReceiverCommitted(p, c, t, start, e, out.lsbCorrections, out.corrections)[j],
            out.shares0[j], out.shares1[j])
  {
    var out := SenderCommitted(p, enc, t, start, e0, e1);
    var s, s0, s1 := ShapeAll(t, p.msgBytes, e), ShapeAll(t, p.msgBytes, e0), ShapeAll(t, p.msgBytes, e1);
    assert Agree(c, s[j], s0[j], s1[j]) by {
      if t != Normal {
        ShapeAgrees(t, c, e[j], e0[j], e1[j]);
      }
    }
    var f := ReceiverFlipped(p, c, s, start, out.lsbCorrections);
    var f1 := ThresholdFlipped(p.msgBytes, s0, s1, start);
    assert Agree(c, f[j], s0[j], f1[j]) by {
      ThresholdFlippedAt(p.msgBytes, s0, s1, start, j);
      if ThresholdActive(start, |e|) && start <= j {
        LsbCorrectionsAt(s0, s1, start, j);
        ReceiverLsbFlipAgrees(c, s[j], s0[j], s1[j], LsbCorrection(s0[j], s1[j]));
      }
    }
    CorrectionAgrees(p, enc, c, f[j], s0[j], f1[j]);
  }

  /** Commit on both sides keeps every commitment in agreement. */
  lemma ReceiverCommitAgrees(p: Params, enc: Encoder, c: seq<bv8>, t: CommitType, start: nat,
                             e: seq<seq<bv8>>, e0: seq<seq<bv8>>, e1: seq<seq<bv8>>)
    requires ValidParams(p) && |c| == p.cwordBytes
    requires EntriesSized(e, p.cwordBytes) && EntriesSized(e0, p.cwordBytes) && EntriesSized(e1, p.cwordBytes)
    requires t != Normal || ThresholdActive(start, |e0|) ==> p == BLOCK_PARAMS
    requires AllAgree(c, e, e0, e1)
    ensures var out := SenderCommitted(p, enc, t, start, e0, e1);
      AllAgree(c, ReceiverCommitted(p, c, t, start, e, out.lsbCorrections, out.corrections), out.shares0, out.shares1)
  {
    var out := SenderCommitted(p, enc, t, start, e0, e1);
    var rc := ReceiverCommitted(p, c, t, start, e, out.lsbCorrections, out.corrections);
    forall j | 0 <= j < |e|
      ensures Agree(c, rc[j], out.shares0[j], out.shares1[j])
    {
      ReceiverCommitAgreesAt(p, enc, c, t, start, e, e0, e1, j);
    }
  }

  /**
   * The honest opening is accepted: after both run Commit, the Sender's
   * two committed share vectors pass VerifyDecommits on every commitment
   * the Receiver holds.
   */
  lemma HonestOpeningAccepted(p: Params, enc: Encoder, c: seq<bv8>, t: CommitType, start: nat,
                              e: seq<seq<bv8>>, e0: seq<seq<bv8>>, e1: seq<seq<bv8>>)
    requires ValidParams(p) && |c| == p.cwordBytes
    requires EntriesSized(e, p.cwordBytes) && EntriesSized(e0, p.cwordBytes) && EntriesSized(e1, p.cwordBytes)
    requires t != Normal || ThresholdActive(start, |e0|) ==> p == BLOCK_PARAMS
    requires AllAgree(c, e, e0, e1)
    ensures var out := SenderCommitted(p, enc, t, start, e0, e1);
      OkPrefix(p, enc, c, ReceiverCommitted(p, c, t, start, e, out.lsbCorrections, out.corrections),
               out.shares0, out.shares1, 0) == |e|
  {
    var out := SenderCommitted(p, enc, t, start, e0, e1);
    var rc := ReceiverCommitted(p, c, t, start, e, out.lsbCorrections, out.corrections);
    ReceiverCommitAgrees(p, enc, c, t, start, e, e0, e1);
    SenderCommittedCodewords(p, enc, t, start, e0, e1);
    var m := OkPrefix(p, enc, c, rc, out.shares0, out.shares1, 0);
    if m < |e| {
      DecommitOkIff(p, enc, c, rc[m], out.shares0[m], out.shares1[m]);
    }
  }

  /**
   * What the Receiver outputs on the honest opening of NORMAL commitments:
   * the value the OT shares e0, e1 carried, as 16 bytes for 128-bit
   * commitments (with bit 127 forced to 1 from the LSB threshold on) and as
   * bit 0 for bit commitments, which admit no threshold.
   */
  lemma HonestValuesOutput(p: Params, enc: Encoder, start: nat,
                           e0: seq<seq<bv8>>, e1: seq<seq<bv8>>,
                           vs: seq<seq<bv8>>, before: seq<bv8>, after: seq<bv8>)
    requires ValidParams(p) && (p.msgBits == 1 ==> start == UINT32_MAX)
    requires |e0| == |e1| && EntriesSized(e0, p.cwordBytes) && EntriesSized(e1, p.cwordBytes)
    requires |vs| == |e0| && |e0| <= 8 * |before|
    ensures var out := SenderCommitted(p, enc, Normal, start, e0, e1);
      (p.msgBits == 128 ==> forall k :: 0 <= k < |e0| ==>
         DecommittedValues(p, out.shares0, out.shares1, vs, |e0|)[k] ==
           if ThresholdActive(start, |e0|) && start <= k
           then WithBit(Message(p, Xor(e0[k], e1[k])), 127, 1)
           else Message(p, Xor(e0[k], e1[k]))) &&
      (p.msgBits == 1 && DecommittedBits(out.shares0, out.shares1, before, after, |e0|) ==>
         forall k :: 0 <= k < |e0| ==> GetBit(k, after) == GetBit(0, Xor(e0[k], e1[k])))
  {
    var out := SenderCommitted(p, enc, Normal, start, e0, e1);
    forall k | 0 <= k < |e0|
      ensures p.msgBits == 128 ==>
        DecommittedValues(p, out.shares0, out.shares1, vs, |e0|)[k] ==
          if ThresholdActive(start, |e0|) && start <= k
          then WithBit(Message(p, Xor(e0[k], e1[k])), 127, 1)
          else Message(p, Xor(e0[k], e1[k]))
      ensures p.msgBits == 1 ==> GetBit(0, Xor(out.shares0[k], out.shares1[k])) == GetBit(0, Xor(e0[k], e1[k]))
    {
      if ThresholdActive(start, |e0|) && start <= k {
        SenderThresholdValue(enc, start, e0, e1, k);
      } else {
        SenderCommittedValue(p, enc, start, e0, e1, k);
        if p.msgBits == 1 {
          BitEncodedDecodes(5, GetBit(0, Xor(e0[k], e1[k])));
        }
      }
    }
  }
}
