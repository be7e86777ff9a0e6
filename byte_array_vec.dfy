/**
 * BYTEArrayVector (src/util/byte-array-vec.h, src/util/byte-array-vec.cpp):
 * a flat byte buffer read as `num_entries` entries of `entry_size` bytes,
 * entry idx starting at byte idx * entry_size.
 *
 * The pure functions at the top give the entry view of a flat byte string;
 * the class keeps the buffer in an array and exposes the accessors of the
 * source. A pointer returned by `operator[]` is the pair (array, offset).
 */
module ByteArrayVec {
  import opened Errors
  import Util

  /** The first byte of entry idx. */
  function EntryStart(idx: nat, e: nat): nat
  {
    idx * e
  }

  /** Entry idx of n ends inside the n * e bytes. */
  lemma EntryBounds(idx: nat, n: nat, e: nat)
    requires idx < n
    ensures EntryStart(idx, e) + e <= n * e
  {
    assert (n - idx - 1) * e >= 0;
    assert n * e == idx * e + e + (n - idx - 1) * e;
  }

  /** An earlier entry ends where a later one starts, or before. */
  lemma EntriesApart(i: nat, j: nat, e: nat)
    requires i < j
    ensures EntryStart(i, e) + e <= EntryStart(j, e)
  {
    assert (j - i - 1) * e >= 0;
    assert j * e == i * e + e + (j - i - 1) * e;
  }

  lemma EntriesFit(n: nat, e: nat)
    ensures forall k :: 0 <= k < n ==> EntryStart(k, e) + e <= n * e
  {
    forall k | 0 <= k < n
      ensures EntryStart(k, e) + e <= n * e
    {
      EntryBounds(k, n, e);
    }
  }

  /** The n entries of e bytes that the flat string s holds. */
  function EntriesOf(s: seq<bv8>, e: nat, n: nat): (r: seq<seq<bv8>>)
    requires |s| == n * e
    ensures |r| == n
    ensures forall k :: 0 <= k < n ==> |r[k]| == e
  {
    EntriesFit(n, e);
    seq(n, k requires 0 <= k < n => s[EntryStart(k, e)..EntryStart(k, e) + e])
  }

  /** Byte i of entry k is byte k * e + i of the flat string. */
  lemma EntryAt(s: seq<bv8>, e: nat, n: nat, k: nat, i: nat)
    requires |s| == n * e && k < n && i < e
    ensures EntryStart(k, e) + i < |s|
    ensures EntriesOf(s, e, n)[k][i] == s[EntryStart(k, e) + i]
  {
    EntryBounds(k, n, e);
  }

  lemma EntryOfByte(p: nat, n: nat, e: nat)
    requires p < n * e
    ensures e > 0 && p / e < n && p == EntryStart(p / e, e) + p % e && p % e < e
  {
    var k := p / e;
    if k >= n {
      assert false;
    }
  }

  /** The flat string is determined by its entries. */
  lemma EntriesOfInjective(s: seq<bv8>, t: seq<bv8>, e: nat, n: nat)
    requires |s| == n * e && |t| == n * e
    requires EntriesOf(s, e, n) == EntriesOf(t, e, n)
    ensures s == t
  {
    forall p | 0 <= p < |s|
      ensures s[p] == t[p]
    {
      EntryOfByte(p, n, e);
      EntryAt(s, e, n, p / e, p % e);
      EntryAt(t, e, n, p / e, p % e);
    }
  }

  /**
   * Writing inside entry j (bytes off .. off + |mid| of it) changes entry j
   * and no other entry: the entries of a BYTEArrayVector are disjoint.
   */
  lemma EntriesSplice(s: seq<bv8>, e: nat, n: nat, j: nat, off: nat, mid: seq<bv8>)
    requires |s| == n * e && j < n && off + |mid| <= e
    ensures EntryStart(j, e) + off + |mid| <= |s|
    ensures EntriesOf(Util.Splice(s, EntryStart(j, e) + off, mid), e, n)
         == EntriesOf(s, e, n)[j := Util.Splice(EntriesOf(s, e, n)[j], off, mid)]
  {
    EntryBounds(j, n, e);
    var t := Util.Splice(s, EntryStart(j, e) + off, mid);
    var lhs, rhs := EntriesOf(t, e, n), EntriesOf(s, e, n)[j := Util.Splice(EntriesOf(s, e, n)[j], off, mid)];
    forall k | 0 <= k < n
      ensures lhs[k] == rhs[k]
    {
      forall i | 0 <= i < e
        ensures lhs[k][i] == rhs[k][i]
      {
        EntryAt(t, e, n, k, i);
        EntryAt(s, e, n, k, i);
        if k < j {
          EntriesApart(k, j, e);
        } else if k > j {
          EntriesApart(j, k, e);
        }
      }
    }
  }

  /** The bytes of entry j, read straight out of the flat string. */
  lemma EntrySlice(s: seq<bv8>, e: nat, n: nat, j: nat)
    requires |s| == n * e && j < n
    ensures EntryStart(j, e) + e <= |s|
    ensures s[EntryStart(j, e)..EntryStart(j, e) + e] == EntriesOf(s, e, n)[j]
  {
    EntryBounds(j, n, e);
  }

  /** Overwriting a whole entry replaces it. */
  lemma EntriesReplace(s: seq<bv8>, e: nat, n: nat, j: nat, mid: seq<bv8>)
    requires |s| == n * e && j < n && |mid| == e
    ensures EntryStart(j, e) + e <= |s|
    ensures EntriesOf(Util.Splice(s, EntryStart(j, e), mid), e, n) == EntriesOf(s, e, n)[j := mid]
  {
    EntriesSplice(s, e, n, j, 0, mid);
    assert Util.Splice(EntriesOf(s, e, n)[j], 0, mid) == mid;
  }

  /** Storing one byte of entry j changes that entry alone. */
  lemma EntriesUpdate(s: seq<bv8>, e: nat, n: nat, j: nat, i: nat, x: bv8)
    requires |s| == n * e && j < n && i < e
    ensures EntryStart(j, e) + i < |s|
    ensures EntriesOf(s[EntryStart(j, e) + i := x], e, n) == EntriesOf(s, e, n)[j := EntriesOf(s, e, n)[j][i := x]]
  {
    EntryBounds(j, n, e);
    assert s[EntryStart(j, e) + i := x] == Util.Splice(s, EntryStart(j, e) + i, [x]);
    EntriesSplice(s, e, n, j, i, [x]);
    assert Util.Splice(EntriesOf(s, e, n)[j], i, [x]) == EntriesOf(s, e, n)[j][i := x];
  }

  /** SetBit at bit idx of entry j is SetBit on that entry alone. */
  lemma EntriesWithBit(s: seq<bv8>, e: nat, n: nat, j: nat, idx: nat, b: bv8)
    requires |s| == n * e && j < n && idx / 8 < e
    ensures (8 * EntryStart(j, e) + idx) / 8 < |s|
    ensures EntriesOf(Util.WithBit(s, 8 * EntryStart(j, e) + idx, b), e, n)
         == EntriesOf(s, e, n)[j := Util.WithBit(EntriesOf(s, e, n)[j], idx, b)]
  {
    var o := EntryStart(j, e);
    Util.PointerIndex(o, idx);
    EntryAt(s, e, n, j, idx / 8);
    EntriesUpdate(s, e, n, j, idx / 8, Util.SetBitInByte(s[o + idx / 8], idx % 8, b));
  }

  /** XORBit at bit idx of entry j is XORBit on that entry alone. */
  lemma EntriesWithXorBit(s: seq<bv8>, e: nat, n: nat, j: nat, idx: nat, b: bv8)
    requires |s| == n * e && j < n && idx / 8 < e
    ensures (8 * EntryStart(j, e) + idx) / 8 < |s|
    ensures EntriesOf(Util.WithXorBit(s, 8 * EntryStart(j, e) + idx, b), e, n)
         == EntriesOf(s, e, n)[j := Util.WithXorBit(EntriesOf(s, e, n)[j], idx, b)]
  {
    var o := EntryStart(j, e);
    Util.PointerIndex(o, idx);
    EntryAt(s, e, n, j, idx / 8);
    EntriesUpdate(s, e, n, j, idx / 8, Util.XorBitInByte(s[o + idx / 8], idx % 8, b));
  }

  /**
   * One step of a loop that rewrites the entries of a buffer one by one:
   * entries below i already hold their target, the others their old value.
   */
  lemma EntriesStep(before: seq<bv8>, after: seq<bv8>, e: nat, n: nat, i: nat,
                    rows: seq<seq<bv8>>, target: seq<seq<bv8>>)
    requires |before| == n * e && i < n && |rows| == |target| == n && |target[i]| == e
    requires forall k :: 0 <= k < n ==> EntriesOf(before, e, n)[k] == if k < i then target[k] else rows[k]
    requires EntryStart(i, e) + e <= |before| && after == Util.Splice(before, EntryStart(i, e), target[i])
    ensures |after| == n * e
    ensures forall k :: 0 <= k < n ==> EntriesOf(after, e, n)[k] == if k < i + 1 then target[k] else rows[k]
  {
    EntriesReplace(before, e, n, i, target[i]);
  }

  /** When the loop is done the buffer holds the targets. */
  lemma EntriesDone(s: seq<bv8>, e: nat, n: nat, target: seq<seq<bv8>>)
    requires |s| == n * e && |target| == n
    requires forall k :: 0 <= k < n ==> EntriesOf(s, e, n)[k] == target[k]
    ensures EntriesOf(s, e, n) == target
  {
  }

  /** The loop invariant of EntriesStep, named so that a loop touching two buffers keeps each one closed. */
  ghost predicate RewrittenUpTo(s: seq<bv8>, e: nat, n: nat, i: nat, rows: seq<seq<bv8>>, target: seq<seq<bv8>>)
  {
    |s| == n * e && |rows| == |target| == n &&
    forall k :: 0 <= k < n ==> EntriesOf(s, e, n)[k] == if k < i then target[k] else rows[k]
  }

  /** EntriesStep on the named invariant. */
  lemma RewriteStep(before: seq<bv8>, after: seq<bv8>, e: nat, n: nat, i: nat, off: nat,
                    rows: seq<seq<bv8>>, target: seq<seq<bv8>>)
    requires RewrittenUpTo(before, e, n, i, rows, target) && i < n && |target[i]| == e
    requires off == EntryStart(i, e) && off + e <= |before| && after == Util.Splice(before, off, target[i])
    ensures RewrittenUpTo(after, e, n, i + 1, rows, target)
  {
    EntriesStep(before, after, e, n, i, rows, target);
  }

  /** EntriesDone on the named invariant. */
  lemma RewriteDone(s: seq<bv8>, e: nat, n: nat, i: nat, rows: seq<seq<bv8>>, target: seq<seq<bv8>>)
    requires RewrittenUpTo(s, e, n, i, rows, target)
    requires forall k :: i <= k < n ==> rows[k] == target[k]
    ensures EntriesOf(s, e, n) == target
  {
    EntriesDone(s, e, n, target);
  }

  /** A zero-filled buffer holds zero-filled entries. */
  lemma EntriesOfZeros(s: seq<bv8>, e: nat, n: nat)
    requires |s| == n * e && forall i :: 0 <= i < |s| ==> s[i] == 0
    ensures EntriesOf(s, e, n) == seq(n, _ => Util.Repeat(e, 0))
  {
    forall k | 0 <= k < n
      ensures EntriesOf(s, e, n)[k] == Util.Repeat(e, 0)
    {
      EntryBounds(k, n, e);
    }
  }

  class ByteArrayVector {
    /** The backing std::vector<uint8_t>. */
    var vec: array<bv8>
    var numEntries: nat
    var entrySize: nat

    /** The buffer holds exactly num_entries * entry_size bytes. */
    ghost predicate Valid()
      reads this
    {
      vec.Length == numEntries * entrySize
    }

    /** The buffer read as its entries. */
    function Entries(): (r: seq<seq<bv8>>)
      reads this, vec
      requires Valid()
      ensures |r| == numEntries
    {
      EntriesOf(vec[..], entrySize, numEntries)
    }

    /**
     * The default constructor: an empty buffer. The source leaves the two
     * size fields uninitialised; here they start at 0.
     */
    constructor Default()
      ensures vec.Length == 0 && numEntries == 0 && entrySize == 0
      ensures Valid() && fresh(vec)
    {
      vec := new bv8[0];
      numEntries := 0;
      entrySize := 0;
    }

    /** BYTEArrayVector(num_entries, entry_size): a zero-filled buffer. */
    constructor (numEntries: nat, entrySize: nat)
      ensures this.numEntries == numEntries && this.entrySize == entrySize
      ensures Valid() && fresh(vec)
      ensures forall i :: 0 <= i < vec.Length ==> vec[i] == 0
    {
      vec := new bv8[numEntries * entrySize](_ => 0);
      this.numEntries := numEntries;
      this.entrySize := entrySize;
    }

    /** operator[](idx): the pointer data() + idx * entry_size. */
    method Index(idx: nat) returns (p: array<bv8>, off: nat)
      ensures p == vec && off == EntryStart(idx, entrySize)
      ensures Valid() && idx < numEntries ==>
        off + entrySize <= p.Length && p[off..off + entrySize] == Entries()[idx]
    {
      p, off := vec, idx * entrySize;
      if idx < numEntries {
        EntryBounds(idx, numEntries, entrySize);
      }
    }

    /** data(): the first byte of the buffer. */
    method Data() returns (p: array<bv8>, off: nat)
      ensures p == vec && off == 0
    {
      p, off := vec, 0;
    }

    /** size(): the total number of bytes stored. */
    function Size(): (r: nat)
      reads this
      ensures r == vec.Length
      ensures Valid() ==> r == numEntries * entrySize
    {
      vec.Length
    }

    /** num_entries(): the count that, times entry_size(), is size(). */
    function NumEntries(): (r: nat)
      reads this
      ensures Valid() ==> r * entrySize == Size()
    {
      numEntries
    }

    /** entry_size(): the stride that, times num_entries(), is size(). */
    function EntrySize(): (r: nat)
      reads this
      ensures Valid() ==> numEntries * r == Size()
    {
      entrySize
    }

    /** FreeMem: drops the bytes but keeps num_entries and entry_size. */
    method FreeMem()
      modifies this
      ensures vec.Length == 0 && fresh(vec)
      ensures numEntries == old(numEntries) && entrySize == old(entrySize)
    {
      vec := new bv8[0];
    }

    /** ChannelBufferData: the same first byte as data(). */
    method ChannelBufferData() returns (p: array<bv8>, off: nat)
      ensures p == vec && off == 0
    {
      p, off := Data();
    }

    /** ChannelBufferSize: the length of the backing vector, i.e. size(). */
    function ChannelBufferSize(): (r: nat)
      reads this
      ensures r == Size()
    {
      vec.Length
    }

    /**
     * ChannelBufferResize(len): the buffer never resizes; any length but
     * its own size is refused with invalid_argument, and nothing changes.
     */
    method ChannelBufferResize(len: nat) returns (r: Result<()>)
      ensures r.Ok? <==> len == Size()
      ensures r.Err? ==> r.error == InvalidArgument
    {
      if Size() != len {
        return Err(InvalidArgument);
      }
      return Ok(());
    }
  }
}
