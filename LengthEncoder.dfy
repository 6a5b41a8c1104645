// The 16-bit header block: the message's byte count as an extended Hamming codeword
// (11 data bits, parity bits at 1, 2, 4, 8, overall parity at 0).

module LengthEncoder {
  import opened Bits
  import opened Hamming

  /** The positions, in order, that receive the 11 length bits. */
  const DataPositions: seq<nat> := [3, 5, 6, 7, 9, 10, 11, 12, 13, 14, 15]

  /** The 11 data bits of a header block, in the order they were placed. */
  function LengthBits(s: seq<bool>): (r: seq<bool>)
    requires |s| == 16
    ensures |r| == 11
  {
    [s[3], s[5], s[6], s[7], s[9], s[10], s[11], s[12], s[13], s[14], s[15]]
  }

  /** The data bits of a header block are the bits at DataPositions, in order. */
  lemma LengthBitsAtPositions(s: seq<bool>)
    requires |s| == 16
    ensures forall k :: 0 <= k < 11 ==> LengthBits(s)[k] == s[DataPositions[k]]
  {
  }

  /** The number a header block carries, its data bits read most significant first. */
  function ReadLength(s: seq<bool>): nat
    requires |s| == 16
  {
    FromBits(LengthBits(s))
  }

  /**
   * s is the header block for size: the 11-bit binary form of size in the data
   * positions, each of parity bits 1, 2, 4, 8 the XOR of what it covers, and bit 0
   * the XOR of bits 1 to 15.
   */
  ghost predicate IsLengthCodeword(size: nat, s: seq<bool>)
  {
    size < Pow2(11) && |s| == 16 &&
    LengthBits(s) == Digits(size, 11) &&
    s[1] == CoverXor(s, 1, 2, |s|) &&
    s[2] == CoverXor(s, 2, 3, |s|) &&
    s[4] == CoverXor(s, 4, 5, |s|) &&
    s[8] == CoverXor(s, 8, 9, |s|) &&
    s[0] == RangeXor(s, 1, |s|)
  }

  /** Counts the set bits at the listed indices; the count is odd exactly when their XOR is set. */
  method CountSetAt(a: array<bool>, indices: seq<nat>) returns (count: nat)
    requires forall k :: 0 <= k < |indices| ==> indices[k] < a.Length
    ensures count <= |indices|
    ensures (count % 2 == 1) == XorAt(a[..], indices)
  {
    count := 0;
    for k := 0 to |indices|
      invariant count <= k
      invariant (count % 2 == 1) == XorAt(a[..], indices[..k])
    {
      count := count + if a[indices[k]] then 1 else 0;
      assert indices[..k + 1][..k] == indices[..k];
    }
    assert indices[..|indices|] == indices;
  }

  /** encode_message_length: the header block for a byte count that fits in 11 bits. */
  method EncodeMessageLength(size: nat) returns (pack: seq<bool>)
    requires size < 2048
    ensures IsLengthCodeword(size, pack)
  {
    var digits := Digits(size, 11);
    var binarySize := new bool[11];
    for i := 0 to 11
      invariant forall j :: 0 <= j < i ==> binarySize[j] == digits[j]
    {
      binarySize[i] := digits[i];
    }
    var a := new bool[] [false, false, false, binarySize[0], false, binarySize[1], binarySize[2], binarySize[3],
                         false, binarySize[4], binarySize[5], binarySize[6], binarySize[7], binarySize[8],
                         binarySize[9], binarySize[10]];
    LengthBitsAt(a[..], digits);
    SetHeaderParity(a, size);
    pack := a[..];
  }

  /** src/main.rs:35-61: the parity writes, in source order, turn the laid-out header into its code word. */
  method SetHeaderParity(a: array<bool>, ghost size: nat)
    requires size < 2048 && a.Length == 16 && !a[0] && LengthBits(a[..]) == Digits(size, 11)
    modifies a
    ensures IsLengthCodeword(size, a[..])
  {
    ghost var t0 := a[..];
    a[1] := StepCountTrue(a[..], 3, 2) % 2 == 1;
    ghost var t1 := a[..];
    assert t1 == t0[1 := a[1]];
    var count := CountSetAt(a, [3, 6, 7, 10, 11, 14, 15]);
    ListParityTwo(t1);
    a[2] := count % 2 == 1;
    ghost var t2 := a[..];
    assert t2 == t1[2 := a[2]];
    count := CountSetAt(a, [5, 6, 7, 12, 13, 14, 15]);
    ListParityFour(t2);
    a[4] := count % 2 == 1;
    ghost var t4 := a[..];
    assert t4 == t2[4 := a[4]];
    a[8] := StepCountTrue(a[..], 9, 1) % 2 == 1;
    ghost var t8 := a[..];
    assert t8 == t4[8 := a[8]];
    a[0] := RangeXor(a[..], 0, a.Length);
    assert a[..] == t8[0 := a[0]];
    HeaderSteps(size, t0, t1, t2, t4, t8, a[..]);
  }

  /** s and t hold the same bits everywhere except at the parity positions 0, 1, 2, 4, 8. */
  ghost predicate AgreeOnData(s: seq<bool>, t: seq<bool>)
  {
    |s| == 16 && |t| == 16 &&
    forall j :: 0 <= j < 16 && j != 0 && j != 1 && j != 2 && j != 4 && j != 8 ==> s[j] == t[j]
  }

  /** Sequences that agree on the data give the same XOR over what each parity bit covers above itself. */
  lemma AgreeOnCovered(s: seq<bool>, t: seq<bool>, p: nat)
    requires |s| == 16 && |t| == 16 && LengthBits(s) == LengthBits(t)
    requires p == 1 || p == 2 || p == 4 || p == 8
    ensures CoverXor(s, p, p + 1, |s|) == CoverXor(t, p, p + 1, |t|)
  {
    SameBitsAgree(s, t);
    forall j | p + 1 <= j < 16 && Covers(p, j)
      ensures s[j] == t[j]
    {
      CoveredAreData(p, j);
      if j == 1 || j == 2 || j == 4 || j == 8 {
        assert IsPow2(j / 2 / 2 / 2);
      }
    }
    CoverXorAgree(s, t, p, p + 1, |s|);
  }

  /** Header blocks with equal data bits agree everywhere but at the parity positions. */
  lemma SameBitsAgree(s: seq<bool>, t: seq<bool>)
    requires |s| == 16 && |t| == 16 && LengthBits(s) == LengthBits(t)
    ensures AgreeOnData(s, t)
  {
    assert [s[3], s[5], s[6], s[7], s[9], s[10], s[11], s[12], s[13], s[14], s[15]]
        == [t[3], t[5], t[6], t[7], t[9], t[10], t[11], t[12], t[13], t[14], t[15]];
  }

  /**
   * The successive states of the array in encode_message_length: bit 1 from the step-by-2
   * count (src/main.rs:35), bits 2 and 4 from the index lists (src/main.rs:43-52), bit 8 from the count
   * of 9..15 (src/main.rs:53), bit 0 from the fold over all 16 bits (src/main.rs:61).
   */
  ghost predicate HeaderChain(t0: seq<bool>, t1: seq<bool>, t2: seq<bool>, t4: seq<bool>, t8: seq<bool>, pack: seq<bool>)
  {
    |t0| == 16 && !t0[0] &&
    t1 == t0[1 := StepCountTrue(t0, 3, 2) % 2 == 1] &&
    t2 == t1[2 := CoverXor(t1, 2, 3, |t1|)] &&
    t4 == t2[4 := CoverXor(t2, 4, 5, |t2|)] &&
    t8 == t4[8 := StepCountTrue(t4, 9, 1) % 2 == 1] &&
    pack == t8[0 := RangeXor(t8, 0, |t8|)]
  }

  /** The proof obligation of EncodeMessageLength. */
  lemma HeaderSteps(size: nat, t0: seq<bool>, t1: seq<bool>, t2: seq<bool>, t4: seq<bool>, t8: seq<bool>, pack: seq<bool>)
    requires size < 2048 && |t0| == 16 && LengthBits(t0) == Digits(size, 11)
    requires HeaderChain(t0, t1, t2, t4, t8, pack)
    ensures IsLengthCodeword(size, pack)
  {
    ChainBitOne(t0, t1, t2, t4, t8, pack);
    ChainBitTwo(t0, t1, t2, t4, t8, pack);
    ChainBitFour(t0, t1, t2, t4, t8, pack);
    ChainBitEight(t0, t1, t2, t4, t8, pack);
    ChainBitZero(t0, t1, t2, t4, t8, pack);
  }

  /** The parity writes after a state leave its data positions alone. */
  lemma ChainKeepsData(t0: seq<bool>, t1: seq<bool>, t2: seq<bool>, t4: seq<bool>, t8: seq<bool>, pack: seq<bool>)
    requires HeaderChain(t0, t1, t2, t4, t8, pack)
    ensures |pack| == 16 && LengthBits(t0) == LengthBits(pack) && LengthBits(t1) == LengthBits(pack)
    ensures LengthBits(t2) == LengthBits(pack) && LengthBits(t4) == LengthBits(pack)
    ensures pack[1] == t1[1] && pack[2] == t2[2] && pack[4] == t4[4] && pack[8] == t8[8]
    ensures forall j :: 1 <= j < 16 ==> pack[j] == t8[j]
  {
  }

  lemma ChainBitOne(t0: seq<bool>, t1: seq<bool>, t2: seq<bool>, t4: seq<bool>, t8: seq<bool>, pack: seq<bool>)
    requires HeaderChain(t0, t1, t2, t4, t8, pack)
    ensures LengthBits(pack) == LengthBits(t0) && pack[1] == CoverXor(pack, 1, 2, |pack|)
  {
    ChainKeepsData(t0, t1, t2, t4, t8, pack);
    HeaderBitOne(t0, pack);
  }

  lemma ChainBitTwo(t0: seq<bool>, t1: seq<bool>, t2: seq<bool>, t4: seq<bool>, t8: seq<bool>, pack: seq<bool>)
    requires HeaderChain(t0, t1, t2, t4, t8, pack)
    ensures pack[2] == CoverXor(pack, 2, 3, |pack|)
  {
    ChainKeepsData(t0, t1, t2, t4, t8, pack);
    HeaderBitFromCover(t1, pack, 2);
  }

  lemma ChainBitFour(t0: seq<bool>, t1: seq<bool>, t2: seq<bool>, t4: seq<bool>, t8: seq<bool>, pack: seq<bool>)
    requires HeaderChain(t0, t1, t2, t4, t8, pack)
    ensures pack[4] == CoverXor(pack, 4, 5, |pack|)
  {
    ChainKeepsData(t0, t1, t2, t4, t8, pack);
    HeaderBitFromCover(t2, pack, 4);
  }

  lemma ChainBitEight(t0: seq<bool>, t1: seq<bool>, t2: seq<bool>, t4: seq<bool>, t8: seq<bool>, pack: seq<bool>)
    requires HeaderChain(t0, t1, t2, t4, t8, pack)
    ensures pack[8] == CoverXor(pack, 8, 9, |pack|)
  {
    ChainKeepsData(t0, t1, t2, t4, t8, pack);
    HeaderBitEight(t4, pack);
  }

  lemma ChainBitZero(t0: seq<bool>, t1: seq<bool>, t2: seq<bool>, t4: seq<bool>, t8: seq<bool>, pack: seq<bool>)
    requires HeaderChain(t0, t1, t2, t4, t8, pack)
    ensures pack[0] == RangeXor(pack, 1, |pack|)
  {
    ChainKeepsData(t0, t1, t2, t4, t8, pack);
    HeaderBitZero(t8, pack);
  }

  lemma HeaderBitOne(t0: seq<bool>, pack: seq<bool>)
    requires |t0| == 16 && |pack| == 16 && LengthBits(t0) == LengthBits(pack)
    requires pack[1] == (StepCountTrue(t0, 3, 2) % 2 == 1)
    ensures pack[1] == CoverXor(pack, 1, 2, |pack|)
  {
    StepOddIsCoverOne(t0, 3);
    CoverXorSplit(t0, 1, 2, 3, |t0|);
    assert !Covers(1, 2);
    AgreeOnCovered(t0, pack, 1);
  }

  lemma HeaderBitFromCover(t: seq<bool>, pack: seq<bool>, p: nat)
    requires p == 2 || p == 4
    requires |t| == 16 && |pack| == 16 && LengthBits(t) == LengthBits(pack)
    requires pack[p] == CoverXor(t, p, p + 1, |t|)
    ensures pack[p] == CoverXor(pack, p, p + 1, |pack|)
  {
    AgreeOnCovered(t, pack, p);
  }

  lemma HeaderBitEight(t4: seq<bool>, pack: seq<bool>)
    requires |t4| == 16 && |pack| == 16 && LengthBits(t4) == LengthBits(pack)
    requires pack[8] == (StepCountTrue(t4, 9, 1) % 2 == 1)
    ensures pack[8] == CoverXor(pack, 8, 9, |pack|)
  {
    StepOneIsRangeXor(t4, 9);
    CoverXorAll(t4, 8, 9, |t4|);
    AgreeOnCovered(t4, pack, 8);
  }

  lemma HeaderBitZero(t8: seq<bool>, pack: seq<bool>)
    requires |t8| == 16 && |pack| == 16 && !t8[0] && pack[0] == RangeXor(t8, 0, |t8|)
    requires forall j :: 1 <= j < 16 ==> pack[j] == t8[j]
    ensures pack[0] == RangeXor(pack, 1, |pack|)
  {
    RangeXorSplit(t8, 0, 1, |t8|);
    RangeXorAgree(t8, pack, 1, |t8|);
  }

  /** The index lists of src/main.rs:44 and :49 are exactly the indices above 2 and 4 that these parity bits cover. */
  lemma CoverListTwo()
    ensures CoveredList(2, 3, 16) == [3, 6, 7, 10, 11, 14, 15]
  {
    assert CoveredList(2, 3, 8) == [3, 6, 7];
    assert CoveredList(2, 3, 12) == [3, 6, 7, 10, 11];
  }

  lemma CoverListFour()
    ensures CoveredList(4, 5, 16) == [5, 6, 7, 12, 13, 14, 15]
  {
    assert CoveredList(4, 5, 8) == [5, 6, 7];
  }

  /** Counting the set bits at the indices of src/main.rs:44 gives parity bit 2's covering XOR. */
  lemma ListParityTwo(t: seq<bool>)
    requires |t| == 16
    ensures XorAt(t, [3, 6, 7, 10, 11, 14, 15]) == CoverXor(t, 2, 3, |t|)
  {
    CoverListTwo();
    CoveredListXor(t, 2, 3, |t|);
  }

  /** Counting the set bits at the indices of src/main.rs:49 gives parity bit 4's covering XOR. */
  lemma ListParityFour(t: seq<bool>)
    requires |t| == 16
    ensures XorAt(t, [5, 6, 7, 12, 13, 14, 15]) == CoverXor(t, 4, 5, |t|)
  {
    CoverListFour();
    CoveredListXor(t, 4, 5, |t|);
  }

  /** A block whose data positions hold d, bit for bit, carries d. */
  lemma LengthBitsAt(t: seq<bool>, d: seq<bool>)
    requires |t| == 16 && |d| == 11
    requires t[3] == d[0] && t[5] == d[1] && t[6] == d[2] && t[7] == d[3] && t[9] == d[4] && t[10] == d[5]
    requires t[11] == d[6] && t[12] == d[7] && t[13] == d[8] && t[14] == d[9] && t[15] == d[10]
    ensures LengthBits(t) == d
  {
    assert d == [d[0], d[1], d[2], d[3], d[4], d[5], d[6], d[7], d[8], d[9], d[10]];
  }

  // ----- properties of header blocks -----

  /** The data positions read back as an 11-bit number give the length. */
  lemma LengthRoundTrip(size: nat, s: seq<bool>)
    requires IsLengthCodeword(size, s)
    ensures ReadLength(s) == size
  {
    FromDigits(size, 11);
  }

  /** The 11-digit binary form of 5. */
  lemma DigitsOfFive()
    ensures Digits(5, 11) == [false, false, false, false, false, false, false, false, true, false, true]
  {
  }

  /** A message of five bytes gets the header 1010 0000 0000 0101. */
  lemma SizeFive(s: seq<bool>)
    requires IsLengthCodeword(5, s)
    ensures s == [true, false, true, false, false, false, false, false,
                  false, false, false, false, false, true, false, true]
  {
    var e := [true, false, true, false, false, false, false, false,
              false, false, false, false, false, true, false, true];
    DigitsOfFive();
    assert LengthBits(e) == Digits(5, 11);
    assert CoverXor(e, 1, 2, |e|) == e[1];
    assert CoverXor(e, 2, 3, |e|) == e[2];
    assert CoverXor(e, 4, 5, |e|) == e[4];
    assert CoverXor(e, 8, 9, |e|) == e[8];
    assert RangeXor(e, 1, |e|) == e[0];
    LengthCodewordUnique(5, s, e);
  }

  /** Every parity check of the block, and the overall parity, comes out zero. */
  lemma LengthParityChecks(size: nat, s: seq<bool>)
    requires IsLengthCodeword(size, s)
    ensures !CoverXor(s, 1, 0, |s|) && !CoverXor(s, 2, 0, |s|)
    ensures !CoverXor(s, 4, 0, |s|) && !CoverXor(s, 8, 0, |s|)
    ensures !RangeXor(s, 0, |s|)
  {
    ZeroSyndrome(s, 1, |s|);
    ZeroSyndrome(s, 2, |s|);
    ZeroSyndrome(s, 4, |s|);
    ZeroSyndrome(s, 8, |s|);
    EvenParity(s, |s|);
  }

  /** A size has exactly one header block: the encoder is deterministic. */
  lemma LengthCodewordUnique(size: nat, s: seq<bool>, t: seq<bool>)
    requires IsLengthCodeword(size, s) && IsLengthCodeword(size, t)
    ensures s == t
  {
    ParityBitsAgree(s, t);
    SameParityBitsSameHeader(s, t);
  }

  /** Two blocks with the same data bits, each parity bit the XOR of what it covers, have the same parity bits. */
  lemma ParityBitsAgree(s: seq<bool>, t: seq<bool>)
    requires |s| == 16 && |t| == 16 && LengthBits(s) == LengthBits(t)
    requires s[1] == CoverXor(s, 1, 2, |s|) && t[1] == CoverXor(t, 1, 2, |t|)
    requires s[2] == CoverXor(s, 2, 3, |s|) && t[2] == CoverXor(t, 2, 3, |t|)
    requires s[4] == CoverXor(s, 4, 5, |s|) && t[4] == CoverXor(t, 4, 5, |t|)
    requires s[8] == CoverXor(s, 8, 9, |s|) && t[8] == CoverXor(t, 8, 9, |t|)
    ensures s[1] == t[1] && s[2] == t[2] && s[4] == t[4] && s[8] == t[8]
  {
    AgreeOnCovered(s, t, 1);
    AgreeOnCovered(s, t, 2);
    AgreeOnCovered(s, t, 4);
    AgreeOnCovered(s, t, 8);
  }

  lemma SameParityBitsSameHeader(s: seq<bool>, t: seq<bool>)
    requires |s| == 16 && |t| == 16 && LengthBits(s) == LengthBits(t)
    requires s[1] == t[1] && s[2] == t[2] && s[4] == t[4] && s[8] == t[8]
    requires s[0] == RangeXor(s, 1, |s|) && t[0] == RangeXor(t, 1, |t|)
    ensures s == t
  {
    SameBitsAgree(s, t);
    RangeXorAgree(s, t, 1, |s|);
  }

  /** The header's data positions are the first 11 data positions of the general layout, in order. */
  lemma LengthLayoutIsGeneralLayout()
    ensures DataSlots(16) == 11
    ensures forall k :: 0 <= k < 11 ==> IsDataPosition(DataPositions[k]) && DataSlots(DataPositions[k]) == k
  {
    DataCapacity(16);
    forall k | 0 <= k < 11
      ensures IsDataPosition(DataPositions[k]) && DataSlots(DataPositions[k]) == k
    {
      DataPositionRank(k, DataPositions[k]);
    }
  }

  lemma DataPositionRank(k: nat, j: nat)
    requires k < 11 && j == DataPositions[k]
    ensures IsDataPosition(j) && DataSlots(j) == k
  {
    if j < 4 {
      assert Log2(2) == 1;
      DataRankInBlock(2, j);
    } else if j < 8 {
      assert Log2(4) == 2;
      DataRankInBlock(4, j);
    } else {
      assert Log2(8) == 3;
      DataRankInBlock(8, j);
    }
  }
}
