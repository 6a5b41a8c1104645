// The payload block: the message's bits spread over the data positions of a block whose
// length is the next power of two of 8 * |message|, parity bits at 1, 2, 4, 8, 16, 32 and
// overall parity at 0.

module PayloadEncoder {
  import opened Bits
  import opened Hamming

  // ----- the message as a bit string -----

  /** The message's bytes written out as eight binary digits each, most significant first. */
  function MessageBits(m: seq<byte>): (r: seq<bool>)
    ensures |r| == 8 * |m|
  {
    if m == [] then [] else MessageBits(m[..|m| - 1]) + Digits(m[|m| - 1] as nat, 8)
  }

  /** Groups of eight digits read back as bytes. */
  function BytesOf(bits: seq<bool>): seq<byte>
    requires |bits| % 8 == 0
  {
    if bits == [] then []
    else
      var last := bits[|bits| - 8..];
      FromBitsBound(last);
      BytesOf(bits[..|bits| - 8]) + [FromBits(last) as byte]
  }

  /** Reading the digits back gives the message. */
  lemma {:induction false} BytesRoundTrip(m: seq<byte>)
    ensures BytesOf(MessageBits(m)) == m
  {
    if m != [] {
      var init, c := m[..|m| - 1], m[|m| - 1];
      var bits := MessageBits(m);
      BytesRoundTrip(init);
      assert bits[..|bits| - 8] == MessageBits(init);
      assert bits[|bits| - 8..] == Digits(c as nat, 8);
      FromDigits(c as nat, 8);
      assert m == init + [c];
    }
  }

  /** The loop of src/main.rs:67-70: the binary string of the message, one byte after another. */
  method BinaryMessage(message: seq<byte>) returns (bits: seq<bool>)
    ensures bits == MessageBits(message)
  {
    bits := [];
    for k := 0 to |message|
      invariant bits == MessageBits(message[..k])
    {
      assert message[..k + 1][..k] == message[..k];
      bits := bits + Digits(message[k] as nat, 8);
    }
    assert message[..|message|] == message;
  }

  // ----- block length -----

  /**
   * The block length is the next power of two of 8 * |message|. It reaches 64, which the
   * writes to bits 1, 8, 16 and 32 need, exactly when the message has at least five bytes;
   * for one to four bytes it is at most 32, and for the empty message it is 1.
   */
  lemma PayloadLength(n: nat)
    ensures n >= 5 ==> NextPowerOfTwo(n * 8) >= 64
    ensures 1 <= n <= 4 ==> NextPowerOfTwo(n * 8) <= 32
    ensures n == 0 ==> NextPowerOfTwo(n * 8) == 1
  {
    var r := NextPowerOfTwo(n * 8);
    Pow2Aligned(r);
    if 1 <= n <= 4 {
      assert IsPow2(32);
      NextPowerOfTwoIsLeast(n * 8, 32);
    }
  }

  // ----- data layout -----

  /** Bit k of the data stream, or false once the stream has run out. */
  function DataBit(bits: seq<bool>, k: nat): bool
  {
    if k < |bits| then bits[k] else false
  }

  /** What the loop of src/main.rs:73-85 puts at position i: false at 0 and at powers of two, else the next data bit. */
  function LayoutBit(bits: seq<bool>, i: nat): bool
  {
    if i == 0 || IsPow2(i) then false else DataBit(bits, DataSlots(i))
  }

  /** s is the block as the layout loop leaves it. */
  ghost predicate Laid(bits: seq<bool>, s: seq<bool>)
  {
    forall i :: 0 <= i < |s| ==> s[i] == LayoutBit(bits, i)
  }

  /**
   * s is the payload block of length L for the data stream bits: every data position holds
   * the data bit of its rank (false past the end of the stream), powers of two from 64 on are
   * clear, bit 1 is the parity of the number of positions 3, 5, 7, ..., bits 2, 4, 8, 16 are
   * the XOR of what they cover above themselves, bit 32 the XOR of everything from 33 on, and
   * bit 0 the XOR of bits 1 to L - 1.
   */
  ghost predicate IsPayloadCodeword(bits: seq<bool>, L: nat, s: seq<bool>)
  {
    L >= 64 && IsPow2(L) && |s| == L &&
    (forall i :: 0 <= i < |s| && IsDataPosition(i) ==> s[i] == DataBit(bits, DataSlots(i))) &&
    (forall i :: 64 <= i < |s| && IsPow2(i) ==> !s[i]) &&
    s[1] == (StepCount(|s|, 3, 2) % 2 == 1) &&
    s[2] == CoverXor(s, 2, 3, |s|) &&
    s[4] == CoverXor(s, 4, 5, |s|) &&
    s[8] == CoverXor(s, 8, 9, |s|) &&
    s[16] == CoverXor(s, 16, 17, |s|) &&
    s[32] == RangeXor(s, 33, |s|) &&
    s[0] == RangeXor(s, 1, |s|)
  }

  // ----- the counting loops -----

  /**
   * One step of the loops of src/main.rs:89-95, 99-105, 109-115 and 119-125 from a covered index i:
   * at the end of a run of covered indices the loop jumps over the p uncovered ones.
   */
  lemma SkipStep(p: nat, m: nat, i: nat)
    requires (p == 2 && m == 2) || (p == 4 && m == 8) || (p == 8 && m == 8) || (p == 16 && m == 32)
    requires Covers(p, i)
    ensures (i + 1) % m == 0 ==> Covers(p, i + p + 1) && forall j :: i < j < i + p + 1 ==> !Covers(p, j)
    ensures (i + 1) % m != 0 ==> Covers(p, i + 1)
  {
    if p == 2 {
      SkipStepTwo(i);
    } else if p == 4 {
      SkipStepFour(i);
    } else if p == 8 {
      SkipStepEight(i);
    } else {
      SkipStepSixteen(i);
    }
  }

  lemma SkipStepTwo(i: nat)
    requires Covers(2, i)
    ensures (i + 1) % 2 == 0 ==> Covers(2, i + 3) && forall j :: i < j < i + 3 ==> !Covers(2, j)
    ensures (i + 1) % 2 != 0 ==> Covers(2, i + 1)
  {
  }

  lemma SkipStepFour(i: nat)
    requires Covers(4, i)
    ensures (i + 1) % 8 == 0 ==> Covers(4, i + 5) && forall j :: i < j < i + 5 ==> !Covers(4, j)
    ensures (i + 1) % 8 != 0 ==> Covers(4, i + 1)
  {
  }

  lemma SkipStepEight(i: nat)
    requires Covers(8, i)
    ensures (i + 1) % 8 == 0 ==> Covers(8, i + 9) && forall j :: i < j < i + 9 ==> !Covers(8, j)
    ensures (i + 1) % 8 != 0 ==> Covers(8, i + 1)
  {
  }

  lemma SkipStepSixteen(i: nat)
    requires Covers(16, i)
    ensures (i + 1) % 32 == 0 ==> Covers(16, i + 17) && forall j :: i < j < i + 17 ==> !Covers(16, j)
    ensures (i + 1) % 32 != 0 ==> Covers(16, i + 1)
  {
  }

  /**
   * The loops of src/main.rs:87-126: from p + 1, count the set bits, jumping p ahead whenever
   * (i + 1) % m == 0. The count is odd exactly when the bits p covers above itself have
   * odd parity.
   */
  method CountCovered(a: array<bool>, p: nat, m: nat) returns (count: nat)
    requires (p == 2 && m == 2) || (p == 4 && m == 8) || (p == 8 && m == 8) || (p == 16 && m == 32)
    requires p < a.Length
    ensures (count % 2 == 1) == CoverXor(a[..], p, p + 1, a.Length)
  {
    ghost var s := a[..];
    count := 0;
    var i := p + 1;
    assert (p + 1) / p == 1;
    while i < a.Length
      invariant p < i && Covers(p, i)
      invariant (count % 2 == 1) == CoverXor(s, p, p + 1, Min(i, a.Length))
    {
      assert (count % 2 == 1) == CoverXor(s, p, p + 1, i);
      count := count + if a[i] then 1 else 0;
      assert (count % 2 == 1) == CoverXor(s, p, p + 1, i + 1);
      SkipStep(p, m, i);
      if (i + 1) % m == 0 {
        CoverXorNone(s, p, i + 1, Min(i + p + 1, a.Length));
        CoverXorSplit(s, p, p + 1, i + 1, Min(i + p + 1, a.Length));
        i := i + p;
      }
      i := i + 1;
    }
  }

  /** The loops of src/main.rs:127-140: the count of set bits from start on is odd exactly when their XOR is set. */
  method CountFrom(a: array<bool>, start: nat) returns (count: nat)
    requires start <= a.Length
    ensures count <= a.Length - start
    ensures (count % 2 == 1) == RangeXor(a[..], start, a.Length)
  {
    count := 0;
    var i := start;
    while i < a.Length
      invariant start <= i <= a.Length && count <= i - start
      invariant (count % 2 == 1) == RangeXor(a[..], start, i)
    {
      count := count + if a[i] then 1 else 0;
      i := i + 1;
    }
  }

  // ----- encode_message -----

  /** encode_message: the payload block of a message of at least five bytes. */
  method EncodeMessage(message: seq<byte>) returns (pack: seq<bool>)
    requires |message| >= 5
    ensures IsPayloadCodeword(MessageBits(message), NextPowerOfTwo(|message| * 8), pack)
  {
    var length := NextPowerOfTwo(|message| * 8);
    PayloadLength(|message|);
    var bits := BinaryMessage(message);
    var a := LayOut(bits, length);
    SetParityBits(a, bits);
    pack := a[..];
  }

  /** src/main.rs:86-140: the parity writes, in source order, turn a laid-out block into a payload code word. */
  method SetParityBits(a: array<bool>, ghost bits: seq<bool>)
    requires a.Length >= 64 && IsPow2(a.Length) && Laid(bits, a[..])
    modifies a
    ensures IsPayloadCodeword(bits, a.Length, a[..])
  {
    ghost var t0 := a[..];
    a[1] := StepCount(a.Length, 3, 2) % 2 == 1;
    ghost var t1 := a[..];
    SetCoverBit(a, 2, 2);
    ghost var t2 := a[..];
    SetCoverBit(a, 4, 8);
    ghost var t4 := a[..];
    SetCoverBit(a, 8, 8);
    ghost var t8 := a[..];
    SetCoverBit(a, 16, 32);
    ghost var t16 := a[..];
    SetRangeBit(a, 32, 33);
    ghost var t32 := a[..];
    SetRangeBit(a, 0, 0);
    PayloadSteps(bits, a.Length, t0, t1, t2, t4, t8, t16, t32, a[..]);
  }

  /** src/main.rs:87-126, one parity bit: count what p covers above itself, then store the parity at p. */
  method SetCoverBit(a: array<bool>, p: nat, m: nat)
    requires (p == 2 && m == 2) || (p == 4 && m == 8) || (p == 8 && m == 8) || (p == 16 && m == 32)
    requires p < a.Length
    modifies a
    ensures a[..] == old(a[..])[p := CoverXor(old(a[..]), p, p + 1, a.Length)]
  {
    var count := CountCovered(a, p, m);
    a[p] := count % 2 == 1;
  }

  /** src/main.rs:127-140, bit 32 or bit 0: the parity of the bits from start on, stored at pos. */
  method SetRangeBit(a: array<bool>, pos: nat, start: nat)
    requires pos < a.Length && start <= a.Length
    modifies a
    ensures a[..] == old(a[..])[pos := RangeXor(old(a[..]), start, a.Length)]
  {
    var count := CountFrom(a, start);
    a[pos] := count % 2 == 1;
  }

  /** The loop of src/main.rs:71-85: parity slots get false, every other slot the next data bit or false. */
  method LayOut(bits: seq<bool>, length: nat) returns (a: array<bool>)
    ensures fresh(a) && a.Length == length && Laid(bits, a[..])
  {
    a := new bool[length];
    var next := 0;
    for i := 0 to length
      invariant next == Min(DataSlots(i), |bits|)
      invariant forall j :: 0 <= j < i ==> a[j] == LayoutBit(bits, j)
    {
      if i == 0 || IsPow2(i) {
        a[i] := false;
      } else if next < |bits| {
        a[i] := bits[next];
        next := next + 1;
      } else {
        a[i] := false;
      }
    }
  }

  /**
   * The successive states of the block in encode_message: bit 1 (src/main.rs:86), bits 2, 4, 8, 16
   * (src/main.rs:87-126), bit 32 (src/main.rs:127-133), bit 0 (src/main.rs:134-140).
   */
  ghost predicate PayloadChain(t0: seq<bool>, t1: seq<bool>, t2: seq<bool>, t4: seq<bool>, t8: seq<bool>,
                               t16: seq<bool>, t32: seq<bool>, pack: seq<bool>)
  {
    |t0| >= 64 &&
    t1 == t0[1 := StepCount(|t0|, 3, 2) % 2 == 1] &&
    t2 == t1[2 := CoverXor(t1, 2, 3, |t1|)] &&
    t4 == t2[4 := CoverXor(t2, 4, 5, |t2|)] &&
    t8 == t4[8 := CoverXor(t4, 8, 9, |t4|)] &&
    t16 == t8[16 := CoverXor(t8, 16, 17, |t8|)] &&
    t32 == t16[32 := RangeXor(t16, 33, |t16|)] &&
    pack == t32[0 := RangeXor(t32, 0, |t32|)]
  }

  /** The positions encode_message writes after the layout loop. */
  predicate ParityWritten(i: nat)
  {
    i == 0 || i == 1 || i == 2 || i == 4 || i == 8 || i == 16 || i == 32
  }

  /** The proof obligation of EncodeMessage. */
  lemma PayloadSteps(bits: seq<bool>, L: nat, t0: seq<bool>, t1: seq<bool>, t2: seq<bool>, t4: seq<bool>,
                     t8: seq<bool>, t16: seq<bool>, t32: seq<bool>, pack: seq<bool>)
    requires L >= 64 && IsPow2(L) && |t0| == L && Laid(bits, t0)
    requires PayloadChain(t0, t1, t2, t4, t8, t16, t32, pack)
    ensures IsPayloadCodeword(bits, L, pack)
  {
    ChainLayout(bits, t0, t1, t2, t4, t8, t16, t32, pack);
    ChainBitTwo(t0, t1, t2, t4, t8, t16, t32, pack);
    ChainBitFour(t0, t1, t2, t4, t8, t16, t32, pack);
    ChainBitEight(t0, t1, t2, t4, t8, t16, t32, pack);
    ChainBitSixteen(t0, t1, t2, t4, t8, t16, t32, pack);
    ChainRanges(bits, t0, t1, t2, t4, t8, t16, t32, pack);
  }

  lemma ChainLayout(bits: seq<bool>, t0: seq<bool>, t1: seq<bool>, t2: seq<bool>, t4: seq<bool>,
                    t8: seq<bool>, t16: seq<bool>, t32: seq<bool>, pack: seq<bool>)
    requires Laid(bits, t0) && PayloadChain(t0, t1, t2, t4, t8, t16, t32, pack)
    ensures |pack| == |t0| && pack[1] == (StepCount(|pack|, 3, 2) % 2 == 1)
    ensures forall i :: 0 <= i < |pack| && IsDataPosition(i) ==> pack[i] == DataBit(bits, DataSlots(i))
    ensures forall i :: 64 <= i < |pack| && IsPow2(i) ==> !pack[i]
  {
    ChainKeepsRest(t0, t1, t2, t4, t8, t16, t32, pack);
    assert IsPow2(1) && IsPow2(2) && IsPow2(4) && IsPow2(8) && IsPow2(16) && IsPow2(32);
  }

  /** The chain writes only positions 0, 1, 2, 4, 8, 16 and 32. */
  lemma ChainKeepsRest(t0: seq<bool>, t1: seq<bool>, t2: seq<bool>, t4: seq<bool>,
                       t8: seq<bool>, t16: seq<bool>, t32: seq<bool>, pack: seq<bool>)
    requires PayloadChain(t0, t1, t2, t4, t8, t16, t32, pack)
    ensures |pack| == |t0| && pack[1] == t1[1]
    ensures forall i :: 0 <= i < |pack| && !ParityWritten(i) ==> pack[i] == t0[i]
  {
  }

  lemma ChainBitTwo(t0: seq<bool>, t1: seq<bool>, t2: seq<bool>, t4: seq<bool>,
                   t8: seq<bool>, t16: seq<bool>, t32: seq<bool>, pack: seq<bool>)
    requires PayloadChain(t0, t1, t2, t4, t8, t16, t32, pack)
    ensures pack[2] == CoverXor(pack, 2, 3, |pack|)
  {
    CoverBitSurvives(t1, pack, 2);
  }

  lemma ChainBitFour(t0: seq<bool>, t1: seq<bool>, t2: seq<bool>, t4: seq<bool>,
                   t8: seq<bool>, t16: seq<bool>, t32: seq<bool>, pack: seq<bool>)
    requires PayloadChain(t0, t1, t2, t4, t8, t16, t32, pack)
    ensures pack[4] == CoverXor(pack, 4, 5, |pack|)
  {
    CoverBitSurvives(t2, pack, 4);
  }

  lemma ChainBitEight(t0: seq<bool>, t1: seq<bool>, t2: seq<bool>, t4: seq<bool>,
                   t8: seq<bool>, t16: seq<bool>, t32: seq<bool>, pack: seq<bool>)
    requires PayloadChain(t0, t1, t2, t4, t8, t16, t32, pack)
    ensures pack[8] == CoverXor(pack, 8, 9, |pack|)
  {
    CoverBitSurvives(t4, pack, 8);
  }

  lemma ChainBitSixteen(t0: seq<bool>, t1: seq<bool>, t2: seq<bool>, t4: seq<bool>,
                   t8: seq<bool>, t16: seq<bool>, t32: seq<bool>, pack: seq<bool>)
    requires PayloadChain(t0, t1, t2, t4, t8, t16, t32, pack)
    ensures pack[16] == CoverXor(pack, 16, 17, |pack|)
  {
    CoverBitSurvives(t8, pack, 16);
  }

  lemma ChainRanges(bits: seq<bool>, t0: seq<bool>, t1: seq<bool>, t2: seq<bool>, t4: seq<bool>,
                    t8: seq<bool>, t16: seq<bool>, t32: seq<bool>, pack: seq<bool>)
    requires Laid(bits, t0) && PayloadChain(t0, t1, t2, t4, t8, t16, t32, pack)
    ensures pack[32] == RangeXor(pack, 33, |pack|) && pack[0] == RangeXor(pack, 1, |pack|)
  {
    assert !t0[0];
    RangeXorAgree(t16, pack, 33, |pack|);
    RangeXorSplit(t32, 0, 1, |pack|);
    RangeXorAgree(t32, pack, 1, |pack|);
  }

  /** A bit set to the XOR of what it covers keeps that value while only bits it does not cover change. */
  lemma CoverBitSurvives(prev: seq<bool>, pack: seq<bool>, p: nat)
    requires p >= 1 && p < |prev| == |pack|
    requires pack[p] == CoverXor(prev, p, p + 1, |prev|)
    requires forall j :: p < j < |prev| && Covers(p, j) ==> pack[j] == prev[j]
    ensures pack[p] == CoverXor(pack, p, p + 1, |pack|)
  {
    CoverXorAgree(prev, pack, p, p + 1, |prev|);
  }

  // ----- properties of payload blocks -----

  /** The parity bits 2, 4, 8 and 16 give a zero check, and the whole block has even parity. */
  lemma PayloadParityChecks(bits: seq<bool>, L: nat, s: seq<bool>)
    requires IsPayloadCodeword(bits, L, s)
    ensures !CoverXor(s, 2, 0, L) && !CoverXor(s, 4, 0, L) && !CoverXor(s, 8, 0, L) && !CoverXor(s, 16, 0, L)
    ensures !RangeXor(s, 0, L)
  {
    ZeroSyndrome(s, 2, L);
    ZeroSyndrome(s, 4, L);
    ZeroSyndrome(s, 8, L);
    ZeroSyndrome(s, 16, L);
    EvenParity(s, L);
  }

  /** For a power of two L from 64 on, the number of positions 3, 5, ..., L - 1 is odd. */
  lemma OddPositionsOdd(L: nat)
    requires IsPow2(L) && L >= 64
    ensures StepCount(L, 3, 2) % 2 == 1
  {
    Pow2Aligned(L);
    StepCountOdd(L, 3);
    var half := L / 2;
    assert L == 2 * half && half % 2 == 0;
    assert StepCount(L, 3, 2) == half - 1;
  }

  /** Bit 1 counts positions rather than set bits (src/main.rs:86), so it is always set. */
  lemma PayloadBitOneSet(bits: seq<bool>, L: nat, s: seq<bool>)
    requires IsPayloadCodeword(bits, L, s)
    ensures s[1]
  {
    OddPositionsOdd(L);
  }

  /** Hence the check over what bit 1 covers passes exactly when the bits it covers above 1 have odd parity. */
  lemma PayloadBitOneCheck(bits: seq<bool>, L: nat, s: seq<bool>)
    requires IsPayloadCodeword(bits, L, s)
    ensures CoverXor(s, 1, 0, L) == !CoverXor(s, 1, 2, L)
  {
    PayloadBitOneSet(bits, L, s);
    BitOneCheck(s);
  }

  lemma BitOneCheck(s: seq<bool>)
    requires |s| >= 2 && s[1]
    ensures CoverXor(s, 1, 0, |s|) == !CoverXor(s, 1, 2, |s|)
  {
    CoverXorSplit(s, 1, 0, 2, |s|);
    assert !Covers(1, 0) && Covers(1, 1);
    assert CoverXor(s, 1, 0, 1) == false;
  }

  /** A message of zero bits fails the check over bit 1: its block is not a valid codeword there. */
  lemma ZeroMessageFailsBitOneCheck(bits: seq<bool>, L: nat, s: seq<bool>)
    requires IsPayloadCodeword(bits, L, s)
    requires forall k :: 0 <= k < |bits| ==> !bits[k]
    ensures CoverXor(s, 1, 0, L)
  {
    PayloadBitOneCheck(bits, L, s);
    ClearDataClearCover(bits, s);
  }

  lemma ClearDataClearCover(bits: seq<bool>, s: seq<bool>)
    requires |s| >= 2 && forall k :: 0 <= k < |bits| ==> !bits[k]
    requires forall i :: 0 <= i < |s| && IsDataPosition(i) ==> s[i] == DataBit(bits, DataSlots(i))
    ensures !CoverXor(s, 1, 2, |s|)
  {
    forall j | 2 <= j < |s| && Covers(1, j)
      ensures !s[j]
    {
      CoveredAreData(1, j);
    }
    CoverXorClear(s, 1, 2, |s|);
  }

  /** Bit 32 XORs all of 33 .. L - 1 (src/main.rs:127-133), which is what 32 covers there only when L is 64. */
  lemma ThirtyTwoRangeIsCover(L: nat)
    requires IsPow2(L) && L >= 64
    ensures (forall j :: 33 <= j < L ==> Covers(32, j)) <==> L == 64
  {
    if L == 64 {
      forall j | 33 <= j < L
        ensures Covers(32, j)
      {
        assert j / 32 == 1;
      }
    } else {
      assert !Covers(32, 64);
    }
  }

  /** For a block of length 64, bit 32 gives a zero check too. */
  lemma PayloadBitThirtyTwo(bits: seq<bool>, s: seq<bool>)
    requires IsPayloadCodeword(bits, 64, s)
    ensures !CoverXor(s, 32, 0, 64)
  {
    ThirtyTwoRangeIsCover(64);
    CoverXorAll(s, 32, 33, 64);
    ZeroSyndrome(s, 32, 64);
  }

  // ----- uniqueness -----

  /** s and t agree everywhere except possibly at the positions written after the layout. */
  ghost predicate AgreeOffParity(s: seq<bool>, t: seq<bool>)
  {
    |s| == |t| && forall j :: 0 <= j < |s| && !ParityWritten(j) ==> s[j] == t[j]
  }

  /** A payload block is determined by its data stream and length. */
  lemma PayloadCodewordUnique(bits: seq<bool>, L: nat, s: seq<bool>, t: seq<bool>)
    requires IsPayloadCodeword(bits, L, s) && IsPayloadCodeword(bits, L, t)
    ensures s == t
  {
    SameLayoutAgree(bits, s, t);
    CoverBitsAgree(s, t);
    SameParityBitsSame(s, t);
  }

  lemma SameLayoutAgree(bits: seq<bool>, s: seq<bool>, t: seq<bool>)
    requires |s| == |t|
    requires forall i :: 0 <= i < |s| && IsDataPosition(i) ==> s[i] == DataBit(bits, DataSlots(i))
    requires forall i :: 0 <= i < |t| && IsDataPosition(i) ==> t[i] == DataBit(bits, DataSlots(i))
    requires forall i :: 64 <= i < |s| && IsPow2(i) ==> !s[i]
    requires forall i :: 64 <= i < |t| && IsPow2(i) ==> !t[i]
    ensures AgreeOffParity(s, t)
  {
    forall j | 0 <= j < |s| && !ParityWritten(j)
      ensures s[j] == t[j]
    {
      if IsPow2(j) {
        Pow2Aligned(j);
      }
    }
  }

  lemma CoverBitsAgree(s: seq<bool>, t: seq<bool>)
    requires |s| >= 64 && AgreeOffParity(s, t)
    ensures CoverXor(s, 2, 3, |s|) == CoverXor(t, 2, 3, |t|) && CoverXor(s, 4, 5, |s|) == CoverXor(t, 4, 5, |t|)
    ensures CoverXor(s, 8, 9, |s|) == CoverXor(t, 8, 9, |t|) && CoverXor(s, 16, 17, |s|) == CoverXor(t, 16, 17, |t|)
  {
    CoverBitAgree(s, t, 2);
    CoverBitAgree(s, t, 4);
    CoverBitAgree(s, t, 8);
    CoverBitAgree(s, t, 16);
  }

  lemma CoverBitAgree(s: seq<bool>, t: seq<bool>, p: nat)
    requires p == 2 || p == 4 || p == 8 || p == 16
    requires |s| >= 64 && AgreeOffParity(s, t)
    ensures CoverXor(s, p, p + 1, |s|) == CoverXor(t, p, p + 1, |t|)
  {
    forall j | p + 1 <= j < |s| && Covers(p, j)
      ensures s[j] == t[j]
    {
      CoveredAreData(p, j);
      assert IsPow2(2) && IsPow2(4) && IsPow2(8) && IsPow2(16) && IsPow2(32);
    }
    CoverXorAgree(s, t, p, p + 1, |s|);
  }

  lemma SameParityBitsSame(s: seq<bool>, t: seq<bool>)
    requires |s| >= 64 && AgreeOffParity(s, t)
    requires s[1] == t[1] && s[2] == t[2] && s[4] == t[4] && s[8] == t[8] && s[16] == t[16]
    requires s[32] == RangeXor(s, 33, |s|) && t[32] == RangeXor(t, 33, |t|)
    requires s[0] == RangeXor(s, 1, |s|) && t[0] == RangeXor(t, 1, |t|)
    ensures s == t
  {
    RangeXorAgree(s, t, 33, |s|);
    RangeXorAgree(s, t, 1, |s|);
  }

  // ----- reading the data back -----

  /** The bits at the data positions below n, in position order: what a decoder reads back. */
  function DataOf(s: seq<bool>, n: nat): seq<bool>
    requires n <= |s|
  {
    if n == 0 then [] else DataOf(s, n - 1) + (if IsDataPosition(n - 1) then [s[n - 1]] else [])
  }

  lemma {:induction false} DataOfPlaced(bits: seq<bool>, s: seq<bool>, n: nat)
    requires n <= |s|
    requires forall i :: 0 <= i < |s| && IsDataPosition(i) ==> s[i] == DataBit(bits, DataSlots(i))
    ensures |DataOf(s, n)| == DataSlots(n)
    ensures forall k :: 0 <= k < DataSlots(n) ==> DataOf(s, n)[k] == DataBit(bits, k)
  {
    if n > 0 {
      DataOfPlaced(bits, s, n - 1);
      var prev, cur := DataOf(s, n - 1), DataOf(s, n);
      var m := DataSlots(n - 1);
      if IsDataPosition(n - 1) {
        assert cur == prev + [s[n - 1]];
        forall k | 0 <= k < DataSlots(n)
          ensures cur[k] == DataBit(bits, k)
        {
          if k < m {
            assert cur[k] == prev[k];
          } else {
            assert k == m && cur[k] == s[n - 1];
          }
        }
      } else {
        assert cur == prev;
      }
    }
  }

  /**
   * The data positions of a block of power-of-two length L laid out as a payload block hold,
   * in order, the first L - 1 - log2(L) bits of the message padded with false; when the
   * message fits, reading them back as bytes gives the message.
   */
  lemma PayloadDataReadBack(message: seq<byte>, s: seq<bool>)
    requires IsPow2(|s|)
    requires forall i :: 0 <= i < |s| && IsDataPosition(i) ==> s[i] == DataBit(MessageBits(message), DataSlots(i))
    ensures |DataOf(s, |s|)| == |s| - 1 - Log2(|s|)
    ensures forall k :: 0 <= k < |DataOf(s, |s|)| ==> DataOf(s, |s|)[k] == DataBit(MessageBits(message), k)
    ensures |message| * 8 <= |DataOf(s, |s|)| ==> BytesOf(DataOf(s, |s|)[..|message| * 8]) == message
  {
    var bits := MessageBits(message);
    DataOfPlaced(bits, s, |s|);
    DataCapacity(|s|);
    if |message| * 8 <= |DataOf(s, |s|)| {
      assert DataOf(s, |s|)[..|message| * 8] == bits;
      BytesRoundTrip(message);
    }
  }

  /** Five to seven bytes fit a block of 64, which has room for 57 data bits. */
  lemma ShortMessagesFit(n: nat)
    requires 5 <= n <= 7
    ensures NextPowerOfTwo(n * 8) == 64 && n * 8 <= DataSlots(64) == 57
  {
    PayloadLength(n);
    assert IsPow2(64);
    NextPowerOfTwoIsLeast(n * 8, 64);
    DataCapacity(64);
    assert Log2(64) == 6;
  }

  /**
   * When the message length is a power of two, the block is exactly 8 * |message| long and
   * has fewer data positions than the message has bits: its last bits are not stored.
   */
  lemma PowerOfTwoLengthTruncates(n: nat)
    requires n >= 5 && IsPow2(n)
    ensures NextPowerOfTwo(n * 8) == n * 8
    ensures DataSlots(n * 8) < n * 8
  {
    var two := 2 * n;
    Pow2Double(n);
    var four := 2 * two;
    Pow2Double(two);
    var eight := 2 * four;
    Pow2Double(four);
    assert eight == n * 8;
    NextPowerOfTwoIsLeast(eight, eight);
    DataCapacity(eight);
  }
}
