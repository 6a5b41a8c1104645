// The Hamming covering rule, positions of a codeword, and XOR over index sets.

module Hamming {
  import opened Bits

  /** Parity position p (a power of two) covers index i when bit log2(p) of i is set. */
  predicate Covers(p: nat, i: nat)
    requires p >= 1
  {
    (i / p) % 2 == 1
  }

  /** XOR of the bits at the indices in [lo, hi) that p covers. */
  function CoverXor(s: seq<bool>, p: nat, lo: nat, hi: nat): bool
    requires p >= 1 && lo <= hi <= |s|
    decreases hi - lo
  {
    if hi == lo then false else CoverXor(s, p, lo, hi - 1) != (Covers(p, hi - 1) && s[hi - 1])
  }

  /** XOR of all bits at the indices in [lo, hi). */
  function RangeXor(s: seq<bool>, lo: nat, hi: nat): bool
    requires lo <= hi <= |s|
    decreases hi - lo
  {
    if hi == lo then false else RangeXor(s, lo, hi - 1) != s[hi - 1]
  }

  /** The indices in [lo, hi) that p covers, in increasing order. */
  function CoveredList(p: nat, lo: nat, hi: nat): seq<nat>
    requires p >= 1 && lo <= hi
    decreases hi - lo
  {
    if hi == lo then [] else CoveredList(p, lo, hi - 1) + (if Covers(p, hi - 1) then [hi - 1] else [])
  }

  /** XOR of the bits at the listed indices. */
  function XorAt(s: seq<bool>, indices: seq<nat>): bool
    requires forall k :: 0 <= k < |indices| ==> indices[k] < |s|
  {
    if indices == [] then false else XorAt(s, indices[..|indices| - 1]) != s[indices[|indices| - 1]]
  }

  /** How many of s[start], s[start + step], s[start + 2 * step], ... are set
    * (`iter().skip(start).step_by(step).filter(|&&bit| bit).count()`). */
  function StepCountTrue(s: seq<bool>, start: nat, step: nat): (r: nat)
    requires step >= 1
    ensures r <= StepCount(|s|, start, step)
    decreases |s| - start
  {
    if start >= |s| then 0 else (if s[start] then 1 else 0) + StepCountTrue(s, start + step, step)
  }

  /** How many elements `skip(start).step_by(step)` yields from a collection of len elements. */
  function StepCount(len: nat, start: nat, step: nat): (r: nat)
    requires step >= 1
    ensures start >= len ==> r == 0
    ensures start < len ==> 1 <= r <= len - start
    decreases len - start
  {
    if start >= len then 0 else 1 + StepCount(len, start + step, step)
  }

  /** With no set bit from start on, the stride counts none. */
  lemma {:induction false} StepCountTrueClear(s: seq<bool>, start: nat, step: nat)
    requires step >= 1
    requires forall j :: start <= j < |s| ==> !s[j]
    ensures StepCountTrue(s, start, step) == 0
    decreases |s| - start
  {
    if start < |s| {
      StepCountTrueClear(s, start + step, step);
    }
  }

  /** `skip(start).step_by(step)` over len elements yields the ceiling of (len - start) / step elements. */
  lemma {:induction false} StepCountCeiling(len: nat, start: nat, step: nat)
    requires step >= 1 && start < len
    ensures (StepCount(len, start, step) - 1) * step < len - start <= StepCount(len, start, step) * step
    decreases len - start
  {
    var r := StepCount(len, start, step);
    if start + step < len {
      StepCountCeiling(len, start + step, step);
      var r' := StepCount(len, start + step, step);
      assert r == r' + 1;
      assert r * step == r' * step + step;
    }
  }

  /** Position i carries data: it is neither the overall-parity slot 0 nor a power of two. */
  predicate IsDataPosition(i: nat)
  {
    i != 0 && !IsPow2(i)
  }

  /** Number of data positions below i, that is, the rank of data position i. */
  function DataSlots(i: nat): nat
  {
    if i == 0 then 0 else DataSlots(i - 1) + (if IsDataPosition(i - 1) then 1 else 0)
  }

  // ----- XOR over index ranges -----

  lemma {:induction false} CoverXorSplit(s: seq<bool>, p: nat, lo: nat, mid: nat, hi: nat)
    requires p >= 1 && lo <= mid <= hi <= |s|
    ensures CoverXor(s, p, lo, hi) == (CoverXor(s, p, lo, mid) != CoverXor(s, p, mid, hi))
    decreases hi - mid
  {
    if hi > mid {
      CoverXorSplit(s, p, lo, mid, hi - 1);
    }
  }

  /** A range without covered indices contributes nothing. */
  lemma {:induction false} CoverXorNone(s: seq<bool>, p: nat, lo: nat, hi: nat)
    requires p >= 1 && lo <= hi <= |s|
    requires forall j :: lo <= j < hi ==> !Covers(p, j)
    ensures !CoverXor(s, p, lo, hi)
    decreases hi - lo
  {
    if hi > lo {
      CoverXorNone(s, p, lo, hi - 1);
    }
  }

  /** Sequences that agree at every covered index of the range give the same XOR. */
  lemma {:induction false} CoverXorAgree(s: seq<bool>, t: seq<bool>, p: nat, lo: nat, hi: nat)
    requires p >= 1 && lo <= hi <= |s| && hi <= |t|
    requires forall j :: lo <= j < hi && Covers(p, j) ==> s[j] == t[j]
    ensures CoverXor(s, p, lo, hi) == CoverXor(t, p, lo, hi)
    decreases hi - lo
  {
    if hi > lo {
      CoverXorAgree(s, t, p, lo, hi - 1);
    }
  }

  /** When every covered bit of the range is clear, so is their XOR. */
  lemma {:induction false} CoverXorClear(s: seq<bool>, p: nat, lo: nat, hi: nat)
    requires p >= 1 && lo <= hi <= |s|
    requires forall j :: lo <= j < hi && Covers(p, j) ==> !s[j]
    ensures !CoverXor(s, p, lo, hi)
    decreases hi - lo
  {
    if hi > lo {
      CoverXorClear(s, p, lo, hi - 1);
    }
  }

  /** The XOR of a range is set exactly when the range holds an odd number of set bits. */
  lemma {:induction false} RangeXorCount(s: seq<bool>, lo: nat, hi: nat)
    requires lo <= hi <= |s|
    ensures RangeXor(s, lo, hi) == (multiset(s[lo..hi])[true] % 2 == 1)
    decreases hi - lo
  {
    if hi > lo {
      RangeXorCount(s, lo, hi - 1);
      assert s[lo..hi] == s[lo..hi - 1] + [s[hi - 1]];
    }
  }

  /** When p covers the whole range, its XOR is the XOR of the range. */
  lemma {:induction false} CoverXorAll(s: seq<bool>, p: nat, lo: nat, hi: nat)
    requires p >= 1 && lo <= hi <= |s|
    requires forall j :: lo <= j < hi ==> Covers(p, j)
    ensures CoverXor(s, p, lo, hi) == RangeXor(s, lo, hi)
    decreases hi - lo
  {
    if hi > lo {
      CoverXorAll(s, p, lo, hi - 1);
    }
  }

  lemma {:induction false} RangeXorSplit(s: seq<bool>, lo: nat, mid: nat, hi: nat)
    requires lo <= mid <= hi <= |s|
    ensures RangeXor(s, lo, hi) == (RangeXor(s, lo, mid) != RangeXor(s, mid, hi))
    decreases hi - mid
  {
    if hi > mid {
      RangeXorSplit(s, lo, mid, hi - 1);
    }
  }

  lemma {:induction false} RangeXorAgree(s: seq<bool>, t: seq<bool>, lo: nat, hi: nat)
    requires lo <= hi <= |s| && hi <= |t|
    requires forall j :: lo <= j < hi ==> s[j] == t[j]
    ensures RangeXor(s, lo, hi) == RangeXor(t, lo, hi)
    decreases hi - lo
  {
    if hi > lo {
      RangeXorAgree(s, t, lo, hi - 1);
    }
  }

  /** A parity bit equal to the XOR of what it covers above it gives a zero check over [0, n). */
  lemma ZeroSyndrome(s: seq<bool>, p: nat, n: nat)
    requires p >= 1 && p < n <= |s|
    requires s[p] == CoverXor(s, p, p + 1, n)
    ensures !CoverXor(s, p, 0, n)
  {
    forall j | 0 <= j < p
      ensures !Covers(p, j)
    {
      assert j / p == 0;
    }
    CoverXorNone(s, p, 0, p);
    CoverXorSplit(s, p, 0, p, n);
    CoverXorSplit(s, p, p, p + 1, n);
    assert p / p == 1;
    assert CoverXor(s, p, p, p + 1) == s[p];
  }

  /** An overall-parity bit at 0 equal to the XOR of the rest makes the whole block even. */
  lemma EvenParity(s: seq<bool>, n: nat)
    requires 1 <= n <= |s|
    requires s[0] == RangeXor(s, 1, n)
    ensures !RangeXor(s, 0, n)
  {
    RangeXorSplit(s, 0, 1, n);
  }

  // ----- index lists and iterator chains -----

  /** The covered list holds exactly the covered indices of the range. */
  lemma {:induction false} CoveredListMembers(p: nat, lo: nat, hi: nat)
    requires p >= 1 && lo <= hi
    ensures forall j :: j in CoveredList(p, lo, hi) <==> lo <= j < hi && Covers(p, j)
    decreases hi - lo
  {
    if hi > lo {
      CoveredListMembers(p, lo, hi - 1);
    }
  }

  /** XOR over the covered list is the covering XOR. */
  lemma {:induction false} CoveredListXor(s: seq<bool>, p: nat, lo: nat, hi: nat)
    requires p >= 1 && lo <= hi <= |s|
    ensures forall k :: 0 <= k < |CoveredList(p, lo, hi)| ==> CoveredList(p, lo, hi)[k] < hi
    ensures XorAt(s, CoveredList(p, lo, hi)) == CoverXor(s, p, lo, hi)
    decreases hi - lo
  {
    if hi > lo {
      CoveredListXor(s, p, lo, hi - 1);
      var prev := CoveredList(p, lo, hi - 1);
      if Covers(p, hi - 1) {
        assert (prev + [hi - 1])[..|prev|] == prev;
      } else {
        assert prev + [] == prev;
      }
    }
  }

  /** Counting the set bits at every second index from an odd start is the XOR over what parity 1 covers. */
  lemma {:induction false} StepOddIsCoverOne(s: seq<bool>, start: nat)
    requires start % 2 == 1 && start <= |s|
    ensures (StepCountTrue(s, start, 2) % 2 == 1) == CoverXor(s, 1, start, |s|)
    decreases |s| - start
  {
    if start + 2 <= |s| {
      StepOddIsCoverOne(s, start + 2);
      CoverXorSplit(s, 1, start, start + 2, |s|);
      assert !Covers(1, start + 1) && Covers(1, start);
      assert CoverXor(s, 1, start, start + 1) == s[start];
    } else if start + 1 == |s| {
      assert CoverXor(s, 1, start, |s|) == s[start];
    }
  }

  /** Counting the set bits of a suffix is the XOR of that suffix. */
  lemma {:induction false} StepOneIsRangeXor(s: seq<bool>, start: nat)
    requires start <= |s|
    ensures (StepCountTrue(s, start, 1) % 2 == 1) == RangeXor(s, start, |s|)
    decreases |s| - start
  {
    if start < |s| {
      StepOneIsRangeXor(s, start + 1);
      RangeXorSplit(s, start, start + 1, |s|);
    }
  }

  /** From an odd start below an even length, step_by(2) yields (len - start + 1) / 2 elements. */
  lemma {:induction false} StepCountOdd(len: nat, start: nat)
    requires len % 2 == 0 && start % 2 == 1 && start <= len + 1
    ensures StepCount(len, start, 2) == (len + 1 - start) / 2
    decreases len - start
  {
    if start < len {
      StepCountOdd(len, start + 2);
    }
  }

  // ----- data positions -----

  /** Among covered indices above p, none is a parity position (for the six positions the encoder writes). */
  lemma CoveredAreData(p: nat, j: nat)
    requires p == 1 || p == 2 || p == 4 || p == 8 || p == 16 || p == 32
    requires p < j && Covers(p, j)
    ensures IsDataPosition(j)
  {
    if IsPow2(j) {
      Pow2Aligned(j);
      if j >= 64 {
        MultipleOf64Uncovered(p, j);
      }
    }
  }

  lemma MultipleOf64Uncovered(p: nat, j: nat)
    requires p == 1 || p == 2 || p == 4 || p == 8 || p == 16 || p == 32
    requires j % 64 == 0
    ensures !Covers(p, j)
  {
    var m := j / 64;
    if p == 1 {
      assert j / 1 == 64 * m;
    } else if p == 2 {
      assert j / 2 == 32 * m;
    } else if p == 4 {
      assert j / 4 == 16 * m;
    } else if p == 8 {
      assert j / 8 == 8 * m;
    } else if p == 16 {
      assert j / 16 == 4 * m;
    } else {
      assert j / 32 == 2 * m;
    }
  }

  lemma {:induction false} DataSlotsMonotone(i: nat, j: nat)
    requires i <= j
    ensures DataSlots(i) <= DataSlots(j)
    decreases j - i
  {
    if i < j {
      DataSlotsMonotone(i, j - 1);
    }
  }

  /** Every rank below DataSlots(n) belongs to exactly one data position below n. */
  lemma {:induction false} DataSlotsOnto(n: nat, k: nat)
    requires k < DataSlots(n)
    ensures exists i :: 0 <= i < n && IsDataPosition(i) && DataSlots(i) == k
  {
    if k < DataSlots(n - 1) {
      DataSlotsOnto(n - 1, k);
    } else {
      assert IsDataPosition(n - 1) && DataSlots(n - 1) == k;
    }
  }

  lemma DataSlotsInjective(i: nat, j: nat)
    requires i < j && IsDataPosition(i)
    ensures DataSlots(i) < DataSlots(j)
  {
    DataSlotsMonotone(i + 1, j);
  }

  /** No power of two lies strictly between two consecutive ones. */
  lemma {:induction false} NoPow2Between(q: nat, j: nat)
    requires IsPow2(q) && q < j < 2 * q
    ensures !IsPow2(j)
  {
    if IsPow2(j) && q != 1 {
      NoPow2Between(q / 2, j / 2);
    }
  }

  /** Above a power of two q, the next m positions up to 2q add m - 1 data positions. */
  lemma {:induction false} DataSlotsStretch(q: nat, m: nat)
    requires IsPow2(q) && 1 <= m <= q
    ensures DataSlots(q + m) == DataSlots(q) + m - 1
  {
    if m > 1 {
      DataSlotsStretch(q, m - 1);
      NoPow2Between(q, q + m - 1);
    }
  }

  /** A position strictly between q and 2q, for a power of two q, is a data position of rank j - 2 - log2(q). */
  lemma DataRankInBlock(q: nat, j: nat)
    requires IsPow2(q) && q < j < 2 * q
    ensures IsDataPosition(j) && DataSlots(j) == j - 2 - Log2(q)
  {
    NoPow2Between(q, j);
    DataCapacity(q);
    DataSlotsStretch(q, j - q);
  }

  /** A block of n = 2^k positions holds n - 1 - k data positions. */
  lemma {:induction false} DataCapacity(n: nat)
    requires IsPow2(n)
    ensures DataSlots(n) == n - 1 - Log2(n)
  {
    if n > 1 {
      DataCapacity(n / 2);
      DataSlotsStretch(n / 2, n / 2);
    }
  }
}
