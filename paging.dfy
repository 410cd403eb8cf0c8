/**
 * The arithmetic behind the memory walker: the page-stride positions of a
 * buffer, the bytes written and summed there, the processed-bytes counter,
 * the pause checkpoints and the diagnostic count of non-zero bytes.
 * The methods in module Walker are proved against these functions. Each
 * function steps by whole pages, as the walk does; lemmas connect it to the
 * closed forms (multiples of p, ceil(size / p)).
 */
module Paging {
  import opened DivMod

  /** One byte of the buffer (Go's `byte`). */
  newtype Byte = b: int | 0 <= b < 256

  /** Page size used when the operating system reports none. */
  const DefaultPageSize: nat := 4096
  /** A pause checkpoint is due whenever the processed byte count is a multiple of 128 MiB. */
  const PauseInterval: nat := 128 * 1024 * 1024
  const Mebibyte: nat := 1024 * 1024
  /** The block is viewed through a `[1 << 31]byte` array, so it can hold at most 2^31 bytes. */
  const MaxBufferSize: nat := 0x8000_0000
  /** The largest size argument, in MiB, whose block fits that view. */
  const MaxSizeMB: nat := 2048
  /** Go's `int` is 64 bits wide. */
  const MaxInt: nat := 0x7fff_ffff_ffff_ffff
  /** The checksum is a `uint64`: additions wrap modulo 2^64. */
  const Uint64Modulus: nat := 0x1_0000_0000_0000_0000
  /** The byte stored at every stride position in write mode. */
  const Sentinel: Byte := 0x42

  // ---------------------------------------------------------------------------
  // Stride positions

  /** j is one of 0, p, 2p, ...: an index the walk can land on. */
  predicate IsStride(j: nat, p: nat)
    requires p > 0
    decreases j
  {
    if j < p then j == 0 else IsStride(j - p, p)
  }

  /** The stride positions are exactly the multiples of p. */
  lemma {:induction false} IsStrideMod(j: nat, p: nat)
    requires p > 0
    ensures IsStride(j, p) <==> j % p == 0
    decreases j
  {
    if j < p {
      DivModUnique(j, p, 0, j);
    } else {
      IsStrideMod(j - p, p);
      DivModUnique(j, p, (j - p) / p + 1, (j - p) % p);
    }
  }

  /** k * p is a stride position. */
  lemma {:induction false} IsStrideMultiple(k: nat, p: nat)
    requires p > 0
    ensures IsStride(k * p, p)
  {
    if k > 0 {
      IsStrideMultiple(k - 1, p);
      MulAtLeast(k, p);
      MulSucc(k - 1, p);
    }
  }

  /** No stride position lies strictly between two consecutive ones. */
  lemma {:induction false} NoStrideBetween(i: nat, j: nat, p: nat)
    requires p > 0 && IsStride(i, p) && i < j < i + p
    ensures !IsStride(j, p)
    decreases i
  {
    if i >= p {
      NoStrideBetween(i - p, j - p, p);
    }
  }

  /** The number of pages a block of `size` bytes spans, counted a page at a time. */
  function Pages(size: nat, p: nat): (n: nat)
    requires p > 0
    decreases size
  {
    if size == 0 then 0 else if size <= p then 1 else 1 + Pages(size - p, p)
  }

  /** Pages is ceil(size / p). */
  lemma {:induction false} PagesIsCeiling(size: nat, p: nat)
    requires p > 0
    ensures Pages(size, p) == (size + p - 1) / p
    decreases size
  {
    if size == 0 {
      DivModUnique(p - 1, p, 0, p - 1);
    } else if size <= p {
      DivModUnique(size + p - 1, p, 1, size - 1);
    } else {
      PagesIsCeiling(size - p, p);
      var x := size - 1;
      DivModUnique(x + p, p, x / p + 1, x % p);
    }
  }

  /** The value the processed-byte counter reaches once the walk has covered `size` bytes. */
  function Covered(size: nat, p: nat): (c: nat)
    requires p > 0
    decreases size
  {
    if size == 0 then 0 else if size <= p then p else p + Covered(size - p, p)
  }

  /** The counter ends at ceil(size / p) * p: at least size and less than size + p. */
  lemma {:induction false} CoveredBounds(size: nat, p: nat)
    requires p > 0
    ensures Covered(size, p) == Pages(size, p) * p
    ensures size <= Covered(size, p) < size + p
    decreases size
  {
    if size > p {
      CoveredBounds(size - p, p);
      MulSucc(Pages(size - p, p), p);
    }
  }

  /** A stride position that covers the block by less than a page is where the counter ends. */
  lemma {:induction false} FinalCounter(size: nat, p: nat, c: nat)
    requires p > 0 && IsStride(c, p) && size <= c < size + p
    ensures c == Covered(size, p)
    decreases size
  {
    if size > p {
      FinalCounter(size - p, p, c - p);
    }
  }

  /**
   * The indices the walk visits when it starts at `from`: from, from + p,
   * from + 2p, ... while they are below `size`.
   */
  function Strides(size: nat, p: nat, from: nat): (r: seq<nat>)
    requires p > 0
    ensures forall k :: 0 <= k < |r| ==> r[k] < size
    ensures from <= size ==> |r| <= size - from
    decreases size - from
  {
    if from >= size then [] else [from] + Strides(size, p, from + p)
  }

  /** `behind` are the positions visited before the walk reaches i. */
  predicate VisitedBefore(behind: seq<nat>, size: nat, p: nat, i: nat)
    requires p > 0
  {
    behind + Strides(size, p, i) == Strides(size, p, 0)
  }

  /** Visiting i moves it from the positions still ahead to the positions behind. */
  lemma StridesAdvance(behind: seq<nat>, size: nat, p: nat, i: nat)
    requires p > 0 && i < size && VisitedBefore(behind, size, p, i)
    ensures VisitedBefore(behind + [i], size, p, i + p)
  {
    assert Strides(size, p, i) == [i] + Strides(size, p, i + p);
    assert (behind + [i]) + Strides(size, p, i + p) == behind + ([i] + Strides(size, p, i + p));
  }

  lemma {:induction false} StridesLengthFrom(size: nat, p: nat, from: nat)
    requires p > 0
    ensures |Strides(size, p, from)| == if from >= size then 0 else Pages(size - from, p)
    decreases size - from
  {
    if from < size {
      StridesLengthFrom(size, p, from + p);
    }
  }

  /** The walk over a block of `size` bytes makes exactly Pages(size, p) steps. */
  lemma StridesLength(size: nat, p: nat)
    requires p > 0
    ensures |Strides(size, p, 0)| == Pages(size, p)
  {
    StridesLengthFrom(size, p, 0);
  }

  /** Step k of the walk visits from + k * p. */
  lemma {:induction false} StridesAt(size: nat, p: nat, from: nat, k: nat)
    requires p > 0 && k < |Strides(size, p, from)|
    ensures Strides(size, p, from)[k] == from + k * p
    decreases size - from
  {
    if k > 0 {
      StridesAt(size, p, from + p, k - 1);
      MulSucc(k - 1, p);
    }
  }

  /** The walk visits the block in strictly ascending order. */
  lemma StridesAscending(size: nat, p: nat)
    requires p > 0
    ensures forall a, b :: 0 <= a < b < |Strides(size, p, 0)| ==>
      Strides(size, p, 0)[a] < Strides(size, p, 0)[b]
  {
    var r := Strides(size, p, 0);
    forall a, b | 0 <= a < b < |r|
      ensures r[a] < r[b]
    {
      StridesAt(size, p, 0, a);
      StridesAt(size, p, 0, b);
      MulAtLeast(b - a, p);
      assert b * p - a * p == (b - a) * p;
    }
  }

  /** The visited indices are exactly the stride positions from `from` below `size`. */
  lemma {:induction false} StridesMembers(size: nat, p: nat, from: nat, x: nat)
    requires p > 0 && IsStride(from, p)
    ensures x in Strides(size, p, from) <==> from <= x < size && IsStride(x, p)
    decreases size - from
  {
    if from < size {
      assert IsStride(from + p, p);
      StridesMembers(size, p, from + p, x);
      if from < x < from + p {
        NoStrideBetween(from, x, p);
      }
    }
  }

  /** The walk touches exactly the multiples of p below `size`. */
  lemma StridesAreMultiples(size: nat, p: nat, x: nat)
    requires p > 0
    ensures x in Strides(size, p, 0) <==> x < size && x % p == 0
  {
    StridesMembers(size, p, 0, x);
    IsStrideMod(x, p);
  }

  // ---------------------------------------------------------------------------
  // Read mode: the checksum

  predicate AllBelow(idx: seq<nat>, n: nat)
  {
    forall k :: 0 <= k < |idx| ==> idx[k] < n
  }

  /** The sum of the bytes of s at the positions idx, added in the order of idx. */
  function SampleSum(s: seq<Byte>, idx: seq<nat>): (sum: nat)
    requires AllBelow(idx, |s|)
  {
    if idx == [] then 0 else SampleSum(s, idx[..|idx| - 1]) + s[idx[|idx| - 1]] as nat
  }

  /** Each sampled byte adds at most 255. */
  lemma {:induction false} SampleSumBound(s: seq<Byte>, idx: seq<nat>)
    requires AllBelow(idx, |s|)
    ensures SampleSum(s, idx) <= 255 * |idx|
  {
    if idx != [] {
      SampleSumBound(s, idx[..|idx| - 1]);
    }
  }

  /** Go's uint64 addition of two uint64 values: the sum, less 2^64 when it overflows. */
  function AddUint64(a: nat, b: nat): (sum: nat)
    requires a < Uint64Modulus && b < Uint64Modulus
  {
    if a + b < Uint64Modulus then a + b else a + b - Uint64Modulus
  }

  /** uint64 addition is addition modulo 2^64, and stays a uint64. */
  lemma AddUint64Wraps(a: nat, b: nat)
    requires a < Uint64Modulus && b < Uint64Modulus
    ensures AddUint64(a, b) < Uint64Modulus
    ensures AddUint64(a, b) == (a + b) % Uint64Modulus
  {
    if a + b < Uint64Modulus {
      DivModUnique(a + b, Uint64Modulus, 0, a + b);
    } else {
      DivModUnique(a + b, Uint64Modulus, 1, a + b - Uint64Modulus);
    }
  }

  /** The checksum the walk computes: the sampled bytes added in order with uint64 wrap-around. */
  function WrappedSum(s: seq<Byte>, idx: seq<nat>): (r: nat)
    requires AllBelow(idx, |s|)
    ensures r < Uint64Modulus
  {
    if idx == [] then 0 else AddUint64(WrappedSum(s, idx[..|idx| - 1]), s[idx[|idx| - 1]] as nat)
  }

  /** Sampling one more position adds that byte with wrap-around. */
  lemma WrappedSumAppend(s: seq<Byte>, idx: seq<nat>, i: nat)
    requires AllBelow(idx, |s|) && i < |s|
    ensures AllBelow(idx + [i], |s|)
    ensures WrappedSum(s, idx + [i]) == AddUint64(WrappedSum(s, idx), s[i] as nat)
  {
    assert (idx + [i])[..|idx|] == idx;
  }

  /** The wrapped running sum is the exact sum reduced modulo 2^64. */
  lemma {:induction false} WrappedSumIsModSum(s: seq<Byte>, idx: seq<nat>)
    requires AllBelow(idx, |s|)
    ensures WrappedSum(s, idx) == SampleSum(s, idx) % Uint64Modulus
  {
    if idx != [] {
      var t := idx[..|idx| - 1];
      var b := s[idx[|idx| - 1]] as nat;
      WrappedSumIsModSum(s, t);
      AddUint64Wraps(WrappedSum(s, t), b);
      AddMod(SampleSum(s, t), b, Uint64Modulus);
    }
  }

  /** The exact (unwrapped) sum of one byte per page of s, in ascending order. */
  function PageSum(s: seq<Byte>, p: nat): (sum: nat)
    requires p > 0
  {
    SampleSum(s, Strides(|s|, p, 0))
  }

  /** The sum of one byte per page is at most 255 * ceil(|s| / p). */
  lemma PageSumBound(s: seq<Byte>, p: nat)
    requires p > 0
    ensures PageSum(s, p) <= 255 * Pages(|s|, p)
    ensures PageSum(s, p) <= 255 * ((|s| + p - 1) / p)
  {
    SampleSumBound(s, Strides(|s|, p, 0));
    StridesLength(|s|, p);
    PagesIsCeiling(|s|, p);
  }

  /** For a block the `[1 << 31]byte` view admits, the uint64 checksum never wraps: it is the exact sum. */
  lemma PageSumFitsUint64(s: seq<Byte>, p: nat)
    requires p > 0 && |s| <= MaxBufferSize
    ensures PageSum(s, p) < Uint64Modulus
    ensures WrappedSum(s, Strides(|s|, p, 0)) == PageSum(s, p)
  {
    SampleSumBound(s, Strides(|s|, p, 0));
    WrappedSumIsModSum(s, Strides(|s|, p, 0));
  }

  // ---------------------------------------------------------------------------
  // Write mode: the stamped buffer

  /** s with the sentinel stored at every stride position and every other byte kept. */
  function Stamped(s: seq<Byte>, p: nat): (b: seq<Byte>)
    requires p > 0
  {
    seq(|s|, j requires 0 <= j < |s| => if IsStride(j, p) then Sentinel else s[j])
  }

  /** b is s stamped below i: the sentinel at the stride positions below i, s everywhere else. */
  predicate StampedBelow(b: seq<Byte>, s: seq<Byte>, p: nat, i: nat)
    requires p > 0
  {
    |b| == |s| && forall j :: 0 <= j < |b| ==> b[j] == if j < i && IsStride(j, p) then Sentinel else s[j]
  }

  /** Storing the sentinel at the stride position i extends the stamped prefix by one page. */
  lemma StampStep(b: seq<Byte>, s: seq<Byte>, p: nat, i: nat)
    requires p > 0 && IsStride(i, p) && i < |b| && StampedBelow(b, s, p, i)
    ensures StampedBelow(b[i := Sentinel], s, p, i + p)
  {
    forall j | i < j < i + p
      ensures !IsStride(j, p)
    {
      NoStrideBetween(i, j, p);
    }
  }

  /** Once every position is below i, the stamped prefix is the whole stamped buffer. */
  lemma StampedBelowAll(b: seq<Byte>, s: seq<Byte>, p: nat, i: nat)
    requires p > 0 && i >= |s| && StampedBelow(b, s, p, i)
    ensures b == Stamped(s, p)
  {
  }

  /** Exactly the visited positions, the multiples of p, hold the sentinel; every other byte is the original. */
  lemma StampedFootprint(s: seq<Byte>, p: nat, j: nat)
    requires p > 0 && j < |s|
    ensures |Stamped(s, p)| == |s|
    ensures Stamped(s, p)[j] == if j in Strides(|s|, p, 0) then Sentinel else s[j]
    ensures Stamped(s, p)[j] == if j % p == 0 then Sentinel else s[j]
  {
    StridesMembers(|s|, p, 0, j);
    IsStrideMod(j, p);
  }

  /** buffer[k * p] == 0x42 for every k with k * p inside the block. */
  lemma StampedAtPage(s: seq<Byte>, p: nat, k: nat)
    requires p > 0 && k * p < |s|
    ensures Stamped(s, p)[k * p] == Sentinel
  {
    IsStrideMultiple(k, p);
  }

  // ---------------------------------------------------------------------------
  // Pause checkpoints

  /**
   * The pause checkpoints met while the processed-byte counter climbs in
   * steps of p up to c: after each step the counter is checked, and a pause
   * is due when it is a multiple of the pause interval.
   */
  function Pauses(p: nat, c: nat): (log: seq<nat>)
    requires p > 0
    decreases c
  {
    if c < p then []
    else Pauses(p, c - p) + (if c % PauseInterval == 0 then [c] else [])
  }

  /** A pause happens at count x exactly when the counter reaches x and x is a multiple of the interval. */
  lemma {:induction false} PausesMembers(p: nat, c: nat, x: nat)
    requires p > 0 && IsStride(c, p)
    ensures x in Pauses(p, c) <==> 0 < x <= c && IsStride(x, p) && x % PauseInterval == 0
    decreases c
  {
    if c >= p {
      PausesMembers(p, c - p, x);
      if c - p < x < c {
        NoStrideBetween(c - p, x, p);
      }
    }
  }

  /** With 4 KiB pages, a pause is due once per 128 MiB processed. */
  lemma {:induction false} PauseCountDefaultPage(c: nat)
    requires IsStride(c, DefaultPageSize)
    ensures |Pauses(DefaultPageSize, c)| == c / PauseInterval
    decreases c
  {
    if c >= DefaultPageSize {
      PauseCountDefaultPage(c - DefaultPageSize);
      IsStrideMod(c, DefaultPageSize);
      var q, r := c / PauseInterval, c % PauseInterval;
      if r == 0 {
        DivModUnique(c - DefaultPageSize, PauseInterval, q - 1, PauseInterval - DefaultPageSize);
      } else {
        DivModUnique(c - DefaultPageSize, PauseInterval, q, r - DefaultPageSize);
      }
    }
  }

  /** With 4 KiB pages a block of sizeMB MiB spans sizeMB * 256 pages. */
  lemma PagesForSize(sizeMB: nat)
    ensures Pages(sizeMB * Mebibyte, DefaultPageSize) == sizeMB * 256
  {
    PagesIsCeiling(sizeMB * Mebibyte, DefaultPageSize);
    DivModUnique(sizeMB * Mebibyte + 4095, 4096, sizeMB * 256, 4095);
  }

  /** A block of whole MiB is page-aligned, so the counter ends exactly at its size. */
  lemma CoveredForSize(sizeMB: nat)
    ensures Covered(sizeMB * Mebibyte, DefaultPageSize) == sizeMB * Mebibyte
  {
    CoveredBounds(sizeMB * Mebibyte, DefaultPageSize);
    PagesForSize(sizeMB);
  }

  /** With 4 KiB pages a block of sizeMB MiB pauses sizeMB / 128 times. */
  lemma PausesForSize(sizeMB: nat)
    ensures |Pauses(DefaultPageSize, sizeMB * Mebibyte)| == sizeMB / 128
  {
    var size := sizeMB * Mebibyte;
    IsStrideMultiple(sizeMB * 256, DefaultPageSize);
    assert sizeMB * 256 * DefaultPageSize == size;
    PauseCountDefaultPage(size);
    var q, r := sizeMB / 128, sizeMB % 128;
    assert size == q * PauseInterval + r * Mebibyte;
    DivModUnique(size, PauseInterval, q, r * Mebibyte);
  }

  /** With 4 KiB pages a block of sizeMB MiB takes sizeMB * 256 steps and pauses sizeMB / 128 times. */
  lemma PauseCountForSize(sizeMB: nat)
    ensures Pages(sizeMB * Mebibyte, DefaultPageSize) == sizeMB * 256
    ensures Covered(sizeMB * Mebibyte, DefaultPageSize) == sizeMB * Mebibyte
    ensures |Pauses(DefaultPageSize, Covered(sizeMB * Mebibyte, DefaultPageSize))| == sizeMB / 128
  {
    PagesForSize(sizeMB);
    CoveredForSize(sizeMB);
    PausesForSize(sizeMB);
  }

  /**
   * A 1 MiB block with 4 KiB pages: 256 steps, 1048576 processed bytes and no
   * pause; in write mode every one of the 256 visited bytes becomes 0x42.
   */
  lemma OneMebibyteWalk(s: seq<Byte>)
    requires |s| == Mebibyte
    ensures Pages(Mebibyte, DefaultPageSize) == 256
    ensures Covered(Mebibyte, DefaultPageSize) == 1048576
    ensures Pauses(DefaultPageSize, Covered(Mebibyte, DefaultPageSize)) == []
    ensures |Strides(|s|, DefaultPageSize, 0)| == 256
    ensures forall j :: j in Strides(|s|, DefaultPageSize, 0) ==> Stamped(s, DefaultPageSize)[j] == Sentinel
  {
    PauseCountForSize(1);
    StridesLength(|s|, DefaultPageSize);
    forall j | j in Strides(|s|, DefaultPageSize, 0)
      ensures Stamped(s, DefaultPageSize)[j] == Sentinel
    {
      StampedFootprint(s, DefaultPageSize, j);
    }
  }

  // ---------------------------------------------------------------------------
  // The non-zero diagnostic

  /** The number of non-zero bytes in s. */
  function NonZeroCount(s: seq<Byte>): (n: nat)
  {
    if s == [] then 0 else NonZeroCount(s[..|s| - 1]) + (if s[|s| - 1] != 0 then 1 else 0)
  }

  /** NonZeroCount is the size of the set of positions holding a non-zero byte. */
  lemma {:induction false} NonZeroCountIsCardinality(s: seq<Byte>)
    ensures NonZeroCount(s) == |set j | 0 <= j < |s| && s[j] != 0|
  {
    if s != [] {
      var t := s[..|s| - 1];
      NonZeroCountIsCardinality(t);
      var before := set j | 0 <= j < |t| && t[j] != 0;
      var all := set j | 0 <= j < |s| && s[j] != 0;
      if s[|s| - 1] != 0 {
        assert all == before + {|s| - 1};
      } else {
        assert all == before;
      }
    }
  }

  lemma {:induction false} NonZeroCountBound(s: seq<Byte>)
    ensures NonZeroCount(s) <= |s|
  {
    if s != [] {
      NonZeroCountBound(s[..|s| - 1]);
    }
  }

  /** The count is zero exactly when every byte is zero. */
  lemma {:induction false} NonZeroCountZero(s: seq<Byte>)
    ensures NonZeroCount(s) == 0 <==> forall j :: 0 <= j < |s| ==> s[j] == 0
  {
    if s != [] {
      var t := s[..|s| - 1];
      NonZeroCountZero(t);
      assert forall j :: 0 <= j < |t| ==> t[j] == s[j];
    }
  }
}
