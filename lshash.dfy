/** The locality-sensitive hash of an image (`LsHash`): a 64-bit value whose
    bit i says whether sample i of the 8x8 grayscale reduction is at or
    above the reduction's integer mean, and its partial order on the
    number of set bits. */
module Lshash {
  import opened Cmp
  import opened Bits

  /** The 64 grayscale bytes of the 8x8 reduced image, in scan order. */
  type Gray8x8 = s: seq<U8> | |s| == 64 witness seq(64, i => 0)

  /** `struct LsHash(u64)`; the derived equality is equality of the `u64`. */
  datatype LsHash = LsHash(bits: U64)

  /** `LsHash::new`: wraps its argument unchanged. */
  function New(lshash: U64): (h: LsHash)
    ensures h.bits == lshash
  {
    LsHash(lshash)
  }

  /** The derived `PartialEq`/`Eq`. */
  predicate Eq(a: LsHash, b: LsHash)
    ensures Eq(a, b) <==> a == b
  {
    a.bits == b.bits
  }

  lemma NewIsBitExact(x: U64, y: U64)
    ensures Eq(New(x), New(y)) <==> x == y
    ensures Eq(New(x), New(y)) <==> New(x) == New(y)
  {
  }

  // ---------------------------------------------------------------------
  // The fingerprint, as specification functions

  /** The sum of the samples, accumulated from the first one on. */
  function Sum(s: seq<U8>): (r: nat)
  {
    if s == [] then 0 else Sum(s[..|s| - 1]) + s[|s| - 1]
  }

  /** The largest sample. */
  function Max(s: seq<U8>): (m: U8)
    requires |s| > 0
    ensures exists i :: 0 <= i < |s| && s[i] == m
    ensures forall i :: 0 <= i < |s| ==> s[i] <= m
  {
    if |s| == 1 then s[0]
    else
      var m' := Max(s[..|s| - 1]);
      if s[|s| - 1] > m' then s[|s| - 1] else m'
  }

  /** The integer mean `sum / 64` of the reduction. */
  function Mean(s: Gray8x8): (r: nat)
    ensures 64 * r <= Sum(s) < 64 * (r + 1)
  {
    Sum(s) / 64
  }

  /** The samples packed one bit each, sample i at bit i: 1 when it is at
      least `mean`. */
  function Pack(s: seq<U8>, mean: int): (r: nat)
    ensures r < Pow2(|s|)
  {
    if s == [] then 0
    else (if s[0] >= mean then 1 else 0) + 2 * Pack(s[1..], mean)
  }

  /** How many samples are at least `mean`. */
  function CountAtLeast(s: seq<U8>, mean: int): (r: nat)
    ensures r <= |s|
  {
    if s == [] then 0
    else (if s[0] >= mean then 1 else 0) + CountAtLeast(s[1..], mean)
  }

  /** The fingerprint of a reduction: bit i is 1 iff sample i is at least
      the integer mean. */
  function Fingerprint(s: Gray8x8): (h: LsHash)
    ensures forall i :: 0 <= i < 64 ==> (Bit(h.bits, i) == 1 <==> s[i] >= Mean(s))
  {
    Pow2At64();
    PackBits(s, Mean(s));
    LsHash(Pack(s, Mean(s)))
  }

  /** The packing folded left, one OR of `1 << i` per sample that is at
      least the mean, in scan order. */
  function OrFold(s: seq<U8>, mean: int): (r: nat)
  {
    if s == [] then 0
    else Or(OrFold(s[..|s| - 1], mean), if s[|s| - 1] >= mean then Pow2(|s| - 1) else 0)
  }

  // ---------------------------------------------------------------------
  // LsHash::find

  /** `LsHash::find` after the grayscale conversion and 8x8 resampling:
      the two folds over the 64 bytes, the `u64` sum and the
      `(counter, acc)` packing. Every `u64` and `u8` intermediate is kept
      in range, so no addition, shift or narrowing can fail. */
  method Find(samples: Gray8x8) returns (h: LsHash)
    ensures h == Fingerprint(samples)
  {
    var sum: U64 := 0;
    for i := 0 to 64
      invariant sum == Sum(samples[..i])
      invariant sum <= 255 * i
    {
      assert samples[..i + 1][..i] == samples[..i];
      sum := sum + samples[i];
    }
    assert samples[..64] == samples;

    var narrowed := TryFromU8(sum / 64);
    MeanFitsU8(samples);
    var mean := narrowed.value;

    var counter: U8 := 0;
    var acc: U64 := 0;
    for i := 0 to 64
      invariant counter == i
      invariant acc == Pack(samples[..i], mean)
      invariant acc < Pow2(i)
    {
      var bit := samples[i] >= mean;
      ShlBool(counter);
      var bitPositioned := Shl(if bit then 1 else 0, counter);
      PackSnoc(samples[..i], samples[i], mean);
      assert samples[..i + 1] == samples[..i] + [samples[i]];
      Pow2Monotone(i + 1, 64);
      Pow2At64();
      counter, acc := counter + 1, acc + bitPositioned;
    }
    h := New(acc);
  }

  // ---------------------------------------------------------------------
  // Properties of the fingerprint

  lemma {:induction false} SumBound(s: seq<U8>, m: int)
    requires forall i :: 0 <= i < |s| ==> s[i] <= m
    ensures Sum(s) <= |s| * m
  {
    if s != [] {
      SumBound(s[..|s| - 1], m);
    }
  }

  /** The `u64` sum is at most 64 * 255, so it cannot overflow, and
      `sum / 64` fits in a `u8`, so the narrowing never panics. */
  lemma MeanFitsU8(s: Gray8x8)
    ensures Sum(s) <= 64 * 255
    ensures Mean(s) <= 255
    ensures TryFromU8(Sum(s) / 64) == Some(Mean(s))
  {
    SumBound(s, 255);
  }

  /** The mean is at most the largest sample. */
  lemma MeanAtMostMax(s: Gray8x8)
    ensures Mean(s) <= Max(s)
  {
    SumBound(s, Max(s));
  }

  /** The packing, extended by one sample, gains that sample's bit at the
      next position. */
  lemma {:induction false} PackSnoc(s: seq<U8>, x: U8, mean: int)
    ensures Pack(s + [x], mean) == Pack(s, mean) + (if x >= mean then Pow2(|s|) else 0)
  {
    if s != [] {
      assert (s + [x])[1..] == s[1..] + [x];
      PackSnoc(s[1..], x, mean);
    }
  }

  /** Bit i of the packing is 1 exactly when sample i is at least the mean. */
  lemma {:induction false} PackBit(s: seq<U8>, mean: int, i: nat)
    requires i < |s|
    ensures Bit(Pack(s, mean), i) == 1 <==> s[i] >= mean
  {
    if i > 0 {
      PackBit(s[1..], mean, i - 1);
    }
  }

  lemma PackBits(s: seq<U8>, mean: int)
    ensures forall i :: 0 <= i < |s| ==> (Bit(Pack(s, mean), i) == 1 <==> s[i] >= mean)
  {
    forall i | 0 <= i < |s|
      ensures Bit(Pack(s, mean), i) == 1 <==> s[i] >= mean
    {
      PackBit(s, mean, i);
    }
  }

  /** The packing has as many set bits as there are samples at or above the mean. */
  lemma {:induction false} PackPopcount(s: seq<U8>, mean: int)
    ensures Popcount(Pack(s, mean)) == CountAtLeast(s, mean)
  {
    if s != [] {
      PackPopcount(s[1..], mean);
      var b := if s[0] >= mean then 1 else 0;
      var p := Pack(s[1..], mean);
      assert (b + 2 * p) % 2 == b && (b + 2 * p) / 2 == p;
    }
  }

  lemma {:induction false} CountAtLeastPositive(s: seq<U8>, mean: int, k: nat)
    requires k < |s| && s[k] >= mean
    ensures CountAtLeast(s, mean) >= 1
  {
    if k > 0 {
      CountAtLeastPositive(s[1..], mean, k - 1);
    }
  }

  /** When every sample is at least the mean, all bits below |s| are set. */
  lemma {:induction false} PackAllSet(s: seq<U8>, mean: int)
    requires forall i :: 0 <= i < |s| ==> s[i] >= mean
    ensures Pack(s, mean) == Pow2(|s|) - 1
    ensures CountAtLeast(s, mean) == |s|
  {
    if s != [] {
      PackAllSet(s[1..], mean);
    }
  }

  /** The bit-level meaning of the fingerprint: bit i is 1 iff sample i is
      at least the integer mean, in scan order. */
  lemma FingerprintBits(s: Gray8x8)
    ensures forall i :: 0 <= i < 64 ==> (Bit(Fingerprint(s).bits, i) == 1 <==> s[i] >= Mean(s))
  {
  }

  /** Conversely, any hash whose bits say "sample i is at least the mean" is
      the fingerprint: the bit description determines it. */
  lemma FingerprintUnique(s: Gray8x8, h: LsHash)
    requires forall i :: 0 <= i < 64 ==> (Bit(h.bits, i) == 1 <==> s[i] >= Mean(s))
    ensures h == Fingerprint(s)
  {
    FingerprintBits(s);
    Pow2At64();
    BitsDetermine(h.bits, Fingerprint(s).bits, 64);
  }

  /** The number of set bits is the number of samples at or above the mean,
      and since the mean never exceeds the largest sample it is at least 1. */
  lemma FingerprintPopcount(s: Gray8x8)
    ensures Popcount(Fingerprint(s).bits) == CountAtLeast(s, Mean(s))
    ensures 1 <= Popcount(Fingerprint(s).bits) <= 64
  {
    PackPopcount(s, Mean(s));
    MeanAtMostMax(s);
    var k :| 0 <= k < 64 && s[k] == Max(s);
    CountAtLeastPositive(s, Mean(s), k);
    Pow2At64();
    PopcountCountsBits(Fingerprint(s).bits, 64);
  }

  /** A uniform reduction gives a hash with all 64 bits set. */
  lemma UniformAllSet(s: Gray8x8)
    requires forall i :: 0 <= i < 64 ==> s[i] == s[0]
    ensures Fingerprint(s).bits == U64_MODULUS - 1
    ensures Popcount(Fingerprint(s).bits) == 64
  {
    MeanAtMostMax(s);
    var k :| 0 <= k < 64 && s[k] == Max(s);
    PackAllSet(s, Mean(s));
    PackPopcount(s, Mean(s));
    Pow2At64();
  }

  /** The `acc + bit_positioned` additions equal ORs: the packing is the OR
      of `1 << i` over the samples i at or above the mean. */
  lemma {:induction false} PackIsOrFold(s: seq<U8>, mean: int)
    ensures Pack(s, mean) == OrFold(s, mean)
  {
    if s != [] {
      var init := s[..|s| - 1];
      var last := s[|s| - 1];
      assert s == init + [last];
      PackIsOrFold(init, mean);
      PackSnoc(init, last, mean);
      if last >= mean {
        AddIsOr(Pack(init, mean), |init|);
      } else {
        OrZero(Pack(init, mean));
      }
    }
  }

  // ---------------------------------------------------------------------
  // PartialOrd for LsHash

  /** `LsHash::partial_cmp`: ordered by the number of set bits, incomparable
      when the counts are equal. */
  function PartialCmp(a: LsHash, b: LsHash): (r: Option<Ordering>)
    ensures r != Some(Equal)
  {
    var selfOnes := Popcount(a.bits);
    var otherOnes := Popcount(b.bits);
    if selfOnes < otherOnes then Some(Less)
    else if selfOnes > otherOnes then Some(Greater)
    else None
  }

  /** The `<`, `>`, `<=` and `>=` that `PartialOrd` derives from `partial_cmp`. */
  predicate Lt(a: LsHash, b: LsHash)
    ensures Lt(a, b) <==> Popcount(a.bits) < Popcount(b.bits)
  {
    PartialCmp(a, b) == Some(Less)
  }

  predicate Gt(a: LsHash, b: LsHash)
    ensures Gt(a, b) <==> Popcount(a.bits) > Popcount(b.bits)
  {
    PartialCmp(a, b) == Some(Greater)
  }

  /** Since `partial_cmp` is never `Some(Equal)`, `<=` holds only on strictly
      fewer set bits. */
  predicate Le(a: LsHash, b: LsHash)
    ensures Le(a, b) <==> Popcount(a.bits) < Popcount(b.bits)
  {
    PartialCmp(a, b) == Some(Less) || PartialCmp(a, b) == Some(Equal)
  }

  predicate Ge(a: LsHash, b: LsHash)
    ensures Ge(a, b) <==> Popcount(a.bits) > Popcount(b.bits)
  {
    PartialCmp(a, b) == Some(Greater) || PartialCmp(a, b) == Some(Equal)
  }

  /** The comparison in terms of the set bit positions of the two 64-bit values. */
  lemma PartialCmpBySetBits(a: LsHash, b: LsHash)
    ensures PartialCmp(a, b) == Some(Less) <==> OnesBelow(a.bits, 64) < OnesBelow(b.bits, 64)
    ensures PartialCmp(a, b) == Some(Greater) <==> OnesBelow(a.bits, 64) > OnesBelow(b.bits, 64)
    ensures PartialCmp(a, b) == None <==> OnesBelow(a.bits, 64) == OnesBelow(b.bits, 64)
  {
    Pow2At64();
    PopcountCountsBits(a.bits, 64);
    PopcountCountsBits(b.bits, 64);
  }

  /** Swapping the operands reverses the answer. */
  lemma PartialCmpAntisymmetric(a: LsHash, b: LsHash)
    ensures PartialCmp(a, b) == Some(Less) <==> PartialCmp(b, a) == Some(Greater)
    ensures PartialCmp(a, b) == None <==> PartialCmp(b, a) == None
    ensures PartialCmp(a, b).Some? ==> PartialCmp(b, a) == Some(Reverse(PartialCmp(a, b).value))
  {
  }

  lemma LtTransitive(a: LsHash, b: LsHash, c: LsHash)
    requires Lt(a, b) && Lt(b, c)
    ensures Lt(a, c)
  {
  }

  /** Equal set-bit counts are incomparable, bit-identical hashes included:
      neither `<`, `>`, `<=` nor `>=` holds, and `<=` is the same as `<`. */
  lemma EqualPopcountIncomparable(a: LsHash, b: LsHash)
    ensures PartialCmp(a, b) == None <==> Popcount(a.bits) == Popcount(b.bits)
    ensures Eq(a, b) ==> PartialCmp(a, b) == None
    ensures Le(a, b) <==> Lt(a, b)
    ensures Ge(a, b) <==> Gt(a, b)
  {
  }

  /** The examples of the `LsHash` documentation. */
  lemma DocExamples()
    ensures Eq(New(0x20), New(0x20)) && !Eq(New(0x20), New(0x01))
    ensures Lt(New(0x20), New(0x03)) && Gt(New(0x03), New(0x20))
    ensures !Eq(New(0x20), New(0x01)) && !Lt(New(0x20), New(0x01)) && !Gt(New(0x20), New(0x01))
    ensures PartialCmp(New(0x20), New(0x01)) == None
  {
  }
}
