# succotash image features, modelled in Dafny

succotash finds similar or duplicate images by extracting two features per
image and comparing those instead of pixels:

- the **locality-sensitive hash** (`LsHash`): the image is turned to grayscale
  and resampled to 8x8; the 64 samples are summed in a `u64`, the integer mean
  `sum / 64` is narrowed to `u8`, and bit i of a `u64` is set when sample i is
  at least that mean;
- the **hue** (`Hue`): the hue angle of the image's mean colour.

`LsHash` is partially ordered by its number of set bits; `ImgFeatures`
(hash, hue) derives a field-wise equality and a lexicographic comparison.
The repository holds this logic twice, in `src/analyze/img_features.rs` and in
the split module `src/analyze/features/{lshash,mod}.rs`; the two copies are
the same code and are modelled once (the table cites one copy per row; the
other copy is noted beside it).

Files:

- `cmp.dfy` — module `Cmp`: `std::cmp::Ordering`, `Option`, `Ordering::reverse`.
- `bits.dfy` — module `Bits`: `u8`/`u64` as bounded integers, powers of two,
  bit extraction, `count_ones`, bitwise OR, `<<` on `u64`, `u8::try_from`.
- `lshash.dfy` — module `Lshash`: the hash, `LsHash::new`, `LsHash::find`
  (a method with the source's two folds as loops, proved against the
  specification function `Fingerprint`), and `PartialOrd`.
- `features.dfy` — module `Features`: `Hue` as an ordered number,
  `ImgFeatures`, its derived equality and comparison, and `ImgFeatures::find`.

## What the comparison does not do

The `ImgFeatures` documentation says that, when sorting, higher features have
higher priority (src/analyze/img_features.rs:190-191, same at
src/analyze/features/mod.rs:19-20), which suggests that the hue orders values
whose hashes tie. The code does not do this. `LsHash::partial_cmp` answers
`None` whenever the two set-bit counts are equal, bit-identical hashes included
(src/analyze/img_features.rs:118-127), so it never answers `Some(Equal)`. The
derived comparison of `ImgFeatures` reaches the hue only on `Some(Equal)`, so
the hue never decides a comparison, and a feature value is incomparable with
itself although it is equal to itself. The model follows the code
(`Lshash.EqualPopcountIncomparable`, `Features.PartialCmpIsHashCmp`,
`Features.HueNeverConsulted`).

## Model

| member | source | states |
|---|---|---|
| `Lshash.New` | src/analyze/features/lshash.rs:64-66 | `LsHash::new` keeps its `u64` argument unchanged (same code at img_features.rs:70-72) |
| `Lshash.NewIsBitExact` | src/analyze/features/lshash.rs:60-66 | derived equality of two wrapped hashes holds exactly when the two `u64` values are equal |
| `Lshash.Find` | src/analyze/img_features.rs:79-107 | after reduction, the `u64` sum fold and the `(counter, acc)` fold never overflow, the `u8` narrowing never fails, and the result is the fingerprint of the 64 samples (same code at features/lshash.rs:73-101) |
| `Lshash.SumBound` | src/analyze/features/lshash.rs:81-84 | a sum of samples each at most m is at most (number of samples) * m |
| `Lshash.MeanFitsU8` | src/analyze/img_features.rs:87-93 | the 64-sample sum is at most 64 * 255, the mean is at most 255, and `u8::try_from(sum / 64)` succeeds with the mean |
| `Lshash.MeanAtMostMax` | src/analyze/features/lshash.rs:85-87 | the integer mean never exceeds the largest sample |
| `Lshash.Pack` | src/analyze/img_features.rs:96-104 | packing n samples one bit each gives a value below 2^n, so `acc` stays inside `u64` |
| `Lshash.PackSnoc` | src/analyze/features/lshash.rs:93-97 | one more sample adds `1 << counter` or nothing at the next bit position |
| `Lshash.PackBit` | src/analyze/features/lshash.rs:90-98 | bit i of the packing is 1 iff sample i is at least the mean |
| `Lshash.FingerprintBits` | src/analyze/img_features.rs:96-104 | bit i of the hash, i in 0..63, is 1 iff sample i is at least the integer mean, in scan order |
| `Lshash.FingerprintUnique` | src/analyze/features/lshash.rs:89-100 | any 64-bit value with that bit description is the fingerprint, so the description determines the hash |
| `Lshash.PackIsOrFold` | src/analyze/features/lshash.rs:93-98 | the `acc + bit_positioned` additions equal ORing `1 << i` for every sample i at or above the mean |
| `Lshash.PackPopcount` | src/analyze/img_features.rs:99-103 | the packing has exactly as many set bits as samples at or above the mean |
| `Lshash.FingerprintPopcount` | src/analyze/img_features.rs:91-104 | the hash's set-bit count is the number of samples at or above the mean, and is between 1 and 64 |
| `Lshash.UniformAllSet` | src/analyze/features/lshash.rs:85-98 | 64 equal samples give a hash with all 64 bits set (2^64 - 1) |
| `Lshash.PartialCmp` | src/analyze/img_features.rs:116-129 | `partial_cmp` never answers `Some(Equal)` |
| `Lshash.PartialCmpBySetBits` | src/analyze/features/lshash.rs:110-123 | `Some(Less)` iff a has fewer set bit positions among the 64 than b, `Some(Greater)` iff more, `None` iff as many |
| `Lshash.PartialCmpAntisymmetric` | src/analyze/features/lshash.rs:115-121 | `partial_cmp(a, b)` is `Less` iff `partial_cmp(b, a)` is `Greater`, `None` is symmetric, and the answer for (b, a) is the reverse of that for (a, b) |
| `Lshash.LtTransitive` | src/analyze/img_features.rs:116-129 | `<` on hashes is transitive |
| `Lshash.EqualPopcountIncomparable` | src/analyze/img_features.rs:118-127 | equal set-bit counts give `None`, bit-identical hashes included; `<=` coincides with `<` and `>=` with `>` |
| `Lshash.DocExamples` | src/analyze/img_features.rs:37-65 | the documentation's examples: 0b100000 equals itself and differs from 0b1, is below 0b11, and is incomparable with 0b1 (same at features/lshash.rs:30-59) |
| `Bits.PopcountCountsBits` | src/analyze/img_features.rs:118-119 | `count_ones` of a value below 2^n counts its set bit positions below n and is at most n |
| `Bits.AddIsOr` | src/analyze/img_features.rs:101-102 | adding `1 << k` to an accumulator below 2^k equals ORing it in |
| `Bits.OrBit` | src/analyze/features/lshash.rs:95-96 | each bit of the OR is set iff that bit is set in either operand |
| `Bits.ShlBool` | src/analyze/features/lshash.rs:95 | `u64::from(bit) << counter` with counter below 64 is 0 or exactly 2^counter |
| `Features.HueCmp` | src/analyze/img_features.rs:139-140 | the derived hue comparison is the order of the angles: `Some(Equal)` iff equal, `Some(Less)` iff smaller |
| `Features.EqIsFieldwise` | src/analyze/features/mod.rs:24-30 | two feature values are equal iff their hashes are bit-equal and their hues equal |
| `Features.PartialCmpIsHashCmp` | src/analyze/img_features.rs:195-201 | the derived lexicographic comparison always equals `LsHash::partial_cmp` of the two hashes and is never `Some(Equal)` |
| `Features.HueNeverConsulted` | src/analyze/features/mod.rs:24-29 | replacing either hue leaves the comparison unchanged |
| `Features.EqualPopcountIncomparable` | src/analyze/features/mod.rs:25-30 | values whose hashes have equal set-bit counts are incomparable whatever their hues; a value is equal to itself yet incomparable with itself |
| `Features.ComparisonExamples` | src/analyze/img_features.rs:195-201 | popcount 3 vs popcount 3 with hues 10 and 5 is `None`; popcount 2 is below popcount 3 whatever the hues |
| `Features.Find` | src/analyze/features/mod.rs:50-60 | the hash field is the fingerprint of the raster's 8x8 grayscale reduction and the hue field the hue of the same raster (same at img_features.rs:221-231) |
| `Lshash.Eq` | src/analyze/features/lshash.rs:60-61 | the derived equality of hashes holds exactly when the two hashes are the same value, i.e. their `u64`s are equal (same at img_features.rs:66-67) |
| `Lshash.Fingerprint` | src/analyze/img_features.rs:86-106 | the specification of the hash: bit i, for i in 0..63, is 1 iff sample i is at least the integer mean |
| `Lshash.Mean` | src/analyze/img_features.rs:91 | `sum / 64` is the floor of the mean: 64 * mean <= sum < 64 * (mean + 1) |
| `Lshash.Lt` | src/analyze/features/lshash.rs:115-116 | the default `<` holds iff a has fewer set bits than b |
| `Lshash.Gt` | src/analyze/features/lshash.rs:117-118 | the default `>` holds iff a has more set bits than b |
| `Lshash.Le` | src/analyze/features/lshash.rs:119-121 | the default `<=` holds iff a has strictly fewer set bits, since `partial_cmp` is never `Some(Equal)` |
| `Lshash.Ge` | src/analyze/img_features.rs:123-127 | the default `>=` holds iff a has strictly more set bits |
| `Bits.Popcount` | src/analyze/features/lshash.rs:112-113 | `count_ones` is 0 iff the value is 0 and never exceeds the value; `Bits.PopcountCountsBits` ties it to the count of set positions |
| `Bits.Shl` | src/analyze/img_features.rs:101 | `x << n` for n below 64 is x * 2^n whenever that fits in a `u64` |
| `Bits.TryFromU8` | src/analyze/features/lshash.rs:85 | `u8::try_from` succeeds iff the value is below 256, and then keeps it |
| `Features.Eq` | src/analyze/img_features.rs:195-201 | the derived `PartialEq` of features holds exactly when both fields are equal |
| `Features.PartialCmp` | src/analyze/features/mod.rs:24-30 | the derived `PartialOrd` of features is never `Some(Equal)` and is `None` exactly when the hash comparison is `None` |

## Left out

- Grayscale conversion and 8x8 triangle resampling (`grayscale`, `resize_exact`): calls into the `image` crate; `Lshash.Find` takes the 64 reduced samples, and `Features.Find` takes the reduction as a function parameter.
- `Hue::find` and `Hue::new`: floating-point averaging, HSV conversion in `prisma` and `angle::normalize` are foreign and floating point; `Features.Find` takes the hue extractor as a function parameter. Not modelled either: its averaging loop reads bytes `i, i+1, i+2` for pixel i instead of `3i, 3i+1, 3i+2` (img_features.rs:166-171).
- Features.HueCmp: the hue is a `real`, not an `f64`, so there is no NaN and the comparison always answers and every hue equals itself. With `f64`, a NaN hue compares `None` with everything and is not equal to itself; `Hue::find` on a raster with zero pixels divides 0.0 by 0 and gives NaN (img_features.rs:165, 174-176), so there `a == a` is false in the source. The feature comparison never consults the hue, so `Features.PartialCmp` and the lemmas about it do not depend on this. Feature equality does consult the hue, so `Features.Eq`, `Features.EqIsFieldwise` and the `Eq(a, a)` conjunct of `Features.EqualPopcountIncomparable` hold only for hues that are not NaN.
- Features.Eq: holds of every value compared with itself, because a `real` hue equals itself; in the source a NaN hue makes `a == a` false (see the `Features.HueCmp` line).
- Features.EqIsFieldwise: the same gap; it does not cover NaN hues.
- Hamming distance: the code does not implement it; a doc comment only mentions it.
- `to_rgb8`, `DynamicImage`, `ImgRaw::load` and `Img::from`: image decoding and async file I/O; `Features.Find` takes the RGB raster directly.
- Directory traversal, logging, command-line handling and the `Display` implementations: I/O and formatting.
