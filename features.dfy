/** The features of an image (`ImgFeatures`): its locality-sensitive hash and
    its hue, with the derived field-wise equality and lexicographic
    comparison, hash first. */
module Features {
  import opened Cmp
  import Bits
  import Lshash

  /** `Hue(f64)`, the normalised mean-hue angle in degrees. Its value is
      computed in floating point and is taken here as an ordered number. */
  datatype Hue = Hue(degrees: real)

  /** The derived `PartialOrd` of `Hue`: the order of the numbers. */
  function HueCmp(a: Hue, b: Hue): (r: Option<Ordering>)
    ensures r.Some?
    ensures r == Some(Equal) <==> a == b
    ensures r == Some(Less) <==> a.degrees < b.degrees
  {
    if a.degrees < b.degrees then Some(Less)
    else if a.degrees > b.degrees then Some(Greater)
    else Some(Equal)
  }

  /** An RGB raster as the image decoder hands it over. The model never looks
      inside it: it is only passed on to the reduction and hue extractors. */
  datatype RgbImage = RgbImage(width: nat, height: nat, raw: seq<Bits.U8>)

  /** `struct ImgFeatures { lshash, hue }`. */
  datatype ImgFeatures = ImgFeatures(lshash: Lshash.LsHash, hue: Hue)

  /** The derived `PartialEq`: both fields equal. */
  predicate Eq(a: ImgFeatures, b: ImgFeatures)
    ensures Eq(a, b) <==> a == b
  {
    Lshash.Eq(a.lshash, b.lshash) && HueCmp(a.hue, b.hue) == Some(Equal)
  }

  /** The derived `PartialOrd`: compare `lshash`; only on `Some(Equal)` go on
      to compare `hue`. */
  function PartialCmp(a: ImgFeatures, b: ImgFeatures): (r: Option<Ordering>)
    ensures r != Some(Equal)
    ensures r == None <==> Lshash.PartialCmp(a.lshash, b.lshash) == None
  {
    match Lshash.PartialCmp(a.lshash, b.lshash)
    case Some(Equal) => HueCmp(a.hue, b.hue)
    case c => c
  }

  /** `ImgFeatures::find`: both fields from the same RGB raster. The
      grayscale 8x8 reduction and the hue extraction are the image
      library's and floating-point work, passed in as functions. */
  method Find(original: RgbImage, reduce: RgbImage -> Lshash.Gray8x8, findHue: RgbImage -> Hue)
    returns (f: ImgFeatures)
    ensures f.lshash == Lshash.Fingerprint(reduce(original))
    ensures f.hue == findHue(original)
  {
    var lshash := Lshash.Find(reduce(original));
    f := ImgFeatures(lshash, findHue(original));
  }

  /** Equality is bit-exact on the hash and exact on the hue. */
  lemma EqIsFieldwise(a: ImgFeatures, b: ImgFeatures)
    ensures Eq(a, b) <==> a.lshash.bits == b.lshash.bits && a.hue.degrees == b.hue.degrees
    ensures Eq(a, b) <==> a == b
  {
  }

  /** Feature comparison is hash comparison: the hash comparison never gives
      `Some(Equal)`, so the hue is never reached. */
  lemma PartialCmpIsHashCmp(a: ImgFeatures, b: ImgFeatures)
    ensures PartialCmp(a, b) == Lshash.PartialCmp(a.lshash, b.lshash)
    ensures PartialCmp(a, b) != Some(Equal)
  {
  }

  /** The hues do not take part in the result. */
  lemma HueNeverConsulted(x: Lshash.LsHash, y: Lshash.LsHash, h1: Hue, h2: Hue, h3: Hue, h4: Hue)
    ensures PartialCmp(ImgFeatures(x, h1), ImgFeatures(y, h2)) == PartialCmp(ImgFeatures(x, h3), ImgFeatures(y, h4))
  {
  }

  /** Features whose hashes have equally many set bits are incomparable
      whatever their hues; so is a value compared with itself, although it
      is equal to itself. */
  lemma EqualPopcountIncomparable(a: ImgFeatures, b: ImgFeatures)
    ensures PartialCmp(a, b) == None <==> Bits.Popcount(a.lshash.bits) == Bits.Popcount(b.lshash.bits)
    ensures PartialCmp(a, a) == None && Eq(a, a)
  {
  }

  /** Two feature values with three set bits each, different patterns and
      hues 10 and 5, are incomparable; a hash with two set bits is below one
      with three, whatever the hues. */
  lemma ComparisonExamples(h1: Hue, h2: Hue)
    ensures PartialCmp(ImgFeatures(Lshash.New(0x07), Hue(10.0)), ImgFeatures(Lshash.New(0x0B), Hue(5.0))) == None
    ensures PartialCmp(ImgFeatures(Lshash.New(0x30), h1), ImgFeatures(Lshash.New(0x07), h2)) == Some(Less)
  {
  }
}
