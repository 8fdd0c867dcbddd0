/** `Image`: the pixel colour of a decoded PNG and its packing into the
    GBA's 15-bit BGR colour word. */
module Image {

  /** One RGBA pixel, eight bits per channel. */
  datatype Colour = Colour(r: bv8, g: bv8, b: bv8, a: bv8)

  /** A channel reduced to the five bits the GBA keeps. */
  function Reduce(x: bv8): (y: bv16)
    ensures y < 32
  {
    (x >> 3) as bv16
  }

  /** rgb15: red in bits 0-4, green in bits 5-9, blue in bits 10-14, each
      the top five bits of its channel; alpha plays no part and bit 15 is
      clear. */
  function Rgb15(c: Colour): (v: bv16)
    ensures v < 0x8000
  {
    (Reduce(c.r) & 31) | ((Reduce(c.g) & 31) << 5) | ((Reduce(c.b) & 31) << 10)
  }

  /** The three five-bit fields of a colour word: red, green, blue. */
  datatype Fields = Fields(red: bv16, green: bv16, blue: bv16)

  function Unpack(v: bv16): (f: Fields)
    ensures f.red < 32 && f.green < 32 && f.blue < 32
  {
    Fields(v & 31, (v >> 5) & 31, (v >> 10) & 31)
  }

  /** Packing a field triple back into a word with bit 15 clear. */
  function Pack(f: Fields): (v: bv16)
    requires f.red < 32 && f.green < 32 && f.blue < 32
    ensures v < 0x8000
  {
    f.red | (f.green << 5) | (f.blue << 10)
  }

  /** Unpacking the word gives back each channel's top five bits. */
  lemma UnpackRgb15(c: Colour)
    ensures Unpack(Rgb15(c)) == Fields(Reduce(c.r), Reduce(c.g), Reduce(c.b))
  {
    UnpackPack(Fields(Reduce(c.r), Reduce(c.g), Reduce(c.b)));
  }

  /** Unpacking after packing is the identity on five-bit fields. */
  lemma UnpackPack(f: Fields)
    requires f.red < 32 && f.green < 32 && f.blue < 32
    ensures Unpack(Pack(f)) == f
  {
  }

  /** Every word with bit 15 clear is some colour's rgb15: packing after
      unpacking is the identity there. */
  lemma PackUnpack(v: bv16)
    requires v < 0x8000
    ensures Pack(Unpack(v)) == v
  {
  }

  /** rgb15 is injective on the reduced channels: two colours share a word
      exactly when their channels agree in the top five bits. */
  lemma Rgb15Injective(c: Colour, d: Colour)
    ensures Rgb15(c) == Rgb15(d) <==>
              Reduce(c.r) == Reduce(d.r) && Reduce(c.g) == Reduce(d.g) && Reduce(c.b) == Reduce(d.b)
  {
    UnpackRgb15(c);
    UnpackRgb15(d);
    if Reduce(c.r) == Reduce(d.r) && Reduce(c.g) == Reduce(d.g) && Reduce(c.b) == Reduce(d.b) {
      assert Rgb15(c) == Rgb15(d);
    }
  }

  /** Alpha and the low three bits of each channel are ignored. */
  lemma Rgb15IgnoresLowBitsAndAlpha(c: Colour)
    ensures Rgb15(c) == Rgb15(Colour(c.r & 0xF8, c.g & 0xF8, c.b & 0xF8, 0))
  {
    var d := Colour(c.r & 0xF8, c.g & 0xF8, c.b & 0xF8, 0);
    assert Reduce(d.r) == Reduce(c.r) && Reduce(d.g) == Reduce(c.g) && Reduce(d.b) == Reduce(c.b);
    Rgb15Injective(c, d);
  }
}
