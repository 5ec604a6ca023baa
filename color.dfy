/** 8-bit RGB colors and their packed 32-bit form (src/color.rs). */
module Colors {

  /** One pixel color, one unsigned byte per channel. */
  datatype Color = Color(r: bv8, g: bv8, b: bv8) {

    /** The packed pixel: red in bits 16..23, green in bits 8..15, blue in bits 0..7. */
    function AsU32(): bv32
    {
      ((r as bv32) << 16) | ((g as bv32) << 8) | (b as bv32)
    }
  }

  /** Builds a color from its three channels. */
  function New(r: bv8, g: bv8, b: bv8): (c: Color)
    ensures c.r == r && c.g == g && c.b == b
  {
    Color(r, g, b)
  }

  const BLACK: Color := Color(0x00, 0x00, 0x00)
  const WHITE: Color := Color(0xff, 0xff, 0xff)

  /** Three shifted bytes occupy disjoint bit fields, so OR-ing them adds them. */
  lemma PackedFieldsDisjoint(r: bv32, g: bv32, b: bv32)
    requires r < 0x100 && g < 0x100 && b < 0x100
    ensures (r << 16) | (g << 8) | b == r * 0x1_0000 + g * 0x100 + b
  {
  }

  lemma ByteWidens(x: bv8)
    ensures x as bv32 < 0x100
  {
  }

  /** The packed value is the base-256 number with digits r, g, b. */
  lemma AsU32Arithmetic(c: Color)
    ensures c.AsU32() == (c.r as bv32) * 0x1_0000 + (c.g as bv32) * 0x100 + c.b as bv32
  {
    ByteWidens(c.r);
    ByteWidens(c.g);
    ByteWidens(c.b);
    PackedFieldsDisjoint(c.r as bv32, c.g as bv32, c.b as bv32);
  }

  /** The top eight bits of a packed color are always zero. */
  lemma AsU32Bound(c: Color)
    ensures c.AsU32() < 0x100_0000
    ensures c.AsU32() & 0xff00_0000 == 0
  {
  }

  /** Each channel can be read back out of the packed value by shifting and masking. */
  lemma AsU32Channels(c: Color)
    ensures (c.AsU32() >> 16) & 0xff == c.r as bv32
    ensures (c.AsU32() >> 8) & 0xff == c.g as bv32
    ensures c.AsU32() & 0xff == c.b as bv32
  {
  }

  /** Packing loses nothing: two colors with the same packed value are the same color. */
  lemma AsU32Injective(c: Color, d: Color)
    ensures c.AsU32() == d.AsU32() <==> c == d
  {
    AsU32Channels(c);
    AsU32Channels(d);
  }

  /** Packed values of the named constants, and the channel order: red high, blue low. */
  lemma KnownPackedValues()
    ensures BLACK.AsU32() == 0
    ensures WHITE.AsU32() == 0xff_ffff
    ensures New(0x12, 0x34, 0x56).AsU32() == 0x12_3456
  {
  }
}
