/**
 * Colours of the line renderer (src/text.rs): the primary colour is built from
 * 8-bit channels, the secondary one is its channel-wise half.
 */
module Colors {
  newtype u8 = x: int | 0 <= x < 0x100

  /** An RGB colour with one floating-point channel per component. */
  datatype Color = Color(r: real, g: real, b: real)

  /** `x << 8` on a 16-bit integer: the bits shifted past bit 15 are lost. */
  function Shl8U16(x: nat): nat {
    (x * 0x100) % 0x1_0000
  }

  /** Wrapping addition on 16-bit integers. */
  function AddU16(x: nat, y: nat): nat {
    (x + y) % 0x1_0000
  }

  /**
   * The renderer's colour from 8-bit channels: each channel is widened to 16 bits
   * and shifted into the high byte; red also gets 0xFF in its low byte. Every
   * channel fits in 16 bits, so neither the shift nor the addition loses bits.
   */
  function ColorFromU8(rgb: (u8, u8, u8)): (c: Color)
    ensures c.r == (rgb.0 as int * 256 + 255) as real
    ensures c.g == (rgb.1 as int * 256) as real
    ensures c.b == (rgb.2 as int * 256) as real
    ensures 255.0 <= c.r <= 65535.0 && 0.0 <= c.g <= 65280.0 && 0.0 <= c.b <= 65280.0
  {
    Color(AddU16(Shl8U16(rgb.0 as nat), 0xFF) as real,
          Shl8U16(rgb.1 as nat) as real,
          Shl8U16(rgb.2 as nat) as real)
  }

  /** The de-emphasised colour: each channel of the primary colour divided by two. */
  function Secondary(c: Color): (s: Color)
    ensures s.r + s.r == c.r && s.g + s.g == c.g && s.b + s.b == c.b
  {
    Color(c.r / 2.0, c.g / 2.0, c.b / 2.0)
  }

  /**
   * For a colour built from 8-bit channels the secondary colour is never brighter
   * than the primary one in any channel and always differs from it (its red
   * channel is strictly dimmer), so the two colours can always be told apart.
   */
  lemma SecondaryDimmer(rgb: (u8, u8, u8))
    ensures var c := ColorFromU8(rgb); var s := Secondary(c);
      s != c && s.r < c.r && s.g <= c.g && s.b <= c.b && 0.0 <= s.g && 0.0 <= s.b
  {
  }
}
