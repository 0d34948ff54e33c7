/**
 * One pixel in the two colour formats of the converter: RGBA with 8 bits per
 * channel, and the 16-bit RGB565 word (red in bits 15..11, green in bits
 * 10..5, blue in bits 4..0). The converter has two packers with different
 * rounding policies, kept apart here: the truncating one of the upload path
 * and the proportional one of the resize path.
 */
module Rgb565 {
  import opened Bits

  datatype Rgba = Rgba(r: nat, g: nat, b: nat, a: nat)

  predicate IsRgbaPixel(p: Rgba)
  {
    IsByte(p.r) && IsByte(p.g) && IsByte(p.b) && IsByte(p.a)
  }

  /**
   * `Math.round(a / b)` for non-negative operands. JavaScript rounds a half
   * upward, so the result is the integer q with q - 1/2 <= a/b < q + 1/2.
   */
  function RoundDiv(a: nat, b: nat): (q: nat)
    requires b > 0
    ensures -(b as int) < 2 * (b * q - a) <= b
  {
    var q := (2 * a + b) / (2 * b);
    assert 2 * b * q <= 2 * a + b < 2 * b * q + 2 * b;
    q
  }

  /** `(v >> 11) & 0x1F` */
  function Red5(v: nat): (r5: nat)
    ensures r5 < 32 && r5 == v / 2048 % 32
  {
    Pow2Values();
    ShrIsDiv(v, 11);
    AndLowMask(Shr(v, 11), 5);
    And(Shr(v, 11), 0x1F)
  }

  /** `(v >> 5) & 0x3F` */
  function Green6(v: nat): (g6: nat)
    ensures g6 < 64 && g6 == v / 32 % 64
  {
    Pow2Values();
    ShrIsDiv(v, 5);
    AndLowMask(Shr(v, 5), 6);
    And(Shr(v, 5), 0x3F)
  }

  /** `v & 0x1F` */
  function Blue5(v: nat): (b5: nat)
    ensures b5 < 32 && b5 == v % 32
  {
    Pow2Values();
    AndLowMask(v, 5);
    And(v, 0x1F)
  }

  /** A 16-bit word is exactly its three fields put back in place. */
  lemma WordFromFields(v: nat)
    requires v < 65536
    ensures v == Red5(v) * 2048 + Green6(v) * 32 + Blue5(v)
  {
    var q := v / 32;
    DivModUnique(v, 32, q, v % 32);
    DivModUnique(q, 64, q / 64, q % 64);
    DivDouble(v, 1024);
    assert v / 2048 == q / 64 by {
      DivModUnique(v, 2048, q / 64, v - 2048 * (q / 64));
    }
    DivModUnique(v / 2048, 32, 0, v / 2048);
  }

  /** Fields placed with `(r5 << 11) | (g6 << 5) | b5` into `v` are read back unchanged. */
  lemma FieldsOfWord(v: nat, r5: nat, g6: nat, b5: nat)
    requires r5 < 32 && g6 < 64 && b5 < 32 && v == r5 * 2048 + g6 * 32 + b5
    ensures v < 65536 && Red5(v) == r5 && Green6(v) == g6 && Blue5(v) == b5
  {
    DivModUnique(v, 32, r5 * 64 + g6, b5);
    DivModUnique(r5 * 64 + g6, 64, r5, g6);
    DivModUnique(v, 2048, r5, g6 * 32 + b5);
    DivModUnique(r5, 32, 0, r5);
  }

  /** Two words with the same three fields are the same word. */
  lemma FieldsDetermineWord(v: nat, w: nat)
    requires v < 65536 && w < 65536
    requires Red5(v) == Red5(w) && Green6(v) == Green6(w) && Blue5(v) == Blue5(w)
    ensures v == w
  {
    WordFromFields(v);
    WordFromFields(w);
  }

  /** `(r5 << 11) | (g6 << 5) | b5` adds the fields, since none overlaps another. */
  lemma LayoutIsSum(r5: nat, g6: nat, b5: nat)
    requires r5 < 32 && g6 < 64 && b5 < 32
    ensures Or(Or(Shl(r5, 11), Shl(g6, 5)), b5) == r5 * 2048 + g6 * 32 + b5
  {
    var p11, p5 := Pow2(11), Pow2(5);
    assert p11 == 2048 && p5 == 32 by {
      Pow2Values();
    }
    var high, middle := r5 * p11, g6 * p5;
    assert Shl(r5, 11) == high && Shl(g6, 5) == middle;
    assert Or(high, middle) == high + middle by {
      OrLowField(r5, middle, 11);
    }
    var both := r5 * 64 + g6;
    assert high + middle == both * p5;
    assert Or(both * p5, b5) == both * p5 + b5 by {
      OrLowField(both, b5, 5);
    }
  }

  // ---------------------------------------------------------------------
  // Upload path: truncation

  /**
   * `((r & 0xF8) << 8) | ((g & 0xFC) << 3) | (b >> 3)`: each channel keeps
   * its top bits; the dropped low bits are truncated, not rounded.
   */
  function PackTruncating(r: nat, g: nat, b: nat): (v: nat)
    requires IsByte(r) && IsByte(g) && IsByte(b)
    ensures v < 65536
    ensures Red5(v) == r / 8 && Green6(v) == g / 4 && Blue5(v) == b / 8
  {
    var v := Or(Or(Shl(And(r, 0xF8), 8), Shl(And(g, 0xFC), 3)), Shr(b, 3));
    TruncatingLayout(r, g, b);
    FieldsOfWord(v, r / 8, g / 4, b / 8);
    v
  }

  /** The truncating packer places the top bits of each channel at bits 11, 5 and 0. */
  lemma TruncatingLayout(r: nat, g: nat, b: nat)
    requires IsByte(r) && IsByte(g) && IsByte(b)
    ensures Or(Or(Shl(And(r, 0xF8), 8), Shl(And(g, 0xFC), 3)), Shr(b, 3))
      == r / 8 * 2048 + g / 4 * 32 + b / 8
  {
    var r5, g6, b5 := r / 8, g / 4, b / 8;
    Pow2Values();
    ClearLow3(r);
    ClearLow2(g);
    ShrIsDiv(b, 3);
    assert Shl(And(r, 0xF8), 8) == r5 * 8 * 256 == Shl(r5, 11);
    assert Shl(And(g, 0xFC), 3) == g6 * 4 * 8 == Shl(g6, 5);
    LayoutIsSum(r5, g6, b5);
  }

  /** Clearing the bits the packer drops anyway does not change the packed word. */
  lemma TruncatingIgnoresDiscardedBits(r: nat, g: nat, b: nat)
    requires IsByte(r) && IsByte(g) && IsByte(b)
    ensures IsByte(And(r, 0xF8)) && IsByte(And(g, 0xFC)) && IsByte(And(b, 0xF8))
    ensures PackTruncating(And(r, 0xF8), And(g, 0xFC), And(b, 0xF8)) == PackTruncating(r, g, b)
  {
    ClearLow3(r);
    ClearLow2(g);
    ClearLow3(b);
    DivModUnique(r / 8 * 8, 8, r / 8, 0);
    DivModUnique(g / 4 * 4, 4, g / 4, 0);
    DivModUnique(b / 8 * 8, 8, b / 8, 0);
    FieldsDetermineWord(PackTruncating(And(r, 0xF8), And(g, 0xFC), And(b, 0xF8)), PackTruncating(r, g, b));
  }

  // ---------------------------------------------------------------------
  // Resize path: proportional scaling

  /** `Math.round((c * 255) / max)`: a `max`-level channel scaled to 0..255. */
  function Expand(c: nat, max: nat): (x: nat)
    requires max > 0
    ensures -(max as int) < 2 * (max * x - 255 * c) <= max
  {
    RoundDiv(c * 255, max)
  }

  /** `Math.round((c * max) / 255)`: a byte channel scaled to 0..max. */
  function Reduce(c: nat, max: nat): (x: nat)
    ensures -255 < 2 * (255 * x - max * c) <= 255
  {
    RoundDiv(c * max, 255)
  }

  /**
   * Expanding a 5-bit (6-bit) level proportionally lands in the byte range
   * whose top 5 (6) bits are that level; `s` is the step between levels.
   */
  lemma ExpandKeepsTopBits(c: nat, max: nat, s: nat)
    requires (max == 31 && s == 8) || (max == 63 && s == 4)
    requires c <= max
    ensures c * s <= Expand(c, max) < c * s + s
  {
    var x := Expand(c, max);
    if max == 31 {
      assert -31 < 2 * (31 * x - c * 255) <= 31;
    } else {
      assert -63 < 2 * (63 * x - c * 255) <= 63;
    }
  }

  /** A proportionally expanded level reduces back to that level. */
  lemma ChannelRoundTrip(c: nat, max: nat)
    requires 0 < max < 255 && c <= max
    ensures Reduce(Expand(c, max), max) == c
  {
    var x := Expand(c, max);
    var n := 2 * (x * max) + 255;
    assert -(max as int) < 2 * (max * x - c * 255) <= max;
    assert 510 * c <= n < 510 * c + 510;
    DivModUnique(n, 510, c, n - 510 * c);
    assert Reduce(x, max) == (2 * (x * max) + 255) / (2 * 255);
  }

  /**
   * The resize path's RGB565 to RGBA conversion: each field scaled
   * proportionally to 0..255 and alpha set opaque.
   */
  function UnpackProportional(v: nat): (p: Rgba)
    requires v < 65536
    ensures IsRgbaPixel(p) && p.a == 255
    ensures -31 < 2 * (31 * p.r - 255 * Red5(v)) <= 31
    ensures -63 < 2 * (63 * p.g - 255 * Green6(v)) <= 63
    ensures -31 < 2 * (31 * p.b - 255 * Blue5(v)) <= 31
    ensures p.r / 8 == Red5(v) && p.g / 4 == Green6(v) && p.b / 8 == Blue5(v)
    ensures Red5(v) == 0 ==> p.r == 0
    ensures Red5(v) == 31 ==> p.r == 255
    ensures Green6(v) == 0 ==> p.g == 0
    ensures Green6(v) == 63 ==> p.g == 255
    ensures Blue5(v) == 0 ==> p.b == 0
    ensures Blue5(v) == 31 ==> p.b == 255
  {
    var r5, g6, b5 := Red5(v), Green6(v), Blue5(v);
    ExpandKeepsTopBits(r5, 31, 8);
    ExpandKeepsTopBits(g6, 63, 4);
    ExpandKeepsTopBits(b5, 31, 8);
    var p := Rgba(Expand(r5, 31), Expand(g6, 63), Expand(b5, 31), 255);
    DivModUnique(p.r, 8, r5, p.r - 8 * r5);
    DivModUnique(p.g, 4, g6, p.g - 4 * g6);
    DivModUnique(p.b, 8, b5, p.b - 8 * b5);
    p
  }

  /**
   * The resize path's RGBA to RGB565 conversion,
   * `(round(r*31/255) << 11) | (round(g*63/255) << 5) | round(b*31/255)`:
   * each field is the level nearest the channel's proportional position.
   */
  function PackProportional(r: nat, g: nat, b: nat): (v: nat)
    requires IsByte(r) && IsByte(g) && IsByte(b)
    ensures v < 65536
    ensures -255 < 2 * (255 * Red5(v) - 31 * r) <= 255
    ensures -255 < 2 * (255 * Green6(v) - 63 * g) <= 255
    ensures -255 < 2 * (255 * Blue5(v) - 31 * b) <= 255
  {
    var r5, g6, b5 := Reduce(r, 31), Reduce(g, 63), Reduce(b, 31);
    assert r5 < 32 && g6 < 64 && b5 < 32;
    LayoutIsSum(r5, g6, b5);
    FieldsOfWord(r5 * 2048 + g6 * 32 + b5, r5, g6, b5);
    Or(Or(Shl(r5, 11), Shl(g6, 5)), b5)
  }

  /** Unpacking a word proportionally and repacking it proportionally gives the word back. */
  lemma ProportionalRoundTrip(v: nat)
    requires v < 65536
    ensures var p := UnpackProportional(v);
      PackProportional(p.r, p.g, p.b) == v
  {
    var p := UnpackProportional(v);
    ChannelRoundTrip(Red5(v), 31);
    ChannelRoundTrip(Green6(v), 63);
    ChannelRoundTrip(Blue5(v), 31);
    var w := PackProportional(p.r, p.g, p.b);
    LayoutIsSum(Reduce(p.r, 31), Reduce(p.g, 63), Reduce(p.b, 31));
    FieldsOfWord(Reduce(p.r, 31) * 2048 + Reduce(p.g, 63) * 32 + Reduce(p.b, 31), Reduce(p.r, 31), Reduce(p.g, 63), Reduce(p.b, 31));
    FieldsDetermineWord(v, w);
  }

  /** Truncating-packing the proportional unpack of a word also gives the word back. */
  lemma TruncatingAfterProportional(v: nat)
    requires v < 65536
    ensures var p := UnpackProportional(v);
      PackTruncating(p.r, p.g, p.b) == v
  {
    var p := UnpackProportional(v);
    FieldsDetermineWord(v, PackTruncating(p.r, p.g, p.b));
  }

  /** Truncating packing is stable under one proportional unpack and repack. */
  lemma TruncatingIdempotent(r: nat, g: nat, b: nat)
    requires IsByte(r) && IsByte(g) && IsByte(b)
    ensures var v := PackTruncating(r, g, b);
      var p := UnpackProportional(v);
      PackTruncating(p.r, p.g, p.b) == v
  {
    TruncatingAfterProportional(PackTruncating(r, g, b));
  }
}
