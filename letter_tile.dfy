// src/graphics.c, load_letter_tile: the 8 x 8 four-bit tile drawn for a
// letter on the board. The glyph table font_tile_data is a parameter; the
// VRAM address and the sixteen data words written to the VDP are returned
// in the order they are written.
module LetterTile {

  /** font_tile_data[96][8]: a glyph per character 32..127, one byte per
    * row, bit 7 the leftmost of the five glyph columns. */
  predicate FontShape(font: seq<seq<bv8>>)
  {
    |font| == 96 && forall g :: 0 <= g < 96 ==> |font[g]| == 8
  }

  /** The glyph drawn for a char: its own from 32 to 127, the space's
    * (entry 0) for anything else. */
  function GlyphIndex(c: int): (g: nat)
    ensures g < 96
    ensures 32 <= c < 128 ==> g + 32 == c
  {
    if 32 <= c < 128 then c - 32 else 0
  }

  /** 0x80 >> (col - 1): the glyph bit of column col, 1 to 5. */
  function Bit(col: nat): (b: bv8)
    requires 1 <= col <= 5
    ensures b == 0x80 >> (col - 1)
  {
    if col == 1 then 0x80 else if col == 2 then 0x40 else if col == 3 then 0x20
    else if col == 4 then 0x10 else 0x08
  }

  /** The palette index of pixel (row, col): transparent (0) on the bottom
    * row and the right column, cream (7) on the margin columns 0 and 6, and
    * inside black (8) where the glyph bit of the column is set, cream where
    * it is clear. */
  function Colour(glyph: seq<bv8>, row: nat, col: nat): (c: nat)
    requires |glyph| == 8 && row < 8 && col < 8
    ensures c == 0 || c == 7 || c == 8
  {
    if row == 7 || col == 7 then 0
    else if col == 0 || col == 6 then 7
    else if glyph[row] & Bit(col) != 0 then 8
    else 7
  }

  /** 16 to the k: the weight of nibble 7 - k, so 1 << (k * 4). */
  function Pow16(k: nat): (p: nat)
    requires k < 8
    ensures p > 0
  {
    if k == 0 then 1 else if k == 1 then 0x10 else if k == 2 then 0x100 else if k == 3 then 0x1000
    else if k == 4 then 0x1_0000 else if k == 5 then 0x10_0000 else if k == 6 then 0x100_0000 else 0x1000_0000
  }

  /** The pixel word after columns 0..n-1 of a row: the colour of column
    * col sits in nibble col counted from the top, weight 16 to the 7 - col. */
  function PixelsUpTo(glyph: seq<bv8>, row: nat, n: nat): nat
    requires |glyph| == 8 && row < 8 && n <= 8
  {
    if n == 0 then 0
    else PixelsUpTo(glyph, row, n - 1) + Colour(glyph, row, n - 1) * Pow16(7 - (n - 1))
  }

  /** Eight four-bit values packed into one 32-bit word, the first on top. */
  function Packed(c0: nat, c1: nat, c2: nat, c3: nat, c4: nat, c5: nat, c6: nat, c7: nat): nat
  {
    Half(c0, c1, c2, c3) * 0x1_0000 + Half(c4, c5, c6, c7)
  }

  /** Four four-bit values packed into one 16-bit word, the first on top. */
  function Half(a: nat, b: nat, c: nat, d: nat): nat
  {
    a * 0x1000 + b * 0x100 + c * 0x10 + d
  }

  /** The colours of a row, unpacked. */
  function RowColours(glyph: seq<bv8>, row: nat): (cs: seq<nat>)
    requires |glyph| == 8 && row < 8
    ensures |cs| == 8
  {
    [Colour(glyph, row, 0), Colour(glyph, row, 1), Colour(glyph, row, 2), Colour(glyph, row, 3),
     Colour(glyph, row, 4), Colour(glyph, row, 5), Colour(glyph, row, 6), Colour(glyph, row, 7)]
  }

  /** The full pixel word of a row is the eight colours packed in column
    * order. */
  lemma RowPacked(glyph: seq<bv8>, row: nat)
    requires |glyph| == 8 && row < 8
    ensures var cs := RowColours(glyph, row);
      PixelsUpTo(glyph, row, 8) == Packed(cs[0], cs[1], cs[2], cs[3], cs[4], cs[5], cs[6], cs[7])
  {
    var cs := RowColours(glyph, row);
    assert PixelsUpTo(glyph, row, 4) == Half(cs[0], cs[1], cs[2], cs[3]) * 0x1_0000 by {
      assert PixelsUpTo(glyph, row, 1) == cs[0] * 0x1000_0000;
      assert PixelsUpTo(glyph, row, 2) == PixelsUpTo(glyph, row, 1) + cs[1] * 0x100_0000;
      assert PixelsUpTo(glyph, row, 3) == PixelsUpTo(glyph, row, 2) + cs[2] * 0x10_0000;
      assert PixelsUpTo(glyph, row, 4) == PixelsUpTo(glyph, row, 3) + cs[3] * 0x1_0000;
    }
    assert PixelsUpTo(glyph, row, 5) == PixelsUpTo(glyph, row, 4) + cs[4] * 0x1000;
    assert PixelsUpTo(glyph, row, 6) == PixelsUpTo(glyph, row, 5) + cs[5] * 0x100;
    assert PixelsUpTo(glyph, row, 7) == PixelsUpTo(glyph, row, 6) + cs[6] * 0x10;
    assert PixelsUpTo(glyph, row, 8) == PixelsUpTo(glyph, row, 7) + cs[7];
  }

  /** a == p * q + r with 0 <= r < p pins down a / p and a % p, for the
    * divisors the unpacking uses. */
  lemma DivMod(a: nat, p: nat, q: nat, r: nat)
    requires p == 0x1_0000 || p == 0x1000 || p == 0x100 || p == 0x10
    requires r < p && a == p * q + r
    ensures a / p == q && a % p == r
  {
  }

  /** The high half of a packed word holds the first four values, the low
    * half the last four. */
  lemma Halves(c0: nat, c1: nat, c2: nat, c3: nat, c4: nat, c5: nat, c6: nat, c7: nat)
    requires c0 < 16 && c1 < 16 && c2 < 16 && c3 < 16 && c4 < 16 && c5 < 16 && c6 < 16 && c7 < 16
    ensures Packed(c0, c1, c2, c3, c4, c5, c6, c7) / 0x1_0000 == Half(c0, c1, c2, c3)
    ensures Packed(c0, c1, c2, c3, c4, c5, c6, c7) % 0x1_0000 == Half(c4, c5, c6, c7)
  {
    DivMod(Packed(c0, c1, c2, c3, c4, c5, c6, c7), 0x1_0000, Half(c0, c1, c2, c3), Half(c4, c5, c6, c7));
  }

  /** Nibble k of a 16-bit word, counted from the top:
    * (w >> (3 - k) * 4) & 0xF. */
  function WordNibble(w: nat, k: nat): (d: nat)
    requires k < 4
    ensures d < 16
  {
    if k == 0 then (w / 0x1000) % 16 else if k == 1 then (w / 0x100) % 16
    else if k == 2 then (w / 0x10) % 16 else w % 16
  }

  /** Each nibble of a packed half is the value put there. */
  lemma HalfNibbles(a: nat, b: nat, c: nat, d: nat)
    requires a < 16 && b < 16 && c < 16 && d < 16
    ensures WordNibble(Half(a, b, c, d), 0) == a && WordNibble(Half(a, b, c, d), 1) == b
    ensures WordNibble(Half(a, b, c, d), 2) == c && WordNibble(Half(a, b, c, d), 3) == d
  {
    var w := Half(a, b, c, d);
    DivMod(w, 0x1000, a, b * 0x100 + c * 0x10 + d);
    DivMod(w, 0x100, a * 0x10 + b, c * 0x10 + d);
    DivMod(a * 0x10 + b, 0x10, a, b);
    DivMod(w, 0x10, a * 0x100 + b * 0x10 + c, d);
    DivMod(a * 0x100 + b * 0x10 + c, 0x10, a * 0x10 + b, c);
  }

  /** The two words written for a row: the high half, then the low half. */
  function RowWords(p: nat): seq<nat>
  {
    [(p / 0x1_0000) % 0x1_0000, p % 0x1_0000]
  }

  /** The data words of a glyph's tile, rows 0 up to n - 1. */
  function TileWords(glyph: seq<bv8>, n: nat): (r: seq<nat>)
    requires |glyph| == 8 && n <= 8
    ensures |r| == 2 * n
  {
    if n == 0 then [] else TileWords(glyph, n - 1) + RowWords(PixelsUpTo(glyph, n - 1, 8))
  }

  /** The rows already written stay at the front of the tile. */
  lemma {:induction false} TilePrefix(glyph: seq<bv8>, n: nat, m: nat)
    requires |glyph| == 8 && 0 < n <= m <= 8
    ensures TileWords(glyph, m)[2 * (n - 1)..2 * n] == RowWords(PixelsUpTo(glyph, n - 1, 8))
  {
    if m > n {
      TilePrefix(glyph, n, m - 1);
      assert TileWords(glyph, m)[..2 * (m - 1)] == TileWords(glyph, m - 1);
    }
  }

  /** Words 2 * row and 2 * row + 1 of the tile are the halves of the row's
    * packed colours. */
  lemma RowInTile(glyph: seq<bv8>, row: nat)
    requires |glyph| == 8 && row < 8
    ensures var cs := RowColours(glyph, row);
      TileWords(glyph, 8)[2 * row] == Half(cs[0], cs[1], cs[2], cs[3])
      && TileWords(glyph, 8)[2 * row + 1] == Half(cs[4], cs[5], cs[6], cs[7])
  {
    TilePrefix(glyph, row + 1, 8);
    var cs := RowColours(glyph, row);
    RowPacked(glyph, row);
    var p := PixelsUpTo(glyph, row, 8);
    Halves(cs[0], cs[1], cs[2], cs[3], cs[4], cs[5], cs[6], cs[7]);
    var hi, lo := Half(cs[0], cs[1], cs[2], cs[3]), Half(cs[4], cs[5], cs[6], cs[7]);
    DivMod(hi, 0x1_0000, 0, hi);
    assert RowWords(p) == [hi, lo];
    var ws := TileWords(glyph, 8);
    assert ws[2 * row..2 * row + 2] == [hi, lo];
  }

  /** Every word of the tile fits 16 bits, and word 2 * row + col / 4 holds
    * the colour of pixel (row, col) in its nibble col % 4 counted from the
    * top: the packing loses nothing. */
  lemma TileColours(glyph: seq<bv8>, row: nat, col: nat)
    requires |glyph| == 8 && row < 8 && col < 8
    ensures TileWords(glyph, 8)[2 * row + col / 4] < 0x1_0000
    ensures WordNibble(TileWords(glyph, 8)[2 * row + col / 4], col % 4) == Colour(glyph, row, col)
  {
    var cs := RowColours(glyph, row);
    var hi, lo := Half(cs[0], cs[1], cs[2], cs[3]), Half(cs[4], cs[5], cs[6], cs[7]);
    var ws := TileWords(glyph, 8);
    RowInTile(glyph, row);
    if col < 4 {
      assert col / 4 == 0 && col % 4 == col;
      HalfNibbles(cs[0], cs[1], cs[2], cs[3]);
    } else {
      assert col / 4 == 1 && col % 4 == col - 4;
      HalfNibbles(cs[4], cs[5], cs[6], cs[7]);
    }
  }

  /** The colour chosen for pixel (row, col) inside the loops of
    * load_letter_tile. */
  method PixelColour(glyph: seq<bv8>, row: nat, col: nat) returns (colour: nat)
    requires |glyph| == 8 && row < 8 && col < 8
    ensures colour == Colour(glyph, row, col)
  {
    if row == 7 || col == 7 {
      colour := 0;
    } else if col == 0 || col == 6 {
      colour := 7;
    } else {
      var bits := glyph[row];
      if bits & (0x80 >> (col - 1)) != 0 {
        colour := 8;
      } else {
        colour := 7;
      }
    }
  }

  /** The inner loop of load_letter_tile: one row's pixel word, column by
    * column. */
  method RowPixels(glyph: seq<bv8>, row: nat) returns (pixels: nat)
    requires |glyph| == 8 && row < 8
    ensures pixels == PixelsUpTo(glyph, row, 8)
  {
    pixels := 0;
    var col := 0;
    while col < 8
      invariant 0 <= col <= 8 && pixels == PixelsUpTo(glyph, row, col)
    {
      var colour := PixelColour(glyph, row, col);
      pixels := pixels + colour * Pow16(7 - col);
      col := col + 1;
    }
  }

  /** load_letter_tile: the VRAM address tile_index * 32 cut to 16 bits, and
    * for each row the pixel word built column by column, written as its
    * high and its low half. */
  method LoadLetterTile(font: seq<seq<bv8>>, tileIndex: int, letter: int) returns (addr: nat, data: seq<nat>)
    requires FontShape(font)
    ensures addr == (tileIndex * 32) % 0x1_0000
    ensures data == TileWords(font[GlyphIndex(letter)], 8)
  {
    var glyph := if 32 <= letter < 128 then font[letter - 32] else font[0];
    assert glyph == font[GlyphIndex(letter)];
    addr := (tileIndex * 32) % 0x1_0000;
    data := [];
    var row := 0;
    while row < 8
      invariant 0 <= row <= 8 && data == TileWords(glyph, row)
    {
      var pixels := RowPixels(glyph, row);
      data := data + [(pixels / 0x1_0000) % 0x1_0000, pixels % 0x1_0000];
      row := row + 1;
    }
  }
}
