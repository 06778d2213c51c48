/** The in-place helpers over BGRA buffers in src/os/win32.c: `check_alpha`,
    `colour_mask` and `invert_bitmap`. A BGRA buffer holds 4 bytes per texel,
    the alpha byte at offset 3. */
module Pixels {
  import opened Bytes
  import opened Bitmask

  /** The alpha byte (offset 3) of texel `a`. */
  function AlphaOf(s: seq<bv8>, a: nat): bv8
    requires 4 * a + 3 < |s|
  {
    s[4 * a + 3]
  }

  /** Some texel below `size` carries a non-zero alpha byte. */
  predicate HasAlpha(s: seq<bv8>, size: nat)
    requires 4 * size <= |s|
  {
    exists a :: 0 <= a < size && AlphaOf(s, a) != 0
  }

  /** `check_alpha(pix, size)` (src/os/win32.c:8-13): scans the alpha bytes of
      the first `size` texels and stops at the first non-zero one. */
  method CheckAlpha(pix: array<bv8>, size: nat) returns (found: bool)
    requires 4 * size <= pix.Length
    ensures found <==> HasAlpha(pix[..], size)
  {
    for a := 0 to size
      invariant forall b :: 0 <= b < a ==> AlphaOf(pix[..], b) == 0
    {
      if pix[a * 4 + 3] != 0 {
        assert AlphaOf(pix[..], a) != 0;
        return true;
      }
    }
    return false;
  }

  /** `invert_bitmap(pix, size)` (src/os/win32.c:33-38): complements the first
      `size` bytes in place; a null buffer is left alone. */
  method InvertBitmap(pix: array?<bv8>, size: nat)
    requires pix != null ==> size <= pix.Length
    modifies pix
    ensures pix != null ==> pix[..] == ComplementPrefix(old(pix[..]), size)
  {
    if pix == null {
      return;
    }
    for a := 0 to size
      invariant pix[..] == ComplementPrefix(old(pix[..]), a)
    {
      pix[a] := Not(pix[a]);
    }
  }

  /** What `invert_bitmap` promises byte by byte: each byte below `size` becomes
      255 minus its old value, every later byte keeps its value. */
  lemma ComplementPrefixAt(s: seq<bv8>, n: nat, i: nat)
    requires i < |s|
    ensures i < n ==> ComplementPrefix(s, n)[i] as int == 255 - s[i] as int
    ensures n <= i ==> ComplementPrefix(s, n)[i] == s[i]
  {
  }

  /** The mask bit `colour_mask` reads for row `y`, column `x`: the row stride
      is fixed at 4 bytes (32 pixels) whatever the cursor's width. */
  function RowBit(y: nat, x: nat): nat
  {
    y * 4 * 8 + x
  }

  /** Every mask bit `colour_mask` reads for `height` rows of `width` columns
      lies inside the mask buffer. */
  predicate MaskFits(mask: seq<bv8>, height: nat, width: nat)
  {
    forall y, x :: 0 <= y < height && 0 <= x < width ==> RowBit(y, x) / 8 < |mask|
  }

  /** Texel `t` of a row-major `height` x `width` grid sits in row `t / width`,
      column `t % width`. */
  lemma SplitTexel(t: nat, height: nat, width: nat)
    requires t < height * width
    ensures width > 0 && t / width < height && t % width < width
  {
    assert width > 0;
    MulMono(height, t / width, width);
  }

  lemma MulMono(a: nat, b: nat, c: nat)
    ensures a <= b ==> a * c <= b * c
  {
  }

  /** Row `y`, column `x` of a grid `width` wide is texel `y * width + x`. */
  lemma JoinTexel(y: nat, x: nat, width: nat)
    requires x < width
    ensures (y * width + x) / width == y && (y * width + x) % width == x
  {
    var t := y * width + x;
    MulMono(y + 1, t / width, width);
    MulMono(t / width + 1, y, width);
  }

  /** A cell inside a `height` x `width` grid has a texel index below its size. */
  lemma TexelBelow(y: nat, x: nat, height: nat, width: nat)
    requires y < height && x < width
    ensures y * width + x < height * width
  {
    MulMono(y + 1, height, width);
  }

  /** The alpha byte `colour_mask` writes for texel `t` of a `height` x `width` grid. */
  function TexelAlpha(mask: seq<bv8>, height: nat, width: nat, invert: bool, t: nat): (r: bv8)
    requires MaskFits(mask, height, width) && t < height * width
    ensures r == 0 || r == 0xFF
  {
    SplitTexel(t, height, width);
    MaskAlpha(mask, RowBit(t / width, t % width), invert)
  }

  /** Every mask bit `colour_mask` reads for row `y` lies inside the mask buffer. */
  predicate RowFits(mask: seq<bv8>, y: nat, width: nat)
  {
    forall x :: 0 <= x < width ==> RowBit(y, x) / 8 < |mask|
  }

  /** `pix` after the first `x` writes of row `y`, whose first texel is
      `base` (that is, `y * width`): the alpha bytes of texels
      `base .. base + x - 1`, in column order. */
  function RowWrites(pix: seq<bv8>, mask: seq<bv8>, y: nat, base: nat, width: nat, invert: bool, x: nat): (r: seq<bv8>)
    requires x <= width && RowFits(mask, y, width) && (base + width) * 4 <= |pix|
    ensures |r| == |pix|
  {
    if x == 0 then pix
    else RowWrites(pix, mask, y, base, width, invert, x - 1)[(base + x - 1) * 4 + 3 := MaskAlpha(mask, RowBit(y, x - 1), invert)]
  }

  /** `pix` after the writes of the first `y` rows of the grid. */
  function GridWrites(pix: seq<bv8>, mask: seq<bv8>, height: nat, width: nat, invert: bool, y: nat): (r: seq<bv8>)
    requires MaskFits(mask, height, width) && 4 * (height * width) <= |pix| && y <= height
    ensures |r| == |pix|
  {
    if y == 0 then pix
    else
      RowInside(mask, height, width, y - 1);
      RowWrites(GridWrites(pix, mask, height, width, invert, y - 1), mask, y - 1, RowStart(y - 1, width), width, invert, width)
  }

  /** The first texel of row `y` in a grid `width` wide, counted row by row. */
  function RowStart(y: nat, width: nat): nat
  {
    if y == 0 then 0 else RowStart(y - 1, width) + width
  }

  /** Row `y` starts at texel `y * width`. */
  lemma {:induction false} RowStartIs(y: nat, width: nat)
    ensures RowStart(y, width) == y * width
  {
    if y > 0 {
      RowStartIs(y - 1, width);
    }
  }

  /** The buffer after `colour_mask`: every row of the `height` x `width` grid written. */
  function MaskedAlpha(pix: seq<bv8>, mask: seq<bv8>, height: nat, width: nat, invert: bool): (r: seq<bv8>)
    requires MaskFits(mask, height, width) && 4 * (height * width) <= |pix|
    ensures |r| == |pix|
  {
    GridWrites(pix, mask, height, width, invert, height)
  }

  /** Row `y` of the grid reads inside the mask and writes inside the buffer. */
  lemma RowInside(mask: seq<bv8>, height: nat, width: nat, y: nat)
    requires MaskFits(mask, height, width) && y < height
    ensures RowFits(mask, y, width)
    ensures RowStart(y, width) + width == RowStart(y + 1, width) <= height * width
  {
    RowStartIs(y + 1, width);
    MulMono(y + 1, height, width);
  }

  /** The alpha byte of texel `t` is byte `4t + 3`, and no other byte is. */
  lemma AlphaByte(i: nat, t: nat)
    ensures i == t * 4 + 3 <==> i % 4 == 3 && i / 4 == t
  {
  }

  /** Byte `i` after the first `x` writes of a row: an alpha byte of one of
      those texels comes from the mask bit of its column, every other byte
      is unchanged. */
  lemma {:induction false} RowWritesAt(pix: seq<bv8>, mask: seq<bv8>, y: nat, base: nat, width: nat, invert: bool, x: nat, i: nat)
    requires x <= width && RowFits(mask, y, width) && (base + width) * 4 <= |pix|
    requires i < |pix|
    ensures RowWrites(pix, mask, y, base, width, invert, x)[i]
         == if i % 4 == 3 && base <= i / 4 < base + x
            then MaskAlpha(mask, RowBit(y, i / 4 - base), invert) else pix[i]
  {
    if x > 0 {
      RowWritesAt(pix, mask, y, base, width, invert, x - 1, i);
      AlphaByte(i, base + x - 1);
    }
  }

  /** Byte `i` after the first `y` rows: the alpha byte of a texel in those
      rows comes from the mask, every other byte is unchanged. */
  lemma {:induction false} GridWritesAt(pix: seq<bv8>, mask: seq<bv8>, height: nat, width: nat, invert: bool, y: nat, i: nat)
    requires MaskFits(mask, height, width) && 4 * (height * width) <= |pix| && y <= height
    requires i < |pix|
    ensures GridWrites(pix, mask, height, width, invert, y)[i]
         == if i % 4 == 3 && i / 4 < RowStart(y, width) then GridAlpha(mask, height, width, invert, y, i / 4) else pix[i]
  {
    if y > 0 {
      var prev := GridWrites(pix, mask, height, width, invert, y - 1);
      var base := RowStart(y - 1, width);
      RowInside(mask, height, width, y - 1);
      GridWritesAt(pix, mask, height, width, invert, y - 1, i);
      RowWritesAt(prev, mask, y - 1, base, width, invert, width, i);
      var t := i / 4;
    }
  }

  /** The alpha byte the first `y` rows write for texel `t`, found by
      walking back to the row that holds `t`. */
  function GridAlpha(mask: seq<bv8>, height: nat, width: nat, invert: bool, y: nat, t: nat): (r: bv8)
    requires MaskFits(mask, height, width) && y <= height && t < RowStart(y, width)
    ensures r == 0 || r == 0xFF
  {
    var base := RowStart(y - 1, width);
    if base <= t then MaskAlpha(mask, RowBit(y - 1, t - base), invert)
    else GridAlpha(mask, height, width, invert, y - 1, t)
  }

  /** Walking back row by row finds the same mask bit as dividing the texel
      index by the width. */
  lemma {:induction false} GridAlphaTexel(mask: seq<bv8>, height: nat, width: nat, invert: bool, y: nat, t: nat)
    requires MaskFits(mask, height, width) && y <= height && t < RowStart(y, width)
    ensures t < height * width
    ensures GridAlpha(mask, height, width, invert, y, t) == TexelAlpha(mask, height, width, invert, t)
  {
    var base := RowStart(y - 1, width);
    RowInside(mask, height, width, y - 1);
    if base <= t {
      RowTexel(mask, height, width, invert, y - 1, t - base);
    } else {
      GridAlphaTexel(mask, height, width, invert, y - 1, t);
    }
  }

  /** The alpha byte for row `y`, column `x` is the one `TexelAlpha` gives
      texel `y * width + x`. */
  lemma RowTexel(mask: seq<bv8>, height: nat, width: nat, invert: bool, y: nat, x: nat)
    requires MaskFits(mask, height, width) && y < height && x < width
    ensures RowStart(y, width) + x < height * width
    ensures TexelAlpha(mask, height, width, invert, RowStart(y, width) + x) == MaskAlpha(mask, RowBit(y, x), invert)
  {
    RowStartIs(y, width);
    TexelBelow(y, x, height, width);
    JoinTexel(y, x, width);
  }

  /** `colour_mask(pix_clr, pix_mask, height, width, invert)`
      (src/os/win32.c:24-31): for each row `y` and column `x` writes the alpha
      byte of texel `y * width + x` from mask bit `y * 32 + x`. */
  method ColourMask(pixClr: array<bv8>, pixMask: seq<bv8>, height: nat, width: nat, invert: bool)
    requires MaskFits(pixMask, height, width) && 4 * (height * width) <= pixClr.Length
    modifies pixClr
    ensures pixClr[..] == MaskedAlpha(old(pixClr[..]), pixMask, height, width, invert)
  {
    ghost var orig := pixClr[..];
    for y := 0 to height
      invariant pixClr[..] == GridWrites(orig, pixMask, height, width, invert, y)
    {
      RowInside(pixMask, height, width, y);
      RowStartIs(y, width);
      MaskRow(pixClr, pixMask, y, width, invert);
    }
  }

  /** The inner loop of `colour_mask` (src/os/win32.c:26-28) for row `y`. */
  method MaskRow(pixClr: array<bv8>, pixMask: seq<bv8>, y: nat, width: nat, invert: bool)
    requires RowFits(pixMask, y, width) && (y * width + width) * 4 <= pixClr.Length
    modifies pixClr
    ensures pixClr[..] == RowWrites(old(pixClr[..]), pixMask, y, y * width, width, invert, width)
  {
    for x := 0 to width
      invariant pixClr[..] == RowWrites(old(pixClr[..]), pixMask, y, y * width, width, invert, x)
    {
      CellInside(y, width, x, pixClr.Length);
      pixClr[(y * width + x) * 4 + 3] := GetAlpha(pixMask, RowBit(y, x), invert);
    }
  }

  /** Cell `x` of row `y` lies inside a buffer that holds the whole row. */
  lemma CellInside(y: nat, width: nat, x: nat, length: nat)
    requires x < width && (y * width + width) * 4 <= length
    ensures (y * width + x) * 4 + 3 < length
  {
  }

  /** What `colour_mask` promises about one cell: the alpha byte of texel
      `y * width + x` is the mask bit at `y * 32 + x` under the polarity flag. */
  lemma MaskedAlphaAt(pix: seq<bv8>, mask: seq<bv8>, height: nat, width: nat, invert: bool, y: nat, x: nat)
    requires MaskFits(mask, height, width) && 4 * (height * width) <= |pix|
    requires y < height && x < width
    ensures RowBit(y, x) / 8 < |mask|
    ensures (y * width + x) * 4 + 3 < |pix|
    ensures MaskedAlpha(pix, mask, height, width, invert)[(y * width + x) * 4 + 3]
         == MaskAlpha(mask, RowBit(y, x), invert)
  {
    MaskedCell(pix, mask, height, width, invert, y, x, 3);
  }

  /** `colour_mask` writes nothing but alpha bytes of texels inside the grid:
      the B, G and R bytes and everything past the grid keep their values. */
  lemma MaskedAlphaKeeps(pix: seq<bv8>, mask: seq<bv8>, height: nat, width: nat, invert: bool, i: nat)
    requires MaskFits(mask, height, width) && 4 * (height * width) <= |pix|
    requires i < |pix| && (i % 4 != 3 || i >= 4 * (height * width))
    ensures MaskedAlpha(pix, mask, height, width, invert)[i] == pix[i]
  {
    GridWritesAt(pix, mask, height, width, invert, height, i);
    RowStartIs(height, width);
  }

  /** Byte `c` of the cell at row `y`, column `x` after `colour_mask`: the
      alpha byte comes from mask bit `y * 32 + x`, the other three are kept. */
  lemma MaskedCell(pix: seq<bv8>, mask: seq<bv8>, height: nat, width: nat, invert: bool, y: nat, x: nat, c: nat)
    requires MaskFits(mask, height, width) && 4 * (height * width) <= |pix|
    requires y < height && x < width && c < 4
    ensures RowBit(y, x) / 8 < |mask|
    ensures 0 <= (y * width + x) * 4 + c < |pix|
    ensures MaskedAlpha(pix, mask, height, width, invert)[(y * width + x) * 4 + c]
         == if c == 3 then MaskAlpha(mask, RowBit(y, x), invert) else pix[(y * width + x) * 4 + c]
  {
    TexelBelow(y, x, height, width);
    JoinTexel(y, x, width);
    var t := y * width + x;
    TexelByte(t, c);
    GridWritesAt(pix, mask, height, width, invert, height, t * 4 + c);
    RowStartIs(height, width);
    if c == 3 {
      GridAlphaTexel(mask, height, width, invert, height, t);
    }
  }

  lemma TexelByte(t: nat, c: nat)
    requires c < 4
    ensures (t * 4 + c) % 4 == c && (t * 4 + c) / 4 == t
  {
  }
}
