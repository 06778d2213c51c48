/** `process_bitmaps` (src/os/win32.c:48-110): turns the cursor's mask bitmap
    and optional colour bitmap into one BGRA buffer, 4 bytes per texel.

    A Win32 bitmap handle is modelled by what `GetObject` reports about it
    (width, height, bytes per row) and the bytes `GetBitmapBits` can copy out
    of it. Allocation by the host's zeroing allocator is a fresh zero-filled
    buffer. */
module Process {
  import opened Wrappers
  import opened Bytes
  import opened Bitmask
  import opened Pixels

  /** A bitmap handle as the decoder sees it: `bmWidth`, `bmHeight`,
      `bmWidthBytes` and the bitmap's bytes, top row first. */
  datatype Bitmap = Bitmap(width: nat, height: nat, widthBytes: nat, bits: seq<bv8>)

  // ---------------------------------------------------------------- colours

  /** Opaque white, the bytes of the 32-bit store 0xFFFFFFFF. */
  const White: seq<bv8> := [0xFF, 0xFF, 0xFF, 0xFF]
  /** Opaque black in B, G, R, A order, the bytes of the 32-bit store 0xFF000000. */
  const Black: seq<bv8> := [0, 0, 0, 0xFF]
  /** Fully transparent, the bytes of the 32-bit store 0. */
  const Transparent: seq<bv8> := [0, 0, 0, 0]

  /** The AND/XOR cursor table with the mouse-button polarity flag: where the
      AND bit is clear the XOR bit picks white or black (swapped when `invert`
      is set); where it is set, the XOR bit picks white or transparent. */
  function CursorTable(andBit: bool, xorBit: bool, invert: bool): seq<bv8>
  {
    match (andBit, xorBit)
    case (false, false) => if invert then White else Black
    case (false, true) => if invert then Black else White
    case (true, false) => Transparent
    case (true, true) => White
  }

  // ------------------------------------------------------ monochrome branch

  /** The 32-bit word the monochrome loop stores for one texel, from the AND and
      XOR mask bytes that `get_alpha(.., true)` returned; only whether each is
      zero matters, and the stored bytes are the AND/XOR table entry. */
  function MonoWord(andMask: bv8, xorMask: bv8, invert: bool): (w: bv32)
    ensures StoreLE(w) == CursorTable(andMask != 0, xorMask != 0, invert)
  {
    StoredWords();
    if andMask == 0 then
      if invert then (if xorMask == 0 then 0xFFFF_FFFF else 0xFF00_0000)
      else (if xorMask != 0 then 0xFFFF_FFFF else 0xFF00_0000)
    else if xorMask != 0 then 0xFFFF_FFFF else 0
  }

  /** The 4 bytes the monochrome loop leaves for texel `a`: the AND plane starts
      at byte 0 of `mask`, the XOR plane at byte `bottom`. */
  function MonoTexel(mask: seq<bv8>, bottom: nat, a: nat, invert: bool): (r: seq<bv8>)
    requires bottom <= |mask| && a < 8 * (|mask| - bottom)
    ensures |r| == 4
  {
    var andMask := GetAlpha(mask, a, true);
    var xorMask := GetAlpha(mask[bottom..], a, true);
    StoreLE(MonoWord(andMask, xorMask, invert))
  }

  /** Texel `a` is the table entry for the AND bit at flat pixel `a` and the
      XOR bit at flat pixel `a` of the plane that starts at byte `bottom`. */
  lemma MonoTexelTable(mask: seq<bv8>, bottom: nat, a: nat, invert: bool)
    requires bottom <= |mask| && a < 8 * (|mask| - bottom)
    ensures MonoTexel(mask, bottom, a, invert)
         == CursorTable(BitStream(mask)[a], BitStream(mask)[8 * bottom + a], invert)
  {
    StreamOfSuffix(mask, bottom, a);
    StoredWords();
  }

  /** Texel `a` of a monochrome cursor by the AND/XOR table: the AND bit is
      pixel `a` of the buffer, the XOR bit pixel `a` of the plane starting at
      byte `bottom`. */
  function MonoEntry(mask: seq<bv8>, bottom: nat, a: nat, invert: bool): (r: seq<bv8>)
    requires bottom <= |mask| && a < 8 * (|mask| - bottom)
    ensures |r| == 4
  {
    CursorTable(BitStream(mask)[a], BitStream(mask)[8 * bottom + a], invert)
  }

  /** The monochrome output buffer for `n` texels: the table entries of
      pixels `0 .. n-1` one after another. */
  function MonoPixels(mask: seq<bv8>, bottom: nat, n: nat, invert: bool): (r: seq<bv8>)
    requires bottom <= |mask| && n <= 8 * (|mask| - bottom)
    ensures |r| == 4 * n
  {
    if n == 0 then [] else MonoPixels(mask, bottom, n - 1, invert) + MonoEntry(mask, bottom, n - 1, invert)
  }

  /** Bytes `4a .. 4a+3` of the monochrome output are the table entry of
      pixel `a`. */
  lemma {:induction false} MonoPixelsAt(mask: seq<bv8>, bottom: nat, n: nat, invert: bool, a: nat)
    requires bottom <= |mask| && n <= 8 * (|mask| - bottom) && a < n
    ensures MonoPixels(mask, bottom, n, invert)[4 * a .. 4 * a + 4]
         == CursorTable(BitStream(mask)[a], BitStream(mask)[8 * bottom + a], invert)
  {
    var prev := MonoPixels(mask, bottom, n - 1, invert);
    var last := MonoEntry(mask, bottom, n - 1, invert);
    TexelOfAppend(prev, last, a);
    if a < n - 1 {
      MonoPixelsAt(mask, bottom, n - 1, invert, a);
    }
  }

  /** Texel `a` of a buffer with one texel appended: an old texel when `a` is
      inside the old buffer, the appended one when it is just past it. */
  lemma TexelOfAppend(prev: seq<bv8>, last: seq<bv8>, a: nat)
    requires |last| == 4 && |prev| % 4 == 0 && 4 * a < |prev| + 4
    ensures 4 * a < |prev| ==> (prev + last)[4 * a .. 4 * a + 4] == prev[4 * a .. 4 * a + 4]
    ensures 4 * a == |prev| ==> (prev + last)[4 * a .. 4 * a + 4] == last
  {
  }

  /** The AND plane of the monochrome bitmap is its top half, so the XOR plane
      starts `bmWidthBytes * height` bytes in, with the halved height. */
  function MonoBottom(mask: Bitmap): nat
  {
    mask.widthBytes * (mask.height / 2)
  }

  /** The number of texels both branches decode from the mask: its width times
      its halved height. */
  function MaskTexels(mask: Bitmap): nat
  {
    mask.width * (mask.height / 2)
  }

  /** The monochrome mask buffer: `2 * bottom` zeroed bytes filled by
      `GetBitmapBits`. */
  function MonoMaskBuffer(mask: Bitmap): (r: seq<bv8>)
    ensures |r| == 2 * MonoBottom(mask)
  {
    Fetch(mask.bits, MonoBottom(mask) * 2, MonoBottom(mask) * 2)
  }

  /** The flat pixel index used by the loop stays inside one plane: the
      cursor's pixels, packed without row padding, fit in `bottom` bytes. */
  predicate MonoFits(mask: Bitmap)
  {
    MaskTexels(mask) <= 8 * MonoBottom(mask)
  }

  /** A row stride that holds the row's bits is enough for the loop's reads. */
  lemma StrideCoversRow(mask: Bitmap)
    requires mask.width <= 8 * mask.widthBytes
    ensures MonoFits(mask)
  {
    MulMono(mask.width, 8 * mask.widthBytes, mask.height / 2);
  }

  /** The monochrome branch of `process_bitmaps` (src/os/win32.c:87-107):
      fetches both planes of the mask into one buffer and decodes it. */
  method ProcessMonochrome(mask: Bitmap, invert: bool) returns (out: array<bv8>)
    requires MonoFits(mask)
    ensures fresh(out)
    ensures out.Length == 4 * MaskTexels(mask)
    ensures out[..] == MonoPixels(MonoMaskBuffer(mask), MonoBottom(mask), MaskTexels(mask), invert)
  {
    var height := mask.height / 2;
    var sizeMask := mask.width * height;
    var bottom := mask.widthBytes * height;
    var pixelDataMask := Fetch(mask.bits, bottom * 2, bottom * 2);
    out := DecodeMonochrome(pixelDataMask, bottom, sizeMask, invert);
  }

  /** The decode loop of the monochrome branch (src/os/win32.c:94-105): a
      fresh zeroed buffer of `n` texels, texel `a` stored as the 32-bit word
      the AND/XOR table picks for flat pixel `a`. */
  method DecodeMonochrome(mask: seq<bv8>, bottom: nat, n: nat, invert: bool) returns (out: array<bv8>)
    requires bottom <= |mask| && n <= 8 * (|mask| - bottom)
    ensures fresh(out)
    ensures out.Length == 4 * n
    ensures out[..] == MonoPixels(mask, bottom, n, invert)
  {
    out := new bv8[n * 4](_ => 0);
    for a := 0 to n
      invariant out[..4 * a] == MonoPixels(mask, bottom, a, invert)
    {
      ghost var before := out[..];
      DecodeTexel(out, mask, bottom, a, invert);
      StoreExtendsPrefix(before, out[..], 4 * a, MonoEntry(mask, bottom, a, invert));
    }
    assert out[..] == out[..4 * n];
  }

  /** One iteration of the decode loop (src/os/win32.c:97-104): reads the AND
      and XOR bits of flat pixel `a` and stores the word the table picks as
      texel `a`. */
  method DecodeTexel(out: array<bv8>, mask: seq<bv8>, bottom: nat, a: nat, invert: bool)
    requires bottom <= |mask| && a < 8 * (|mask| - bottom) && 4 * a + 4 <= out.Length
    modifies out
    ensures out[..] == old(out[..4 * a]) + MonoEntry(mask, bottom, a, invert) + old(out[4 * a + 4..])
  {
    var andMask := GetAlpha(mask, a, true);
    var xorMask := GetAlpha(mask[bottom..], a, true);
    Store32(out, a * 4, MonoWord(andMask, xorMask, invert));
    MonoTexelTable(mask, bottom, a, invert);
  }

  /** After a 4-byte store at `at`, the buffer up to `at + 4` is the old
      prefix followed by the stored bytes. */
  lemma StoreExtendsPrefix(before: seq<bv8>, after: seq<bv8>, at: nat, w: seq<bv8>)
    requires |w| == 4 && at + 4 <= |before|
    requires after == before[..at] + w + before[at + 4..]
    ensures after[..at + 4] == before[..at] + w
  {
    assert after[..at + 4] == (before[..at] + w + before[at + 4..])[..at + 4];
  }

  /** The 32-bit store `*(PUINT32)&buf[at] = w` on a little-endian machine:
      the four bytes of `w`, lowest first, and nothing else changes. */
  method Store32(buf: array<bv8>, at: nat, w: bv32)
    requires at + 4 <= buf.Length
    modifies buf
    ensures buf[..] == old(buf[..at]) + StoreLE(w) + old(buf[at + 4..])
  {
    var bytes := StoreLE(w);
    buf[at] := bytes[0];
    buf[at + 1] := bytes[1];
    buf[at + 2] := bytes[2];
    buf[at + 3] := bytes[3];
    assert buf[..] == old(buf[..at]) + bytes + old(buf[at + 4..]);
  }

  /** A 2 x 2 monochrome cursor whose planes are packed with no row padding,
      AND plane all zero and XOR bits 1, 0, 0, 1: white, black, black, white
      without the polarity flag. */
  lemma MonochromeExample()
    ensures MonoPixels([0x00, 0x00, 0x90, 0x00], 2, 4, false) == White + Black + Black + White
  {
    var mask: seq<bv8> := [0x00, 0x00, 0x90, 0x00];
    assert BitStream(mask) == Unpack(0x00) + Unpack(0x00) + Unpack(0x90) + Unpack(0x00) by {
      assert mask[1..][1..][1..][1..] == [];
    }
  }

  /** The flat index ignores row padding: with a one-byte row stride the XOR
      rows [1, 0] and [0, 1] are bytes 0x80 and 0x40, yet texels 2 and 3 are
      read from the padding bits of the first XOR byte, so the second row comes
      out black, black instead of black, white. */
  lemma MonochromeRowPadding()
    ensures MonoPixels([0x00, 0x00, 0x80, 0x40], 2, 4, false) == White + Black + Black + Black
  {
    var mask: seq<bv8> := [0x00, 0x00, 0x80, 0x40];
    assert BitStream(mask) == Unpack(0x00) + Unpack(0x00) + Unpack(0x80) + Unpack(0x40) by {
      assert mask[1..][1..][1..][1..] == [];
    }
  }

  // ---------------------------------------------------------- colour branch

  /** The colour branch's mask buffer: `size_mask * 4` zeroed bytes of which
      `GetBitmapBits` fills at most `size_mask`. */
  function ColourMaskBuffer(mask: Bitmap): (r: seq<bv8>)
    ensures |r| == 4 * MaskTexels(mask)
  {
    Fetch(mask.bits, MaskTexels(mask), MaskTexels(mask) * 4)
  }

  /** The colour bitmap's texels: its width times its height. */
  function ColourTexels(colour: Bitmap): nat
  {
    colour.width * colour.height
  }

  /** The colour buffer: `size_clr * 4` zeroed bytes filled by `GetBitmapBits`. */
  function ColourBuffer(colour: Bitmap): (r: seq<bv8>)
    ensures |r| == 4 * ColourTexels(colour)
  {
    Fetch(colour.bits, ColourTexels(colour) * 4, ColourTexels(colour) * 4)
  }

  /** When `colour_mask` runs, the call site passes `bmWidth` as its `height`
      and `bmHeight` as its `width`, and every mask bit it reads lies inside
      the mask buffer. */
  predicate ColourFits(mask: Bitmap, colour: Bitmap)
  {
    HasAlpha(ColourBuffer(colour), ColourTexels(colour)) ==>
      MaskFits(ColourMaskBuffer(mask), colour.width, colour.height)
  }

  /** The colour buffer after `colour_mask` (only when some alpha byte is
      non-zero) and before any inversion. */
  function ColourMasked(mask: Bitmap, colour: Bitmap, invert: bool): (r: seq<bv8>)
    requires ColourFits(mask, colour)
    ensures |r| == 4 * ColourTexels(colour)
  {
    var clr := ColourBuffer(colour);
    if HasAlpha(clr, ColourTexels(colour)) then
      MaskedAlpha(clr, ColourMaskBuffer(mask), colour.width, colour.height, invert)
    else clr
  }

  /** The buffer the colour branch returns: the masked buffer, every byte
      complemented when `invert` is set. */
  function ColourPixels(mask: Bitmap, colour: Bitmap, invert: bool): (r: seq<bv8>)
    requires ColourFits(mask, colour)
    ensures |r| == 4 * ColourTexels(colour)
  {
    var masked := ColourMasked(mask, colour, invert);
    if invert then ComplementPrefix(masked, |masked|) else masked
  }

  /** The colour branch of `process_bitmaps` (src/os/win32.c:62-85). */
  method ProcessColour(mask: Bitmap, colour: Bitmap, invert: bool) returns (out: array<bv8>)
    requires ColourFits(mask, colour)
    ensures fresh(out)
    ensures out.Length == 4 * ColourTexels(colour)
    ensures out[..] == ColourPixels(mask, colour, invert)
  {
    var sizeMask := mask.width * (mask.height / 2);
    var pixelDataMask := Fetch(mask.bits, sizeMask, sizeMask * 4);
    var sizeClr := colour.width * colour.height;
    var fetched := Fetch(colour.bits, sizeClr * 4, sizeClr * 4);
    out := new bv8[sizeClr * 4](i requires 0 <= i < sizeClr * 4 => fetched[i]);
    assert out[..] == ColourBuffer(colour);
    var hasAlpha := CheckAlpha(out, sizeClr);
    if hasAlpha {
      ColourMask(out, pixelDataMask, colour.width, colour.height, invert);
    }
    assert out[..] == ColourMasked(mask, colour, invert);
    if invert {
      InvertBitmap(out, sizeClr * 4);
    }
  }

  /** As written, the mask is consulted only when the colour bitmap already
      carries some alpha: a colour cursor whose alpha bytes are all zero keeps
      its bytes (complemented under `invert`), so it stays fully transparent
      unless inverted. */
  lemma ColourWithoutAlpha(mask: Bitmap, colour: Bitmap, invert: bool, i: nat)
    requires !HasAlpha(ColourBuffer(colour), ColourTexels(colour))
    requires i < 4 * ColourTexels(colour)
    ensures ColourPixels(mask, colour, invert)[i]
         == if invert then Not(ColourBuffer(colour)[i]) else ColourBuffer(colour)[i]
    ensures !invert && i % 4 == 3 ==> ColourPixels(mask, colour, invert)[i] == 0
  {
    if i % 4 == 3 {
      assert !(AlphaOf(ColourBuffer(colour), i / 4) != 0);
    }
  }

  /** When the colour bitmap carries some alpha, texel `y * bmHeight + x`
      (for `y` below `bmWidth` and `x` below `bmHeight`) gets its alpha from
      mask bit `y * 32 + x`, keeps its B, G and R bytes, and every byte is
      complemented afterwards under `invert`. */
  lemma ColourWithAlpha(mask: Bitmap, colour: Bitmap, invert: bool, y: nat, x: nat, c: nat)
    requires ColourFits(mask, colour)
    requires HasAlpha(ColourBuffer(colour), ColourTexels(colour))
    requires y < colour.width && x < colour.height && c < 4
    ensures RowBit(y, x) / 8 < |ColourMaskBuffer(mask)|
    ensures (y * colour.height + x) * 4 + c < 4 * ColourTexels(colour)
    ensures ColourPixels(mask, colour, invert)[(y * colour.height + x) * 4 + c]
         == var plain := if c == 3 then MaskAlpha(ColourMaskBuffer(mask), RowBit(y, x), invert)
                         else ColourBuffer(colour)[(y * colour.height + x) * 4 + c];
            if invert then Not(plain) else plain
  {
    var clr, maskBuf := ColourBuffer(colour), ColourMaskBuffer(mask);
    MaskedCell(clr, maskBuf, colour.width, colour.height, invert, y, x, c);
    ColourPixelsAt(mask, colour, invert, (y * colour.height + x) * 4 + c);
  }

  /** Byte `i` of the colour branch's output is byte `i` of the masked buffer,
      complemented under `invert`. */
  lemma ColourPixelsAt(mask: Bitmap, colour: Bitmap, invert: bool, i: int)
    requires ColourFits(mask, colour) && 0 <= i < 4 * ColourTexels(colour)
    ensures ColourPixels(mask, colour, invert)[i]
         == if invert then Not(ColourMasked(mask, colour, invert)[i]) else ColourMasked(mask, colour, invert)[i]
  {
  }

  /** A 1 x 1 colour cursor with texel B, G, R, A = 10, 20, 30, 0 and the
      polarity flag set: its alpha is all zero, so the mask is not read and the
      inversion turns the texel into 245, 235, 225, 255. */
  lemma ColourExample(mask: Bitmap)
    ensures ColourFits(mask, Bitmap(1, 1, 4, [10, 20, 30, 0]))
    ensures ColourPixels(mask, Bitmap(1, 1, 4, [10, 20, 30, 0]), true) == [245, 235, 225, 255]
  {
    var colour := Bitmap(1, 1, 4, [10, 20, 30, 0]);
    var clr := ColourBuffer(colour);
    assert clr == [10, 20, 30, 0];
    assert !HasAlpha(clr, 1) by {
      assert AlphaOf(clr, 0) == 0;
    }
  }

  // ------------------------------------------------------------- dispatch

  /** The buffer `process_bitmaps` returns: the colour branch when there is a
      colour bitmap, the monochrome branch otherwise. */
  function ProcessOutput(mask: Bitmap, colour: Option<Bitmap>, invert: bool): seq<bv8>
    requires ProcessFits(mask, colour)
  {
    match colour
    case Some(clr) => ColourPixels(mask, clr, invert)
    case None => MonoPixels(MonoMaskBuffer(mask), MonoBottom(mask), MaskTexels(mask), invert)
  }

  /** The buffer reads of the branch that runs stay in bounds. */
  predicate ProcessFits(mask: Bitmap, colour: Option<Bitmap>)
  {
    match colour
    case Some(clr) => ColourFits(mask, clr)
    case None => MonoFits(mask)
  }

  /** `process_bitmaps(hbm_mask, hbm_colour, invert)` (src/os/win32.c:48-110). */
  method ProcessBitmaps(mask: Bitmap, colour: Option<Bitmap>, invert: bool) returns (out: array<bv8>)
    requires ProcessFits(mask, colour)
    ensures fresh(out)
    ensures out.Length == 4 * (if colour.Some? then ColourTexels(colour.value) else MaskTexels(mask))
    ensures out[..] == ProcessOutput(mask, colour, invert)
  {
    if colour.Some? {
      out := ProcessColour(mask, colour.value, invert);
    } else {
      out := ProcessMonochrome(mask, invert);
    }
  }
}
