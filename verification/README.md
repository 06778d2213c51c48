# Cursor bitmap decoder — a verified model

This project models the cursor-capture core of `src/os/win32.c`. That code asks
Windows for the current mouse cursor and turns its bitmaps into a flat BGRA
buffer, 4 bytes per texel, which the plugin uploads as a texture. The model
covers:

- `get_alpha`: one bit of an MSB-first packed 1-bit-per-pixel mask, as 0xFF or
  0x00 under a polarity flag. Module `Bitmask`.
- `check_alpha`, `colour_mask` and `invert_bitmap`: the in-place loops over
  BGRA buffers. Module `Pixels`.
- `process_bitmaps`, both branches. Module `Process`.
  - The monochrome branch decodes the stacked AND/XOR planes through the
    classic cursor table.
  - The colour branch sequences `check_alpha`, `colour_mask` and
    `invert_bitmap` on the colour buffer.
- `get_cursor_bitmap`: the failure paths, the writes into the caller's
  `position`, the polarity flag from the left mouse button, and the
  resolution rule. Module `Cursor`.
- Module `Bytes` holds shared pieces: the byte complement, the zero-filling
  allocator, the copy `GetBitmapBits` makes, and the little-endian layout of a
  32-bit store.

Buffers the C code writes in place or returns are `array<bv8>`, and so is
the buffer `check_alpha` scans; the mask buffers, allocated but only read, are
`seq<bv8>`. Each loop is a method proved against a specification function:
- `ComplementPrefix` for `invert_bitmap`;
- `MaskedAlpha`, built from `RowWrites` and `GridWrites`, for `colour_mask`;
- `MonoPixels` for the monochrome loop.

Separate lemmas then state what those functions promise. Some use a reference
definition. For the monochrome branch it is `BitStream`, a packed buffer read
as one boolean per pixel, together with the AND/XOR table `CursorTable`. For
the colour branch it is `TexelAlpha`, the alpha of texel `t` found by
dividing `t` by the width.

A Win32 bitmap handle is a `Process.Bitmap` holding what `GetObject` reports
(`bmWidth`, `bmHeight`, `bmWidthBytes`) and the bytes `GetBitmapBits` can copy
out. The results of `GetCursorInfo`, `GetCursorPos`, `CopyCursor`,
`GetIconInfo` and `GetKeyState` are parameters of
`Cursor.GetCursorBitmap`. The texture is modelled by the image it is created
from: resolution plus bytes.

The model follows the code as written, including where that differs from the
usual reading of Windows cursor bitmaps:

- **When the mask supplies alpha.** The mask overrides the colour bitmap's
  alpha only when `check_alpha` is TRUE, that is when some alpha byte is
  already non-zero (`src/os/win32.c:76-77`). The usual treatment of a colour
  cursor is the reverse: use the mask when every alpha byte is zero.
  `Process.ColourWithoutAlpha` shows that a colour cursor with all-zero alpha
  is never masked.
- **Swapped dimensions.** The call site passes `(bmWidth, bmHeight)` into
  parameters declared `(height, width)` (`src/os/win32.c:24` and `:77`). So
  rows run over `bmWidth` and columns over `bmHeight`.
- **Fixed mask stride.** The mask bit for row `y`, column `x` is
  `y * 4 * 8 + x`, a fixed 32-pixel row stride (`src/os/win32.c:27`),
  whatever the cursor's width.
- **Flat monochrome index.** The monochrome loop reads AND and XOR bits at the
  flat pixel index `a`, so it assumes mask rows carry no padding bits
  (`src/os/win32.c:96-98`). `Process.MonoFits` states the resulting bound.
  `Process.StrideCoversRow` shows that any stride wide enough for a row meets
  it. `Process.MonochromeRowPadding` shows what happens when rows are padded.
- **Little-endian stores.** The 32-bit stores `0xFFFFFFFF`, `0xFF000000` and
  `0` are written out as their little-endian bytes (`Bytes.StoreLE`). So
  `0xFF000000` is opaque black `[0, 0, 0, 0xFF]` in B, G, R, A order.
- **Call order in `get_cursor_bitmap`.** `GetIconInfo` runs before the NULL
  check on the copied icon, and its result is not checked
  (`src/os/win32.c:126-128`). The model therefore has no decomposition-failure
  path.
- **Fallback position.** The result of `GetCursorPos` is not checked either.
  When it fails, the position `GetCursorInfo` reported stays in place
  (`src/os/win32.c:118-120`).
- **Colour resolution.** A colour cursor's resolution is the mask's full
  width and height (`src/os/win32.c:147`). The buffer, however, is sized by
  the colour bitmap.
- **Halved mask height in both branches.** `process_bitmaps` halves the
  mask's height before either branch (`src/os/win32.c:56`). So in the colour
  branch `GetBitmapBits` copies at most `width * (height / 2)` mask bytes into
  a buffer four times that size.

## Model

| member | source | states |
|---|---|---|
| `Bitmask.GetAlpha` | src/os/win32.c:15-22 | the result is 0xFF or 0x00; it is 0xFF exactly when pixel `count` of the MSB-first bit stream equals the polarity flag |
| `Bitmask.BitStreamAt` | src/os/win32.c:16-17 | pixel `n` of a packed buffer is bit `n % 8`, counted from the most significant bit, of byte `n / 8` |
| `Bitmask.ShiftPicksBit` | src/os/win32.c:17 | `(pixel >> (7 - k)) & 1` selects the `k`-th bit counted from the most significant end |
| `Bitmask.StreamOfSuffix` | src/os/win32.c:98 | reading pixel `n` from `pix + bottom` reads pixel `8 * bottom + n` of the whole buffer |
| `Bitmask.PolaritiesComplement` | src/os/win32.c:20-21 | for the same buffer and pixel the two polarities return complementary bytes, one 0xFF and the other 0x00 |
| `Bytes.Not` | src/os/win32.c:37 | the complement of a byte is 255 minus it, and never equals it |
| `Bytes.ComplementPrefixTwice` | src/os/win32.c:33-38 | complementing the same prefix twice restores the buffer |
| `Bytes.Zeros` | src/os/win32.c:63 | a fresh allocation of `n` bytes holds `n` zeros |
| `Bytes.Fetch` | src/os/win32.c:63-64 | after `GetBitmapBits` into a zeroed buffer, byte `i` is the bitmap's byte when `i` is below both the requested count and the bitmap's size, and zero otherwise |
| `Bytes.LoadStore` | src/os/win32.c:101-104 | loading the four little-endian bytes of a 32-bit store gives back the stored word |
| `Bytes.StoredWords` | src/os/win32.c:101-104 | the stores `0xFFFFFFFF`, `0xFF000000` and `0` leave opaque white, opaque black and transparent in B, G, R, A order |
| `Pixels.CheckAlpha` | src/os/win32.c:8-13 | returns true exactly when some texel below `size` has a non-zero alpha byte at offset 3 |
| `Pixels.InvertBitmap` | src/os/win32.c:33-38 | a null buffer is left alone; otherwise the buffer becomes the old buffer with its first `size` bytes complemented |
| `Pixels.ComplementPrefixAt` | src/os/win32.c:36-37 | each byte below `size` becomes 255 minus its old value; each byte from `size` on keeps its value |
| `Pixels.ColourMask` | src/os/win32.c:24-31 | the buffer becomes `MaskedAlpha` of the old buffer: all rows of the `height` x `width` grid written |
| `Pixels.MaskRow` | src/os/win32.c:26-28 | one pass of the inner loop writes exactly the alpha bytes of row `y`, in column order |
| `Pixels.TexelAlpha` | src/os/win32.c:27 | the alpha written for any texel of the grid is 0x00 or 0xFF |
| `Pixels.RowWritesAt` | src/os/win32.c:26-28 | after `x` writes of a row, the alpha byte of a texel among those columns comes from mask bit `y * 32 + column`; every other byte is unchanged |
| `Pixels.GridWritesAt` | src/os/win32.c:25-29 | after `y` rows, the alpha byte of a texel in those rows is the one its row assigns; every other byte is unchanged |
| `Pixels.GridAlpha` | src/os/win32.c:25-28 | the alpha the first `y` rows assign to a texel is 0x00 or 0xFF |
| `Pixels.GridAlphaTexel` | src/os/win32.c:25-28 | the row-by-row alpha of texel `t` equals `TexelAlpha`, found by dividing `t` by the width, and `t` lies inside the grid |
| `Pixels.RowStartIs` | src/os/win32.c:27 | row `y` of a grid `width` wide starts at texel `y * width` |
| `Pixels.RowInside` | src/os/win32.c:25-27 | every row of the grid reads inside the mask and writes inside the buffer |
| `Pixels.RowTexel` | src/os/win32.c:27 | the cell at row `y`, column `x` is texel `y * width + x` inside the grid, and its alpha comes from mask bit `y * 32 + x` |
| `Pixels.MaskedAlphaAt` | src/os/win32.c:27 | after `colour_mask`, byte `(y * width + x) * 4 + 3` is the mask alpha of bit `y * 32 + x`, and both indices are in bounds |
| `Pixels.MaskedAlphaKeeps` | src/os/win32.c:24-31 | `colour_mask` leaves every byte that is not an alpha byte of a grid texel unchanged, including all B, G, R bytes and everything past the grid |
| `Pixels.MaskedCell` | src/os/win32.c:24-31 | byte `c` of cell `(y, x)` after `colour_mask` is the mask alpha when `c == 3` and the old byte otherwise |
| `Process.MonoWord` | src/os/win32.c:100-104 | the word the branches pick, stored little-endian, is the AND/XOR table entry for "AND byte non-zero" and "XOR byte non-zero" |
| `Process.MonoTexelTable` | src/os/win32.c:97-104 | the word stored for texel `a`, as little-endian bytes, is the AND/XOR table entry for AND bit `a` and XOR bit `a` of the plane at byte `bottom` |
| `Process.MonoPixelsAt` | src/os/win32.c:96-105 | bytes `4a .. 4a+3` of the monochrome output are the table entry for pixel `a` |
| `Process.DecodeTexel` | src/os/win32.c:97-104 | one iteration writes texel `a`'s four bytes with its table entry and changes nothing else |
| `Process.Store32` | src/os/win32.c:101-104 | a 32-bit store writes the word's four little-endian bytes at the offset and changes nothing else |
| `Process.DecodeMonochrome` | src/os/win32.c:94-105 | returns a freshly allocated buffer of `4 * n` bytes holding, texel by texel, the table entries of pixels `0 .. n-1` |
| `Process.ProcessMonochrome` | src/os/win32.c:87-107 | fetches both planes into a `2 * bottom`-byte buffer and returns a freshly allocated buffer of `width * (height / 2)` texels decoded from them |
| `Process.StrideCoversRow` | src/os/win32.c:88 | if `bmWidthBytes` holds a row's bits, the flat index stays inside the AND plane |
| `Process.MonochromeExample` | src/os/win32.c:88-105 | a 2 x 2 cursor with all-zero AND plane and XOR bits 1, 0, 0, 1 decodes to white, black, black, white without the polarity flag |
| `Process.MonochromeRowPadding` | src/os/win32.c:96-98 | with padded rows the flat index reads padding bits as pixels: XOR rows [1, 0] and [0, 1] in one-byte rows decode to white, black, black, black |
| `Process.ProcessColour` | src/os/win32.c:62-85 | returns a freshly allocated buffer of `size_clr * 4` bytes: the fetched colour buffer, masked when it has alpha, complemented when `invert` is set |
| `Process.ColourWithoutAlpha` | src/os/win32.c:76-79 | with all alpha bytes zero the mask is not used: each output byte is the fetched byte, complemented under `invert`, so the alpha stays 0 without it |
| `Process.ColourWithAlpha` | src/os/win32.c:76-79 | with some alpha present, texel `y * bmHeight + x` takes its alpha from mask bit `y * 32 + x`, keeps its B, G, R bytes, and is complemented under `invert` |
| `Process.ColourPixelsAt` | src/os/win32.c:79 | under `invert` every one of the `size_clr * 4` output bytes is the complement of the masked byte; otherwise it is the masked byte |
| `Process.ColourExample` | src/os/win32.c:69-84 | a 1 x 1 texel (10, 20, 30, 0) with the flag set is not masked and comes out as (245, 235, 225, 255) |
| `Process.ProcessBitmaps` | src/os/win32.c:48-110 | takes the colour branch when there is a colour bitmap and the monochrome branch otherwise, and returns that branch's freshly allocated buffer with the matching output length |
| `Cursor.ToU32` | src/os/win32.c:135-136 | a `LONG` coordinate stored into a `uint32_t` field keeps its value when it fits and wraps by 2^32 when it is negative |
| `Cursor.NegativeCoordinateWraps` | src/os/win32.c:135-136 | coordinates -1 and -2^31 are stored as 0xFFFFFFFF and 0x80000000 |
| `Cursor.Pressed` | src/os/win32.c:133 | the polarity flag is set exactly when bit 15 of the key state, meaning the button is down, is set |
| `Cursor.Resolution` | src/os/win32.c:142-147 | the texture is as wide as the mask; a monochrome texture has half the mask's rows, rounded down, and a colour one all of them |
| `Cursor.Capture` | src/os/win32.c:142-152 | the image is as wide as the mask; a monochrome image holds exactly 4 bytes per texel of its resolution; a colour image holds 4 bytes per colour texel while its resolution covers the full mask; its bytes are what `process_bitmaps` returns |
| `Cursor.GetCursorBitmap` | src/os/win32.c:112-166 | returns nothing and leaves `position` alone when `GetCursorInfo` or `CopyCursor` fails; otherwise stores the position (from `GetCursorPos`, else from `GetCursorInfo`), wraps it to 32 bits, stores the hotspot, and returns the captured image |
| `Cursor.MonochromeImageSize` | src/os/win32.c:142-149 | a monochrome capture holds exactly 4 bytes per texel of its resolution |
| `Cursor.ColourImageSize` | src/os/win32.c:147-149 | a colour capture matches its resolution exactly when the colour bitmap and the full mask have the same number of texels |

## Left out

- The Win32 calls are not modelled as calls. Their results are inputs:
  `GetCursorInfo`, `GetCursorPos`, `CopyCursor`, `GetIconInfo`, `GetObject`,
  `GetBitmapBits` and `GetKeyState`. `GetObject` on a handle becomes the
  `Bitmap` fields, and `get_bitmap_res` (`src/os/win32.c:40-46`) is folded into
  `Cursor.Resolution`.
- Handle release (`DeleteObject`, `DestroyIcon`), `bfree` and the ordering of
  releases are left out. The model has no handles to leak.
- GPU texture creation (`obs_enter_graphics`, `gs_texture_create`,
  `obs_leave_graphics`) is left out. `Cursor.Image` stands for the texture.
  The model does not cover texture creation failing after `position` was
  written.
- `src/plugin-main.c` is not part of this model. It holds the OBS filter
  lifecycle and rendering.
- UINT32 wrap-around of sizes and indices is not modelled. Widths, heights and
  products such as `size_mask`, `size_clr * 4`, `bottom * 2`, `y * width + x`
  and `y * 4 * 8 + x` are unbounded naturals. Negative `bmHeight` values
  (bottom-up bitmaps) are not modelled either.
- Out-of-bounds reads are preconditions instead of modelled behaviour. The C
  code has undefined behaviour when it reads the mask past its buffer. The
  model makes those reads preconditions: `Pixels.MaskFits`,
  `Process.MonoFits`, `Process.ColourFits` and `Process.ProcessFits`.
- `Bitmask.GetAlpha` takes a `nat` bit index and does not model the
  `UINT32`/`uint8_t` parameter types.
- Pointer aliasing between the colour and mask buffers is not modelled. They
  are distinct allocations in the source, so the mask is a value here.
