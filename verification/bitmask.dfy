/** The 1-bit-per-pixel mask decoder (`get_alpha`, src/os/win32.c:15-22).

    A packed mask is read MSB-first: pixel `n` is bit `7 - n % 8` of byte
    `n / 8`. `BitStream` is the reference meaning of a packed buffer: the
    bits in the order the pixels are numbered. */
module Bitmask {
  import opened Bytes

  /** The eight pixels a mask byte holds, most significant bit first. */
  function Unpack(b: bv8): (r: seq<bool>)
    ensures |r| == 8
  {
    [b & 0x80 != 0, b & 0x40 != 0, b & 0x20 != 0, b & 0x10 != 0,
     b & 0x08 != 0, b & 0x04 != 0, b & 0x02 != 0, b & 0x01 != 0]
  }

  /** A packed buffer unpacked into one boolean per pixel. */
  function BitStream(pix: seq<bv8>): (r: seq<bool>)
    ensures |r| == 8 * |pix|
  {
    if pix == [] then [] else Unpack(pix[0]) + BitStream(pix[1..])
  }

  /** Pixel `n` of the stream is bit `n % 8` (MSB-first) of byte `n / 8`. */
  lemma {:induction false} BitStreamAt(pix: seq<bv8>, n: nat)
    requires n < 8 * |pix|
    ensures BitStream(pix)[n] == Unpack(pix[n / 8])[n % 8]
  {
    if n >= 8 {
      BitStreamAt(pix[1..], n - 8);
      assert BitStream(pix) == Unpack(pix[0]) + BitStream(pix[1..]);
      assert pix[1..][(n - 8) / 8] == pix[n / 8];
    }
  }

  /** The shift-and-mask of the source picks the same bit as `Unpack`. */
  lemma ShiftPicksBit(b: bv8, k: nat)
    requires k < 8
    ensures ((b >> (7 - k)) & 1 != 0) == Unpack(b)[k]
  {
    if k == 0 { } else if k == 1 { } else if k == 2 { } else if k == 3 { }
    else if k == 4 { } else if k == 5 { } else if k == 6 { } else { }
  }

  /** The stream of a buffer's suffix starting at byte `off` is the buffer's
      stream from pixel `8 * off` on. */
  lemma {:induction false} StreamOfSuffix(pix: seq<bv8>, off: nat, n: nat)
    requires off <= |pix| && n < 8 * (|pix| - off)
    ensures BitStream(pix[off..])[n] == BitStream(pix)[8 * off + n]
  {
    if off > 0 {
      StreamOfSuffix(pix[1..], off - 1, n);
      assert pix[1..][off - 1..] == pix[off..];
      assert BitStream(pix) == Unpack(pix[0]) + BitStream(pix[1..]);
    }
  }

  /** The alpha a mask pixel stands for: opaque (0xFF) when its bit equals
      the polarity flag, transparent (0x00) otherwise. */
  function MaskAlpha(pix: seq<bv8>, count: nat, invert: bool): bv8
    requires count / 8 < |pix|
  {
    if BitStream(pix)[count] == invert then 0xFF else 0
  }

  /** `get_alpha(pix, count, invert)` (src/os/win32.c:15-22): picks bit
      `7 - count % 8` of byte `count / 8` and returns 0xFF or 0x00 by the
      polarity flag. */
  function GetAlpha(pix: seq<bv8>, count: nat, invert: bool): (r: bv8)
    requires count / 8 < |pix|
    ensures r == 0xFF || r == 0
    ensures r == 0xFF <==> BitStream(pix)[count] == invert
    ensures r == MaskAlpha(pix, count, invert)
  {
    var pixel := pix[count / 8];
    var alpha := (pixel >> (7 - count % 8)) & 1 != 0;
    BitStreamAt(pix, count);
    ShiftPicksBit(pixel, count % 8);
    if invert then (if alpha then 0xFF else 0) else (if alpha then 0 else 0xFF)
  }

  /** For the same buffer and pixel the two polarities give complementary bytes. */
  lemma PolaritiesComplement(pix: seq<bv8>, count: nat)
    requires count / 8 < |pix|
    ensures GetAlpha(pix, count, true) == Not(GetAlpha(pix, count, false))
    ensures {GetAlpha(pix, count, true), GetAlpha(pix, count, false)} == {0, 0xFF}
  {
  }
}
