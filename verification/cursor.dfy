/** `get_cursor_bitmap` (src/os/win32.c:112-166): captures the current cursor
    as a BGRA image and writes where it is into the caller's `position`.

    The Win32 queries become inputs: `GetCursorInfo` either fails or reports
    the cursor's screen position, `GetCursorPos` either fails or reports a
    fresher one, `CopyCursor` either fails or yields an icon, `GetIconInfo`
    yields the hotspot and the two bitmaps, and `GetKeyState(VK_LBUTTON)`
    yields the button's 16-bit state. The texture handed to the graphics
    layer is modelled by the image it is created from. */
module Cursor {
  import opened Wrappers
  import opened Process

  /** The `uint32_t` fields of `position`. */
  newtype u32 = x: int | 0 <= x < 0x1_0000_0000

  /** A signed `LONG` stored into a `uint32_t`: values that fit are kept,
      negative ones wrap around modulo 2^32. */
  function ToU32(v: int): (r: u32)
    ensures 0 <= v < 0x1_0000_0000 ==> r as int == v
    ensures -0x8000_0000 <= v < 0 ==> r as int == v + 0x1_0000_0000
  {
    (v % 0x1_0000_0000) as u32
  }

  /** A screen position as `POINT` holds it (signed coordinates). */
  datatype Point = Point(x: int, y: int)

  /** What `GetIconInfo` reports: the hotspot, the mask bitmap and, for a
      colour cursor, the colour bitmap. */
  datatype IconInfo = IconInfo(xHotspot: u32, yHotspot: u32, mask: Bitmap, colour: Option<Bitmap>)

  /** The image the cursor texture is created from: its resolution and its
      BGRA bytes. */
  datatype Image = Image(width: nat, height: nat, pixels: seq<bv8>)

  /** The `position` struct the caller passes in. */
  class Position {
    var x: u32
    var y: u32
    var xHotspot: u32
    var yHotspot: u32

    constructor()
      ensures x == 0 && y == 0 && xHotspot == 0 && yHotspot == 0
    {
      x, y, xHotspot, yHotspot := 0, 0, 0, 0;
    }
  }

  /** `GetKeyState(VK_LBUTTON) & 0x8000`: the polarity flag is set exactly
      when the high bit of the key state, "button down", is set. */
  function Pressed(keyState: bv16): (r: bool)
    ensures r <==> keyState >= 0x8000
  {
    keyState & 0x8000 != 0
  }

  /** The texture resolution: the mask's width, and its height halved for a
      monochrome cursor (whose mask stacks the AND and XOR planes). */
  function Resolution(icon: IconInfo): (r: (nat, nat))
    ensures r.0 == icon.mask.width
    ensures icon.colour.None? ==> 2 * r.1 <= icon.mask.height < 2 * r.1 + 2
    ensures icon.colour.Some? ==> r.1 == icon.mask.height
  {
    if icon.colour.None? then (icon.mask.width, icon.mask.height / 2)
    else (icon.mask.width, icon.mask.height)
  }

  /** The image a successful capture produces: a monochrome image holds
      exactly 4 bytes per texel of its resolution, a colour image is sized by
      the colour bitmap while its resolution covers the full mask. */
  function Capture(icon: IconInfo, keyState: bv16): (r: Image)
    requires ProcessFits(icon.mask, icon.colour)
    ensures r.width == icon.mask.width
    ensures icon.colour.None? ==> |r.pixels| == 4 * (r.width * r.height)
    ensures icon.colour.Some? ==>
              && |r.pixels| == 4 * ColourTexels(icon.colour.value)
              && r.width * r.height == icon.mask.width * icon.mask.height
    ensures r.pixels == ProcessOutput(icon.mask, icon.colour, Pressed(keyState))
  {
    var (width, height) := Resolution(icon);
    Image(width, height, ProcessOutput(icon.mask, icon.colour, Pressed(keyState)))
  }

  /** `get_cursor_bitmap(position)`. Returns no image, leaving `position`
      alone, when `GetCursorInfo` or `CopyCursor` fails; otherwise records the
      cursor's position (the one `GetCursorPos` reports, or the one from
      `GetCursorInfo` when that call fails) and hotspot, and returns the
      decoded image. */
  method GetCursorBitmap(pos: Position, cursorInfo: Option<Point>, freshPos: Option<Point>,
                         copied: bool, icon: IconInfo, keyState: bv16)
    returns (texture: Option<Image>)
    requires cursorInfo.Some? && copied ==> ProcessFits(icon.mask, icon.colour)
    modifies pos
    ensures texture.Some? <==> cursorInfo.Some? && copied
    ensures texture.None? ==> unchanged(pos)
    ensures texture.Some? ==>
      var screen := freshPos.GetOr(cursorInfo.value);
      && pos.x == ToU32(screen.x) && pos.y == ToU32(screen.y)
      && pos.xHotspot == icon.xHotspot && pos.yHotspot == icon.yHotspot
      && texture.value == Capture(icon, keyState)
  {
    if cursorInfo.None? {
      return None;
    }
    var screen := freshPos.GetOr(cursorInfo.value);
    if !copied {
      return None;
    }
    var monochrome := icon.colour.None?;
    var invert := Pressed(keyState);
    pos.x := ToU32(screen.x);
    pos.y := ToU32(screen.y);
    pos.xHotspot := icon.xHotspot;
    pos.yHotspot := icon.yHotspot;
    var width, height;
    if monochrome {
      width, height := icon.mask.width, icon.mask.height / 2;
    } else {
      width, height := icon.mask.width, icon.mask.height;
    }
    var pixels := ProcessBitmaps(icon.mask, icon.colour, invert);
    texture := Some(Image(width, height, pixels[..]));
  }

  /** A monochrome capture holds exactly the 4 bytes per texel that a texture
      of its resolution needs. */
  lemma MonochromeImageSize(icon: IconInfo, keyState: bv16)
    requires icon.colour.None? && MonoFits(icon.mask)
    ensures |Capture(icon, keyState).pixels|
         == 4 * (Capture(icon, keyState).width * Capture(icon, keyState).height)
  {
  }

  /** A colour capture is sized by the colour bitmap but its resolution comes
      from the mask: the buffer matches the resolution exactly when the two
      bitmaps have the same number of texels. */
  lemma ColourImageSize(icon: IconInfo, keyState: bv16)
    requires icon.colour.Some? && ColourFits(icon.mask, icon.colour.value)
    ensures |Capture(icon, keyState).pixels|
              == 4 * (Capture(icon, keyState).width * Capture(icon, keyState).height)
        <==> icon.colour.value.width * icon.colour.value.height == icon.mask.width * icon.mask.height
  {
  }

  /** A cursor to the left of or above the primary monitor has a negative
      coordinate, which lands in `position` as a large unsigned value. */
  lemma NegativeCoordinateWraps()
    ensures ToU32(-1) == 0xFFFF_FFFF
    ensures ToU32(-0x8000_0000) == 0x8000_0000
  {
  }
}
