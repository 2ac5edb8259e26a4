/** The SSD1306 framebuffer layout (src/ssd1306/mod.rs): a 128x64 monochrome panel
    stored one bit per pixel in 1024 bytes. Byte `x + (y / 8) * 128` holds column x
    of the 8-row page y / 8, and bit `y % 8` of that byte is row y (bit 0 on top). */
module Framebuffer {

  /** Integer widths of the driver's parameters. */
  type I16 = x: int | -0x8000 <= x < 0x8000
  type U16 = x: int | 0 <= x < 0x1_0000

  /** LCD_WIDTH, LCD_HEIGHT, and the rows per page of the controller. */
  const Width: nat := 128
  const Height: nat := 64
  const PageHeight: nat := 8
  /** Length of both buffers: `lcd_width * lcd_height / 8` = 128 * 64 / 8. */
  const BufLen: nat := 1024

  /** Colours: BLACK turns a pixel off; every other colour turns it on. */
  const Black: U16 := 0
  const White: U16 := 1

  /** A byte sequence of the buffers' shape. */
  predicate IsFrame(s: seq<bv8>) { |s| == BufLen }

  /** A buffer with every pixel off, as `vec![0; 1024]` allocates it. */
  function Zeros(): (z: seq<bv8>)
    ensures IsFrame(z)
    ensures forall i :: 0 <= i < BufLen ==> z[i] == 0
  {
    seq(BufLen, _ => 0)
  }

  /** The mask `1 << k` of bit k of a byte, spelled out bit by bit (this keeps integer to
      bit-vector conversions out of the proofs that use it; MaskIsShift connects
      the two spellings). */
  function Mask(k: nat): bv8
    requires k < 8
  {
    match k
    case 0 => 0x01
    case 1 => 0x02
    case 2 => 0x04
    case 3 => 0x08
    case 4 => 0x10
    case 5 => 0x20
    case 6 => 0x40
    case 7 => 0x80
  }

  /** Mask(k) is the source's `1 << k`. */
  lemma MaskIsShift(k: nat)
    requires k < 8
    ensures Mask(k) == (1 as bv8) << k
  {
  }

  /** Whether bit k of b is set. */
  predicate Bit(b: bv8, k: nat)
    requires k < 8
  {
    b & Mask(k) != 0
  }

  /** The coordinates draw_pixel accepts: the negation of its early-return guard. */
  predicate InBounds(x: int, y: int)
  {
    !(x > Width - 1 || y > Height - 1 || x < 0 || y < 0)
  }

  /** The byte that holds pixel (x, y): its column is x and its page is y / 8. */
  function PixelIndex(x: int, y: int): (i: nat)
    requires InBounds(x, y)
    ensures i < BufLen
    ensures i % 128 == x && i / 128 == y / 8
  {
    x + (y / 8) * 128
  }

  /** The bit of that byte that holds row y. */
  function PixelBit(y: int): (k: nat)
    requires 0 <= y < Height
    ensures k < 8
  {
    y % 8
  }

  /** The inverse of the layout: the pixel stored in bit k of byte i. */
  function PixelAt(i: nat, k: nat): (p: (int, int))
    requires i < BufLen && k < 8
    ensures InBounds(p.0, p.1)
    ensures PixelIndex(p.0, p.1) == i && PixelBit(p.1) == k
  {
    (i % 128, (i / 128) * 8 + k)
  }

  /** Every pixel is stored once: (byte, bit) determines (x, y). */
  lemma PixelAtIndex(x: int, y: int)
    requires InBounds(x, y)
    ensures PixelAt(PixelIndex(x, y), PixelBit(y)) == (x, y)
  {
  }

  /** Two distinct pixels never share a bit of the buffer. */
  lemma PixelsDistinct(x: int, y: int, x': int, y': int)
    requires InBounds(x, y) && InBounds(x', y')
    requires (x, y) != (x', y')
    ensures PixelIndex(x, y) != PixelIndex(x', y') || PixelBit(y) != PixelBit(y')
  {
    if PixelIndex(x, y) == PixelIndex(x', y') && PixelBit(y) == PixelBit(y') {
      PixelAtIndex(x, y);
      PixelAtIndex(x', y');
    }
  }

  /** Whether pixel (x, y) is on in buf. */
  predicate PixelOn(buf: seq<bv8>, x: int, y: int)
    requires IsFrame(buf) && InBounds(x, y)
  {
    Bit(buf[PixelIndex(x, y)], PixelBit(y))
  }

  /** The byte b after drawing row y of its column in the colour: bit y % 8 is or-ed in
      (`|= 1 << (y % 8)`) unless the colour is BLACK, when it is and-ed out
      (`&= !(1 << (y % 8))`). */
  function PixelByte(b: bv8, y: int, color: U16): bv8
    requires 0 <= y < Height
  {
    if color != Black then b | Mask(PixelBit(y)) else b & !Mask(PixelBit(y))
  }

  /** `draw_pixel(x, y, color)` on a buffer value: ignored off the panel; otherwise only
      the byte holding the pixel changes. */
  function WithPixel(buf: seq<bv8>, x: int, y: int, color: U16): (r: seq<bv8>)
    requires IsFrame(buf)
    ensures IsFrame(r)
    ensures forall i :: 0 <= i < BufLen && (!InBounds(x, y) || i != PixelIndex(x, y)) ==> r[i] == buf[i]
  {
    if !InBounds(x, y) then buf
    else buf[PixelIndex(x, y) := PixelByte(buf[PixelIndex(x, y)], y, color)]
  }

  /** Or-ing in bit j sets bit j and no other. */
  lemma SetMaskBits(b: bv8, j: nat, k: nat)
    requires j < 8 && k < 8
    ensures Bit(b | Mask(j), k) == (k == j || Bit(b, k))
  {
    if k == j {
    } else {
      assert Mask(j) & Mask(k) == 0 by { MasksDisjoint(j, k); }
      assert (b | Mask(j)) & Mask(k) == b & Mask(k);
    }
  }

  /** And-ing out bit j clears bit j and no other. */
  lemma ClearMaskBits(b: bv8, j: nat, k: nat)
    requires j < 8 && k < 8
    ensures Bit(b & !Mask(j), k) == (k != j && Bit(b, k))
  {
    if k == j {
    } else {
      assert Mask(j) & Mask(k) == 0 by { MasksDisjoint(j, k); }
      assert (b & !Mask(j)) & Mask(k) == b & Mask(k);
    }
  }

  /** Masks of different bits share no bit. */
  lemma MasksDisjoint(j: nat, k: nat)
    requires j < 8 && k < 8 && j != k
    ensures Mask(j) & Mask(k) == 0
  {
  }

  /** Drawing row y into a byte gives bit y % 8 the colour and keeps the other bits. */
  lemma PixelByteBits(b: bv8, y: int, color: U16, k: nat)
    requires 0 <= y < Height && k < 8
    ensures Bit(PixelByte(b, y, color), k) == if k == PixelBit(y) then color != Black else Bit(b, k)
  {
    if color != Black {
      SetMaskBits(b, PixelBit(y), k);
    } else {
      ClearMaskBits(b, PixelBit(y), k);
    }
  }

  /** draw_pixel at (x, y) gives bit y % 8 of byte PixelIndex(x, y) the colour, and leaves
      every other bit of every byte as it was; off the panel it changes nothing. */
  lemma WithPixelBits(buf: seq<bv8>, x: int, y: int, color: U16, i: nat, k: nat)
    requires IsFrame(buf) && i < BufLen && k < 8
    ensures Bit(WithPixel(buf, x, y, color)[i], k) ==
      if InBounds(x, y) && i == PixelIndex(x, y) && k == PixelBit(y) then color != Black
      else Bit(buf[i], k)
  {
    if InBounds(x, y) && i == PixelIndex(x, y) {
      assert WithPixel(buf, x, y, color)[i] == PixelByte(buf[i], y, color);
      PixelByteBits(buf[i], y, color, k);
    }
  }

  /** Reading back any pixel after draw_pixel(x, y, color): (x, y) has the colour if it is
      on the panel, and every other pixel is as before. */
  lemma {:induction false} PixelReadback(buf: seq<bv8>, x: int, y: int, color: U16, x': int, y': int)
    requires IsFrame(buf) && InBounds(x', y')
    ensures PixelOn(WithPixel(buf, x, y, color), x', y') ==
      if InBounds(x, y) && (x', y') == (x, y) then color != Black else PixelOn(buf, x', y')
  {
    if InBounds(x, y) && (x', y') != (x, y) {
      PixelsDistinct(x, y, x', y');
    }
    WithPixelBits(buf, x, y, color, PixelIndex(x', y'), PixelBit(y'));
  }
}
