/** The `SSD1306` driver object (src/ssd1306/mod.rs): the frame being drawn
    (`poled_buf`), the last frame sent (`old_poled_buf`), and the bus, modelled as a
    ghost log of the bytes `send_command` and `send_data` write. */
module Driver {
  import opened Framebuffer
  import opened Bus
  import opened UpdateEngine

  /** The `Result<(), String>` of the `Display` trait's methods. The modelled methods
      always return Ok: their only failure in the source is a bus error, which panics
      and is not modelled, so Err is never constructed. */
  datatype Outcome = Ok | Err(message: string)

  /** A fresh array holding the same bytes as a: `Vec::clone`. */
  method CopyOf(a: array<bv8>) returns (c: array<bv8>)
    ensures fresh(c) && c[..] == a[..]
  {
    c := new bv8[a.Length](i requires 0 <= i < a.Length reads a => a[i]);
  }

  /** A fresh array of n zero bytes: `vec![0; n]`. */
  method ZeroBuffer(n: nat) returns (c: array<bv8>)
    ensures fresh(c) && c.Length == n && c[..] == seq(n, _ => 0)
  {
    c := new bv8[n](_ => 0);
  }

  class Ssd1306 {
    /** `lcd_width` and `lcd_height`, set by `new` and never changed. */
    const lcdWidth: U16 := 128
    const lcdHeight: U16 := 64
    var poledBuf: array<bv8>
    var oldPoledBuf: array<bv8>
    /** Every byte written to the bus so far, in order. */
    ghost var log: seq<Entry>

    /** Both buffers are separate arrays of 1024 bytes. */
    ghost predicate Valid()
      reads this`poledBuf, this`oldPoledBuf
    {
      poledBuf.Length == BufLen && oldPoledBuf.Length == BufLen &&
      poledBuf != oldPoledBuf
    }

    /** The frame being drawn. */
    ghost function Frame(): (s: seq<bv8>)
      reads this`poledBuf, this`oldPoledBuf, poledBuf
      requires Valid()
      ensures IsFrame(s)
    {
      poledBuf[..]
    }

    /** The last frame sent. */
    ghost function Snapshot(): (s: seq<bv8>)
      reads this`poledBuf, this`oldPoledBuf, oldPoledBuf
      requires Valid()
      ensures IsFrame(s)
    {
      oldPoledBuf[..]
    }

    /** `SSD1306::new`: both buffers zero, nothing sent yet (opening the I2C device
        is not modelled). */
    constructor ()
      ensures Valid() && fresh(poledBuf) && fresh(oldPoledBuf)
      ensures Frame() == Zeros() && Snapshot() == Zeros() && log == []
    {
      var frame := ZeroBuffer((128 * 64) / 8);
      var snapshot := ZeroBuffer((128 * 64) / 8);
      poledBuf, oldPoledBuf := frame, snapshot;
      log := [];
    }

    /** `send_command`: one byte to the command register. */
    method SendCommand(c: bv8)
      modifies this`log
      ensures log == old(log) + [Cmd(c)]
    {
      log := log + [Cmd(c)];
    }

    /** `send_data`: one byte to display RAM. */
    method SendData(d: bv8)
      modifies this`log
      ensures log == old(log) + [Data(d)]
    {
      log := log + [Data(d)];
    }

    /** Inherent `clear`: both buffers become fresh zero buffers; nothing is sent. */
    method Clear()
      requires Valid()
      modifies this
      ensures Valid() && fresh(poledBuf) && fresh(oldPoledBuf)
      ensures Frame() == Zeros() && Snapshot() == Zeros()
      ensures log == old(log)
    {
      poledBuf := ZeroBuffer(BufferLength());
      oldPoledBuf := CopyOf(poledBuf);
    }

    /** `invert`: the inverse-display or the normal-display command. */
    method Invert(state: bool)
      modifies this`log
      ensures log == old(log) + [Cmd(if state then InverseDisplay else NormalDisplay)]
    {
      if state {
        SendCommand(InverseDisplay);
      } else {
        SendCommand(NormalDisplay);
      }
    }

    /** `display_all`: column and start-line reset commands, then every byte of the
        frame in index order; neither buffer changes. */
    method DisplayAll()
      requires Valid()
      modifies this`log
      ensures Valid() && Frame() == old(Frame()) && Snapshot() == old(Snapshot())
      ensures log == old(log) + [Cmd(0x00), Cmd(0x10), Cmd(0x40)] + DataEntries(Frame())
    {
      SendCommand(SetLowColumn | 0x00);
      SendCommand(SetHighColumn | 0x00);
      SendCommand(SetStartLine | 0x00);
      ghost var header := log;
      var size := BufferLength();
      for i := 0 to size
        invariant log == header + DataEntries(poledBuf[..i])
      {
        var data := poledBuf[i];
        DataEntriesSnoc(poledBuf[..i], data);
        assert poledBuf[..i + 1] == poledBuf[..i] + [data];
        SendData(data);
      }
      assert poledBuf[..size] == poledBuf[..];
    }

    /** `display`: send the changed region, then keep the frame as the snapshot and
        start a new zero frame. */
    method Display()
      requires Valid()
      modifies this
      ensures Valid() && fresh(poledBuf) && fresh(oldPoledBuf)
      ensures log == old(log) + DisplayLog(old(Frame()), old(Snapshot()))
      ensures Snapshot() == old(Frame())
      ensures Frame() == Zeros()
    {
      ghost var frame, snap := Frame(), Snapshot();
      SendChanges();
      assert log == old(log) + DisplayLog(frame, snap);
      oldPoledBuf := CopyOf(poledBuf);
      poledBuf := ZeroBuffer(BufferLength());
    }

    /** The sending part of `display`: scan for the diff range, then send it. */
    method SendChanges()
      requires Valid()
      modifies this`log
      ensures log == old(log) + DisplayLog(Frame(), Snapshot())
    {
      var firstChange := FindFirstChange();
      var lastChange := FindLastChange();
      ChangeOrder(Frame(), Snapshot());
      SendRange(firstChange, lastChange);
    }

    /** Program the window the range [first, last) spans and stream the bytes of the
        range that lie inside it. */
    method SendRange(first: nat, last: nat)
      requires Valid() && first <= last <= BufLen
      modifies this`log
      ensures log == old(log) + RangeLog(Frame(), first, last)
    {
      var startColumn := first % 128;
      var startPage := first / 128;
      var endColumn := last % 128;
      var endPage := last / 128;
      var w := Window(startColumn, endColumn, startPage, endPage);
      assert w == WindowOf(first, last);
      ghost var start := log;
      SetWindow(w);
      StreamWindow(w, first, last);
      AppendAssoc(start, WindowCommands(w), DataEntries(Streamed(Frame(), w, first, last)));
    }

    /** `lcd_width * lcd_height / 8`, the length of both buffers. */
    function BufferLength(): (n: nat)
      ensures n == BufLen
    {
      lcdWidth * lcdHeight / 8
    }

    /** The forward scan of `display`: `first_change`, the first index at which the
        buffers differ, or 0 when none does. */
    method FindFirstChange() returns (first: nat)
      requires Valid()
      ensures first == FirstChange(Frame(), Snapshot())
    {
      ghost var frame, snap := Frame(), Snapshot();
      first := 0;
      for i := 0 to BufferLength()
        invariant Agree(frame, snap, 0, i)
      {
        if poledBuf[i] != oldPoledBuf[i] {
          first := i;
          break;
        }
      }
    }

    /** The backward scan of `display`: `last_change`, one past the last index at which
        the buffers differ, or 1024 when none does. */
    method FindLastChange() returns (last: nat)
      requires Valid()
      ensures last == LastChange(Frame(), Snapshot())
    {
      ghost var frame, snap := Frame(), Snapshot();
      last := BufferLength();
      for i := BufferLength() downto 0
        invariant Agree(frame, snap, i, BufLen)
      {
        if poledBuf[i] != oldPoledBuf[i] {
          last := i + 1;
          break;
        }
      }
    }

    /** The window commands of `display`: set column address, then set page address. */
    method SetWindow(w: Window)
      requires w.Fits()
      modifies this`log
      ensures log == old(log) + WindowCommands(w)
    {
      ghost var start := log;
      SendCommand(SetColumnAddress);
      SendCommand(Byte(w.startColumn));
      SendCommand(Byte(w.endColumn));
      SendCommand(SetPageAddress);
      SendCommand(Byte(w.startPage));
      SendCommand(Byte(w.endPage));
      AppendSix(start, WindowCommands(w));
    }

    /** The streaming loop of `display`: every index of [first, last) whose column and page
        lie in the window has its frame byte sent, in increasing order. */
    method StreamWindow(w: Window, first: nat, last: nat)
      requires Valid() && first <= last <= BufLen
      modifies this`log
      ensures log == old(log) + DataEntries(Streamed(Frame(), w, first, last))
    {
      for i := first to last
        invariant log == old(log) + DataEntries(Streamed(Frame(), w, first, i))
      {
        var currentColumn := i % 128;
        var currentPage := i / 128;
        if currentColumn >= w.startColumn && currentColumn <= w.endColumn &&
           currentPage >= w.startPage && currentPage <= w.endPage {
          var data := poledBuf[i];
          DataEntriesSnoc(Streamed(Frame(), w, first, i), data);
          SendData(data);
        }
      }
    }

    /** `draw_pixel`: packs the pixel into the frame as `WithPixel` says; the snapshot
        and the bus are untouched and the result is always Ok. */
    method DrawPixel(x: I16, y: I16, color: U16) returns (r: Outcome)
      requires Valid()
      modifies poledBuf
      ensures Valid() && Frame() == WithPixel(old(Frame()), x, y, color)
      ensures Snapshot() == old(Snapshot()) && r == Ok
    {
      if x > (lcdWidth as I16) - 1 || y > (lcdHeight as I16) - 1 || x < 0 || y < 0 {
        return Ok;
      }
      var index := x + (y / 8) * lcdWidth as I16;
      assert index == PixelIndex(x, y);
      var mask := Mask(y % 8);  // the shift of 1 by y % 8, see MaskIsShift
      assert mask == Mask(PixelBit(y));
      ghost var before := poledBuf[..];
      var b := poledBuf[index];
      assert b == before[index];
      if color != Black {
        assert b | mask == PixelByte(b, y, color);
        poledBuf[index] := b | mask;
      } else {
        assert b & !mask == PixelByte(b, y, color);
        poledBuf[index] := b & !mask;
      }
      assert poledBuf[..] == before[index := PixelByte(b, y, color)];
      return Ok;
    }

    /** `Display::invert_display`. */
    method InvertDisplay(state: bool) returns (r: Outcome)
      modifies this`log
      ensures log == old(log) + [Cmd(if state then InverseDisplay else NormalDisplay)] && r == Ok
    {
      Invert(state);
      return Ok;
    }

    /** `Display::clear`: the inherent clear, then the whole (zero) frame is sent. */
    method ClearAndSend() returns (r: Outcome)
      requires Valid()
      modifies this
      ensures Valid() && Frame() == Zeros() && Snapshot() == Zeros()
      ensures log == old(log) + [Cmd(0x00), Cmd(0x10), Cmd(0x40)] + DataEntries(Zeros())
      ensures r == Ok
    {
      Clear();
      DisplayAll();
      return Ok;
    }

    /** `Display::update`: one `display` call. */
    method Update() returns (r: Outcome)
      requires Valid()
      modifies this
      ensures Valid() && fresh(poledBuf) && fresh(oldPoledBuf)
      ensures log == old(log) + DisplayLog(old(Frame()), old(Snapshot()))
      ensures Snapshot() == old(Frame()) && Frame() == Zeros()
      ensures r == Ok
    {
      Display();
      return Ok;
    }

    /** `Display::get_width`: the panel is 128 pixels wide. */
    function GetWidth(): (w: U16)
      ensures w == Width && w * GetHeight() / PageHeight == BufLen
    {
      lcdWidth
    }

    /** `Display::get_height`: the panel is 64 pixels high, 8 pages of 8 rows. */
    function GetHeight(): (h: U16)
      ensures h == Height && h / PageHeight == 8
    {
      lcdHeight
    }
  }
}
