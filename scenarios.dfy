/** Worked examples of the driver's behaviour on concrete frames. */
module Scenarios {
  import opened Framebuffer
  import opened Bus
  import opened UpdateEngine
  import opened Driver

  /** Drawing pixel (45, 23) white on a blank frame sets bit 7 of byte 45 + 2 * 128 = 301
      and nothing else. */
  lemma PixelByteOf45And23(frame: seq<bv8>)
    requires frame == WithPixel(Zeros(), 45, 23, White)
    ensures PixelIndex(45, 23) == 301 && frame[301] == 0x80
    ensures forall i :: 0 <= i < BufLen ==> (frame[i] != 0 <==> i == 301)
  {
    assert PixelByte(0, 23, White) == 0x80;
  }

  /** Flushing that frame against a blank snapshot programs columns 45..46 of page 2 and
      sends the one changed byte. */
  lemma PixelScenario(frame: seq<bv8>)
    requires frame == WithPixel(Zeros(), 45, 23, White)
    ensures DisplayLog(frame, Zeros()) ==
      [Cmd(0x21), Cmd(45), Cmd(46), Cmd(0x22), Cmd(2), Cmd(2), Data(0x80)]
  {
    PixelByteOf45And23(frame);
    LoneChange(frame, Zeros(), 301);
    assert WindowCommands(Window(45, 46, 2, 2)) == [Cmd(0x21), Cmd(45), Cmd(46), Cmd(0x22), Cmd(2), Cmd(2)];
  }

  /** A lone change in the last column of a page (byte 127) programs the window 127..0 of
      pages 0..1 and sends no data at all. */
  lemma LastColumnScenario(frame: seq<bv8>, snap: seq<bv8>)
    requires IsFrame(frame) && IsFrame(snap)
    requires forall i :: 0 <= i < BufLen ==> (frame[i] != snap[i] <==> i == 127)
    ensures DisplayLog(frame, snap) == [Cmd(0x21), Cmd(127), Cmd(0), Cmd(0x22), Cmd(0), Cmd(1)]
  {
    assert DisplayLog(frame, snap) == WindowCommands(Window(127, 0, 0, 1)) + [] by {
      LoneChange(frame, snap, 127);
    }
    assert WindowCommands(Window(127, 0, 0, 1)) == [Cmd(0x21), Cmd(127), Cmd(0), Cmd(0x22), Cmd(0), Cmd(1)];
  }

  /** Changes at bytes 100 (page 0, column 100) and 137 (page 1, column 9) give the range
      [100, 138), whose window has start column 100 right of end column 10: neither
      changed byte is sent. */
  lemma CrossPageScenario(frame: seq<bv8>, snap: seq<bv8>)
    requires IsFrame(frame) && IsFrame(snap)
    requires forall i :: 0 <= i < BufLen ==> (frame[i] != snap[i] <==> i == 100 || i == 137)
    ensures DisplayLog(frame, snap) == [Cmd(0x21), Cmd(100), Cmd(10), Cmd(0x22), Cmd(0), Cmd(1)]
  {
    assert FirstChange(frame, snap) == 100 && LastChange(frame, snap) == 138 by {
      assert Agree(frame, snap, 0, 100) && Agree(frame, snap, 138, BufLen);
      ChangeRangeExact(frame, snap, 100, 138);
    }
    assert DisplayLog(frame, snap) == WindowCommands(Window(100, 10, 0, 1)) by {
      InvertedColumnsSendNothing(frame, snap);
      assert WindowOf(100, 138) == Window(100, 10, 0, 1);
    }
    assert WindowCommands(Window(100, 10, 0, 1)) == [Cmd(0x21), Cmd(100), Cmd(10), Cmd(0x22), Cmd(0), Cmd(1)];
  }

  /** A driver that draws pixel (45, 23) white and calls `display` has written exactly
      the pixel scenario's bytes, and keeps the drawn frame as its snapshot. */
  method DrawThenDisplay() returns (d: Ssd1306)
    ensures d.Valid() && d.log == [Cmd(0x21), Cmd(45), Cmd(46), Cmd(0x22), Cmd(2), Cmd(2), Data(0x80)]
    ensures d.Snapshot() == WithPixel(Zeros(), 45, 23, White) && d.Frame() == Zeros()
  {
    d := new Ssd1306();
    var r := d.DrawPixel(45, 23, White);
    PixelScenario(d.Frame());
    d.Display();
  }
}
