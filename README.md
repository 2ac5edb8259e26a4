# SSD1306 framebuffer driver: a verified model

This project models the core of the `ssd1306-rs` driver for the SSD1306 128x64 monochrome
OLED controller. The core lives in `src/ssd1306/mod.rs`:

- the `SSD1306` object, which holds two 1024-byte buffers: `poled_buf`, the frame being
  drawn, and `old_poled_buf`, the last frame sent;
- `draw_pixel`, which packs one pixel into the frame (bit `y % 8` of byte
  `x + (y / 8) * 128`);
- the inherent `clear` and the trait `clear`;
- `display_all`, which sends the whole frame;
- `display`, the partial-update engine. It scans for the first and one-past-last
  differing bytes, programs a column x page window from them, streams the bytes of the
  range that fall inside the window, then keeps the frame as the snapshot and starts a
  new zero frame;
- `invert` and the trait wrappers `invert_display`, `update`, `get_width` and
  `get_height`.

The bus is modelled as a ghost log of transfers written by `send_command` and
`send_data`. Each transfer is `Cmd(b)` or `Data(b)`.

Layout:

- `bus.dfy`, module `Bus`: the transfer log and the controller opcodes.
- `framebuffer.dfy`, module `Framebuffer`: the pixel layout, `WithPixel` (the value-level
  meaning of `draw_pixel`), and per-bit and per-pixel lemmas.
- `update_engine.dfy`, module `UpdateEngine`: the specification of `display`. It has the
  scans (`FirstChange`, `LastChange`), the window (`WindowOf`, `WindowCommands`), the
  streaming filter (`Streamed`) and the whole traffic of one call (`DisplayLog`), with
  lemmas about all of them.
- `ssd1306.dfy`, module `Driver`: class `Ssd1306`. It has the two buffers as
  `array<bv8>` fields and the ghost `log`. Its methods run the source's loops with
  invariants and are proved against the specification functions.
- `scenarios.dfy`, module `Scenarios`: concrete frames and the exact bytes `display`
  sends for them.

The points below are the code's behaviour as written; each is modelled and proved.

- `display` does not skip the bus when nothing changed. The default range [0, 1024)
  programs the window with columns 0..0 and pages 0..8. The column-0 byte of each page
  is then sent (`UnchangedFrameLog`).
- The end column and end page come from the exclusive bound `last_change`. A lone change
  in column 127 therefore programs end column 0 and sends no byte (`LoneChange`,
  `LastColumnScenario`).
- A range that crosses a page boundary into a smaller column gives a window whose start
  column is right of its end column. The filter keeps nothing, and only the six window
  commands are sent (`InvertedColumnsSendNothing`, `CrossPageScenario`).
- The inherent `clear` also zeroes the snapshot (`old_poled_buf = poled_buf.clone()`).
- `display` leaves a zero frame behind, so the next `display` diffs the next drawing
  against the previous frame, not against what is on the panel.
- `display_all` is preceded by the three commands 0x00, 0x10 and 0x40: low column 0,
  high column 0 and start line 0.

## Model

| member | source | states |
|---|---|---|
| Framebuffer.Zeros | src/ssd1306/mod.rs:109-110 | a fresh buffer is 1024 zero bytes |
| Framebuffer.MaskIsShift | src/ssd1306/mod.rs:350 | the bit mask used for row y is the shift of 1 left by y % 8 |
| Framebuffer.PixelIndex | src/ssd1306/mod.rs:350 | an on-panel pixel's byte index is below 1024; its column is x (`i % 128`) and its page is y / 8 (`i / 128`) |
| Framebuffer.PixelBit | src/ssd1306/mod.rs:350 | the bit that holds row y is below 8 |
| Framebuffer.PixelAt | src/ssd1306/mod.rs:350-352 | every (byte, bit) pair holds an on-panel pixel, and PixelIndex/PixelBit map that pixel back to it (that it is the only one is PixelsDistinct) |
| Framebuffer.PixelAtIndex | src/ssd1306/mod.rs:350-352 | the layout is injective: decoding the byte and bit of (x, y) yields (x, y) |
| Framebuffer.PixelsDistinct | src/ssd1306/mod.rs:350-352 | two different pixels never share a bit of the buffer |
| Framebuffer.WithPixel | src/ssd1306/mod.rs:345-355 | drawing leaves every byte but the pixel's byte unchanged, and changes nothing off the panel; off the panel is the negation of `InBounds`, the early-return guard of :346, and the pixel's byte becomes `PixelByte`, the or-assign or and-not-assign update of :349-353 |
| Framebuffer.SetMaskBits | src/ssd1306/mod.rs:350 | or-ing in the mask sets that bit and keeps every other bit |
| Framebuffer.ClearMaskBits | src/ssd1306/mod.rs:352 | and-ing with the negated mask clears that bit and keeps every other bit |
| Framebuffer.MasksDisjoint | src/ssd1306/mod.rs:350-352 | the masks of two different bits share no bit |
| Framebuffer.PixelByteBits | src/ssd1306/mod.rs:349-353 | a byte updated by `PixelByte` (or-ing in the mask unless the colour is BLACK, and-ing it out otherwise) has bit y % 8 on exactly when the colour is not BLACK; its other bits are as before |
| Framebuffer.WithPixelBits | src/ssd1306/mod.rs:345-355 | after drawing, only bit y % 8 of byte x + (y / 8) * 128 changes; off the panel no bit changes |
| Framebuffer.PixelReadback | src/ssd1306/mod.rs:345-355 | reading any pixel back after drawing: the drawn pixel has the colour, and every other pixel is as before |
| Bus.DataEntries | src/ssd1306/mod.rs:196-201 | streaming bytes gives one Data entry per byte, in the same order |
| Bus.DataEntriesSnoc | src/ssd1306/mod.rs:196-201 | one more `send_data` appends one more Data entry |
| UpdateEngine.FirstChangeFrom | src/ssd1306/mod.rs:230-235 | the scan from i returns the least index ≥ i where the buffers differ, and they agree before it; it returns 0 when nothing differs |
| UpdateEngine.FirstChange | src/ssd1306/mod.rs:228-235 | `first_change` is the least differing index, or 0 if the buffers agree |
| UpdateEngine.LastChangeBelow | src/ssd1306/mod.rs:236-241 | the backward scan returns one past the greatest differing index below i, and the buffers agree after it; it returns 1024 when nothing differs |
| UpdateEngine.LastChange | src/ssd1306/mod.rs:229-241 | `last_change` is one past the greatest differing index, or 1024 if the buffers agree |
| UpdateEngine.ChangeRange | src/ssd1306/mod.rs:228-241 | the range is non-empty (first < last ≤ 1024); it is bounded by differing bytes and the buffers agree outside it; it is [0, 1024) when nothing differs |
| UpdateEngine.ChangeOrder | src/ssd1306/mod.rs:228-241 | first_change < last_change always holds |
| UpdateEngine.ChangeRangeExact | src/ssd1306/mod.rs:228-241 | if the buffers differ at lo and hi - 1 and agree outside [lo, hi), the scans return exactly lo and hi |
| UpdateEngine.WindowOf | src/ssd1306/mod.rs:242-245 | the window bounds fit a command byte, columns are below 128, and first = start_page * 128 + start_column and last = end_page * 128 + end_column |
| UpdateEngine.WindowCommands | src/ssd1306/mod.rs:256-262 | programming a window is exactly six command bytes; the four bounds go through `Bus.Byte`, the `as u8` casts of :257-262 |
| UpdateEngine.Streamed | src/ssd1306/mod.rs:264-273 | the streaming loop sends at most last - first bytes, keeping index i only when `Window.Contains(i)`, the column and page filter of :267-268 |
| UpdateEngine.RangeLog | src/ssd1306/mod.rs:256-273 | the traffic once the range [first, last) is fixed: the six window commands, then at most last - first streamed bytes |
| UpdateEngine.DisplayLog | src/ssd1306/mod.rs:227-273 | the whole traffic of one `display`: the six window commands of the diff range, then at most last_change - first_change streamed bytes |
| UpdateEngine.StreamedSplit | src/ssd1306/mod.rs:264-273 | streaming [lo, hi) equals streaming [lo, mid) followed by [mid, hi) |
| UpdateEngine.StreamedNone | src/ssd1306/mod.rs:267-268 | a range that lies wholly outside the window sends nothing |
| UpdateEngine.StreamedAll | src/ssd1306/mod.rs:267-271 | a range that lies wholly inside the window is sent byte for byte |
| UpdateEngine.RangeLogShape | src/ssd1306/mod.rs:256-273 | sending a range gives 0x21, first % 128, last % 128, 0x22, first / 128, last / 128, followed by at most last - first Data entries |
| UpdateEngine.DisplayLogShape | src/ssd1306/mod.rs:227-273 | every `display` sends the six window commands of its diff range first, and everything after them is data, at most last_change - first_change bytes |
| UpdateEngine.RangeLogLone | src/ssd1306/mod.rs:242-273 | a one-byte range [k, k + 1) sends its byte unless k is in column 127 |
| UpdateEngine.LoneChange | src/ssd1306/mod.rs:227-273 | with exactly one differing byte k, the range is [k, k + 1); the log is the window (k % 128, (k + 1) % 128, k / 128, (k + 1) / 128) plus frame[k], except in column 127, where no data is sent |
| UpdateEngine.PageOffset | src/ssd1306/mod.rs:265-266 | an index in page p has page p and column equal to its offset in the page |
| UpdateEngine.StreamedPageColumnZero | src/ssd1306/mod.rs:264-273 | with window columns 0..0 and pages 0..8, a page contributes only its first byte |
| UpdateEngine.ColumnZeroBytes | src/ssd1306/mod.rs:264-273 | lists, for each of the first p pages, that page's column-0 byte |
| UpdateEngine.StreamedColumnZero | src/ssd1306/mod.rs:264-273 | with window columns 0..0 and pages 0..8, the first p pages stream exactly their column-0 bytes |
| UpdateEngine.RangeLogWhole | src/ssd1306/mod.rs:242-273 | sending [0, 1024) gives 0x21, 0, 0, 0x22, 0, 8 and then the column-0 byte of each of the 8 pages |
| UpdateEngine.UnchangedFrameLog | src/ssd1306/mod.rs:227-273 | when nothing differs, `display` still sends 14 bytes: window 0, 0, 0, 8, then frame[128 * p] for p = 0..7 |
| UpdateEngine.InvertedColumnsSendNothing | src/ssd1306/mod.rs:242-273 | when the start column is right of the end column, only the six window commands are sent |
| UpdateEngine.RangeLogSinglePage | src/ssd1306/mod.rs:264-273 | a range inside one page that does not end at a page boundary is sent whole, as frame[first..last] |
| UpdateEngine.SinglePageRun | src/ssd1306/mod.rs:227-273 | a diff range inside one page that does not end at a page boundary: `display` sends the window and then frame[first_change..last_change] |
| Driver.ZeroBuffer | src/ssd1306/mod.rs:204 | `vec![0; n]` is a fresh array of n zero bytes |
| Driver.CopyOf | src/ssd1306/mod.rs:205 | `clone` is a fresh array with the same bytes |
| Driver.Ssd1306.constructor | src/ssd1306/mod.rs:102-115 | both buffers are separate zero buffers of 1024 bytes, and nothing has been sent yet |
| Driver.Ssd1306.SendCommand | src/ssd1306/mod.rs:189-194 | appends Cmd(c) to the log |
| Driver.Ssd1306.SendData | src/ssd1306/mod.rs:196-201 | appends Data(d) to the log |
| Driver.Ssd1306.Clear | src/ssd1306/mod.rs:203-206 | both buffers are fresh zero buffers (the snapshot too), and nothing is sent |
| Driver.Ssd1306.Invert | src/ssd1306/mod.rs:208-214 | sends exactly one command: 0xA7 when state is true, 0xA6 otherwise |
| Driver.Ssd1306.DisplayAll | src/ssd1306/mod.rs:216-225 | sends Cmd 0x00, 0x10, 0x40 and then all 1024 frame bytes in index order; neither buffer changes |
| Driver.Ssd1306.Display | src/ssd1306/mod.rs:227-277 | the log grows by exactly DisplayLog of the entry buffers; afterwards the snapshot is the entry frame and the frame is 1024 zero bytes |
| Driver.Ssd1306.SendChanges | src/ssd1306/mod.rs:228-273 | the scans and the sending of one `display` append DisplayLog(frame, snapshot) |
| Driver.Ssd1306.SendRange | src/ssd1306/mod.rs:242-273 | programming the window of [first, last) and streaming it appends RangeLog(frame, first, last) |
| Driver.Ssd1306.BufferLength | src/ssd1306/mod.rs:229-230 | `lcd_width * lcd_height / 8` is 1024 |
| Driver.Ssd1306.FindFirstChange | src/ssd1306/mod.rs:228-235 | the forward loop with break returns FirstChange of the two buffers |
| Driver.Ssd1306.FindLastChange | src/ssd1306/mod.rs:229-241 | the reverse loop with break returns LastChange of the two buffers |
| Driver.Ssd1306.SetWindow | src/ssd1306/mod.rs:256-262 | appends exactly the six window commands |
| Driver.Ssd1306.StreamWindow | src/ssd1306/mod.rs:264-273 | the streaming loop appends Data(frame[i]) for each i in [first, last) inside the window, in increasing i |
| Driver.Ssd1306.DrawPixel | src/ssd1306/mod.rs:345-355 | the frame becomes WithPixel of the old frame (unchanged off the panel); the snapshot and the log are untouched; the result is Ok |
| Driver.Ssd1306.InvertDisplay | src/ssd1306/mod.rs:340-343 | the same command as `invert`, and Ok |
| Driver.Ssd1306.ClearAndSend | src/ssd1306/mod.rs:357-361 | both buffers are zero; then the display_all header and 1024 zero data bytes are sent; the result is Ok |
| Driver.Ssd1306.Update | src/ssd1306/mod.rs:368-371 | one `display`: the log grows by DisplayLog, the snapshot is the old frame and the frame is zero; the result is Ok |
| Driver.Ssd1306.GetWidth | src/ssd1306/mod.rs:373-375 | the width is 128, and width * height / 8 is the buffer length |
| Driver.Ssd1306.GetHeight | src/ssd1306/mod.rs:377-379 | the height is 64, which is 8 pages of 8 rows |
| Scenarios.PixelByteOf45And23 | src/ssd1306/mod.rs:349-350 | white pixel (45, 23) on a blank frame turns byte 301 into 0x80, and every other byte stays 0 |
| Scenarios.PixelScenario | src/ssd1306/mod.rs:227-273 | flushing that frame sends 0x21, 45, 46, 0x22, 2, 2 and then Data 0x80 |
| Scenarios.LastColumnScenario | src/ssd1306/mod.rs:242-273 | a lone change at byte 127 sends only 0x21, 127, 0, 0x22, 0, 1 |
| Scenarios.CrossPageScenario | src/ssd1306/mod.rs:242-273 | changes at bytes 100 and 137 send only 0x21, 100, 10, 0x22, 0, 1; neither changed byte is sent |
| Scenarios.DrawThenDisplay | src/ssd1306/mod.rs:345-355 | a new driver that draws (45, 23) white and then calls `display` has a log of exactly the pixel scenario's bytes; its snapshot is the drawn frame and its frame is zero |

## Left out

- `begin`, the initialisation command table, and the trait's `initialize`: a fixed command sequence that the diff engine does not depend on.
- The scroll commands (`start_scroll_*`, `stop_scroll`) and `deinitialize`: fixed command sequences outside the framebuffer core.
- Opening the I2C device in `new`, and the panics when a bus write fails: the bus is the ghost log, and every write succeeds. The I2C control bytes 0x00 and 0x40 that prefix each transfer appear only through the `Cmd`/`Data` distinction.
- `get_def_text_color`, `get_def_bg_color` and `vcc_type`: constants with no behaviour in the core.
- `src/main.rs`: the demo program that drives the display.
- `display` computes pages by f32 division and `floor`. The model uses integer `/ 128`, which gives the same value for every index up to 1024.
- The `u16` loop counters and index arithmetic cannot overflow for a 128x64 panel, so the model uses unbounded integers with the source's `I16`/`U16` ranges on the parameters.
- The geometry is fixed at 128x64, as `new` fixes it. The model does not cover other `lcd_width`/`lcd_height` values.
- In `draw_pixel` the `i16` `/` and `%` truncate toward zero while Dafny's are Euclidean. They agree here because the guard rejects negative coordinates before either is used.
