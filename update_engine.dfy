/** The partial-update engine of `display` (src/ssd1306/mod.rs): the diff range between
    the frame being drawn and the last frame sent, the column x page window derived from
    it, and the bus traffic one call produces. These functions are the specification the
    driver's `Display` method is proved against. */
module UpdateEngine {
  import opened Framebuffer
  import opened Bus

  /** The two buffers are equal on [lo, hi). */
  predicate Agree(frame: seq<bv8>, snap: seq<bv8>, lo: nat, hi: nat)
    requires IsFrame(frame) && IsFrame(snap) && lo <= hi <= BufLen
  {
    forall j :: lo <= j < hi ==> frame[j] == snap[j]
  }

  /** The forward scan of `display` started at index i: the least index in [i, 1024) at
      which the buffers differ, or the default 0 when they agree there. */
  function FirstChangeFrom(frame: seq<bv8>, snap: seq<bv8>, i: nat): (r: nat)
    requires IsFrame(frame) && IsFrame(snap) && i <= BufLen
    ensures r < BufLen
    ensures !Agree(frame, snap, i, BufLen) ==>
      i <= r && frame[r] != snap[r] && Agree(frame, snap, i, r)
    ensures Agree(frame, snap, i, BufLen) ==> r == 0
    decreases BufLen - i
  {
    if i == BufLen then 0
    else if frame[i] != snap[i] then i
    else FirstChangeFrom(frame, snap, i + 1)
  }

  /** `first_change`: the least differing index, or 0 if none. */
  function FirstChange(frame: seq<bv8>, snap: seq<bv8>): (r: nat)
    requires IsFrame(frame) && IsFrame(snap)
    ensures r < BufLen
    ensures !Agree(frame, snap, 0, BufLen) ==> frame[r] != snap[r] && Agree(frame, snap, 0, r)
    ensures Agree(frame, snap, 0, BufLen) ==> r == 0
  {
    FirstChangeFrom(frame, snap, 0)
  }

  /** The backward scan of `display` over indices i-1 down to 0: one past the greatest
      index below i at which the buffers differ, or the default 1024 when they agree. */
  function LastChangeBelow(frame: seq<bv8>, snap: seq<bv8>, i: nat): (r: nat)
    requires IsFrame(frame) && IsFrame(snap) && i <= BufLen
    ensures 0 < r <= BufLen
    ensures !Agree(frame, snap, 0, i) ==>
      r <= i && frame[r - 1] != snap[r - 1] && Agree(frame, snap, r, i)
    ensures Agree(frame, snap, 0, i) ==> r == BufLen
    decreases i
  {
    if i == 0 then BufLen
    else if frame[i - 1] != snap[i - 1] then i
    else LastChangeBelow(frame, snap, i - 1)
  }

  /** `last_change`: one past the greatest differing index, or 1024 if none. */
  function LastChange(frame: seq<bv8>, snap: seq<bv8>): (r: nat)
    requires IsFrame(frame) && IsFrame(snap)
    ensures 0 < r <= BufLen
    ensures !Agree(frame, snap, 0, BufLen) ==> frame[r - 1] != snap[r - 1] && Agree(frame, snap, r, BufLen)
    ensures Agree(frame, snap, 0, BufLen) ==> r == BufLen
  {
    LastChangeBelow(frame, snap, BufLen)
  }

  /** The addressing window `(start_column, end_column, start_page, end_page)`. Columns
      and pages are counted in the controller's 128 columns per page, which `display`
      writes as the literal 128. */
  datatype Window = Window(startColumn: nat, endColumn: nat, startPage: nat, endPage: nat)
  {
    /** The filter of the streaming loop: index i lies in the window's columns and pages. */
    predicate Contains(i: nat)
    {
      startColumn <= i % 128 <= endColumn && startPage <= i / 128 <= endPage
    }

    /** Every bound fits the one command byte it is sent as. */
    predicate Fits()
    {
      startColumn < 256 && endColumn < 256 && startPage < 256 && endPage < 256
    }
  }

  /** The window `display` programs for the range [first, last): both ends are split into
      column (`% 128`) and page (`/ 128`); the end uses the exclusive bound as it is. */
  function WindowOf(first: nat, last: nat): (w: Window)
    requires first <= BufLen && last <= BufLen
    ensures w.Fits()
    ensures w.startColumn < 128 && w.endColumn < 128
    ensures w.startPage <= BufLen / 128 && w.endPage <= BufLen / 128
    ensures first == w.startPage * 128 + w.startColumn
    ensures last == w.endPage * 128 + w.endColumn
  {
    Window(first % 128, last % 128, first / 128, last / 128)
  }

  /** The six command bytes that program a window: set column address with its two
      bounds, then set page address with its two bounds. */
  function WindowCommands(w: Window): (r: seq<Entry>)
    requires w.Fits()
    ensures |r| == 6 && forall k :: 0 <= k < 6 ==> r[k].Cmd?
  {
    [Cmd(SetColumnAddress), Cmd(Byte(w.startColumn)), Cmd(Byte(w.endColumn)),
     Cmd(SetPageAddress), Cmd(Byte(w.startPage)), Cmd(Byte(w.endPage))]
  }

  /** The bytes the streaming loop sends: buf[i] for i increasing over [lo, hi), kept
      only when i lies in the window. */
  function Streamed(buf: seq<bv8>, w: Window, lo: nat, hi: nat): (r: seq<bv8>)
    requires IsFrame(buf) && lo <= hi <= BufLen
    ensures |r| <= hi - lo
    decreases hi - lo
  {
    if hi == lo then []
    else Streamed(buf, w, lo, hi - 1) + (if w.Contains(hi - 1) then [buf[hi - 1]] else [])
  }

  /** The bus traffic `display` produces once it has settled on the range [first, last):
      the window commands, then the streamed bytes. */
  function RangeLog(frame: seq<bv8>, first: nat, last: nat): (log: seq<Entry>)
    requires IsFrame(frame) && first <= last <= BufLen
    ensures 6 <= |log| <= 6 + (last - first)
  {
    WindowCommands(WindowOf(first, last)) + DataEntries(Streamed(frame, WindowOf(first, last), first, last))
  }

  /** The whole bus traffic of one `display` call on these buffers. */
  function DisplayLog(frame: seq<bv8>, snap: seq<bv8>): (log: seq<Entry>)
    requires IsFrame(frame) && IsFrame(snap)
    ensures 6 <= |log| <= 6 + (LastChange(frame, snap) - FirstChange(frame, snap))
  {
    ChangeOrder(frame, snap);
    RangeLog(frame, FirstChange(frame, snap), LastChange(frame, snap))
  }

  /** The diff range: [first, last) is empty of agreement at both ends and the buffers
      agree outside it; when nothing differs it is the default [0, 1024). Either way
      first < last <= 1024. */
  lemma ChangeRange(frame: seq<bv8>, snap: seq<bv8>)
    requires IsFrame(frame) && IsFrame(snap)
    ensures FirstChange(frame, snap) < LastChange(frame, snap) <= BufLen
    ensures !Agree(frame, snap, 0, BufLen) ==>
      var first, last := FirstChange(frame, snap), LastChange(frame, snap);
      frame[first] != snap[first] && frame[last - 1] != snap[last - 1] &&
      Agree(frame, snap, 0, first) && Agree(frame, snap, last, BufLen)
    ensures Agree(frame, snap, 0, BufLen) ==>
      FirstChange(frame, snap) == 0 && LastChange(frame, snap) == BufLen
  {
  }

  /** The diff range is never empty: first_change < last_change. */
  lemma ChangeOrder(frame: seq<bv8>, snap: seq<bv8>)
    requires IsFrame(frame) && IsFrame(snap)
    ensures FirstChange(frame, snap) < LastChange(frame, snap)
  {
    ChangeRange(frame, snap);
  }

  /** Streaming [lo, hi) is streaming [lo, mid) and then [mid, hi). */
  lemma {:induction false} StreamedSplit(buf: seq<bv8>, w: Window, lo: nat, mid: nat, hi: nat)
    requires IsFrame(buf) && lo <= mid <= hi <= BufLen
    ensures Streamed(buf, w, lo, hi) == Streamed(buf, w, lo, mid) + Streamed(buf, w, mid, hi)
    decreases hi - mid
  {
    if hi > mid {
      StreamedSplit(buf, w, lo, mid, hi - 1);
    }
  }

  /** No byte is sent from a range that lies wholly outside the window. */
  lemma {:induction false} StreamedNone(buf: seq<bv8>, w: Window, lo: nat, hi: nat)
    requires IsFrame(buf) && lo <= hi <= BufLen
    requires forall i :: lo <= i < hi ==> !w.Contains(i)
    ensures Streamed(buf, w, lo, hi) == []
    decreases hi - lo
  {
    if hi > lo {
      StreamedNone(buf, w, lo, hi - 1);
    }
  }

  /** A range that lies wholly inside the window is sent unchanged. */
  lemma {:induction false} StreamedAll(buf: seq<bv8>, w: Window, lo: nat, hi: nat)
    requires IsFrame(buf) && lo <= hi <= BufLen
    requires forall i :: lo <= i < hi ==> w.Contains(i)
    ensures Streamed(buf, w, lo, hi) == buf[lo..hi]
    decreases hi - lo
  {
    if hi > lo {
      StreamedAll(buf, w, lo, hi - 1);
      assert buf[lo..hi] == buf[lo..hi - 1] + [buf[hi - 1]];
    }
  }

  /** Sending a range [first, last) starts with the six window commands
      `0x21, first % 128, last % 128, 0x22, first / 128, last / 128`, and everything after
      them is data: at most last - first bytes. */
  lemma RangeLogShape(frame: seq<bv8>, first: nat, last: nat)
    requires IsFrame(frame) && first <= last <= BufLen
    ensures var log := RangeLog(frame, first, last);
      6 <= |log| <= 6 + (last - first) &&
      log[0] == Cmd(0x21) && log[1] == Cmd(Byte(first % 128)) && log[2] == Cmd(Byte(last % 128)) &&
      log[3] == Cmd(0x22) && log[4] == Cmd(Byte(first / 128)) && log[5] == Cmd(Byte(last / 128)) &&
      forall k :: 6 <= k < |log| ==> log[k].Data?
  {
    var w := WindowOf(first, last);
    var data := DataEntries(Streamed(frame, w, first, last));
    assert RangeLog(frame, first, last)[6..] == data;
  }

  /** Every call of `display` starts with the six window commands of its diff range, and
      everything after them is data: at most last_change - first_change bytes. */
  lemma DisplayLogShape(frame: seq<bv8>, snap: seq<bv8>)
    requires IsFrame(frame) && IsFrame(snap)
    ensures var log, first, last := DisplayLog(frame, snap), FirstChange(frame, snap), LastChange(frame, snap);
      6 <= |log| <= 6 + (last - first) &&
      log[0] == Cmd(0x21) && log[1] == Cmd(Byte(first % 128)) && log[2] == Cmd(Byte(last % 128)) &&
      log[3] == Cmd(0x22) && log[4] == Cmd(Byte(first / 128)) && log[5] == Cmd(Byte(last / 128)) &&
      forall k :: 6 <= k < |log| ==> log[k].Data?
  {
    ChangeOrder(frame, snap);
    RangeLogShape(frame, FirstChange(frame, snap), LastChange(frame, snap));
  }

  /** When the buffers differ at lo and at hi - 1 and agree outside [lo, hi), the scans
      find exactly first_change == lo and last_change == hi. */
  lemma ChangeRangeExact(frame: seq<bv8>, snap: seq<bv8>, lo: nat, hi: nat)
    requires IsFrame(frame) && IsFrame(snap) && lo < hi <= BufLen
    requires frame[lo] != snap[lo] && frame[hi - 1] != snap[hi - 1]
    requires Agree(frame, snap, 0, lo) && Agree(frame, snap, hi, BufLen)
    ensures FirstChange(frame, snap) == lo && LastChange(frame, snap) == hi
  {
    ChangeRange(frame, snap);
  }

  /** Sending the one-byte range [k, k + 1): its byte is sent unless k is in column 127,
      where the exclusive end column wraps to 0 and the window keeps nothing. */
  lemma RangeLogLone(frame: seq<bv8>, k: nat)
    requires IsFrame(frame) && k < BufLen
    ensures RangeLog(frame, k, k + 1) ==
      WindowCommands(Window(k % 128, (k + 1) % 128, k / 128, (k + 1) / 128)) +
      (if k % 128 != 127 then [Data(frame[k])] else [])
  {
    var w := WindowOf(k, k + 1);
    assert w == Window(k % 128, (k + 1) % 128, k / 128, (k + 1) / 128);
    assert Streamed(frame, w, k, k + 1) == (if w.Contains(k) then [frame[k]] else []) by {
      assert Streamed(frame, w, k, k) == [];
    }
    assert w.Contains(k) <==> k % 128 != 127;
    assert DataEntries([frame[k]]) == [Data(frame[k])];
  }

  /** A lone differing byte k: the range is [k, k + 1), and its byte is sent unless k is
      in column 127, where the exclusive end column wraps to 0 and nothing is sent. */
  lemma LoneChange(frame: seq<bv8>, snap: seq<bv8>, k: nat)
    requires IsFrame(frame) && IsFrame(snap) && k < BufLen
    requires forall i :: 0 <= i < BufLen ==> (frame[i] != snap[i] <==> i == k)
    ensures FirstChange(frame, snap) == k && LastChange(frame, snap) == k + 1
    ensures DisplayLog(frame, snap) ==
      WindowCommands(Window(k % 128, (k + 1) % 128, k / 128, (k + 1) / 128)) +
      (if k % 128 != 127 then [Data(frame[k])] else [])
  {
    assert Agree(frame, snap, 0, k) && Agree(frame, snap, k + 1, BufLen);
    ChangeRangeExact(frame, snap, k, k + 1);
    RangeLogLone(frame, k);
  }

  /** Index i of page p: its page is p and its column is its offset in the page. */
  lemma PageOffset(i: nat, p: nat)
    requires 128 * p <= i < 128 * p + 128
    ensures i / 128 == p && i % 128 == i - 128 * p
  {
  }

  /** The window columns 0..0, pages 0..8, keeps the first byte of page p and no other. */
  lemma StreamedPageColumnZero(buf: seq<bv8>, p: nat)
    requires IsFrame(buf) && p < 8
    ensures Streamed(buf, Window(0, 0, 0, 8), 128 * p, 128 * p + 128) == [buf[128 * p]]
  {
    var w, m := Window(0, 0, 0, 8), 128 * p;
    StreamedSplit(buf, w, m, m + 1, m + 128);
    PageOffset(m, p);
    assert Streamed(buf, w, m, m + 1) == [buf[m]] by {
      assert Streamed(buf, w, m, m) == [];
    }
    forall i | m + 1 <= i < m + 128 ensures !w.Contains(i) {
      PageOffset(i, p);
    }
    StreamedNone(buf, w, m + 1, m + 128);
  }

  /** The column-0 byte of each of the first p pages, in page order. */
  function ColumnZeroBytes(buf: seq<bv8>, p: nat): (r: seq<bv8>)
    requires IsFrame(buf) && p <= 8
    ensures |r| == p && forall q :: 0 <= q < p ==> r[q] == buf[128 * q]
  {
    if p == 0 then [] else ColumnZeroBytes(buf, p - 1) + [buf[128 * (p - 1)]]
  }

  /** The streaming filter with window columns 0..0 and pages 0..8 keeps, of the first p
      pages, exactly the column-0 byte of each page. */
  lemma {:induction false} StreamedColumnZero(buf: seq<bv8>, p: nat)
    requires IsFrame(buf) && p <= 8
    ensures Streamed(buf, Window(0, 0, 0, 8), 0, 128 * p) == ColumnZeroBytes(buf, p)
  {
    if p > 0 {
      var w, m := Window(0, 0, 0, 8), 128 * (p - 1);
      StreamedColumnZero(buf, p - 1);
      StreamedSplit(buf, w, 0, m, m + 128);
      StreamedPageColumnZero(buf, p - 1);
    }
  }

  /** Sending the whole buffer [0, 1024) programs the window 0, 0, 0, 8, which keeps
      the column-0 byte of each of the 8 pages. */
  lemma RangeLogWhole(frame: seq<bv8>)
    requires IsFrame(frame)
    ensures var log := RangeLog(frame, 0, BufLen);
      |log| == 14 && log[..6] == [Cmd(0x21), Cmd(0), Cmd(0), Cmd(0x22), Cmd(0), Cmd(8)] &&
      forall p :: 0 <= p < 8 ==> log[6 + p] == Data(frame[128 * p])
  {
    assert WindowOf(0, BufLen) == Window(0, 0, 0, 8);
    StreamedColumnZero(frame, 8);
  }

  /** `display` does not short-circuit when nothing differs: the default range [0, 1024)
      programs the window 0, 0, 0, 8 and sends the column-0 byte of each of the 8 pages. */
  lemma UnchangedFrameLog(frame: seq<bv8>, snap: seq<bv8>)
    requires IsFrame(frame) && IsFrame(snap)
    requires Agree(frame, snap, 0, BufLen)
    ensures var log := DisplayLog(frame, snap);
      |log| == 14 && log[..6] == [Cmd(0x21), Cmd(0), Cmd(0), Cmd(0x22), Cmd(0), Cmd(8)] &&
      forall p :: 0 <= p < 8 ==> log[6 + p] == Data(frame[128 * p])
  {
    ChangeRange(frame, snap);
    RangeLogWhole(frame);
  }

  /** When the start column lies right of the end column (a change range that wraps
      into a later page at a smaller column) the window filter keeps nothing: only the
      six window commands go out. */
  lemma InvertedColumnsSendNothing(frame: seq<bv8>, snap: seq<bv8>)
    requires IsFrame(frame) && IsFrame(snap)
    requires FirstChange(frame, snap) % 128 > LastChange(frame, snap) % 128
    ensures DisplayLog(frame, snap) ==
      WindowCommands(WindowOf(FirstChange(frame, snap), LastChange(frame, snap)))
  {
    ChangeRange(frame, snap);
    var first, last := FirstChange(frame, snap), LastChange(frame, snap);
    StreamedNone(frame, WindowOf(first, last), first, last);
  }

  /** A range inside one page that does not reach its last column is sent whole: the
      data bytes are frame[first..last]. */
  lemma RangeLogSinglePage(frame: seq<bv8>, first: nat, last: nat)
    requires IsFrame(frame) && first < last <= BufLen
    requires first / 128 == (last - 1) / 128 && last % 128 != 0
    ensures RangeLog(frame, first, last) ==
      WindowCommands(WindowOf(first, last)) + DataEntries(frame[first..last])
  {
    var w := WindowOf(first, last);
    forall i | first <= i < last ensures w.Contains(i) {
      assert i / 128 == first / 128;
    }
    StreamedAll(frame, w, first, last);
  }

  /** A diff range inside one page that does not reach its last column is sent whole:
      the data bytes are frame[first_change..last_change]. */
  lemma SinglePageRun(frame: seq<bv8>, snap: seq<bv8>)
    requires IsFrame(frame) && IsFrame(snap)
    requires FirstChange(frame, snap) / 128 == (LastChange(frame, snap) - 1) / 128
    requires LastChange(frame, snap) % 128 != 0
    ensures DisplayLog(frame, snap) ==
      WindowCommands(WindowOf(FirstChange(frame, snap), LastChange(frame, snap))) +
      DataEntries(frame[FirstChange(frame, snap)..LastChange(frame, snap)])
  {
    ChangeOrder(frame, snap);
    RangeLogSinglePage(frame, FirstChange(frame, snap), LastChange(frame, snap));
  }
}
