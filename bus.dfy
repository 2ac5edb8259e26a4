/** The I2C bus as the driver sees it: every transfer is one byte written either to
    the controller's command register (control byte COMMAND_MODE, 0x00) or to its
    display RAM (control byte DATA_MODE, 0x40). The model records transfers in order. */
module Bus {

  /** One transfer: `send_command(b)` or `send_data(b)`. */
  datatype Entry = Cmd(b: bv8) | Data(b: bv8)

  /** Controller opcodes used by the modelled operations. */
  const SetLowColumn: bv8 := 0x00
  const SetHighColumn: bv8 := 0x10
  const SetStartLine: bv8 := 0x40
  const SetColumnAddress: bv8 := 0x21
  const SetPageAddress: bv8 := 0x22
  const NormalDisplay: bv8 := 0xA6
  const InverseDisplay: bv8 := 0xA7

  /** The transfers that stream `bytes` to display RAM, one `Data` entry per byte, in order. */
  function DataEntries(bytes: seq<bv8>): (r: seq<Entry>)
    ensures |r| == |bytes|
    ensures forall k :: 0 <= k < |bytes| ==> r[k] == Data(bytes[k])
  {
    seq(|bytes|, k requires 0 <= k < |bytes| => Data(bytes[k]))
  }

  /** Streaming one more byte appends one more `Data` entry. */
  lemma DataEntriesSnoc(bytes: seq<bv8>, b: bv8)
    ensures DataEntries(bytes + [b]) == DataEntries(bytes) + [Data(b)]
  {
    assert DataEntries(bytes + [b])[|bytes|] == Data(b);
  }

  /** Appending to a log in two steps is appending the two parts at once. */
  lemma AppendAssoc(log: seq<Entry>, xs: seq<Entry>, ys: seq<Entry>)
    ensures log + xs + ys == log + (xs + ys)
  {
  }

  /** Six single entries appended one at a time are the six-entry block. */
  lemma AppendSix(log: seq<Entry>, xs: seq<Entry>)
    requires |xs| == 6
    ensures log + [xs[0]] + [xs[1]] + [xs[2]] + [xs[3]] + [xs[4]] + [xs[5]] == log + xs
  {
    assert xs == [xs[0], xs[1], xs[2], xs[3], xs[4], xs[5]];
  }

  /** The `as u8` cast of a window bound, for a value that fits in a byte. */
  function Byte(n: nat): bv8
    requires n < 256
  {
    n as bv8
  }
}
