/**
 * The sensor's side of the exchange: the trace of levels a sensor produces for
 * a reading, and the law connecting it to the decoder's parsers: the decoder
 * recovers every reading, with any lengths of the clock and start runs. The
 * converse, that every frame the decoder accepts is such a trace, is in
 * SensorFraming.
 */
module SensorEncoding {
  import opened Wrappers
  import opened Bits
  import opened SensorProtocol

  /** Extra samples in the High run and in the Low run of one bit cell. */
  datatype Timing = Timing(high: nat, low: nat)

  function Repeat(level: bool, n: nat): (s: seq<bool>)
    ensures |s| == n && forall i :: 0 <= i < n ==> s[i] == level
  {
    seq(n, _ => level)
  }

  /** The samples of one bit: High run, Low run, the High that ends it, then the bit. */
  function Cell(bit: bool, w: Timing): (c: seq<bool>)
    ensures |c| == w.high + w.low + 3
  {
    Repeat(true, w.high) + [false] + Repeat(false, w.low) + [true, bit]
  }

  /** The cells of `bits`, first bit first. */
  function Cells(bits: seq<bool>, ws: seq<Timing>): (c: seq<bool>)
    requires |ws| == |bits|
    decreases |bits|
  {
    if |bits| == 0 then []
    else Cells(bits[..|bits| - 1], ws[..|bits| - 1]) + Cell(bits[|bits| - 1], ws[|bits| - 1])
  }

  /** The number of samples the cells take with the timings `ws`, whatever their bits. */
  function Duration(ws: seq<Timing>): nat
    decreases |ws|
  {
    if |ws| == 0 then 0 else Duration(ws[..|ws| - 1]) + ws[|ws| - 1].high + ws[|ws| - 1].low + 3
  }

  lemma {:induction false} CellsLength(bits: seq<bool>, ws: seq<Timing>)
    requires |ws| == |bits|
    ensures |Cells(bits, ws)| == Duration(ws)
    decreases |bits|
  {
    if |bits| > 0 {
      CellsLength(bits[..|bits| - 1], ws[..|bits| - 1]);
    }
  }

  /** The samples of the presence check and the ready wait: Low, `lead` more Low, then High. */
  function Header(lead: nat): (s: seq<bool>)
    ensures |s| == lead + 2
  {
    [false] + Repeat(false, lead) + [true]
  }

  /** A sensor's answer carrying the data bits `d` and the checksum bits `c`. */
  function Transmission(d: seq<bool>, c: seq<bool>, lead: nat, ws: seq<Timing>): seq<bool>
    requires |ws| == |d| + |c|
  {
    Header(lead) + Cells(d, ws[..|d|]) + Cells(c, ws[|d|..])
  }

  /**
   * A sensor's answer carrying humidity word `h`, temperature word `tmp` and
   * checksum `crc`, each sent most significant bit first.
   */
  function Encode(h: nat, tmp: nat, crc: nat, lead: nat, ws: seq<Timing>): seq<bool>
    requires |ws| == DataWidth + CheckWidth
  {
    Transmission(ToBits(h * 0x1_0000 + tmp, DataWidth), ToBits(crc, CheckWidth), lead, ws)
  }

  /** `c` occurs in `t` starting at index `pos`. */
  predicate At(t: seq<bool>, pos: nat, c: seq<bool>)
  {
    pos + |c| <= |t| && forall i :: 0 <= i < |c| ==> t[pos + i] == c[i]
  }

  lemma AtSplit(t: seq<bool>, pos: nat, a: seq<bool>, b: seq<bool>)
    requires At(t, pos, a + b)
    ensures At(t, pos, a) && At(t, pos + |a|, b)
  {
    forall i | 0 <= i < |a|
      ensures t[pos + i] == a[i]
    {
      assert (a + b)[i] == a[i];
    }
    forall i | 0 <= i < |b|
      ensures t[pos + |a| + i] == b[i]
    {
      assert (a + b)[|a| + i] == b[i];
    }
  }

  /** A run of `n` samples of `level` ended by a differing one takes the busy-wait n + 1 samples. */
  lemma SkipRun(t: seq<bool>, pos: nat, level: bool, n: nat)
    requires At(t, pos, Repeat(level, n) + [!level])
    ensures SkipWhile(t, pos, level) == Some(pos + n + 1)
  {
    var c := Repeat(level, n) + [!level];
    forall i | pos <= i < pos + n
      ensures t[i] == level
    {
      assert t[pos + (i - pos)] == c[i - pos];
    }
    assert t[pos + n] == c[n];
    SkipWhileStopsAtChange(t, pos, level);
  }

  /** The decoder reads one cell as its bit, consuming exactly the cell. */
  lemma ReadBitParsesCell(t: seq<bool>, pos: nat, bit: bool, w: Timing)
    requires At(t, pos, Cell(bit, w))
    ensures ReadBit(t, pos) == Some(Step(bit, pos + |Cell(bit, w)|))
  {
    var highRun := Repeat(true, w.high) + [false];
    var lowRun := Repeat(false, w.low) + [true];
    assert Cell(bit, w) == highRun + (lowRun + [bit]);
    AtSplit(t, pos, highRun, lowRun + [bit]);
    AtSplit(t, pos + |highRun|, lowRun, [bit]);
    SkipRun(t, pos, true, w.high);
    SkipRun(t, pos + |highRun|, false, w.low);
    var q := pos + |highRun| + |lowRun|;
    assert t[q + 0] == [bit][0];
  }

  /** The decoder reads a run of cells back as their bits, consuming exactly the cells. */
  lemma {:induction false} ReadBitsParsesCells(t: seq<bool>, pos: nat, bits: seq<bool>, ws: seq<Timing>)
    requires |ws| == |bits|
    requires At(t, pos, Cells(bits, ws))
    ensures ReadBits(t, pos, |bits|) == Some(Step(bits, pos + |Cells(bits, ws)|))
  {
    var k := |bits|;
    if k > 0 {
      var bs, w, b := bits[..k - 1], ws[..k - 1], bits[k - 1];
      var init, last := Cells(bs, w), Cell(b, ws[k - 1]);
      var p, q := pos + |init|, pos + |init| + |last|;
      assert Cells(bits, ws) == init + last;
      assert ReadBits(t, pos, k - 1) == Some(Step(bs, p)) && ReadBit(t, p) == Some(Step(b, q)) by {
        AtSplit(t, pos, init, last);
        ReadBitsParsesCells(t, pos, bs, w);
        ReadBitParsesCell(t, p, b, ws[k - 1]);
      }
      CellsSnoc(t, pos, bits, ws, p, q);
    }
  }

  /** The inductive step of ReadBitsParsesCells, apart from the trace layout. */
  lemma CellsSnoc(t: seq<bool>, pos: nat, bits: seq<bool>, ws: seq<Timing>, p: nat, q: nat)
    requires pos <= |t| && |ws| == |bits| > 0
    requires p == pos + |Cells(bits[..|bits| - 1], ws[..|bits| - 1])|
    requires q == p + |Cell(bits[|bits| - 1], ws[|bits| - 1])|
    requires ReadBits(t, pos, |bits| - 1) == Some(Step(bits[..|bits| - 1], p))
    requires ReadBit(t, p) == Some(Step(bits[|bits| - 1], q))
    ensures ReadBits(t, pos, |bits|) == Some(Step(bits, pos + |Cells(bits, ws)|))
  {
    var k := |bits|;
    var bs, b := bits[..k - 1], bits[k - 1];
    ReadBitsSnoc(t, pos, k, bs, p, b, q);
    assert bs + [b] == bits;
    assert |Cells(bits, ws)| == q - pos;
  }

  /** A Low presence sample, `lead` more Low samples and a High: the ready wait ends after them. */
  lemma HeaderParses(t: seq<bool>, lead: nat)
    requires At(t, 0, Header(lead))
    ensures |t| > 0 && !t[0] && SkipWhile(t, 1, false) == Some(lead + 2)
  {
    assert Header(lead) == [false] + (Repeat(false, lead) + [true]);
    AtSplit(t, 0, [false], Repeat(false, lead) + [true]);
    assert t[0 + 0] == [false][0];
    SkipRun(t, 1, false, lead);
  }

  /** The reading returned for a frame whose data field carries `h` and `tmp`. */
  lemma FrameReading(h: nat, tmp: nat, check: seq<bool>)
    requires h < 0x1_0000 && tmp < 0x1_0000
    ensures ReadingOf(Frame(ToBits(h * 0x1_0000 + tmp, DataWidth), check)) == RawReading(h, tmp)
  {
    Pow2Constants();
    FromToBits(h * 0x1_0000 + tmp, DataWidth);
    SplitUnique((h * 0x1_0000 + tmp) as uint32, h, tmp);
  }

  /** Where the header and the two fields of a transmission lie in a trace that starts with it. */
  lemma TransmissionLayout(t: seq<bool>, d: seq<bool>, c: seq<bool>, lead: nat, ws: seq<Timing>)
    requires |ws| == |d| + |c|
    requires At(t, 0, Transmission(d, c, lead, ws))
    ensures var data, check := Cells(d, ws[..|d|]), Cells(c, ws[|d|..]);
      && At(t, 0, Header(lead))
      && At(t, lead + 2, data)
      && At(t, lead + 2 + |data|, check)
      && |Transmission(d, c, lead, ws)| == lead + 2 + |data| + |check|
  {
    var head, data, check := Header(lead), Cells(d, ws[..|d|]), Cells(c, ws[|d|..]);
    assert Transmission(d, c, lead, ws) == (head + data) + check;
    AtSplit(t, 0, head + data, check);
    AtSplit(t, 0, head, data);
  }

  /** The presence check and the ready wait succeed on a transmission. */
  lemma HeaderOf(t: seq<bool>, d: seq<bool>, c: seq<bool>, lead: nat, ws: seq<Timing>)
    requires |ws| == |d| + |c|
    requires At(t, 0, Transmission(d, c, lead, ws))
    ensures |t| > 0 && !t[0] && SkipWhile(t, 1, false) == Some(lead + 2)
  {
    TransmissionLayout(t, d, c, lead, ws);
    HeaderParses(t, lead);
  }

  /** The data field of a transmission is read right after its header. */
  lemma DataOf(t: seq<bool>, d: seq<bool>, c: seq<bool>, lead: nat, ws: seq<Timing>)
    requires |ws| == |d| + |c|
    requires At(t, 0, Transmission(d, c, lead, ws))
    ensures ReadBits(t, lead + 2, |d|) == Some(Step(d, lead + 2 + |Cells(d, ws[..|d|])|))
  {
    TransmissionLayout(t, d, c, lead, ws);
    ReadBitsParsesCells(t, lead + 2, d, ws[..|d|]);
  }

  /** The checksum field of a transmission is read right after its data field, and ends it. */
  lemma CheckOf(t: seq<bool>, d: seq<bool>, c: seq<bool>, lead: nat, ws: seq<Timing>)
    requires |ws| == |d| + |c|
    requires At(t, 0, Transmission(d, c, lead, ws))
    ensures ReadBits(t, lead + 2 + |Cells(d, ws[..|d|])|, |c|)
         == Some(Step(c, |Transmission(d, c, lead, ws)|))
  {
    TransmissionLayout(t, d, c, lead, ws);
    ReadBitsParsesCells(t, lead + 2 + |Cells(d, ws[..|d|])|, c, ws[|d|..]);
  }

  /** The header and both fields of a transmission, with the positions where the fields end. */
  lemma TransmissionFields(t: seq<bool>, d: seq<bool>, c: seq<bool>, lead: nat, ws: seq<Timing>)
      returns (m: nat, e: nat)
    requires |ws| == |d| + |c|
    requires At(t, 0, Transmission(d, c, lead, ws))
    ensures m == lead + 2 + |Cells(d, ws[..|d|])| && e == |Transmission(d, c, lead, ws)|
    ensures |t| > 0 && !t[0] && SkipWhile(t, 1, false) == Some(lead + 2)
    ensures ReadBits(t, lead + 2, |d|) == Some(Step(d, m))
    ensures ReadBits(t, m, |c|) == Some(Step(c, e))
  {
    m, e := lead + 2 + |Cells(d, ws[..|d|])|, |Transmission(d, c, lead, ws)|;
    HeaderOf(t, d, c, lead, ws);
    DataOf(t, d, c, lead, ws);
    CheckOf(t, d, c, lead, ws);
  }

  /** ReceiveFields restated with the positions of a transmission's fields. */
  lemma FieldsReceived(t: seq<bool>, d: seq<bool>, c: seq<bool>, lead: nat, ws: seq<Timing>, m: nat, e: nat)
    requires |d| == DataWidth && |c| == CheckWidth && |ws| == DataWidth + CheckWidth
    requires m == lead + 2 + |Cells(d, ws[..|d|])| && e == |Transmission(d, c, lead, ws)|
    requires |t| > 0 && !t[0] && SkipWhile(t, 1, false) == Some(lead + 2)
    requires ReadBits(t, lead + 2, |d|) == Some(Step(d, m))
    requires ReadBits(t, m, |c|) == Some(Step(c, e))
    ensures Receive(t, 0) == Some(Step(Frame(d, c), e))
  {
    ReceiveFields(t, 0, lead + 2, m, e, d, c);
  }

  /**
   * A trace that starts with a transmission, whatever its run lengths and
   * whatever follows it, is read as exactly that transmission's data and
   * checksum bits.
   */
  lemma TransmissionParses(t: seq<bool>, d: seq<bool>, c: seq<bool>, lead: nat, ws: seq<Timing>)
    requires |d| == DataWidth && |c| == CheckWidth && |ws| == DataWidth + CheckWidth
    requires At(t, 0, Transmission(d, c, lead, ws))
    ensures Receive(t, 0) == Some(Step(Frame(d, c), |Transmission(d, c, lead, ws)|))
  {
    var m, e := TransmissionFields(t, d, c, lead, ws);
    FieldsReceived(t, d, c, lead, ws, m, e);
  }

  /** `pre` occurs at the start of `pre + post`. */
  lemma AtStart(pre: seq<bool>, post: seq<bool>)
    ensures At(pre + post, 0, pre)
  {
    forall i | 0 <= i < |pre|
      ensures (pre + post)[0 + i] == pre[i]
    {
    }
  }

  /**
   * Round trip: for any 16-bit humidity and temperature words, any checksum,
   * any run lengths and whatever follows, the decoder consumes exactly the
   * transmission and returns the two words.
   */
  lemma RoundTrip(h: nat, tmp: nat, crc: nat, lead: nat, ws: seq<Timing>, rest: seq<bool>)
    requires h < 0x1_0000 && tmp < 0x1_0000 && crc < 0x100
    requires |ws| == DataWidth + CheckWidth
    ensures Decode(Encode(h, tmp, crc, lead, ws) + rest, 0) == Returned(Scale(RawReading(h, tmp)))
    ensures After(Encode(h, tmp, crc, lead, ws) + rest, 0) == |Encode(h, tmp, crc, lead, ws)|
  {
    var d, c := ToBits(h * 0x1_0000 + tmp, DataWidth), ToBits(crc, CheckWidth);
    AtStart(Encode(h, tmp, crc, lead, ws), rest);
    TransmissionParses(Encode(h, tmp, crc, lead, ws) + rest, d, c, lead, ws);
    FrameReading(h, tmp, c);
  }

  /** Changing the checksum a sensor sends never changes what the decoder returns or how far it reads. */
  lemma ChecksumIgnored(h: nat, tmp: nat, crc1: nat, crc2: nat, lead: nat, ws: seq<Timing>, rest: seq<bool>)
    requires h < 0x1_0000 && tmp < 0x1_0000 && crc1 < 0x100 && crc2 < 0x100
    requires |ws| == DataWidth + CheckWidth
    ensures Decode(Encode(h, tmp, crc1, lead, ws) + rest, 0) == Decode(Encode(h, tmp, crc2, lead, ws) + rest, 0)
    ensures After(Encode(h, tmp, crc1, lead, ws) + rest, 0) == After(Encode(h, tmp, crc2, lead, ws) + rest, 0)
  {
    RoundTrip(h, tmp, crc1, lead, ws, rest);
    RoundTrip(h, tmp, crc2, lead, ws, rest);
    EncodeLength(h, tmp, crc1, lead, ws);
    EncodeLength(h, tmp, crc2, lead, ws);
  }

  /** A transmission's length depends only on its run lengths. */
  lemma EncodeLength(h: nat, tmp: nat, crc: nat, lead: nat, ws: seq<Timing>)
    requires |ws| == DataWidth + CheckWidth
    ensures |Encode(h, tmp, crc, lead, ws)| == lead + 2 + Duration(ws[..DataWidth]) + Duration(ws[DataWidth..])
  {
    CellsLength(ToBits(h * 0x1_0000 + tmp, DataWidth), ws[..DataWidth]);
    CellsLength(ToBits(crc, CheckWidth), ws[DataWidth..]);
  }
}
