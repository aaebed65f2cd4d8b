/**
 * The converse of the round trip: every trace the decoder accepts as a frame
 * begins with a transmission in the sense of SensorEncoding, with run lengths
 * read off the trace itself. So the decoder accepts frames of exactly the
 * shape the encoder produces, and returns exactly the words encoded in them.
 */
module SensorFraming {
  import opened Wrappers
  import opened Bits
  import opened SensorProtocol
  import opened SensorEncoding

  /** `a` then `b` at `pos` is `a + b` at `pos`. */
  lemma AtJoin(t: seq<bool>, pos: nat, a: seq<bool>, b: seq<bool>)
    requires At(t, pos, a) && At(t, pos + |a|, b)
    ensures At(t, pos, a + b)
  {
    forall i | 0 <= i < |a + b|
      ensures t[pos + i] == (a + b)[i]
    {
      if i >= |a| {
        assert t[pos + |a| + (i - |a|)] == b[i - |a|];
      }
    }
  }

  /** A busy-wait that stops at `stop` has passed a run of `level` and one differing sample. */
  lemma RunAt(t: seq<bool>, pos: nat, level: bool, stop: nat)
    requires pos <= |t| && SkipWhile(t, pos, level) == Some(stop)
    ensures At(t, pos, Repeat(level, stop - pos - 1) + [!level])
  {
    SkipWhileStopsAtChange(t, pos, level);
    var c := Repeat(level, stop - pos - 1) + [!level];
    forall i | 0 <= i < |c|
      ensures t[pos + i] == c[i]
    {
    }
  }

  /** The run lengths of the bit cell the decoder reads at `pos`. */
  function CellTiming(t: seq<bool>, pos: nat): (w: Timing)
    requires pos <= |t| && ReadBit(t, pos).Some?
  {
    var p := SkipWhile(t, pos, true).value;
    var q := SkipWhile(t, p, false).value;
    Timing(p - pos - 1, q - p - 1)
  }

  /** What the decoder reads as one bit is a cell of that bit. */
  lemma ReadBitIsCell(t: seq<bool>, pos: nat, bit: bool, n: nat)
    requires pos <= |t| && ReadBit(t, pos) == Some(Step(bit, n))
    ensures At(t, pos, Cell(bit, CellTiming(t, pos))) && n == pos + |Cell(bit, CellTiming(t, pos))|
  {
    var p := SkipWhile(t, pos, true).value;
    var q := SkipWhile(t, p, false).value;
    var w := CellTiming(t, pos);
    RunAt(t, pos, true, p);
    RunAt(t, p, false, q);
    assert At(t, q, [bit]);
    var highRun, lowRun := Repeat(true, w.high) + [false], Repeat(false, w.low) + [true];
    AtJoin(t, p, lowRun, [bit]);
    AtJoin(t, pos, highRun, lowRun + [bit]);
    assert Cell(bit, w) == highRun + (lowRun + [bit]);
  }

  /** The run lengths of the k cells the decoder reads from `pos`. */
  function Timings(t: seq<bool>, pos: nat, k: nat): (ws: seq<Timing>)
    requires pos <= |t| && ReadBits(t, pos, k).Some?
    ensures |ws| == k
    decreases k
  {
    if k == 0 then []
    else Timings(t, pos, k - 1) + [CellTiming(t, ReadBits(t, pos, k - 1).value.next)]
  }

  /** A read of k > 0 bits is a read of k - 1 bits followed by one more bit. */
  lemma ReadBitsLast(t: seq<bool>, pos: nat, k: nat, bits: seq<bool>, n: nat) returns (bs: seq<bool>, p: nat, b: bool)
    requires pos <= |t| && 0 < k && ReadBits(t, pos, k) == Some(Step(bits, n))
    ensures p <= |t| && ReadBits(t, pos, k - 1) == Some(Step(bs, p))
    ensures ReadBit(t, p) == Some(Step(b, n)) && bits == bs + [b]
  {
    var s := ReadBits(t, pos, k - 1).value;
    bs, p := s.value, s.next;
    b := ReadBit(t, p).value.value;
  }

  /** What the decoder reads as k bits is the cells of those bits. */
  lemma {:induction false} ReadBitsIsCells(t: seq<bool>, pos: nat, k: nat, bits: seq<bool>, n: nat)
    requires pos <= |t| && ReadBits(t, pos, k) == Some(Step(bits, n))
    ensures At(t, pos, Cells(bits, Timings(t, pos, k))) && n == pos + |Cells(bits, Timings(t, pos, k))|
    decreases k, 1
  {
    if k > 0 {
      var bs, p, b := ReadBitsLast(t, pos, k, bits, n);
      ReadBitsIsCellsStep(t, pos, k, bits, n, bs, p, b);
    } else {
      assert bits == [] && n == pos && Timings(t, pos, k) == [];
    }
  }

  /** The inductive step of ReadBitsIsCells: one more bit read is one more cell. */
  lemma {:induction false} ReadBitsIsCellsStep(t: seq<bool>, pos: nat, k: nat, bits: seq<bool>, n: nat, bs: seq<bool>, p: nat, b: bool)
    requires pos <= |t| && 0 < k && ReadBits(t, pos, k) == Some(Step(bits, n))
    requires p <= |t| && ReadBits(t, pos, k - 1) == Some(Step(bs, p))
    requires ReadBit(t, p) == Some(Step(b, n)) && bits == bs + [b]
    ensures At(t, pos, Cells(bits, Timings(t, pos, k))) && n == pos + |Cells(bits, Timings(t, pos, k))|
    decreases k, 0
  {
    ReadBitsIsCells(t, pos, k - 1, bs, p);
    ReadBitIsCell(t, p, b, n);
    TimingsSnoc(t, pos, k, bs, p);
    CellsStep(t, pos, bs, b, Timings(t, pos, k - 1), CellTiming(t, p), p, n);
  }

  /** The run lengths of k cells: those of the first k - 1, then that of the cell at `p`. */
  lemma TimingsSnoc(t: seq<bool>, pos: nat, k: nat, bs: seq<bool>, p: nat)
    requires pos <= |t| && 0 < k && ReadBits(t, pos, k).Some?
    requires ReadBits(t, pos, k - 1) == Some(Step(bs, p))
    ensures ReadBit(t, p).Some? && Timings(t, pos, k) == Timings(t, pos, k - 1) + [CellTiming(t, p)]
  {
  }

  /** Cells of `bs` followed by the cell of `b` are the cells of `bs + [b]`. */
  lemma CellsStep(t: seq<bool>, pos: nat, bs: seq<bool>, b: bool, ws: seq<Timing>, w: Timing, p: nat, n: nat)
    requires |ws| == |bs|
    requires At(t, pos, Cells(bs, ws)) && p == pos + |Cells(bs, ws)|
    requires At(t, p, Cell(b, w)) && n == p + |Cell(b, w)|
    ensures At(t, pos, Cells(bs + [b], ws + [w])) && n == pos + |Cells(bs + [b], ws + [w])|
  {
    assert (bs + [b])[..|bs|] == bs && (ws + [w])[..|bs|] == ws;
    AtJoin(t, pos, Cells(bs, ws), Cell(b, w));
  }

  /** A Low presence sample followed by a ready run of length `lead` is a header. */
  lemma HeaderAt(t: seq<bool>, pos: nat, lead: nat)
    requires pos < |t| && !t[pos] && At(t, pos + 1, Repeat(false, lead) + [true])
    ensures At(t, pos, Header(lead))
  {
    var run := Repeat(false, lead) + [true];
    forall i | 0 <= i < |Header(lead)|
      ensures t[pos + i] == Header(lead)[i]
    {
      if i > 0 {
        assert t[pos + 1 + (i - 1)] == run[i - 1];
      }
    }
  }

  /** What the decoder reads as the presence sample and the ready wait is a header. */
  lemma ReadyIsHeader(t: seq<bool>, pos: nat, p: nat)
    requires pos < |t| && !t[pos] && SkipWhile(t, pos + 1, false) == Some(p)
    ensures At(t, pos, Header(p - pos - 2)) && p == pos + |Header(p - pos - 2)|
  {
    RunAt(t, pos + 1, false, p);
    HeaderAt(t, pos, p - pos - 2);
  }

  /** The ready-wait length of the frame the decoder reads at `pos`. */
  function FrameLead(t: seq<bool>, pos: nat): nat
    requires pos <= |t| && Receive(t, pos).Some? && Receive(t, pos).value.value.Frame?
  {
    SkipWhile(t, pos + 1, false).value - pos - 2
  }

  /** The run lengths of the 40 cells of the frame the decoder reads at `pos`. */
  function FrameTimings(t: seq<bool>, pos: nat): (ws: seq<Timing>)
    requires pos <= |t| && Receive(t, pos).Some? && Receive(t, pos).value.value.Frame?
    ensures |ws| == DataWidth + CheckWidth
  {
    var p := SkipWhile(t, pos + 1, false).value;
    var m := ReadBits(t, p, DataWidth).value.next;
    Timings(t, p, DataWidth) + Timings(t, m, CheckWidth)
  }

  /** Header, data cells and checksum cells laid end to end form a transmission. */
  lemma TransmissionAt(t: seq<bool>, pos: nat, p: nat, m: nat, d: seq<bool>, c: seq<bool>, lead: nat, wd: seq<Timing>, wc: seq<Timing>)
    requires |wd| == |d| && |wc| == |c|
    requires At(t, pos, Header(lead)) && p == pos + |Header(lead)|
    requires At(t, p, Cells(d, wd)) && m == p + |Cells(d, wd)|
    requires At(t, m, Cells(c, wc))
    ensures At(t, pos, Transmission(d, c, lead, wd + wc))
    ensures |Transmission(d, c, lead, wd + wc)| == |Header(lead)| + |Cells(d, wd)| + |Cells(c, wc)|
  {
    assert (wd + wc)[..|d|] == wd && (wd + wc)[|d|..] == wc;
    AtJoin(t, pos, Header(lead), Cells(d, wd));
    AtJoin(t, pos, Header(lead) + Cells(d, wd), Cells(c, wc));
  }

  /** The positions where the parts of a frame the decoder accepts at `pos` end. */
  lemma FrameParts(t: seq<bool>, pos: nat) returns (p: nat, m: nat)
    requires pos <= |t| && Receive(t, pos).Some? && Receive(t, pos).value.value.Frame?
    ensures pos < |t| && !t[pos] && SkipWhile(t, pos + 1, false) == Some(p)
    ensures ReadBits(t, p, DataWidth) == Some(Step(Receive(t, pos).value.value.data, m))
    ensures ReadBits(t, m, CheckWidth) == Some(Step(Receive(t, pos).value.value.check, Receive(t, pos).value.next))
    ensures FrameLead(t, pos) == p - pos - 2
    ensures FrameTimings(t, pos) == Timings(t, p, DataWidth) + Timings(t, m, CheckWidth)
  {
    p := SkipWhile(t, pos + 1, false).value;
    m := ReadBits(t, p, DataWidth).value.next;
  }

  /** The parts of an accepted frame, with widths left symbolic, form a transmission. */
  lemma PartsAreTransmission(t: seq<bool>, pos: nat, p: nat, m: nat, e: nat, d: seq<bool>, c: seq<bool>,
                             lead: nat, wd: seq<Timing>, wc: seq<Timing>)
    requires pos < |t| && !t[pos] && SkipWhile(t, pos + 1, false) == Some(p)
    requires ReadBits(t, p, |d|) == Some(Step(d, m))
    requires ReadBits(t, m, |c|) == Some(Step(c, e))
    requires lead == p - pos - 2 && wd == Timings(t, p, |d|) && wc == Timings(t, m, |c|)
    ensures At(t, pos, Transmission(d, c, lead, wd + wc)) && e == pos + |Transmission(d, c, lead, wd + wc)|
  {
    ReadyIsHeader(t, pos, p);
    ReadBitsIsCells(t, p, |d|, d, m);
    ReadBitsIsCells(t, m, |c|, c, e);
    TransmissionAt(t, pos, p, m, d, c, lead, wd, wc);
  }

  /**
   * Every frame the decoder accepts at `pos` is a transmission of its data
   * and checksum bits, with the run lengths found in the trace, and the
   * decoder stops right after it.
   */
  lemma FrameIsTransmission(t: seq<bool>, pos: nat)
    requires pos <= |t| && Receive(t, pos).Some? && Receive(t, pos).value.value.Frame?
    ensures var s := Receive(t, pos).value;
      var tr := Transmission(s.value.data, s.value.check, FrameLead(t, pos), FrameTimings(t, pos));
      At(t, pos, tr) && s.next == pos + |tr|
  {
    var s := Receive(t, pos).value;
    var p, m := FrameParts(t, pos);
    var d, c := s.value.data, s.value.check;
    assert |d| == DataWidth && |c| == CheckWidth;
    PartsAreTransmission(t, pos, p, m, s.next, d, c, FrameLead(t, pos), Timings(t, p, |d|), Timings(t, m, |c|));
  }

  /** The checksum value a frame carries encodes back to its bits. */
  lemma CheckEncodes(c: seq<bool>)
    requires |c| == CheckWidth
    ensures FromBits(c) < 0x100 && ToBits(FromBits(c), |c|) == c
  {
    Pow2Constants();
    ToFromBits(c);
  }

  /** A decode that receives a frame returns the scaled words it carries. */
  lemma DecodeOfFrame(t: seq<bool>, pos: nat, d: seq<bool>, c: seq<bool>, n: nat)
    requires pos <= |t| && Receive(t, pos) == Some(Step(Frame(d, c), n))
    ensures Decode(t, pos) == Returned(Scale(ReadingOf(Frame(d, c))))
  {
  }

  /**
   * Every frame the decoder accepts at the start of a trace is the encoding
   * of the humidity and temperature words it returns, with the checksum
   * value it carries.
   */
  lemma FrameIsEncoded(t: seq<bool>, d: seq<bool>, c: seq<bool>, n: nat)
    requires Receive(t, 0) == Some(Step(Frame(d, c), n))
    ensures var w := ReadingOf(Frame(d, c));
      var e := Encode(w.humidity, w.temperature, FromBits(c), FrameLead(t, 0), FrameTimings(t, 0));
      At(t, 0, e) && n == |e| && Decode(t, 0) == Returned(Scale(w))
  {
    DecodeOfFrame(t, 0, d, c, n);
    FrameIsTransmission(t, 0);
    var w := ReadingOf(Frame(d, c));
    TransmissionIsEncoded(d, c, w.humidity, w.temperature, FrameLead(t, 0), FrameTimings(t, 0));
  }

  /** The transmission of 32 data bits and 8 checksum bits is the encoding of the words they carry. */
  lemma {:induction false} TransmissionIsEncoded(d: seq<bool>, c: seq<bool>, h: nat, tmp: nat, lead: nat, ws: seq<Timing>)
    requires |d| == DataWidth && |c| == CheckWidth && |ws| == DataWidth + CheckWidth
    requires h * 0x1_0000 + tmp == FromBits(d)
    ensures Encode(h, tmp, FromBits(c), lead, ws) == Transmission(d, c, lead, ws)
  {
    ToFromBits(d);
    assert ToBits(h * 0x1_0000 + tmp, DataWidth) == d;
    CheckEncodes(c);
    assert ToBits(FromBits(c), CheckWidth) == c;
    EncodeIsTransmission(h, tmp, FromBits(c), lead, ws, d, c);
  }

  lemma EncodeIsTransmission(h: nat, tmp: nat, crc: nat, lead: nat, ws: seq<Timing>, d: seq<bool>, c: seq<bool>)
    requires |ws| == DataWidth + CheckWidth && |d| == DataWidth && |c| == CheckWidth
    requires ToBits(h * 0x1_0000 + tmp, DataWidth) == d && ToBits(crc, CheckWidth) == c
    ensures Encode(h, tmp, crc, lead, ws) == Transmission(d, c, lead, ws)
  {
  }
}
