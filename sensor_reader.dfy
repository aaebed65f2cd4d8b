/**
 * The decoder itself, as the source writes it: a method that drives the pin
 * through the start handshake and then busy-waits on and samples the data
 * line, accumulating the bits into an unsigned 32-bit word and an 8-bit
 * checksum. Each method is proved against the positional functions of
 * SensorProtocol: what it returns, how far it reads the trace, and the exact
 * sequence of pin operations it performs.
 */
module SensorReader {
  import opened Wrappers
  import opened Bits
  import opened Gpio
  import opened SensorProtocol

  /**
   * `while (dataPin.Read() == level) { }`: reads until a sample differs from
   * `level`. It reports false when the trace ran out first (where the
   * hardware would spin for ever).
   */
  method BusyWait(pin: Pin, level: bool) returns (ok: bool)
    requires pin.Valid()
    modifies pin
    ensures pin.Valid()
    ensures pin.mode == old(pin.mode) && pin.pull == old(pin.pull)
    ensures ok == SkipWhile(pin.samples, old(pin.cursor), level).Some?
    ensures pin.cursor == if ok then SkipWhile(pin.samples, old(pin.cursor), level).value else |pin.samples|
    ensures pin.log == old(pin.log) + Reads(pin.samples, old(pin.cursor), pin.cursor, pin.mode, pin.pull)
  {
    ghost var t, c0 := pin.samples, pin.cursor;
    var s := pin.Read();
    while s == Some(level)
      invariant pin.Valid() && pin.samples == t && c0 <= pin.cursor
      invariant pin.mode == old(pin.mode) && pin.pull == old(pin.pull)
      invariant SkipWhile(t, c0, level) ==
                  if s == Some(level) then SkipWhile(t, pin.cursor, level)
                  else if s.None? then None
                  else Some(pin.cursor)
      invariant s.None? ==> pin.cursor == |t|
      invariant pin.log == old(pin.log) + Reads(t, c0, pin.cursor, pin.mode, pin.pull)
      decreases |t| - pin.cursor + (if s == Some(level) then 1 else 0)
    {
      ghost var c := pin.cursor;
      s := pin.Read();
      ReadsAppend(old(pin.log), t, c0, c, pin.cursor, pin.mode, pin.pull);
    }
    ok := s.Some?;
  }

  /**
   * One bit of the data or checksum field: wait out the High clock run, wait
   * out the Low run, then sample the line. None when the trace ran out.
   */
  method SampleBit(pin: Pin) returns (b: Option<bool>)
    requires pin.Valid()
    modifies pin
    ensures pin.Valid()
    ensures pin.mode == old(pin.mode) && pin.pull == old(pin.pull)
    ensures b.Some? == ReadBit(pin.samples, old(pin.cursor)).Some?
    ensures b.Some? ==> b.value == ReadBit(pin.samples, old(pin.cursor)).value.value
    ensures pin.cursor == if b.Some? then ReadBit(pin.samples, old(pin.cursor)).value.next else |pin.samples|
    ensures pin.log == old(pin.log) + Reads(pin.samples, old(pin.cursor), pin.cursor, pin.mode, pin.pull)
  {
    ghost var t, c0 := pin.samples, pin.cursor;
    var ok := BusyWait(pin, true);
    if !ok {
      return None;
    }
    ghost var p := pin.cursor;
    ok := BusyWait(pin, false);
    ReadsAppend(old(pin.log), t, c0, p, pin.cursor, pin.mode, pin.pull);
    if !ok {
      return None;
    }
    ghost var q := pin.cursor;
    // The pause before the sample has no effect on the samples the model reads.
    b := pin.Read();
    ReadsAppend(old(pin.log), t, c0, q, pin.cursor, pin.mode, pin.pull);
  }

  /**
   * The data loop: 32 bits shifted into an unsigned 32-bit word, most
   * significant first. `bits` are the bits read; the word never wraps, so it
   * is their value. None when the trace runs out.
   */
  method ReadDataField(pin: Pin) returns (data: Option<uint32>, ghost bits: seq<bool>)
    requires pin.Valid()
    modifies pin
    ensures pin.Valid()
    ensures pin.mode == old(pin.mode) && pin.pull == old(pin.pull)
    ensures data.Some? == ReadBits(pin.samples, old(pin.cursor), DataWidth).Some?
    ensures data.Some? ==> ReadBits(pin.samples, old(pin.cursor), DataWidth) == Some(Step(bits, pin.cursor))
    ensures data.Some? ==> data.value as int == FromBits(bits)
    ensures data.None? ==> pin.cursor == |pin.samples|
    ensures pin.log == old(pin.log) + Reads(pin.samples, old(pin.cursor), pin.cursor, pin.mode, pin.pull)
  {
    ghost var t, c0 := pin.samples, pin.cursor;
    Pow2Constants();
    var word: uint32 := 0;
    bits := [];
    var i := 0;
    while i < DataWidth
      invariant 0 <= i <= DataWidth
      invariant pin.Valid() && pin.samples == t && c0 <= pin.cursor
      invariant pin.mode == old(pin.mode) && pin.pull == old(pin.pull)
      invariant ReadBits(t, c0, i) == Some(Step(bits, pin.cursor))
      invariant word as int == FromBits(bits)
      invariant pin.log == old(pin.log) + Reads(t, c0, pin.cursor, pin.mode, pin.pull)
    {
      ghost var c := pin.cursor;
      var b := SampleBit(pin);
      ReadsAppend(old(pin.log), t, c0, c, pin.cursor, pin.mode, pin.pull);
      if b.None? {
        ReadBitsFailsOnward(t, c0, i + 1, DataWidth);
        return None, bits;
      }
      ReadBitsSnoc(t, c0, i + 1, bits, c, b.value, pin.cursor);
      ShiftIn(bits, b.value, DataWidth);
      word := Wrap32(word as int * 2);
      if b.value {
        word := Wrap32(word as int + 1);
      }
      bits := bits + [b.value];
      i := i + 1;
    }
    data := Some(word);
  }

  /**
   * The checksum loop: 8 bits shifted into a byte in the same way. The
   * decoder keeps the byte but never compares it with anything.
   */
  method ReadChecksum(pin: Pin) returns (crc: Option<byte>, ghost bits: seq<bool>)
    requires pin.Valid()
    modifies pin
    ensures pin.Valid()
    ensures pin.mode == old(pin.mode) && pin.pull == old(pin.pull)
    ensures crc.Some? == ReadBits(pin.samples, old(pin.cursor), CheckWidth).Some?
    ensures crc.Some? ==> ReadBits(pin.samples, old(pin.cursor), CheckWidth) == Some(Step(bits, pin.cursor))
    ensures crc.Some? ==> crc.value as int == FromBits(bits)
    ensures crc.None? ==> pin.cursor == |pin.samples|
    ensures pin.log == old(pin.log) + Reads(pin.samples, old(pin.cursor), pin.cursor, pin.mode, pin.pull)
  {
    ghost var t, c0 := pin.samples, pin.cursor;
    Pow2Constants();
    var word: byte := 0;
    bits := [];
    var i := 0;
    while i < CheckWidth
      invariant 0 <= i <= CheckWidth
      invariant pin.Valid() && pin.samples == t && c0 <= pin.cursor
      invariant pin.mode == old(pin.mode) && pin.pull == old(pin.pull)
      invariant ReadBits(t, c0, i) == Some(Step(bits, pin.cursor))
      invariant word as int == FromBits(bits)
      invariant pin.log == old(pin.log) + Reads(t, c0, pin.cursor, pin.mode, pin.pull)
    {
      ghost var c := pin.cursor;
      var b := SampleBit(pin);
      ReadsAppend(old(pin.log), t, c0, c, pin.cursor, pin.mode, pin.pull);
      if b.None? {
        ReadBitsFailsOnward(t, c0, i + 1, CheckWidth);
        return None, bits;
      }
      ReadBitsSnoc(t, c0, i + 1, bits, c, b.value, pin.cursor);
      ShiftIn(bits, b.value, CheckWidth);
      word := Wrap8(word as int * 2);
      if b.value {
        word := Wrap8(word as int + 1);
      }
      bits := bits + [b.value];
      i := i + 1;
    }
    crc := Some(word);
  }

  /** The pin operations of the start signal, before the first read. */
  const Handshake: seq<PinEvent> :=
    [ModeSet(Output), Wrote(High), Wrote(Low), ModeSet(Input), PullSet(PullUp)]

  /**
   * The decoder: sends the start signal, checks that the sensor pulls the
   * line Low, waits for the line to go High, and then reads 32 data bits
   * into an unsigned word and 8 checksum bits into a byte. The result is
   * the one Decode gives for the samples from the first read on, the pin
   * has read exactly the samples Receive consumes, and the log is the start
   * signal followed by those reads, all taken as an input with the pull-up.
   */
  method ReadSensorData(pin: Pin) returns (r: Outcome)
    requires pin.Valid()
    modifies pin
    ensures pin.Valid()
    ensures r == Decode(pin.samples, old(pin.cursor))
    ensures pin.cursor == After(pin.samples, old(pin.cursor))
    ensures pin.mode == Input && pin.pull == PullUp
    ensures pin.log == old(pin.log) + Handshake + Reads(pin.samples, old(pin.cursor), pin.cursor, Input, PullUp)
  {
    ghost var t, c0 := pin.samples, pin.cursor;
    pin.SetMode(Output);
    pin.Write(High);
    // The start pulse's length has no effect on the samples.
    pin.Write(Low);
    pin.SetMode(Input);
    pin.SetPull(PullUp);
    // Neither has the pause before the presence sample.
    ghost var log1 := pin.log;
    assert log1 == old(pin.log) + Handshake;
    var present := pin.Read();
    if present.None? {
      return Exhausted;
    }
    if present.value {
      return Returned(Reading(0.0, 0.0));
    }
    ghost var c1 := pin.cursor;
    var ready := BusyWait(pin, false);
    ReadsAppend(log1, t, c0, c1, pin.cursor, Input, PullUp);
    if !ready {
      ReceiveNoReady(t, c0);
      return Exhausted;
    }
    ghost var p := pin.cursor;
    var data, dataBits := ReadDataField(pin);
    ReadsAppend(log1, t, c0, p, pin.cursor, Input, PullUp);
    if data.None? {
      ReceiveNoData(t, c0, p);
      return Exhausted;
    }
    ghost var m := pin.cursor;
    var crc, checkBits := ReadChecksum(pin);
    ReadsAppend(log1, t, c0, m, pin.cursor, Input, PullUp);
    if crc.None? {
      ReceiveNoCheck(t, c0, p, m, dataBits);
      return Exhausted;
    }
    ReceiveFields(t, c0, p, m, pin.cursor, dataBits, checkBits);
    // The checksum is read but never compared with the data.
    r := Returned(Scale(Split(data.value)));
  }

  /**
   * With no sensor the decoder returns `(default, default)` after exactly one
   * read, the presence sample, taken as an input with the pull-up.
   */
  lemma AbsentSensor(t: seq<bool>, pos: nat)
    requires pos < |t| && t[pos]
    ensures Decode(t, pos) == Returned(Reading(0.0, 0.0))
    ensures After(t, pos) == pos + 1
    ensures Reads(t, pos, After(t, pos), Input, PullUp) == [Sampled(true, Input, PullUp)]
  {
    assert Reads(t, pos, pos, Input, PullUp) == [];
  }

  /**
   * The order of the pin operations in one decode: the five steps of the
   * start signal come first, none of them a read, and every event after them
   * is the read of the next sample, taken as an input with the pull-up.
   */
  lemma {:induction false} StartSignalFirst(t: seq<bool>, pos: nat, i: nat)
    requires pos <= |t| && i < |Handshake| + After(t, pos) - pos
    ensures var e := Handshake + Reads(t, pos, After(t, pos), Input, PullUp);
      && (i < |Handshake| ==> !e[i].Sampled? && e[..|Handshake|] == Handshake)
      && (i >= |Handshake| ==> e[i] == Sampled(t[pos + i - |Handshake|], Input, PullUp))
  {
    if i >= |Handshake| {
      ReadsAreSamples(t, pos, After(t, pos), Input, PullUp, i - |Handshake|);
    }
  }
}
