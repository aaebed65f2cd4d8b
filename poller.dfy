/**
 * The humidity/temperature poller: every cycle it drives the line High as
 * an output, runs the decoder, and shows either the pair it returned or a
 * placeholder line when both numbers are the default zero, which is how the
 * decoder reports an absent sensor.
 */
module Poller {
  import opened Gpio
  import opened Bits
  import opened SensorProtocol
  import opened SensorEncoding
  import opened SensorReader

  /** The line shown for one decode: the placeholder, or the two numbers. */
  datatype Report = NoReading | Shown(humidity: real, temperature: real)

  /** The absent/present decision: the placeholder exactly when both numbers are zero. */
  function ReportOf(rd: Reading): (rep: Report)
    ensures rep.NoReading? <==> rd.humidity == 0.0 && rd.temperature == 0.0
    ensures rep.Shown? ==> rep == Shown(rd.humidity, rd.temperature)
  {
    if rd.humidity == 0.0 && rd.temperature == 0.0 then NoReading
    else Shown(rd.humidity, rd.temperature)
  }

  /** What the poller does to the pin before each cycle's decode (and once before the loop). */
  const Prelude: seq<PinEvent> := [ModeSet(Output), Wrote(High)]

  /** The pin events of one cycle that starts reading at sample `pos`. */
  function CycleEvents(t: seq<bool>, pos: nat): (e: seq<PinEvent>)
    requires pos <= |t|
    ensures |e| == |Prelude| + |Handshake| + After(t, pos) - pos
  {
    Prelude + Handshake + Reads(t, pos, After(t, pos), Input, PullUp)
  }

  /** The pin operations of one cycle, appended one at a time, are its events. */
  lemma CycleLog(log: seq<PinEvent>, t: seq<bool>, pos: nat)
    requires pos <= |t|
    ensures log + [ModeSet(Output)] + [Wrote(High)] + Handshake + Reads(t, pos, After(t, pos), Input, PullUp)
         == log + CycleEvents(t, pos)
  {
  }

  /**
   * What `n` cycles of the poller show, the events they cause, the first
   * sample left unread, and whether a decode ran out of samples (where the
   * hardware would leave the poller stuck in a busy-wait).
   */
  datatype PollRun = PollRun(reports: seq<Report>, events: seq<PinEvent>, next: nat, hung: bool)

  function Polls(t: seq<bool>, pos: nat, n: nat): (run: PollRun)
    requires pos <= |t|
    ensures pos <= run.next <= |t|
    ensures run.hung ==> run.next == |t| && |run.reports| < n
    ensures !run.hung ==> |run.reports| == n
    decreases n
  {
    if n == 0 then PollRun([], [], pos, false)
    else
      match Decode(t, pos)
      case Exhausted => PollRun([], CycleEvents(t, pos), |t|, true)
      case Returned(rd) =>
        var rest := Polls(t, After(t, pos), n - 1);
        PollRun([ReportOf(rd)] + rest.reports, CycleEvents(t, pos) + rest.events, rest.next, rest.hung)
  }

  lemma AppendAssoc<T>(a: seq<T>, b: seq<T>, c: seq<T>)
    ensures a + b + c == a + (b + c)
  {
  }

  /** The cycles already run, in front of the run of the remaining ones. */
  function Prepend(reports: seq<Report>, events: seq<PinEvent>, run: PollRun): PollRun
  {
    PollRun(reports + run.reports, events + run.events, run.next, run.hung)
  }

  /** One more cycle, ending in a reading, after the ones already in `reports` and `events`. */
  lemma PollsStep(t: seq<bool>, c: nat, m: nat, reports: seq<Report>, events: seq<PinEvent>, rd: Reading)
    requires c <= |t| && 0 < m
    requires Decode(t, c) == Returned(rd)
    ensures Prepend(reports, events, Polls(t, c, m))
         == Prepend(reports + [ReportOf(rd)], events + CycleEvents(t, c), Polls(t, After(t, c), m - 1))
  {
    var rest := Polls(t, After(t, c), m - 1);
    assert reports + ([ReportOf(rd)] + rest.reports) == (reports + [ReportOf(rd)]) + rest.reports;
    assert events + (CycleEvents(t, c) + rest.events) == (events + CycleEvents(t, c)) + rest.events;
  }

  /** One more cycle, whose decode runs out, after the ones already run. */
  lemma PollsHang(t: seq<bool>, c: nat, m: nat, reports: seq<Report>, events: seq<PinEvent>)
    requires c <= |t| && 0 < m
    requires Decode(t, c) == Exhausted
    ensures Prepend(reports, events, Polls(t, c, m)) == PollRun(reports, events + CycleEvents(t, c), |t|, true)
  {
    assert reports + [] == reports;
  }

  /** One pass of the poller loop up to the decode: drive the line High as an output, wait, decode. */
  method PollOnce(pin: Pin) returns (r: Outcome)
    requires pin.Valid()
    modifies pin
    ensures pin.Valid()
    ensures pin.mode == Input && pin.pull == PullUp
    ensures r == Decode(pin.samples, old(pin.cursor))
    ensures pin.cursor == After(pin.samples, old(pin.cursor))
    ensures pin.log == old(pin.log) + CycleEvents(pin.samples, old(pin.cursor))
  {
    pin.SetMode(Output);
    pin.Write(High);
    // The three-second pause before decoding has no effect on the samples.
    r := ReadSensorData(pin);
    CycleLog(old(pin.log), pin.samples, old(pin.cursor));
  }

  /**
   * The poller loop, for `cycles` passes (the number of times it finds the
   * token not cancelled). It stops early, with `hung`, when a decode runs
   * out of samples.
   */
  method PollHumidityTemperature(pin: Pin, cycles: nat) returns (reports: seq<Report>, hung: bool)
    requires pin.Valid()
    modifies pin
    ensures pin.Valid()
    ensures cycles == 0 ==> pin.mode == Output && pin.pull == old(pin.pull)
    ensures cycles > 0 ==> pin.mode == Input && pin.pull == PullUp
    ensures reports == Polls(pin.samples, old(pin.cursor), cycles).reports
    ensures hung == Polls(pin.samples, old(pin.cursor), cycles).hung
    ensures pin.cursor == Polls(pin.samples, old(pin.cursor), cycles).next
    ensures pin.log == old(pin.log) + Prelude + Polls(pin.samples, old(pin.cursor), cycles).events
  {
    ghost var t, c0, pull0 := pin.samples, pin.cursor, pin.pull;
    pin.SetMode(Output);
    pin.Write(High);
    ghost var log1 := pin.log;
    assert log1 == old(pin.log) + Prelude;
    ghost var events: seq<PinEvent> := [];
    reports, hung := [], false;
    assert Polls(t, c0, cycles) == Prepend(reports, events, Polls(t, c0, cycles));
    var k := 0;
    while k < cycles
      invariant 0 <= k <= cycles
      invariant pin.Valid() && pin.samples == t
      invariant pin.mode == (if k == 0 then Output else Input)
      invariant pin.pull == (if k == 0 then pull0 else PullUp)
      invariant pin.log == log1 + events
      invariant Polls(t, c0, cycles) == Prepend(reports, events, Polls(t, pin.cursor, cycles - k))
    {
      ghost var c := pin.cursor;
      var r := PollOnce(pin);
      AppendAssoc(log1, events, CycleEvents(t, c));
      if r.Exhausted? {
        PollsHang(t, c, cycles - k, reports, events);
        return reports, true;
      }
      PollsStep(t, c, cycles - k, reports, events, r.reading);
      // The report is what the loop shows for this cycle.
      reports := reports + [ReportOf(r.reading)];
      events := events + CycleEvents(t, c);
      k := k + 1;
    }
    assert reports + [] == reports && events + [] == events;
  }

  /**
   * The placeholder is shown exactly when the sensor was absent or every
   * data bit was zero: a decode that returns shows NoReading iff its reply
   * is NoSensor or a frame whose 32-bit data word is 0.
   */
  lemma NoReadingIff(t: seq<bool>, pos: nat)
    requires pos <= |t| && Decode(t, pos).Returned?
    ensures ReportOf(Decode(t, pos).reading).NoReading? <==>
              Receive(t, pos).value.value.NoSensor? || FromBits(Receive(t, pos).value.value.data) == 0
  {
    var reply := Receive(t, pos).value.value;
    if reply.Frame? {
      Pow2Constants();
      var w := Split(FromBits(reply.data) as uint32);
      var rd := Decode(t, pos).reading;
      assert rd == Scale(w);
      assert rd.humidity == 0.0 && rd.temperature == 0.0 <==> w.humidity == 0 && w.temperature == 0;
    }
  }

  /**
   * A sensor that answers humidity 0 and temperature 0 is shown exactly like
   * an absent sensor, whatever checksum it sends.
   */
  lemma ZeroReadingLooksAbsent(crc: nat, lead: nat, ws: seq<Timing>, rest: seq<bool>)
    requires crc < 0x100 && |ws| == DataWidth + CheckWidth
    ensures Decode(Encode(0, 0, crc, lead, ws) + rest, 0).Returned?
    ensures Decode([true] + rest, 0).Returned?
    ensures ReportOf(Decode(Encode(0, 0, crc, lead, ws) + rest, 0).reading)
         == ReportOf(Decode([true] + rest, 0).reading) == NoReading
  {
    RoundTrip(0, 0, crc, lead, ws, rest);
  }
}
