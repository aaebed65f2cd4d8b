/**
 * What one call of the humidity/temperature decoder reads from the data line,
 * as functions of the sequence of levels the line presents to successive
 * reads. Every parser takes the index of the next unread sample and returns
 * what it decoded with the index after the last sample it consumed, or None
 * when the samples run out first (the hardware would leave the decoder
 * spinning in a busy-wait; the model reports the exhausted trace instead).
 */
module SensorProtocol {
  import opened Wrappers
  import opened Bits

  /** A decoded value and the index of the first sample not consumed. */
  datatype Step<T> = Step(value: T, next: nat)

  /** What the sensor answered: nothing (the line was already High at the
      presence check), or a frame of 32 data bits and 8 checksum bits. */
  datatype Reply = NoSensor | Frame(data: seq<bool>, check: seq<bool>)

  /** The two fixed-point words, each 256 times the value the source returns. */
  datatype RawReading = RawReading(humidity: nat, temperature: nat)

  /** The pair of numbers the decoder returns, humidity first. */
  datatype Reading = Reading(humidity: real, temperature: real)

  /** The result of a decode: the pair it returns, or the trace ran out. */
  datatype Outcome = Returned(reading: Reading) | Exhausted

  const DataWidth: nat := 32
  const CheckWidth: nat := 8

  /**
   * The busy-wait `while (Read() == level) {}` started at `pos`: it consumes
   * the run of `level` samples and then the first sample that differs.
   */
  function SkipWhile(t: seq<bool>, pos: nat, level: bool): (r: Option<nat>)
    requires pos <= |t|
    ensures r.Some? ==> pos < r.value <= |t| && t[r.value - 1] != level
    decreases |t| - pos
  {
    if pos == |t| then None
    else if t[pos] != level then Some(pos + 1)
    else SkipWhile(t, pos + 1, level)
  }

  /** The busy-wait stops exactly at the first sample that differs from `level`, if there is one. */
  lemma {:induction false} SkipWhileStopsAtChange(t: seq<bool>, pos: nat, level: bool)
    requires pos <= |t|
    ensures SkipWhile(t, pos, level).Some? ==>
              forall i :: pos <= i < SkipWhile(t, pos, level).value - 1 ==> t[i] == level
    ensures SkipWhile(t, pos, level).None? <==> forall i :: pos <= i < |t| ==> t[i] == level
    decreases |t| - pos
  {
    if pos < |t| && t[pos] == level {
      SkipWhileStopsAtChange(t, pos + 1, level);
    }
  }

  /**
   * One bit: skip the High run, skip the Low run, then take one sample. The
   * bit is that sample, which follows directly on the High that ended the
   * Low run.
   */
  function ReadBit(t: seq<bool>, pos: nat): (r: Option<Step<bool>>)
    requires pos <= |t|
    ensures r.Some? ==> pos + 3 <= r.value.next <= |t|
    ensures r.Some? ==> r.value.value == t[r.value.next - 1] && t[r.value.next - 2]
  {
    match SkipWhile(t, pos, true)
    case None => None
    case Some(p) =>
      match SkipWhile(t, p, false)
      case None => None
      case Some(q) => if q < |t| then Some(Step(t[q], q + 1)) else None
  }

  /**
   * k bits one after the other, in the order they are sampled. The second
   * component of the decreases clause never changes; it is there so that
   * the verifier does not unfold a read of a literal width (32 data bits)
   * all the way down whenever one is mentioned.
   */
  function ReadBits(t: seq<bool>, pos: nat, k: nat): (r: Option<Step<seq<bool>>>)
    requires pos <= |t|
    ensures r.Some? ==> |r.value.value| == k && pos + 3 * k <= r.value.next <= |t|
    decreases k, |t| - pos
  {
    if k == 0 then Some(Step([], pos))
    else
      match ReadBits(t, pos, k - 1)
      case None => None
      case Some(s) =>
        match ReadBit(t, s.next)
        case None => None
        case Some(b) => Some(Step(s.value + [b.value], b.next))
  }

  /** One more bit read after k - 1 of them. */
  lemma ReadBitsSnoc(t: seq<bool>, pos: nat, k: nat, bs: seq<bool>, p: nat, b: bool, q: nat)
    requires pos <= |t| && k > 0
    requires ReadBits(t, pos, k - 1) == Some(Step(bs, p)) && ReadBit(t, p) == Some(Step(b, q))
    ensures ReadBits(t, pos, k) == Some(Step(bs + [b], q))
  {
  }

  /**
   * Everything the decoder reads after the handshake: the presence sample,
   * the wait for the line to go High, the data field and then the checksum
   * field.
   */
  function Receive(t: seq<bool>, pos: nat): (r: Option<Step<Reply>>)
    requires pos <= |t|
    ensures pos == |t| ==> r.None?
    ensures pos < |t| && t[pos] ==> r == Some(Step(NoSensor, pos + 1))
    ensures r.Some? && r.value.value.NoSensor? ==> pos < |t| && t[pos] && r.value.next == pos + 1
    ensures r.Some? && r.value.value.Frame? ==>
              !t[pos] && |r.value.value.data| == DataWidth && |r.value.value.check| == CheckWidth &&
              pos + 2 + 3 * (DataWidth + CheckWidth) <= r.value.next <= |t|
  {
    if pos == |t| then None
    else if t[pos] then Some(Step(NoSensor, pos + 1))
    else
      match SkipWhile(t, pos + 1, false)
      case None => None
      case Some(p) =>
        match ReadBits(t, p, DataWidth)
        case None => None
        case Some(d) =>
          match ReadBits(t, d.next, CheckWidth)
          case None => None
          case Some(c) => Some(Step(Frame(d.value, c.value), c.next))
  }

  /**
   * `data >> 16` and `data & 0xffff` on the unsigned `data`, that is, the
   * quotient and the remainder by 2^16: the high word is the humidity, the
   * low word the temperature, and together they are all of `data`.
   */
  function Split(data: uint32): (r: RawReading)
    ensures r.humidity < 0x1_0000 && r.temperature < 0x1_0000
    ensures r.humidity * 0x1_0000 + r.temperature == data as int
  {
    RawReading(data as int / 0x1_0000, data as int % 0x1_0000)
  }

  /** The two words are the only ones that make up `data`. */
  lemma SplitUnique(data: uint32, h: nat, tmp: nat)
    requires h < 0x1_0000 && tmp < 0x1_0000 && h * 0x1_0000 + tmp == data as int
    ensures Split(data) == RawReading(h, tmp)
  {
    var r := Split(data);
    assert (h - r.humidity) * 0x1_0000 == r.temperature - tmp;
  }

  /**
   * The humidity word is the value of the first 16 bits received and the
   * temperature word the value of the last 16.
   */
  lemma SplitFields(d: seq<bool>)
    requires |d| == DataWidth
    ensures FromBits(d) < 0x1_0000_0000
    ensures Split(FromBits(d) as uint32) == RawReading(FromBits(d[..16]), FromBits(d[16..]))
  {
    Pow2Constants();
    assert d == d[..16] + d[16..];
    FromBitsAppend(d[..16], d[16..]);
    SplitUnique(FromBits(d) as uint32, FromBits(d[..16]), FromBits(d[16..]));
  }

  /**
   * The two words the decoder returns for a reply: zero and zero, that is
   * `(default, default)`, when no sensor answered, and otherwise the two
   * 16-bit halves of the value of the data bits.
   */
  function ReadingOf(reply: Reply): (r: RawReading)
    requires reply.Frame? ==> |reply.data| == DataWidth
    ensures reply.NoSensor? ==> r == RawReading(0, 0)
    ensures reply.Frame? ==> r.humidity < 0x1_0000 && r.temperature < 0x1_0000
    ensures reply.Frame? ==> r.humidity * 0x1_0000 + r.temperature == FromBits(reply.data)
  {
    match reply
    case NoSensor => RawReading(0, 0)
    case Frame(d, _) =>
      Pow2Constants();
      Split(FromBits(d) as uint32)
  }

  /**
   * The conversion `(double)word / 256` of each word. A word below 2^16
   * divided by 256 is a double without rounding, so the real quotient is
   * exactly what the source computes.
   */
  function Scale(w: RawReading): (r: Reading)
    ensures r.humidity * 256.0 == w.humidity as real
    ensures r.temperature * 256.0 == w.temperature as real
  {
    Reading(w.humidity as real / 256.0, w.temperature as real / 256.0)
  }

  /** Different words never give the same pair of numbers. */
  lemma ScaleInjective(a: RawReading, b: RawReading)
    requires Scale(a) == Scale(b)
    ensures a == b
  {
    assert a.humidity as real == Scale(a).humidity * 256.0 == b.humidity as real;
    assert a.temperature as real == Scale(a).temperature * 256.0 == b.temperature as real;
  }

  /** The result of one decode whose first read is sample `pos`. */
  function Decode(t: seq<bool>, pos: nat): (o: Outcome)
    requires pos <= |t|
    ensures o.Exhausted? <==> Receive(t, pos).None?
    ensures o.Returned? ==> 0.0 <= o.reading.humidity < 256.0 && 0.0 <= o.reading.temperature < 256.0
    ensures pos < |t| && t[pos] ==> o == Returned(Reading(0.0, 0.0))
  {
    match Receive(t, pos)
    case None => Exhausted
    case Some(s) => Returned(Scale(ReadingOf(s.value)))
  }

  /** The index of the first sample a decode leaves unread (all of them when it ran out). */
  function After(t: seq<bool>, pos: nat): (n: nat)
    requires pos <= |t|
    ensures pos <= n <= |t|
    ensures Receive(t, pos).None? ==> n == |t|
  {
    match Receive(t, pos)
    case None => |t|
    case Some(s) => s.next
  }

  /** The presence check, the ready wait and the two fields, read one after the other. */
  lemma ReceiveFields(t: seq<bool>, pos: nat, p: nat, m: nat, e: nat, d: seq<bool>, c: seq<bool>)
    requires pos < |t| && !t[pos] && SkipWhile(t, pos + 1, false) == Some(p)
    requires ReadBits(t, p, DataWidth) == Some(Step(d, m))
    requires ReadBits(t, m, CheckWidth) == Some(Step(c, e))
    ensures Receive(t, pos) == Some(Step(Frame(d, c), e))
  {
  }

  /** A decode whose wait for the ready High runs out of samples runs out. */
  lemma ReceiveNoReady(t: seq<bool>, pos: nat)
    requires pos < |t| && !t[pos] && SkipWhile(t, pos + 1, false).None?
    ensures Receive(t, pos).None?
  {
  }

  /** A decode whose data field runs out of samples runs out. */
  lemma ReceiveNoData(t: seq<bool>, pos: nat, p: nat)
    requires pos < |t| && !t[pos] && SkipWhile(t, pos + 1, false) == Some(p)
    requires ReadBits(t, p, DataWidth).None?
    ensures Receive(t, pos).None?
  {
  }

  /** A decode whose checksum field runs out of samples runs out. */
  lemma ReceiveNoCheck(t: seq<bool>, pos: nat, p: nat, m: nat, d: seq<bool>)
    requires pos < |t| && !t[pos] && SkipWhile(t, pos + 1, false) == Some(p)
    requires ReadBits(t, p, DataWidth) == Some(Step(d, m))
    requires ReadBits(t, m, CheckWidth).None?
    ensures Receive(t, pos).None?
  {
  }

  /** Once a prefix of the bits cannot be read, no longer run of bits can be read either. */
  lemma {:induction false} ReadBitsFailsOnward(t: seq<bool>, pos: nat, i: nat, k: nat)
    requires pos <= |t| && i <= k
    requires ReadBits(t, pos, i).None?
    ensures ReadBits(t, pos, k).None?
    decreases k
  {
    if k > i {
      ReadBitsFailsOnward(t, pos, i, k - 1);
    }
  }
}
