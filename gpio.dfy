/**
 * The general-purpose I/O pin the decoder drives. The hardware library is not
 * modelled; what the decoder relies on is: a drive mode, a pull-resistor mode,
 * writes of a level, and reads that return the line's level. The line's future
 * is given up front as the sequence of levels successive reads return; a read
 * past its end reports that the trace is exhausted.
 */
module Gpio {
  import opened Wrappers

  datatype DriveMode = Input | Output

  datatype PullMode = Off | PullDown | PullUp

  datatype PinValue = Low | High

  /** What happened to a pin, in order. A read records the level it returned
      and the configuration the pin had at that moment. */
  datatype PinEvent =
    | ModeSet(mode: DriveMode)
    | PullSet(pull: PullMode)
    | Wrote(value: PinValue)
    | Sampled(level: bool, inMode: DriveMode, withPull: PullMode)

  /**
   * The events of reading the levels `t[a..b]` one after the other with the
   * pin configured as given.
   */
  function Reads(t: seq<bool>, a: nat, b: nat, mode: DriveMode, pull: PullMode): (e: seq<PinEvent>)
    requires a <= b <= |t|
    ensures |e| == b - a
    decreases b - a
  {
    if a == b then [] else Reads(t, a, b - 1, mode, pull) + [Sampled(t[b - 1], mode, pull)]
  }

  /** Event i of the reads is the read of sample a + i. */
  lemma {:induction false} ReadsAreSamples(t: seq<bool>, a: nat, b: nat, mode: DriveMode, pull: PullMode, i: nat)
    requires a <= b <= |t| && i < b - a
    ensures Reads(t, a, b, mode, pull)[i] == Sampled(t[a + i], mode, pull)
    decreases b - a
  {
    if i < b - 1 - a {
      ReadsAreSamples(t, a, b - 1, mode, pull, i);
    }
  }

  /** Reading `t[a..b]` and then `t[b..c]` is reading `t[a..c]`, after any earlier events. */
  lemma {:induction false} ReadsAppend(log: seq<PinEvent>, t: seq<bool>, a: nat, b: nat, c: nat, mode: DriveMode, pull: PullMode)
    requires a <= b <= c <= |t|
    ensures log + Reads(t, a, b, mode, pull) + Reads(t, b, c, mode, pull) == log + Reads(t, a, c, mode, pull)
    decreases c - b
  {
    if b < c {
      ReadsAppend(log, t, a, b, c - 1, mode, pull);
      var x := [Sampled(t[c - 1], mode, pull)];
      calc {
        log + Reads(t, a, b, mode, pull) + Reads(t, b, c, mode, pull);
        log + Reads(t, a, b, mode, pull) + (Reads(t, b, c - 1, mode, pull) + x);
        (log + Reads(t, a, b, mode, pull) + Reads(t, b, c - 1, mode, pull)) + x;
        (log + Reads(t, a, c - 1, mode, pull)) + x;
        log + (Reads(t, a, c - 1, mode, pull) + x);
      }
    }
  }

  class Pin {
    var mode: DriveMode
    var pull: PullMode
    /** The levels the line presents to successive reads. */
    const samples: seq<bool>
    /** How many of them have been read. */
    var cursor: nat
    ghost var log: seq<PinEvent>

    ghost predicate Valid()
      reads this
    {
      cursor <= |samples|
    }

    constructor (mode: DriveMode, pull: PullMode, samples: seq<bool>)
      ensures Valid()
      ensures this.mode == mode && this.pull == pull && this.samples == samples
      ensures cursor == 0 && log == []
    {
      this.mode := mode;
      this.pull := pull;
      this.samples := samples;
      cursor := 0;
      log := [];
    }

    /** The `PinMode` setter. */
    method SetMode(m: DriveMode)
      requires Valid()
      modifies this
      ensures Valid()
      ensures mode == m && pull == old(pull) && cursor == old(cursor)
      ensures log == old(log) + [ModeSet(m)]
    {
      mode := m;
      log := log + [ModeSet(m)];
    }

    /** The `InputPullMode` setter. */
    method SetPull(p: PullMode)
      requires Valid()
      modifies this
      ensures Valid()
      ensures pull == p && mode == old(mode) && cursor == old(cursor)
      ensures log == old(log) + [PullSet(p)]
    {
      pull := p;
      log := log + [PullSet(p)];
    }

    method Write(v: PinValue)
      requires Valid()
      modifies this
      ensures Valid()
      ensures mode == old(mode) && pull == old(pull) && cursor == old(cursor)
      ensures log == old(log) + [Wrote(v)]
    {
      log := log + [Wrote(v)];
    }

    /** Returns the next level of the line, or None once the trace is used up. */
    method Read() returns (s: Option<bool>)
      requires Valid()
      modifies this
      ensures Valid()
      ensures mode == old(mode) && pull == old(pull)
      ensures old(cursor) < |samples| ==> s == Some(samples[old(cursor)]) && cursor == old(cursor) + 1
      ensures old(cursor) == |samples| ==> s == None && cursor == old(cursor)
      ensures log == old(log) + Reads(samples, old(cursor), cursor, mode, pull)
    {
      if cursor < |samples| {
        s := Some(samples[cursor]);
        log := log + [Sampled(samples[cursor], mode, pull)];
        cursor := cursor + 1;
      } else {
        s := None;
      }
    }
  }
}
