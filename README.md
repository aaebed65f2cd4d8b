# PiConsole humidity/temperature decoder, modelled in Dafny

PiConsole polls a single-wire humidity/temperature sensor on a Raspberry Pi
GPIO pin. The decoder `ReadSensorData` runs in five stages:

1. It sends a start signal: the pin becomes an output, is written High and
   then Low, becomes an input and gets its pull-up.
2. It takes one presence sample. High means no sensor answered, and it
   returns `(default, default)`.
3. It busy-waits until the line goes High.
4. It reads 32 data bits and then 8 checksum bits. For each bit it waits
   out a High run and then a Low run, and samples the line once more. The
   sample is shifted big-endian into a `uint` (or a `byte`).
5. It returns the high 16 bits and the low 16 bits of the data word, each
   divided by 256.

The poller `PollHumidityTempature` runs the decoder every cycle. It shows a
placeholder line when both numbers are zero and shows the pair otherwise.

The model keeps the source's imperative form:

- **Gpio** is the pin, as a class.
  - Its drive mode and pull mode are fields.
  - The line's future is a sequence `samples` of levels that successive
    reads return, plus a `cursor`.
  - A ghost `log` records every configuration step, write and read, with
    the configuration each read saw.
  - A read past the end of the samples returns `None`.
- **SensorReader** holds the decoder as methods.
  - `BusyWait` is the `while (Read() == level) {}` loops.
  - `SampleBit`, `ReadDataField` and `ReadChecksum` are the bit loops, with
    their `uint`/`byte` accumulators.
  - `ReadSensorData` is the whole decode.
  - Each method is proved against the positional functions of
    **SensorProtocol**. These give, for the trace and the index of the first
    unread sample, what is decoded and where reading stops.
  - Each method's contract also gives the exact log of pin operations. One
    decode's log is the five-step start signal, then the reads of exactly
    the samples it consumes, all taken as an input with the pull-up.
- **Bits** holds the fixed-width integers and the big-endian fold. It proves
  that the fold is the positional sum, that it stays below 2^k after k bits,
  and so that neither accumulator ever wraps.
- **SensorEncoding** is a sensor-side encoder from (humidity word,
  temperature word, checksum, run lengths) to a trace. The round trip says
  the decoder recovers the two words from that trace, whatever the run
  lengths and whatever follows. The checksum never affects the result.
- **SensorFraming** is the converse: every frame the decoder accepts is the
  encoding of the words it returns, with run lengths read off the trace.
- **Poller** holds the poll loop as a method, proved against a function
  `Polls` that gives the reports, pin events and final cursor of n cycles.
  It also proves the absent/present decision: the placeholder is shown
  exactly when the sensor was absent or all 32 data bits were zero. So a
  real reading of 0 and 0 looks like an absent sensor.

The code never compares the checksum with the data, and it reports an
absent sensor as the pair `(default, default)`; the model does the same.

The numbers are modelled as reals. Each word is below 2^16, so the source's
`(double)word / 256` is exact, and the real quotient is exactly the double
the source returns. The raw fixed-point words (the two 16-bit halves of
`data`, or zero and zero for an absent sensor) are
`SensorProtocol.ReadingOf`.

## Model

| member | source | states |
|---|---|---|
| Bits.Wrap32 | PiConsole/Program.cs:111-116 | unchecked `uint` arithmetic: the result is the argument modulo 2^32, and is the argument itself when it fits |
| Bits.Wrap8 | PiConsole/Program.cs:131-136 | `byte` arithmetic: the result is the argument modulo 2^8, and is the argument itself when it fits |
| Bits.FromBits | PiConsole/Program.cs:111-116 | the accumulator after folding k samples is below 2^k |
| Bits.ShiftIn | PiConsole/Program.cs:111-116 | one more sample doubles the accumulator and adds the sample; with fewer than `width` samples before it, the result stays below 2^width, so `data` never wraps in 32 steps and `crc` never in 8 |
| Bits.FromBitsIsWeightedSum | PiConsole/Program.cs:99-117 | the fold is big-endian: it equals the sum of bit i times 2^(k-1-i) |
| Bits.FromBitsAppend | PiConsole/Program.cs:139 | the value of two fields read one after the other is the first value times 2^(length of the second) plus the second value |
| Bits.FromToBits | PiConsole/Program.cs:99-117 | folding the k-bit big-endian representation of any n below 2^k gives n back |
| Bits.ToFromBits | PiConsole/Program.cs:99-117 | the k-bit representation of the value of k folded samples is those samples |
| Gpio.Pin.constructor | PiConsole/Program.cs:53 | a new pin has the given configuration and trace, nothing read and an empty log |
| Gpio.Pin.SetMode | PiConsole/Program.cs:82-86 | the `PinMode` setter changes the drive mode only and logs it |
| Gpio.Pin.SetPull | PiConsole/Program.cs:87 | the `InputPullMode` setter changes the pull mode only and logs it |
| Gpio.Pin.Write | PiConsole/Program.cs:83-85 | a write changes no configuration and no sample position, and logs the level |
| Gpio.Pin.Read | PiConsole/Program.cs:90 | a read returns the next sample and advances past it, or returns None at the end of the trace without moving; it logs the sample with the pin's configuration |
| Gpio.ReadsAreSamples | PiConsole/Program.cs:90-137 | event i of the reads of samples a to b is the read of sample a + i, taken with the given configuration |
| SensorProtocol.SkipWhile | PiConsole/Program.cs:92-94 | a busy-wait that ends stops just after a sample differing from `level`, inside the trace |
| SensorProtocol.SkipWhileStopsAtChange | PiConsole/Program.cs:101-107 | every sample a busy-wait skips before the stopping one equals `level`; it runs out exactly when all remaining samples equal `level` |
| SensorProtocol.ReadBit | PiConsole/Program.cs:101-116 | a bit takes at least three samples; the bit is the sample taken right after the High that ended the Low run |
| SensorProtocol.ReadBits | PiConsole/Program.cs:99-117 | k bits read one after the other give k values and take at least 3k samples |
| SensorProtocol.ReadBitsFailsOnward | PiConsole/Program.cs:99-117 | once some prefix of a field runs out of samples, the whole field does |
| SensorProtocol.Receive | PiConsole/Program.cs:90-137 | no samples means the decode runs out; a High presence sample is "no sensor" after that one sample; a frame has a Low presence sample, exactly 32 data and 8 checksum bits, and takes at least 122 samples |
| SensorProtocol.Split | PiConsole/Program.cs:139 | `data >> 16` and `data & 0xffff` are both below 2^16, and the high word times 2^16 plus the low word is `data` |
| SensorProtocol.SplitUnique | PiConsole/Program.cs:139 | those are the only two 16-bit words that make up `data` |
| SensorProtocol.SplitFields | PiConsole/Program.cs:139 | the humidity word is the value of the first 16 data bits received, the temperature word that of the last 16 |
| SensorProtocol.ReadingOf | PiConsole/Program.cs:139-143 | with no sensor the words are zero and zero, `(default, default)`; for a frame they are both below 2^16 and the humidity word times 2^16 plus the temperature word is the value of the 32 data bits |
| SensorProtocol.Scale | PiConsole/Program.cs:139 | each returned number times 256 is its word |
| SensorProtocol.ScaleInjective | PiConsole/Program.cs:139 | different words never give the same pair of numbers |
| SensorProtocol.Decode | PiConsole/Program.cs:80-145 | a decode runs out exactly when reception does; returned numbers lie in [0, 256); a High presence sample returns (0, 0) |
| SensorProtocol.After | PiConsole/Program.cs:80-145 | the decode stops inside the trace, and at its end when it ran out |
| SensorEncoding.SkipRun | PiConsole/Program.cs:92-94 | a run of n samples of `level` ended by a differing one takes a busy-wait exactly n + 1 samples |
| SensorEncoding.ReadBitParsesCell | PiConsole/Program.cs:101-116 | the decoder reads one encoded bit cell, with any run lengths, as its bit and consumes exactly the cell |
| SensorEncoding.ReadBitsParsesCells | PiConsole/Program.cs:99-117 | the decoder reads consecutive cells back as their bits, in order, and consumes exactly the cells |
| SensorEncoding.HeaderParses | PiConsole/Program.cs:90-94 | a Low presence sample followed by a Low run and a High passes the presence check and the ready wait, which ends right after the High |
| SensorEncoding.FrameReading | PiConsole/Program.cs:139 | a frame whose data field encodes humidity h and temperature t gives exactly the words h and t |
| SensorEncoding.TransmissionParses | PiConsole/Program.cs:90-137 | a trace starting with a transmission is received as exactly its data and checksum bits, and reception stops right after it |
| SensorEncoding.RoundTrip | PiConsole/Program.cs:80-145 | for all 16-bit words, any checksum, any run lengths and anything after, decoding the encoding returns the two words scaled by 1/256 and consumes exactly the encoding |
| SensorEncoding.ChecksumIgnored | PiConsole/Program.cs:119-139 | two transmissions that differ only in their checksum decode to the same result and stop at the same sample |
| SensorFraming.ReadBitIsCell | PiConsole/Program.cs:101-116 | whatever the decoder reads as one bit is a cell of that bit, with the run lengths found in the trace |
| SensorFraming.ReadBitsIsCells | PiConsole/Program.cs:99-117 | whatever the decoder reads as k bits is the cells of those bits laid end to end |
| SensorFraming.ReadyIsHeader | PiConsole/Program.cs:90-94 | a Low presence sample and a ready wait that ends form a header |
| SensorFraming.FrameIsTransmission | PiConsole/Program.cs:90-137 | every accepted frame is a transmission of its data and checksum bits, and the decoder stops right after it |
| SensorFraming.FrameIsEncoded | PiConsole/Program.cs:80-145 | every frame accepted at the start of a trace is the encoding of the two words the decoder returns, with the checksum it carries |
| SensorReader.BusyWait | PiConsole/Program.cs:92-94 | the loop reads exactly the samples the busy-wait consumes and returns whether it ended; configuration unchanged; one logged read per sample |
| SensorReader.SampleBit | PiConsole/Program.cs:101-116 | the two busy-waits and the sample return the bit ReadBit gives and read exactly its samples, or run out at the end of the trace |
| SensorReader.ReadDataField | PiConsole/Program.cs:96-117 | the 32-iteration loop returns the value of exactly the 32 bits ReadBits gives, without wrapping, or runs out exactly when ReadBits does |
| SensorReader.ReadChecksum | PiConsole/Program.cs:119-137 | the 8-iteration loop returns the value of exactly the 8 bits ReadBits gives, without wrapping, or runs out exactly when ReadBits does |
| SensorReader.ReadSensorData | PiConsole/Program.cs:80-145 | the decoder returns Decode's result, stops where reception stops, and ends as an input with the pull-up; its log is Output, High, Low, Input, PullUp and then the reads of exactly the consumed samples, all as an input with the pull-up |
| SensorReader.Handshake | PiConsole/Program.cs:82-87 | the start signal's pin operations, in order: Output, write High, write Low, Input, pull-up |
| SensorReader.StartSignalFirst | PiConsole/Program.cs:82-90 | in a decode's log the five start-signal steps come first and none is a read; every later event is the read of the next sample, taken as an input with the pull-up |
| SensorReader.AbsentSensor | PiConsole/Program.cs:90-144 | with a High presence sample the decode returns (0, 0) after exactly one read, taken as an input with the pull-up |
| Poller.ReportOf | PiConsole/Program.cs:67-74 | the placeholder is shown exactly when both numbers are zero, and the pair is shown otherwise |
| Poller.Prelude | PiConsole/Program.cs:55-56 | what the poller does to the pin before the loop and again at the start of each pass (60-61): Output, then write High |
| Poller.Polls | PiConsole/Program.cs:58-75 | n cycles show n reports, unless a decode runs out, which leaves fewer and the trace used up |
| Poller.PollOnce | PiConsole/Program.cs:60-65 | one pass drives the line High as an output and decodes: result, cursor, the pin left as an input with the pull-up, and the log of Output, High and the decode's events |
| Poller.PollHumidityTemperature | PiConsole/Program.cs:49-78 | the loop's reports, stop, cursor and log are those of `Polls` for the same number of cycles, after the initial Output and High; the pin is left an output with its pull unchanged when no pass runs, and an input with the pull-up otherwise |
| Poller.NoReadingIff | PiConsole/Program.cs:65-74 | a decode's report is the placeholder exactly when no sensor answered or the 32-bit data word is zero |
| Poller.ZeroReadingLooksAbsent | PiConsole/Program.cs:65-74 | a sensor sending humidity 0 and temperature 0, with any checksum, is shown exactly like an absent one |

## Left out

- `Main`, the `Task` orchestration, `CancellationTokenSource` and the `.Wait()` joins (PiConsole/Program.cs:12-27): they are concurrency and lifecycle code.
- `PollTouchSensor` (PiConsole/Program.cs:29-47): it only mirrors one pin to another, paced by a delay.
- `Pi.Init`, `Pi.Gpio[...]` and the `IGpioPin` library: they are foreign hardware calls. The pin is a class with a sample trace and a configuration record.
- `Console.WriteLine` (PiConsole/Program.cs:16, 31, 46, 51, 69, 73, 77): it is output. Only what the poller would show, `Poller.Report`, is modelled.
- `Task.Delay`: modelled as doing nothing. The trace is taken to be the levels the reads actually see, so the 32 ms wait before each bit sample affects nothing. The exception `Task.Delay` throws on cancellation is not modelled.
- A busy-wait on a stuck line spins forever in the source. The model ends it when the sample trace runs out and reports `Exhausted`. The source has no such outcome.
- Poller.PollHumidityTemperature: the number of passes is a parameter. It stands for how often the loop finds the token not cancelled; running until cancellation is not modelled.
- `data >> 16` and `data & 0xffff` are modelled as quotient and remainder by 2^16. These agree on an unsigned 32-bit word.
- The doubles of the result are modelled as exact reals. The division of a word below 2^16 by 256 is exact in a double, so nothing is lost.
- Drive modes and pull modes the decoder never uses are not modelled, and neither are pin reads in Output mode. The log still records the configuration under which every read happened.
