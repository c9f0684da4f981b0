# Serial matrix-switch engine, modelled in Dafny

The engine drives an audio/video matrix switch over a serial link. It has
two halves:

- **Inbound.** The device sends 13-byte status frames, each opened by a
  one-byte start marker that depends on the unit's label ("top" or
  "bottom"). The engine keeps the last frame of the right length and
  decodes it on demand:
  - the route and memory selection of every output;
  - the availability flag of every input and output;
  - the power state.
- **Outbound.** A switch request is a string with one character per output:
  - a digit selects an input for that output;
  - the sentinel `x` leaves that output alone.

  Each character becomes one step:
  1. the step waits a settle delay of 500 ms;
  2. it computes a command number from the digit and the output position;
  3. it writes the command in two-digit hexadecimal chunks, 50 ms apart: the
     number, its complement to 255, and the fixed trailer `d5 7b`;
  4. it requests a drain 250 ms after the settle delay.

  Steps run one at a time.

The model is split by concern:

| module | file | contents |
|---|---|---|
| `Wrappers` | `wrappers.dfy` | `Option` |
| `JsRuntime` | `js_runtime.dfy` | the JavaScript and library behaviour the engine depends on, on the values the engine feeds them (see below) |
| `Frames` | `frames.dfy` | start-marker selection; the parser callback that keeps the last 13-byte frame |
| `Status` | `status.dfy` | decoding of an accepted frame and the status read-out |
| `Command` | `command.dfy` | `genCommandInt` and `genCommandString`; chunking and hex-decoding of the command text into wire bytes |
| `Sequencer` | `sequencer.dfy` | `runCmd`: splitting a request into UTF-16 code units and the timed step each unit becomes |

The JavaScript behaviour in `JsRuntime` is:

- unary `+` and `parseInt` on one character;
- the bitwise `&` used by `isAvailable`;
- `toString(16)` and lodash `padStart`;
- the regular expression `/.{1,2}/g`, including the way `.` skips line
  terminators;
- `Buffer.from(chunk, 'hex')` on two-digit chunks.

Times in the step model are milliseconds counted from the start of the
step. A step is either `Skipped` (the `x` sentinel resolves at once) or
`Sent`, with its list of scheduled writes and its drain time.

Behaviours of the code that the model keeps:

- **Unknown label.** `generateStartByte` returns `undefined` for a label
  other than "top" or "bottom", modelled as `None`. What the delimiter
  library does with it is not modelled.
- **Four bytes per step.** Each step writes four bytes: the command number,
  its complement to 255 and the two trailer bytes. They leave 500, 550, 600
  and 650 ms after the step began, and the drain is requested at 750 ms.
- **Characters that are not digits.** Such a character, or `0` in the first
  position, gives an empty command. The step still waits 500 ms, writes
  nothing and drains; only `x` resolves at once.
- **Digits 0 and 5 to 9.** Digits are not checked against the number of
  inputs. Digits 5 to 9 alias the commands of later outputs: digit 9 at
  position idx sends the command of digit 1 at position idx + 2. Digit 0
  at position idx + 1 sends the command of digit 4 at position idx
  (`Command.CommandAliasing`).
- **No queue.** Nothing queues one request behind another: two overlapping
  `switchCmd` calls interleave their timers.

## Model

| member | source | states |
|---|---|---|
| Frames.StartByte | lib/serial.js:17-28 | "top" selects marker 0x62, "bottom" selects 0x61, and every other label selects no marker |
| Frames.StartByteIdentifiesLabel | lib/serial.js:17-28 | a marker determines the label it came from |
| Frames.Accept | lib/serial.js:31-35 | a candidate replaces the stored frame exactly when it is 13 bytes long, else the stored frame is kept; the stored frame is always 13 bytes |
| Frames.AcceptAll | lib/serial.js:31-35 | a stream of callbacks keeps the stored frame 13 bytes long, and never empties a cell that held a frame |
| Frames.AcceptAllSnoc | lib/serial.js:31-35 | feeding one more candidate after a stream is one more callback on the state the stream left |
| Frames.AcceptAllKeepsLastFull | lib/serial.js:31-35 | after any stream of candidates the cell holds the last 13-byte candidate, or is unchanged when no candidate had 13 bytes |
| Frames.AcceptAllFromEmpty | lib/serial.js:31-35 | from the empty start the cell stays empty exactly when no candidate had 13 bytes, and always holds a 13-byte frame otherwise |
| Frames.LastFullIndex | lib/serial.js:31-35 | when some candidate had 13 bytes, there is a last such position |
| JsRuntime.BitAnd | lib/serial.js:38 | `a & b` on non-negative numbers is at most either operand, and its lowest bit is set exactly when both operands' lowest bits are |
| JsRuntime.MaskTestsBit | lib/serial.js:37-39 | `status & 2^p` is positive exactly when bit p of status is set |
| Status.IsAvailable | lib/serial.js:37-39 | a flag reads available exactly when the addressed bit of the status byte is set |
| Status.PortNumber | lib/serial.js:41-50 | raw code 8 reads as 4, code 4 reads as 3, and every other code passes through; bytes stay bytes |
| Status.PortNumberDecodesOneHot | lib/serial.js:41-50 | on the one-hot codes 1, 2, 4, 8 the mapping returns the position of the set bit, counted from 1 |
| Status.OutputDetails | lib/serial.js:52-68 | four route fields for four outputs, two for two, none otherwise; field i decodes frame byte 4+i |
| Status.MemoryDetails | lib/serial.js:70-86 | four memory fields for four outputs, two for two, none otherwise; field i decodes frame byte i |
| Status.InputStatus | lib/serial.js:88-95 | always four input flags; input i+1 is available exactly when bit 7-i of byte 8 is set |
| Status.OutputStatus | lib/serial.js:97-108 | four output flags only on a four-output device; output i+1 is available exactly when bit 3-i of byte 8 is set |
| Status.FlagPrefixValue | lib/serial.js:88-108 | the first k flags, read as a binary numeral, are the top k bits of the status byte |
| Status.StatusFlagsSpellByte | lib/serial.js:88-108 | on a four-output device the input flags followed by the output flags spell byte 8 exactly, so no flag bit is lost or duplicated |
| Status.Decode | lib/serial.js:112-121 | the report carries the frame itself; route field i decodes byte 4+i and memory field i decodes byte i, as many of each as the output count allows; input i+1 is available exactly when bit 7-i of byte 8 is set, output i+1 (four-output devices only) exactly when bit 3-i is; power is on exactly when byte 9 is non-zero |
| Status.GetStatus | lib/serial.js:110-122 | the empty report before any frame was accepted, else the report of the stored frame |
| Status.GetStatusAfterStream | lib/serial.js:31-35 | after any stream of candidates, the status is empty exactly when no candidate had 13 bytes, else the decoding of the last one that had |
| Status.ExampleFrame | lib/serial.js:110-122 | a four-output frame with memory bytes 4 and route bytes 8 reports bank 3 and input 4 everywhere, all flags unavailable for flag byte 0, and power on |
| JsRuntime.UnaryPlus | lib/serial.js:125 | `+c` is an integer exactly for a decimal digit or white space: the digit's value, or 0 for white space; NaN otherwise |
| JsRuntime.ParseInt | lib/serial.js:126 | `parseInt(c)` is an integer exactly for a decimal digit, and then it is that digit's value from 0 to 9 |
| JsRuntime.UnaryPlusAgreesWithParseInt | lib/serial.js:125-126 | away from white space, `+c` and `parseInt(c)` read the same value, so the integer test guards the later `parseInt` |
| JsRuntime.WhiteSpaceSplitsReadings | lib/serial.js:125-126 | on white space `+c` passes the integer test while `parseInt(c)` is NaN |
| JsRuntime.NatToHex | lib/serial.js:132 | `toString(16)` of a non-negative number is lowercase hexadecimal, one digit below 16 and two digits exactly from 16 to 255 |
| JsRuntime.ToHex | lib/serial.js:132 | `toString(16)` is lowercase hexadecimal for non-negative numbers and starts with a minus sign for negative ones |
| JsRuntime.HexDigitValue | lib/serial.js:132 | reading a hexadecimal digit back gives the value it was written for |
| JsRuntime.HexValueOfNatToHex | lib/serial.js:132 | reading the hexadecimal numeral of n back gives n |
| JsRuntime.PadStart | lib/serial.js:132 | lodash `padStart` leaves a text at least as long as the width alone, and otherwise lengthens it to exactly the width |
| JsRuntime.PadStartContent | lib/serial.js:132 | the padded text ends with the original text and everything before it is the fill character |
| JsRuntime.HexPairShape | lib/serial.js:132 | a byte padded to two hexadecimal digits is exactly two lowercase digits |
| JsRuntime.HexPairRoundTrip | lib/serial.js:132 | hex-decoding the two-digit numeral of a byte gives the byte back |
| JsRuntime.MatchPairs | lib/serial.js:144 | every match of `/.{1,2}/g` is one or two characters long |
| JsRuntime.MatchPairsCoversText | lib/serial.js:144 | the matches joined give back the text minus its line terminators, so no other character is lost or reordered |
| JsRuntime.MatchPairsCons | lib/serial.js:144 | a leading two-digit numeral is matched as one chunk, and matching resumes after it |
| JsRuntime.MatchPairsTwoPairs | lib/serial.js:144 | two leading two-digit numerals are matched as two chunks |
| JsRuntime.DecodeHexPair | lib/serial.js:146 | a chunk decodes to a byte exactly when it is two hexadecimal digits, and the byte is the chunk's numeric value |
| JsRuntime.DecodeAll | lib/serial.js:144-150 | decoded chunks yield one byte per chunk |
| JsRuntime.DecodeAllCons | lib/serial.js:144-150 | decoding a chunk followed by more chunks puts its byte before theirs |
| Command.CommandInt | lib/serial.js:124-127 | a digit d at output position idx gives 4*idx + d - 1; any other character gives -1 |
| Command.CommandIntRecoversRequest | lib/serial.js:124-127 | for digits 1 to 4 the command number determines the request: the output is its quotient by 4, the digit one more than the remainder |
| Command.CommandAliasing | lib/serial.js:124-133 | digit d at position idx+1 sends the same command as digit d+4 at position idx, since the input count is never checked |
| Command.ZeroAtFirstPositionIsEmpty | lib/serial.js:124-133 | '0' in the first position gives -1, so an empty command and no chunks |
| Command.CommandText | lib/serial.js:132 | for a command number up to 255 the text is eight lowercase hexadecimal digits |
| Command.CommandTextShape | lib/serial.js:132 | the two padded numerals and the trailer make eight lowercase hexadecimal digits when the number fits a byte |
| Command.LargeCommandTextHasMinus | lib/serial.js:132 | above 255 the complement's numeral starts with a minus sign, and the text stops being hexadecimal |
| Command.CommandString | lib/serial.js:129-133 | the command is empty exactly when the command number is negative, and eight hexadecimal digits when it fits a byte |
| Command.CommandChunks | lib/serial.js:143-144 | a negative command number gives no chunks at all, and every chunk otherwise is one or two characters |
| Command.TrailerChunks | lib/serial.js:132-144 | the trailer text is matched as its two numerals |
| Command.TrailerDecodes | lib/serial.js:146 | the trailer numerals decode to 0xd5 and 0x7b |
| Command.TrailerDecodesAll | lib/serial.js:132-146 | the trailer text, cut and decoded, is the two trailer bytes |
| Command.CommandTextChunks | lib/serial.js:132-144 | the command text of a byte is matched as the two padded numerals and the two trailer numerals |
| Command.CommandTextDecodes | lib/serial.js:132-146 | the command text of a byte, cut and decoded, is the number, its complement to 255 and the trailer bytes |
| Command.CommandChunksDecode | lib/serial.js:129-146 | a command number that fits a byte is sent as exactly four chunks that decode to the number, its complement and the trailer |
| Command.ComplementSums | lib/serial.js:132 | the first two wire bytes of every command sum to 255 |
| Sequencer.Utf16 | lib/serial.js:136 | a character splits into one code unit below U+10000, else into two |
| Sequencer.Utf16RoundTrip | lib/serial.js:136 | the two surrogate units of a character above U+FFFF are a high and a low surrogate that read back as the character |
| Sequencer.CodeUnits | lib/serial.js:136 | `split('')` yields between one and two units per character |
| Sequencer.CodeUnitsOfBmp | lib/serial.js:136 | a string below U+10000 splits into exactly its characters, in order |
| Sequencer.AstralCharSendsNothing | lib/serial.js:136-158 | a character above U+FFFF becomes two steps that each settle, write nothing and drain |
| Sequencer.ScheduleFrom | lib/serial.js:144-150 | one write per chunk, in chunk order, chunk k at 500 + 50k ms |
| Sequencer.StepFor | lib/serial.js:136-159 | the step keeps its position; it is skipped exactly for 'x', and otherwise drains at 750 ms |
| Sequencer.SentStepSchedule | lib/serial.js:142-150 | a sending step writes chunk k of its command text at 500 + 50k ms, one write per chunk |
| Sequencer.EmptyCommandStillDrains | lib/serial.js:129-157 | a unit with a negative command number still settles, writes nothing and drains at 750 ms |
| Sequencer.SentStepWire | lib/serial.js:142-158 | an in-range step writes four chunks at 500, 550, 600 and 650 ms, all before the drain at 750 ms, and they decode to the number, its complement and the trailer |
| Sequencer.Trace | lib/serial.js:135-160 | one step per code unit of the request |
| Sequencer.TracePointwise | lib/serial.js:136-158 | step i of a request has position i; it is skipped exactly when unit i is 'x', and otherwise drains at 750 ms and writes chunk k of unit i's command text at 500 + 50k ms, one write per chunk |
| Sequencer.SentCountPointwise | lib/serial.js:136-141 | steps that send exactly at the units other than 'x' send as many times as there are such units |
| Sequencer.TotalWritesPointwise | lib/serial.js:142-150 | steps writing w chunks at every unit other than 'x', and none at 'x', write w times the number of such units |
| Sequencer.SentStepsAreNonSkips | lib/serial.js:136-141 | a request has exactly one sending step per unit other than 'x' |
| Sequencer.WritesPerRequest | lib/serial.js:135-160 | when every unit other than 'x' has an in-range command, the request writes four chunks per such unit and nothing else |
| Sequencer.AllSkipsSendNothing | lib/serial.js:138-140 | a request made only of 'x' has only skipped steps and writes nothing |
| Sequencer.ExampleUnits | lib/serial.js:136 | "3x21" splits into the units '3', 'x', '2', '1' |
| Sequencer.ExampleTrace | lib/serial.js:135-160 | "3x21" skips output 1 and sends at outputs 0, 2 and 3 |
| Sequencer.ExampleCommands | lib/serial.js:124-133 | the sending units of "3x21" are commands 2, 9 and 12, sent as 02 fd, 09 f6 and 0c f3 with the trailer |
| Sequencer.ExampleCommandText | lib/serial.js:132 | command 2 is the text "02fdd57b" |

## Left out

- **Opening the port.** Opening the port at 9600 baud and setting the control lines (lib/serial.js:9-15) is I/O and is not modelled.
- **The delimiter parser.** The parser that cuts the inbound byte stream at the start marker (lib/serial.js:30) is an external library, and so is its handling of an undefined marker. The model takes the sequence of candidate frames it delivers, in arrival order.
- **Timers and scheduling.** Real timers and bluebird's `Promise.map` scheduling (lib/serial.js:136-160) are not modelled. The trace lists the steps in position order, with write and drain times relative to the start of each step, and does not model when one step's promise settles relative to the next.
- **Write and drain errors.** Errors from `port.write` are only logged (lib/serial.js:146-148). An error from `port.drain` rejects the step (lib/serial.js:153-155). Both are I/O outcomes; the model assumes every write and drain succeeds.
- **`switchCmd`.** `switchCmd` (lib/serial.js:163-165) only forwards to `runCmd`. Several requests overlapping on one port are not modelled.
- **`index.js`.** `index.js` is not part of this model.
- Command.CommandInt: does not cover white-space characters. `+` reads them as 0, which passes the integer test, while `parseInt` reads them as NaN, so the source computes NaN and then formats it as text. The requires `Encodable` excludes them.
- JsRuntime.DecodeHexPair: decodes only chunks of exactly two hexadecimal digits. `Buffer.from(chunk, 'hex')` quietly truncates a malformed chunk, such as one with a minus sign or an odd length. Such chunks arise only for command numbers above 255, which need a digit at position 62 or later.
- JsRuntime.DecodeAll: states only the byte count and the cons rule. The contents of the bytes are stated for command texts through `Command.CommandTextDecodes`.
- **Types of the configuration arguments.** The output count is an integer and the label is a string. Any other JavaScript value compares unequal to 2, 4, "top" and "bottom", so the model's "every other value" branches already cover it.
