/** The timed step structure of a switch request: the request is split into
    UTF-16 code units, and each unit at position `idx` becomes one step.
    The skip sentinel 'x' completes at once; any other unit waits a settle
    delay, writes the chunks of its command text one per timer, 50 ms
    apart, and asks for a drain 250 ms after the settle delay. Times are
    milliseconds from the start of the step. */
module Sequencer {
  import opened Wrappers
  import opened JsRuntime
  import opened Command

  /** Quiet period before a step transmits anything. */
  const SettleMs: nat := 500
  /** Spacing between successive chunk writes of one step. */
  const StaggerMs: nat := 50
  /** Delay, after the settle period, before the drain is requested. */
  const DrainDelayMs: nat := 250

  /** The skip sentinel 'x'. */
  const SkipUnit: CodeUnit := 0x78

  /** One `port.write` of a chunk, scheduled `at` ms after the step began. */
  datatype Write = Write(at: nat, chunk: string)

  datatype Step =
    | Skipped(index: nat)
    | Sent(index: nat, writes: seq<Write>, drainAt: nat)
  {
    function Writes(): seq<Write> {
      if Sent? then writes else []
    }
  }

  // ---------------------------------------------------------------------
  // Splitting the request

  /** The UTF-16 encoding of one character: itself below U+10000, else a
      surrogate pair. */
  function Utf16(c: char): (r: seq<CodeUnit>)
    ensures 1 <= |r| <= 2
    ensures (c as int) < 0x1_0000 <==> r == [c as int]
  {
    var v := c as int;
    if v < 0x1_0000 then [v]
    else [0xD800 + (v - 0x1_0000) / 0x400, 0xDC00 + (v - 0x1_0000) % 0x400]
  }

  /** Reading a surrogate pair back gives the character it encodes. */
  lemma Utf16RoundTrip(c: char)
    requires (c as int) >= 0x1_0000
    ensures var r := Utf16(c);
            && 0xD800 <= r[0] < 0xDC00 && 0xDC00 <= r[1] < 0xE000
            && 0x1_0000 + (r[0] as int - 0xD800) * 0x400 + (r[1] as int - 0xDC00) == c as int
  {
    var v := (c as int) - 0x1_0000;
    DivUnique(v, 0x400, v / 0x400, v % 0x400);
  }

  /** A character outside the Basic Multilingual Plane splits into two
      surrogate units; neither is white space, the skip sentinel or a
      digit, so each becomes a step that settles, writes nothing and
      drains. */
  lemma AstralCharSendsNothing(c: char, idx: nat)
    requires (c as int) >= 0x1_0000
    ensures forall k :: 0 <= k < |Utf16(c)| ==>
              var u := Utf16(c)[k];
              Encodable(u) && u != SkipUnit && StepFor(u, idx + k) == Sent(idx + k, [], SettleMs + DrainDelayMs)
  {
    Utf16RoundTrip(c);
    forall k | 0 <= k < |Utf16(c)|
      ensures var u := Utf16(c)[k];
              Encodable(u) && u != SkipUnit && StepFor(u, idx + k) == Sent(idx + k, [], SettleMs + DrainDelayMs)
    {
      var u := Utf16(c)[k];
      assert 0xD800 <= u < 0xE000;
      assert !IsDecimalDigit(u);
      EmptyCommandStillDrains(u, idx + k);
    }
  }

  /** `s.split('')`: the code units of `s`, in order. */
  function CodeUnits(s: string): (r: seq<CodeUnit>)
    ensures |s| <= |r| <= 2 * |s|
  {
    if s == [] then [] else Utf16(s[0]) + CodeUnits(s[1..])
  }

  predicate InBmp(s: string) {
    forall i :: 0 <= i < |s| ==> (s[i] as int) < 0x1_0000
  }

  /** A string inside the Basic Multilingual Plane splits into one code
      unit per character. */
  lemma {:induction false} CodeUnitsOfBmp(s: string)
    requires InBmp(s)
    ensures |CodeUnits(s)| == |s|
    ensures forall i :: 0 <= i < |s| ==> CodeUnits(s)[i] == s[i] as int
  {
    if s != [] {
      assert InBmp(s[1..]) by {
        forall i | 0 <= i < |s[1..]| ensures (s[1..][i] as int) < 0x1_0000 {
          assert s[1..][i] == s[i + 1];
        }
      }
      CodeUnitsOfBmp(s[1..]);
      assert Utf16(s[0]) == [s[0] as int];
    }
  }

  /** A request the model covers: no white-space code unit. */
  predicate EncodableUnits(units: seq<CodeUnit>) {
    forall i :: 0 <= i < |units| ==> Encodable(units[i])
  }

  // ---------------------------------------------------------------------
  // One step

  /** The per-chunk timers of a step, the first chunk being the `k`-th
      of the command: chunk `k` is written `50 * k` ms after the settle
      delay. */
  function ScheduleFrom(chunks: seq<string>, k: nat): (w: seq<Write>)
    ensures |w| == |chunks|
    ensures forall j :: 0 <= j < |w| ==> w[j] == Write(SettleMs + StaggerMs * (k + j), chunks[j])
    decreases |chunks|
  {
    if chunks == [] then []
    else [Write(SettleMs + StaggerMs * k, chunks[0])] + ScheduleFrom(chunks[1..], k + 1)
  }

  /** The step for code unit `u` at position `idx`. */
  function StepFor(u: CodeUnit, idx: nat): (s: Step)
    requires Encodable(u)
    ensures s.index == idx
    ensures s.Skipped? <==> u == SkipUnit
    ensures s.Sent? ==> s.drainAt == SettleMs + DrainDelayMs
  {
    if u == SkipUnit then Skipped(idx)
    else Sent(idx, ScheduleFrom(CommandChunks(u, idx), 0), SettleMs + DrainDelayMs)
  }

  /** A sending step writes chunk `k` of its command text `500 + 50 * k`
      ms after it began, one write per chunk, in chunk order. */
  lemma SentStepSchedule(u: CodeUnit, idx: nat)
    requires Encodable(u) && u != SkipUnit
    ensures |StepFor(u, idx).writes| == |CommandChunks(u, idx)|
    ensures forall k :: 0 <= k < |StepFor(u, idx).writes| ==>
              StepFor(u, idx).writes[k] == Write(SettleMs + StaggerMs * k, CommandChunks(u, idx)[k])
  {
  }

  /** A unit whose command number is negative ('0' first, or any
      character that is not a digit) still waits, writes nothing and
      drains. */
  lemma EmptyCommandStillDrains(u: CodeUnit, idx: nat)
    requires Encodable(u) && u != SkipUnit && CommandInt(u, idx) < 0
    ensures StepFor(u, idx) == Sent(idx, [], SettleMs + DrainDelayMs)
  {
    assert CommandString(u, idx) == "";
  }

  /** A step whose command number fits a byte writes exactly four chunks,
      at 500, 550, 600 and 650 ms, all before the drain at 750 ms, and
      they put the number, its complement and the trailer on the wire. */
  lemma SentStepWire(u: CodeUnit, idx: nat)
    requires Encodable(u) && u != SkipUnit
    requires 0 <= CommandInt(u, idx) <= 255
    ensures var s := StepFor(u, idx);
            && |s.writes| == 4
            && (forall k :: 0 <= k < 4 ==> s.writes[k].at == 500 + 50 * k < s.drainAt == 750)
            && DecodeAll(ChunksOf(s.writes)) == Some(WireBytes(CommandInt(u, idx)))
  {
    CommandChunksDecode(u, idx);
    SentStepSchedule(u, idx);
    var s := StepFor(u, idx);
    assert ChunksOf(s.writes) == CommandChunks(u, idx);
  }

  function ChunksOf(writes: seq<Write>): (r: seq<string>)
    ensures |r| == |writes|
    ensures forall k :: 0 <= k < |r| ==> r[k] == writes[k].chunk
  {
    seq(|writes|, k requires 0 <= k < |writes| => writes[k].chunk)
  }

  // ---------------------------------------------------------------------
  // The whole request

  /** The source's `runCmd` for a request, as the ordered list of its
      steps: `Promise.map` over the code units, one at a time, handing each
      unit its position. */
  function Trace(request: string): (r: seq<Step>)
    requires EncodableUnits(CodeUnits(request))
    ensures |r| == |CodeUnits(request)|
  {
    var units := CodeUnits(request);
    seq(|units|, i requires 0 <= i < |units| => StepFor(units[i], i))
  }

  /** Step `i` of a request belongs to unit `i`: it carries position `i`,
      is skipped exactly when the unit is 'x', and otherwise drains at
      750 ms and writes chunk `k` of the unit's command at `500 + 50 * k`
      ms. */
  lemma TracePointwise(request: string, i: nat)
    requires EncodableUnits(CodeUnits(request)) && i < |CodeUnits(request)|
    ensures var s, u := Trace(request)[i], CodeUnits(request)[i];
            && s.index == i
            && (s.Skipped? <==> u == SkipUnit)
            && (s.Sent? ==> s.drainAt == SettleMs + DrainDelayMs)
            && (s.Sent? ==> |s.writes| == |CommandChunks(u, i)|)
            && (s.Sent? ==> forall k :: 0 <= k < |s.writes| ==>
                  s.writes[k] == Write(SettleMs + StaggerMs * k, CommandChunks(u, i)[k]))
  {
    var u := CodeUnits(request)[i];
    if u != SkipUnit {
      SentStepSchedule(u, i);
    }
  }

  function TotalWrites(trace: seq<Step>): nat {
    if trace == [] then 0 else |trace[0].Writes()| + TotalWrites(trace[1..])
  }

  function SentCount(trace: seq<Step>): nat {
    if trace == [] then 0 else (if trace[0].Sent? then 1 else 0) + SentCount(trace[1..])
  }

  function NonSkipCount(units: seq<CodeUnit>): nat {
    if units == [] then 0 else (if units[0] != SkipUnit then 1 else 0) + NonSkipCount(units[1..])
  }

  /** Counting steps that send against units that are not 'x', for any
      steps that send exactly at those units. */
  lemma {:induction false} SentCountPointwise(trace: seq<Step>, units: seq<CodeUnit>)
    requires |trace| == |units|
    requires forall i :: 0 <= i < |trace| ==> (trace[i].Sent? <==> units[i] != SkipUnit)
    ensures SentCount(trace) == NonSkipCount(units)
  {
    if trace != [] {
      SentCountPointwise(trace[1..], units[1..]);
    }
  }

  /** Total writes of steps that write `w` chunks at each unit that is
      not 'x' and nothing at an 'x'. */
  lemma {:induction false} TotalWritesPointwise(trace: seq<Step>, units: seq<CodeUnit>, w: nat)
    requires |trace| == |units|
    requires forall i :: 0 <= i < |trace| ==>
               |trace[i].Writes()| == if units[i] != SkipUnit then w else 0
    ensures TotalWrites(trace) == w * NonSkipCount(units)
  {
    if trace != [] {
      TotalWritesPointwise(trace[1..], units[1..], w);
      assert TotalWrites(trace) == |trace[0].Writes()| + w * NonSkipCount(units[1..]);
    }
  }

  /** Exactly the units other than 'x' produce a sending step. */
  lemma SentStepsAreNonSkips(request: string)
    requires EncodableUnits(CodeUnits(request))
    ensures SentCount(Trace(request)) == NonSkipCount(CodeUnits(request))
  {
    SentCountPointwise(Trace(request), CodeUnits(request));
  }

  /** When every unit other than 'x' is a digit whose command fits a byte,
      the request writes four chunks per such unit and nothing else. */
  lemma WritesPerRequest(request: string)
    requires EncodableUnits(CodeUnits(request))
    requires forall i :: 0 <= i < |CodeUnits(request)| && CodeUnits(request)[i] != SkipUnit ==>
               0 <= CommandInt(CodeUnits(request)[i], i) <= 255
    ensures TotalWrites(Trace(request)) == 4 * NonSkipCount(CodeUnits(request))
  {
    var units, t := CodeUnits(request), Trace(request);
    forall i | 0 <= i < |t|
      ensures |t[i].Writes()| == if units[i] != SkipUnit then 4 else 0
    {
      if units[i] != SkipUnit {
        SentStepWire(units[i], i);
      }
    }
    TotalWritesPointwise(t, units, 4);
  }

  /** A request made only of skip sentinels sends nothing and waits for
      nothing: every step is an instant skip and no chunk is written. */
  lemma AllSkipsSendNothing(request: string)
    requires EncodableUnits(CodeUnits(request))
    requires forall i :: 0 <= i < |CodeUnits(request)| ==> CodeUnits(request)[i] == SkipUnit
    ensures forall i :: 0 <= i < |Trace(request)| ==> Trace(request)[i].Skipped?
    ensures TotalWrites(Trace(request)) == 0
  {
    TotalWritesPointwise(Trace(request), CodeUnits(request), 0);
  }

  // ---------------------------------------------------------------------
  // A worked request

  /** The request "3x21" splits into one unit per character, all of
      which the encoder covers. */
  lemma ExampleUnits()
    ensures CodeUnits("3x21") == [0x33, 0x78, 0x32, 0x31]
    ensures EncodableUnits(CodeUnits("3x21"))
  {
    CodeUnitsOfBmp("3x21");
  }

  /** "3x21" on a four-input device: the 'x' leaves output 1 alone and
      the other three units send a command each. */
  lemma ExampleTrace()
    ensures EncodableUnits(CodeUnits("3x21"))
    ensures |Trace("3x21")| == 4
    ensures Trace("3x21")[1] == Skipped(1)
    ensures Trace("3x21")[0].Sent? && Trace("3x21")[2].Sent? && Trace("3x21")[3].Sent?
  {
    ExampleUnits();
  }

  /** The commands of the three sending units of "3x21": '3' at output 0
      is command 2, '2' at output 2 is command 9 and '1' at output 3 is
      command 12; each goes out as the number, its complement and the
      trailer. */
  lemma ExampleCommands()
    ensures CommandInt(0x33, 0) == 2 && WireBytes(2) == [0x02, 0xfd, 0xd5, 0x7b]
    ensures CommandInt(0x32, 2) == 9 && WireBytes(9) == [0x09, 0xf6, 0xd5, 0x7b]
    ensures CommandInt(0x31, 3) == 12 && WireBytes(12) == [0x0c, 0xf3, 0xd5, 0x7b]
  {
  }

  /** The text of command 2: the number and its complement 253 as two
      lowercase hexadecimal digits each, then the trailer. */
  lemma ExampleCommandText()
    ensures CommandText(2) == "02fdd57b"
  {
    assert HexPair(2) == "02" && HexPair(253) == "fd";
  }
}
