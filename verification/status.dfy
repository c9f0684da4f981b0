/** Decoding of an accepted 13-byte status frame into the structured
    status the engine reports, and the status read-out over the stored
    cell. A field that the source names `output1`, `output2`, ... (or
    `input1`, ...) is the element at position 0, 1, ... of a sequence here. */
module Status {
  import opened Wrappers
  import opened JsRuntime
  import opened Frames

  datatype Availability = Available | Unavailable

  datatype Power = On | Off

  /** The structure the source returns once a frame has been accepted. */
  datatype DeviceStatus = DeviceStatus(
    raw: seq<byte>,
    route: seq<int>,                    // `output`: the active route per output
    memory: seq<int>,                   // `memory`: the memory bank per output
    inputStatus: seq<Availability>,     // `status.input`
    outputStatus: seq<Availability>,    // `status.output`
    power: Power)

  /** Position of the status byte holding the availability flags. */
  const FlagsIndex: nat := 8
  /** Position of the power byte. */
  const PowerIndex: nat := 9
  /** First position of the route bytes; the memory bytes start at 0. */
  const RouteBase: nat := 4

  /** Maps the two raw selector codes 8 and 4 to 4 and 3 and passes every
      other code through. */
  function PortNumber(code: int): (r: int)
    ensures code == 8 ==> r == 4
    ensures code == 4 ==> r == 3
    ensures code != 8 && code != 4 ==> r == code
    ensures 0 <= code < 256 ==> 0 <= r < 256
  {
    if code == 8 then 4 else if code == 4 then 3 else code
  }

  /** On the one-hot selector codes 1, 2, 4, 8 the mapping returns the
      position of the set bit counted from 1: it reads back the input
      number `n` from the code `2^(n-1)`. */
  lemma PortNumberDecodesOneHot(n: nat)
    requires 1 <= n <= 4
    ensures PortNumber(Pow2(n - 1)) == n
  {
    assert Pow2(0) == 1 && Pow2(1) == 2 && Pow2(2) == 4 && Pow2(3) == 8;
  }

  /** The source's `isAvailable`: the flag reads "available" exactly when
      bit `bitPos` of the status byte is set. */
  function IsAvailable(status: byte, bitPos: nat): (r: Availability)
    requires bitPos < 31
    ensures r == Available <==> BitSet(status, bitPos)
  {
    MaskTestsBit(status, bitPos);
    if BitAnd(status, Pow2(bitPos)) > 0 then Available else Unavailable
  }

  /** How many route and memory fields a device with `outputs` outputs
      reports: 4 for four outputs, 2 for two, none otherwise. */
  function FieldCount(outputs: int): nat {
    if outputs == 4 then 4 else if outputs == 2 then 2 else 0
  }

  predicate IsFrame(frame: seq<byte>) {
    |frame| == FrameLength
  }

  /** The source's `getOutputDetails`: route field `i` (0-based) decodes
      frame byte `4 + i`. */
  function OutputDetails(frame: seq<byte>, outputs: int): (r: seq<int>)
    requires IsFrame(frame)
    ensures |r| == FieldCount(outputs)
    ensures forall i :: 0 <= i < |r| ==> r[i] == PortNumber(frame[RouteBase + i])
  {
    if outputs == 4 then
      [PortNumber(frame[4]), PortNumber(frame[5]), PortNumber(frame[6]), PortNumber(frame[7])]
    else if outputs == 2 then
      [PortNumber(frame[4]), PortNumber(frame[5])]
    else []
  }

  /** The source's `getMemoryDetails`: memory field `i` (0-based) decodes
      frame byte `i`. */
  function MemoryDetails(frame: seq<byte>, outputs: int): (r: seq<int>)
    requires IsFrame(frame)
    ensures |r| == FieldCount(outputs)
    ensures forall i :: 0 <= i < |r| ==> r[i] == PortNumber(frame[i])
  {
    if outputs == 4 then
      [PortNumber(frame[0]), PortNumber(frame[1]), PortNumber(frame[2]), PortNumber(frame[3])]
    else if outputs == 2 then
      [PortNumber(frame[0]), PortNumber(frame[1])]
    else []
  }

  /** The source's `getInputStatus`: always four flags; input `i+1` is
      available exactly when bit `7 - i` of byte 8 is set. */
  function InputStatus(frame: seq<byte>): (r: seq<Availability>)
    requires IsFrame(frame)
    ensures |r| == 4
    ensures forall i :: 0 <= i < 4 ==> (r[i] == Available <==> BitSet(frame[FlagsIndex], 7 - i))
  {
    var b := frame[8];
    [IsAvailable(b, 7), IsAvailable(b, 6), IsAvailable(b, 5), IsAvailable(b, 4)]
  }

  /** The source's `getOutputStatus`: four flags on a four-output device
      (output `i+1` available exactly when bit `3 - i` of byte 8 is set),
      none on any other device. */
  function OutputStatus(frame: seq<byte>, outputs: int): (r: seq<Availability>)
    requires IsFrame(frame)
    ensures |r| == if outputs == 4 then 4 else 0
    ensures forall i :: 0 <= i < |r| ==> (r[i] == Available <==> BitSet(frame[FlagsIndex], 3 - i))
  {
    if outputs == 4 then
      var b := frame[8];
      [IsAvailable(b, 3), IsAvailable(b, 2), IsAvailable(b, 1), IsAvailable(b, 0)]
    else []
  }

  /** The structured status of one accepted frame. */
  function Decode(frame: seq<byte>, outputs: int): (r: DeviceStatus)
    requires IsFrame(frame)
    ensures r.raw == frame
    ensures r.power == On <==> frame[PowerIndex] != 0
    ensures |r.route| == |r.memory| == FieldCount(outputs)
    ensures forall i :: 0 <= i < |r.route| ==>
              r.route[i] == PortNumber(frame[RouteBase + i]) && r.memory[i] == PortNumber(frame[i])
    ensures |r.inputStatus| == 4
    ensures forall i :: 0 <= i < 4 ==> (r.inputStatus[i] == Available <==> BitSet(frame[FlagsIndex], 7 - i))
    ensures |r.outputStatus| == if outputs == 4 then 4 else 0
    ensures forall i :: 0 <= i < |r.outputStatus| ==>
              (r.outputStatus[i] == Available <==> BitSet(frame[FlagsIndex], 3 - i))
  {
    DeviceStatus(
      frame,
      OutputDetails(frame, outputs),
      MemoryDetails(frame, outputs),
      InputStatus(frame),
      OutputStatus(frame, outputs),
      if frame[9] != 0 then On else Off)
  }

  /** The source's `getStatus`: the empty structure (None) while nothing
      has been accepted, else the decoding of the stored frame. */
  function GetStatus(cell: Cell, outputs: int): (r: Option<DeviceStatus>)
    requires WellFormed(cell)
    ensures r.None? <==> cell.None?
    ensures r.Some? ==> r.value.raw == cell.value
  {
    match cell
    case None => None
    case Some(frame) => Some(Decode(frame, outputs))
  }

  /** The status read after any stream of candidate frames, from a cold
      start: empty exactly when no candidate had length 13, otherwise the
      decoding of the last candidate that had. */
  lemma GetStatusAfterStream(candidates: seq<seq<byte>>, outputs: int)
    ensures WellFormed(AcceptAll(None, candidates))
    ensures GetStatus(AcceptAll(None, candidates), outputs).None? <==> NoneFull(candidates)
    ensures forall j :: IsLastFull(candidates, j) ==>
              GetStatus(AcceptAll(None, candidates), outputs) == Some(Decode(candidates[j], outputs))
  {
    AcceptAllFromEmpty(candidates);
    AcceptAllKeepsLastFull(None, candidates);
  }

  // ---------------------------------------------------------------------
  // The availability flags carry all of byte 8

  function FlagBit(a: Availability): nat {
    if a == Available then 1 else 0
  }

  /** Reads flags, most significant first, back as a binary numeral. */
  function FlagsToByte(flags: seq<Availability>): nat {
    if flags == [] then 0
    else 2 * FlagsToByte(flags[..|flags| - 1]) + FlagBit(flags[|flags| - 1])
  }

  lemma {:induction false} FlagPrefixValue(flags: seq<Availability>, b: byte, k: nat)
    requires |flags| == 8 && k <= 8
    requires forall i :: 0 <= i < 8 ==> (flags[i] == Available <==> BitSet(b, 7 - i))
    ensures FlagsToByte(flags[..k]) == b / Pow2(8 - k)
  {
    if k == 0 {
      assert Pow2(8) == 256;
      assert flags[..0] == [];
    } else {
      FlagPrefixValue(flags, b, k - 1);
      assert flags[..k][..k - 1] == flags[..k - 1];
      var m := Pow2(8 - k);
      var x := b / m;
      assert Pow2(8 - (k - 1)) == m * 2;
      DivDiv(b, m, 2);
      assert FlagBit(flags[k - 1]) == x % 2;
      assert FlagsToByte(flags[..k]) == 2 * (x / 2) + x % 2;
    }
  }

  /** On a four-output device the eight flags, inputs then outputs, spell
      byte 8 in binary: input 1 is its top bit and output 4 its lowest,
      and no bit of the byte is lost. */
  lemma StatusFlagsSpellByte(frame: seq<byte>)
    requires IsFrame(frame)
    ensures FlagsToByte(InputStatus(frame) + OutputStatus(frame, 4)) == frame[FlagsIndex]
  {
    var flags := InputStatus(frame) + OutputStatus(frame, 4);
    FlagPrefixValue(flags, frame[8], 8);
    assert flags[..8] == flags;
  }

  // ---------------------------------------------------------------------
  // A worked frame

  /** A four-output frame whose memory bytes are all 4 and whose route
      bytes are all 8 reports memory bank 3 and input 4 on every output;
      a flag byte of 0 marks every input and output unavailable, and a
      power byte of 1 reads as on. */
  lemma ExampleFrame()
    ensures var frame: seq<byte> := [4, 4, 4, 4, 8, 8, 8, 8, 0, 1, 0, 0, 0];
            && Decode(frame, 4).route == [4, 4, 4, 4]
            && Decode(frame, 4).memory == [3, 3, 3, 3]
            && Decode(frame, 4).power == On
            && (forall i :: 0 <= i < 4 ==> Decode(frame, 4).inputStatus[i] == Unavailable)
            && (forall i :: 0 <= i < 4 ==> Decode(frame, 4).outputStatus[i] == Unavailable)
  {
  }
}
