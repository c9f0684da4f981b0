/** Encoding of one character of a switch request into the device's
    command: a command number from the character and its output position,
    its complement to 255, and a fixed trailer, written as lowercase
    hexadecimal text that is later cut into two-digit chunks, one wire
    byte each. */
module Command {
  import opened Wrappers
  import opened JsRuntime

  /** The fixed command trailer, in the text form the source appends. */
  const Trailer: string := "d57b"
  /** The two trailer bytes on the wire. */
  const TrailerBytes: seq<byte> := [0xd5, 0x7b]

  /** A request code unit the encoder is modelled for: white space is left
      out, since `+` reads it as 0 while `parseInt` reads it as NaN. */
  predicate Encodable(u: CodeUnit) {
    !IsWhiteSpace(u)
  }

  function DigitOf(u: CodeUnit): nat
    requires IsDecimalDigit(u)
  {
    u - 0x30
  }

  /** The source's `genCommandInt`: -1 for a character that is not an
      integer, else `idx * 4 + digit - 1`. The number of inputs is never
      consulted. */
  function CommandInt(u: CodeUnit, idx: nat): (r: int)
    requires Encodable(u)
    ensures IsDecimalDigit(u) ==> r == 4 * idx + DigitOf(u) - 1
    ensures !IsDecimalDigit(u) ==> r == -1
    ensures r >= -1
  {
    if !IsInteger(UnaryPlus(u)) then -1
    else
      match ParseInt(u)
      case Int(d) => idx * 4 + (d - 1)
      case NaN => assert false; -1
  }

  /** The command text of a non-negative command number: the padded
      numeral of the number, the padded numeral of its complement to 255,
      and the trailer. */
  function CommandText(n: nat): (s: string)
    ensures n <= 255 ==> |s| == 8 && AllLowerHex(s)
  {
    CommandTextShape(n);
    HexPair(n) + HexPair(255 - n) + Trailer
  }

  lemma CommandTextShape(n: nat)
    ensures n <= 255 ==> |HexPair(n) + HexPair(255 - n) + Trailer| == 8
    ensures n <= 255 ==> AllLowerHex(HexPair(n) + HexPair(255 - n) + Trailer)
  {
    var a, b := HexPair(n), HexPair(255 - n);
    if n <= 255 {
      assert AllLowerHex(Trailer);
      HexPairShape(n);
      HexPairShape(255 - n);
      AllLowerHexConcat(a, b);
      AllLowerHexConcat(a + b, Trailer);
    }
  }

  /** A command number above 255 (possible from position 62 on) has a
      negative complement, whose numeral starts with a minus sign: the
      text is then no longer lowercase hexadecimal. */
  lemma LargeCommandTextHasMinus(n: nat)
    requires n > 255
    ensures CommandText(n)[|HexPair(n)|] == '-'
    ensures !AllLowerHex(CommandText(n))
  {
    var a, b := HexPair(n), HexPair(255 - n);
    assert ToHex(255 - n) == "-" + NatToHex(n - 255);
    assert b == ToHex(255 - n);
    assert CommandText(n) == a + b + Trailer;
    assert CommandText(n)[|a|] == b[0];
    assert !IsLowerHex(CommandText(n)[|a|]);
  }

  /** The source's `genCommandString`: empty for a negative command
      number, else the command text. */
  function CommandString(u: CodeUnit, idx: nat): (s: string)
    requires Encodable(u)
    ensures s == "" <==> CommandInt(u, idx) < 0
    ensures 0 <= CommandInt(u, idx) <= 255 ==> |s| == 8 && AllLowerHex(s)
  {
    var n := CommandInt(u, idx);
    if n < 0 then "" else CommandText(n)
  }

  /** The chunks of the command text, one per `port.write`. */
  function CommandChunks(u: CodeUnit, idx: nat): (r: seq<string>)
    requires Encodable(u)
    ensures CommandInt(u, idx) < 0 ==> r == []
    ensures forall k :: 0 <= k < |r| ==> 1 <= |r[k]| <= 2
  {
    MatchPairs(CommandString(u, idx))
  }

  /** The bytes a command number puts on the wire. */
  function WireBytes(n: byte): seq<byte> {
    [n, 255 - n] + TrailerBytes
  }

  /** The trailer text is matched as its two numerals. */
  lemma TrailerChunks()
    ensures MatchPairs(Trailer) == ["d5", "7b"]
  {
    assert Trailer == "d5" + "7b";
    assert AllLowerHex("d5") && AllLowerHex("7b");
    MatchPairsCons("d5", "7b");
    MatchPairsCons("7b", []);
    assert "7b" + [] == "7b";
    assert MatchPairs([]) == [];
  }

  /** The trailer numerals decode to the trailer bytes. */
  lemma TrailerDecodes()
    ensures DecodeHexPair("d5") == Some(TrailerBytes[0])
    ensures DecodeHexPair("7b") == Some(TrailerBytes[1])
  {
    assert AllHex("d5") && AllHex("7b");
    assert HexCharValue('d') == 13 && HexCharValue('5') == 5;
    assert HexCharValue('7') == 7 && HexCharValue('b') == 11;
  }

  /** The command text of an in-range command number is matched as the
      two padded numerals and the two trailer numerals. */
  lemma CommandTextChunks(n: byte)
    ensures MatchPairs(CommandText(n)) == [HexPair(n), HexPair(255 - n), "d5", "7b"]
  {
    var a, b := HexPair(n), HexPair(255 - n);
    HexPairShape(n);
    HexPairShape(255 - n);
    assert CommandText(n) == a + b + Trailer;
    MatchPairsTwoPairs(a, b, Trailer);
    TrailerChunks();
    var r := MatchPairs(CommandText(n));
    assert r == [a, b] + ["d5", "7b"];
    assert |r| == 4 && r[0] == a && r[1] == b && r[2] == "d5" && r[3] == "7b";
  }

  /** The trailer text, cut into chunks, decodes to the trailer bytes. */
  lemma TrailerDecodesAll()
    ensures DecodeAll(MatchPairs(Trailer)) == Some(TrailerBytes)
  {
    var t1: seq<string> := ["7b"];
    TrailerChunks();
    TrailerDecodes();
    assert DecodeAll([]) == Some([]);
    DecodeAllCons("7b", [], 0x7b, []);
    assert ["7b"] + [] == t1 && [0x7b] + [] == [0x7b];
    DecodeAllCons("d5", t1, 0xd5, [0x7b]);
    assert ["d5"] + t1 == ["d5", "7b"] && [0xd5] + [0x7b] == TrailerBytes;
  }

  /** The command text of an in-range command number hex-decodes, chunk
      by chunk, to the number, its complement and the trailer bytes. */
  lemma CommandTextDecodes(n: byte)
    ensures DecodeAll(MatchPairs(CommandText(n))) == Some(WireBytes(n))
  {
    var m: byte := 255 - n;
    var a, b := HexPair(n), HexPair(m);
    HexPairShape(n);
    HexPairShape(m);
    assert CommandText(n) == a + (b + Trailer);
    MatchPairsCons(a, b + Trailer);
    MatchPairsCons(b, Trailer);
    TrailerDecodesAll();
    HexPairRoundTrip(n);
    HexPairRoundTrip(m);
    DecodeAllCons(b, MatchPairs(Trailer), m, TrailerBytes);
    DecodeAllCons(a, [b] + MatchPairs(Trailer), n, [m] + TrailerBytes);
    PrependTwo(n, m, TrailerBytes);
  }

  /** When the command number fits a byte, the command text is four
      two-digit chunks that hex-decode to the number, its complement and
      the two trailer bytes. */
  lemma CommandChunksDecode(u: CodeUnit, idx: nat)
    requires Encodable(u)
    requires 0 <= CommandInt(u, idx) <= 255
    ensures |CommandChunks(u, idx)| == 4
    ensures DecodeAll(CommandChunks(u, idx)) == Some(WireBytes(CommandInt(u, idx)))
  {
    CommandTextChunks(CommandInt(u, idx));
    CommandTextDecodes(CommandInt(u, idx));
  }

  /** The first two wire bytes of every in-range command sum to 255. */
  lemma ComplementSums(n: byte)
    ensures WireBytes(n)[0] + WireBytes(n)[1] == 255
  {
  }

  /** For digits 1 to 4 the command number determines the request: the
      output position is its quotient by 4 and the digit one more than
      the remainder. */
  lemma CommandIntRecoversRequest(u: CodeUnit, idx: nat)
    requires IsDecimalDigit(u) && 1 <= DigitOf(u) <= 4
    ensures CommandInt(u, idx) / 4 == idx
    ensures CommandInt(u, idx) % 4 + 1 == DigitOf(u)
  {
    DivUnique(CommandInt(u, idx), 4, idx, DigitOf(u) - 1);
  }

  /** Digits are not checked against the number of inputs, so digit `d`
      at position `idx + 1` encodes the same command as digit `d + 4` at
      position `idx`; in particular '0' at position `idx + 1` aliases '4'
      at `idx`. */
  lemma CommandAliasing(d: CodeUnit, idx: nat)
    requires IsDecimalDigit(d) && DigitOf(d) <= 5
    ensures CommandString(d, idx + 1) == CommandString(d + 4, idx)
  {
  }

  /** '0' at the first position gives -1 and hence no command text. */
  lemma ZeroAtFirstPositionIsEmpty()
    ensures CommandInt('0' as int, 0) == -1
    ensures CommandString('0' as int, 0) == ""
    ensures CommandChunks('0' as int, 0) == []
  {
  }
}
