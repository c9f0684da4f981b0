/** The JavaScript and Node.js primitives the protocol engine relies on, with
    the meaning they have on the values the engine feeds them: the bitwise
    `&` of two small non-negative integers, `+s` and `parseInt(s)` of a
    one-code-unit string, `Number.prototype.toString(16)`, lodash `padStart`,
    the regular expression `/.{1,2}/g`, and `Buffer.from(pair, 'hex')`.
    Each comes with the independent reading it is proved against. */
module JsRuntime {
  import opened Wrappers

  /** One octet on the serial link. */
  type byte = x: int | 0 <= x < 256

  /** One UTF-16 code unit: the element type of a JavaScript string. */
  type CodeUnit = x: int | 0 <= x < 0x1_0000

  function Pow2(n: nat): (r: nat)
    ensures r >= 1
  {
    if n == 0 then 1 else 2 * Pow2(n - 1)
  }

  // ---------------------------------------------------------------------
  // Integer division facts used by the bit-level proofs

  lemma MulAtLeast(d: int, k: int)
    requires d > 0 && k >= 1
    ensures d * k >= d
    decreases k
  {
    if k > 1 {
      MulAtLeast(d, k - 1);
      assert d * k == d * (k - 1) + d;
    }
  }

  /** Quotient and remainder are the only pair with `n == d * q + r`. */
  lemma DivUnique(n: int, d: int, q: int, r: int)
    requires d > 0 && 0 <= r < d && n == d * q + r
    ensures n / d == q && n % d == r
  {
    var q', r' := n / d, n % d;
    assert n == d * q' + r' && 0 <= r' < d;
    if q' < q {
      var k := q - q';
      assert d * q == d * q' + d * k;
      MulAtLeast(d, k);
      assert false;
    } else if q < q' {
      var k := q' - q;
      assert d * q' == d * q + d * k;
      MulAtLeast(d, k);
      assert false;
    }
  }

  lemma MulRegroup(a: int, b: int, q: int, r: int)
    ensures a * (b * q + r) == (a * b) * q + a * r
  {
  }

  /** Dividing twice is dividing once by the product. */
  lemma DivDiv(n: nat, a: nat, b: nat)
    requires a > 0 && b > 0
    ensures n / a / b == n / (a * b)
  {
    var q, r := n / a, n % a;
    var q2, r2 := q / b, q % b;
    MulRegroup(a, b, q2, r2);
    assert n == (a * b) * q2 + (a * r2 + r);
    MulAtLeast(a, b - r2);
    MulRegroup(a, 1, b, -r2);
    DivUnique(n, a * b, q2, a * r2 + r);
  }

  // ---------------------------------------------------------------------
  // Bits

  /** JavaScript `a & b` for operands in the non-negative 32-bit range,
      computed bit by bit from the least significant end. */
  function BitAnd(a: nat, b: nat): (r: nat)
    ensures r <= a && r <= b
    ensures r % 2 == 1 <==> a % 2 == 1 && b % 2 == 1
  {
    if a == 0 || b == 0 then 0
    else 2 * BitAnd(a / 2, b / 2) + (if a % 2 == 1 && b % 2 == 1 then 1 else 0)
  }

  /** Bit `p` of `n` in positional binary notation. */
  predicate BitSet(n: nat, p: nat) {
    (n / Pow2(p)) % 2 == 1
  }

  /** Masking with `2^p` (the source's `status & Math.pow(2, bitPos)`) is
      non-zero exactly when bit `p` is set. */
  lemma {:induction false} MaskTestsBit(n: nat, p: nat)
    ensures BitAnd(n, Pow2(p)) > 0 <==> BitSet(n, p)
  {
    if p == 0 {
      assert BitAnd(n, 1) == n % 2;
    } else if n == 0 {
      assert BitAnd(n, Pow2(p)) == 0;
      assert n / Pow2(p) == 0;
    } else {
      var m := Pow2(p - 1);
      assert Pow2(p) == 2 * m;
      assert Pow2(p) / 2 == m && Pow2(p) % 2 == 0;
      assert BitAnd(n, Pow2(p)) == 2 * BitAnd(n / 2, m);
      MaskTestsBit(n / 2, p - 1);
      DivDiv(n, 2, m);
    }
  }

  // ---------------------------------------------------------------------
  // Numbers obtained from one code unit

  /** The JavaScript number values the engine can produce from one code
      unit: an integer or NaN. */
  datatype Number = Int(value: int) | NaN

  /** ECMAScript StrWhiteSpaceChar: WhiteSpace and LineTerminator code
      points, all of which lie in the Basic Multilingual Plane. */
  predicate IsWhiteSpace(u: int) {
    || u == 0x09 || u == 0x0B || u == 0x0C || u == 0x20 || u == 0xA0
    || u == 0x1680 || (0x2000 <= u <= 0x200A) || u == 0x202F
    || u == 0x205F || u == 0x3000 || u == 0xFEFF
    || IsLineTerminator(u)
  }

  /** ECMAScript LineTerminator, the code points `.` does not match. */
  predicate IsLineTerminator(u: int) {
    u == 0x0A || u == 0x0D || u == 0x2028 || u == 0x2029
  }

  predicate IsDecimalDigit(u: int) {
    0x30 <= u <= 0x39
  }

  /** `+s` for the one-code-unit string `s`: a digit reads as its value,
      a string of white space alone reads as 0, anything else is NaN. */
  function UnaryPlus(u: CodeUnit): (r: Number)
    ensures r.Int? <==> IsDecimalDigit(u) || IsWhiteSpace(u)
    ensures IsDecimalDigit(u) ==> r.value == u - 0x30
    ensures IsWhiteSpace(u) ==> r.value == 0
  {
    if IsDecimalDigit(u) then Int(u - 0x30)
    else if IsWhiteSpace(u) then Int(0)
    else NaN
  }

  /** `parseInt(s)` for the one-code-unit string `s`: only a digit
      parses; white space is skipped, leaving nothing, hence NaN. */
  function ParseInt(u: CodeUnit): (r: Number)
    ensures r.Int? <==> IsDecimalDigit(u)
    ensures r.Int? ==> 0 <= r.value <= 9 && u == 0x30 + r.value
  {
    if IsDecimalDigit(u) then Int(u - 0x30) else NaN
  }

  /** Off white space the two readings of a code unit agree, so a unit
      that passes the integer test of `+` always parses. */
  lemma UnaryPlusAgreesWithParseInt(u: CodeUnit)
    requires !IsWhiteSpace(u)
    ensures UnaryPlus(u) == ParseInt(u)
  {
  }

  /** On white space they disagree: `+` reads an integer (0) while
      `parseInt` reads NaN. */
  lemma WhiteSpaceSplitsReadings(u: CodeUnit)
    requires IsWhiteSpace(u)
    ensures IsInteger(UnaryPlus(u)) && ParseInt(u) == NaN
  {
  }

  /** lodash `_.isInteger`. */
  predicate IsInteger(x: Number) {
    x.Int?
  }

  // ---------------------------------------------------------------------
  // Hexadecimal text

  predicate IsLowerHex(c: char) {
    '0' <= c <= '9' || 'a' <= c <= 'f'
  }

  /** The characters `Buffer.from(_, 'hex')` accepts as a digit. */
  predicate IsHexChar(c: char) {
    IsLowerHex(c) || 'A' <= c <= 'F'
  }

  predicate AllLowerHex(s: string) {
    forall i :: 0 <= i < |s| ==> IsLowerHex(s[i])
  }

  predicate AllHex(s: string) {
    forall i :: 0 <= i < |s| ==> IsHexChar(s[i])
  }

  function HexDigit(d: nat): (c: char)
    requires d < 16
    ensures IsLowerHex(c)
  {
    if d < 10 then ('0' as int + d) as char else ('a' as int + d - 10) as char
  }

  function HexCharValue(c: char): (v: nat)
    requires IsHexChar(c)
    ensures v < 16
  {
    if '0' <= c <= '9' then c as int - '0' as int
    else if 'a' <= c <= 'f' then c as int - 'a' as int + 10
    else c as int - 'A' as int + 10
  }

  lemma HexDigitValue(d: nat)
    requires d < 16
    ensures HexCharValue(HexDigit(d)) == d
  {
  }

  /** `n.toString(16)` for a non-negative integer: the shortest lowercase
      hexadecimal numeral, most significant digit first. */
  function NatToHex(n: nat): (s: string)
    ensures 1 <= |s| && AllLowerHex(s)
    ensures n < 16 <==> |s| == 1
    ensures 16 <= n < 256 <==> |s| == 2
  {
    if n < 16 then [HexDigit(n)] else NatToHex(n / 16) + [HexDigit(n % 16)]
  }

  /** `n.toString(16)` for any integer: a minus sign before the numeral of
      the magnitude when `n` is negative. */
  function ToHex(n: int): (s: string)
    ensures 1 <= |s|
    ensures n >= 0 ==> AllLowerHex(s)
    ensures n < 0 ==> s[0] == '-'
  {
    if n < 0 then "-" + NatToHex(-n) else NatToHex(n)
  }

  /** The value of a hexadecimal numeral, most significant digit first;
      the reading `toString(16)` is meant to invert. */
  function HexValue(s: string): nat
    requires AllHex(s)
  {
    if s == [] then 0 else 16 * HexValue(s[..|s| - 1]) + HexCharValue(s[|s| - 1])
  }

  lemma {:induction false} HexValueOfNatToHex(n: nat)
    ensures HexValue(NatToHex(n)) == n
  {
    var s := NatToHex(n);
    if n < 16 {
      HexDigitValue(n);
      assert s[..0] == [];
    } else {
      HexValueOfNatToHex(n / 16);
      HexDigitValue(n % 16);
      assert s[..|s| - 1] == NatToHex(n / 16);
    }
  }

  lemma AllLowerHexConcat(a: string, b: string)
    requires AllLowerHex(a) && AllLowerHex(b)
    ensures AllLowerHex(a + b)
  {
    forall i | 0 <= i < |a + b|
      ensures IsLowerHex((a + b)[i])
    {
      if i < |a| { assert (a + b)[i] == a[i]; } else { assert (a + b)[i] == b[i - |a|]; }
    }
  }

  /** lodash `_.padStart(s, width, fill)` with a one-character fill. */
  function PadStart(s: string, width: nat, fill: char): (r: string)
    ensures |r| == if |s| >= width then |s| else width
  {
    if |s| >= width then s else seq(width - |s|, _ => fill) + s
  }

  /** The padded text ends with the original text, preceded only by fill
      characters. */
  lemma PadStartContent(s: string, width: nat, fill: char)
    ensures var r := PadStart(s, width, fill);
            && r[|r| - |s|..] == s
            && forall i :: 0 <= i < |r| - |s| ==> r[i] == fill
  {
    var r := PadStart(s, width, fill);
    if |s| < width {
      var pad := seq(width - |s|, _ => fill);
      assert r == pad + s;
      assert r[|pad|..] == s;
    }
  }

  /** `n.toString(16)` left-padded with '0' to two characters. */
  function HexPair(n: int): (r: string)
    ensures 2 <= |r|
  {
    PadStart(ToHex(n), 2, '0')
  }

  /** `Buffer.from(chunk, 'hex')` for a chunk of exactly two hexadecimal
      digits is that one byte; any other chunk is not decoded here. */
  function DecodeHexPair(chunk: string): (r: Option<byte>)
    ensures r.Some? <==> |chunk| == 2 && AllHex(chunk)
    ensures r.Some? ==> r.value == HexValue(chunk)
  {
    if |chunk| == 2 && AllHex(chunk) then
      assert chunk[..|chunk| - 1] == chunk[..1];
      assert chunk[..1][..0] == [] && chunk[..1][0] == chunk[0];
      assert HexValue(chunk[..1]) == HexCharValue(chunk[0]);
      Some(16 * HexCharValue(chunk[0]) + HexCharValue(chunk[1]))
    else None
  }

  /** Every chunk passed through `Buffer.from(chunk, 'hex')`, joined:
      the bytes put on the wire, when each chunk is a two-digit numeral. */
  function DecodeAll(chunks: seq<string>): (r: Option<seq<byte>>)
    ensures r.Some? ==> |r.value| == |chunks|
  {
    if chunks == [] then Some([])
    else
      var head, tail := DecodeHexPair(chunks[0]), DecodeAll(chunks[1..]);
      if head.Some? && tail.Some? then Some([head.value] + tail.value) else None
  }

  lemma DecodeAllCons(c: string, rest: seq<string>, x: byte, xs: seq<byte>)
    requires DecodeHexPair(c) == Some(x) && DecodeAll(rest) == Some(xs)
    ensures DecodeAll([c] + rest) == Some([x] + xs)
  {
    assert ([c] + rest)[0] == c && ([c] + rest)[1..] == rest;
  }

  /** For every byte the padded numeral is two lowercase digits. */
  lemma HexPairShape(n: byte)
    ensures |HexPair(n)| == 2 && AllLowerHex(HexPair(n))
  {
    var h := NatToHex(n);
    assert ToHex(n) == h;
    if n < 16 {
      assert HexPair(n) == ['0'] + h;
    } else {
      assert HexPair(n) == h;
    }
  }

  /** For every byte the padded numeral decodes back to the byte. */
  lemma HexPairRoundTrip(n: byte)
    ensures DecodeHexPair(HexPair(n)) == Some(n)
  {
    var h := NatToHex(n);
    var s := HexPair(n);
    assert ToHex(n) == h;
    HexPairShape(n);
    HexValueOfNatToHex(n);
    if n < 16 {
      assert s == ['0'] + h;
      assert s[0] == '0' && s[1] == h[0];
      HexDigitValue(n);
      assert h == [HexDigit(n)];
    } else {
      assert s == h;
      assert DecodeHexPair(s).value == HexValue(h);
    }
  }

  // ---------------------------------------------------------------------
  // The regular expression /.{1,2}/g

  function Concat(parts: seq<string>): string {
    if parts == [] then "" else parts[0] + Concat(parts[1..])
  }

  /** The string with its line terminators removed. */
  function DropLineTerminators(s: string): (r: string) {
    if s == [] then []
    else if IsLineTerminator(s[0] as int) then DropLineTerminators(s[1..])
    else [s[0]] + DropLineTerminators(s[1..])
  }

  /** `s.match(/.{1,2}/g)`: `.` matches any code unit but a line
      terminator, so the matches are the runs between line terminators
      cut into two-character pieces, the last piece of a run possibly
      holding one character. A string with no match gives `null`, which
      lodash `_.each` treats as empty. */
  function MatchPairs(s: string): (r: seq<string>)
    ensures forall k :: 0 <= k < |r| ==> 1 <= |r[k]| <= 2
    decreases |s|
  {
    if |s| == 0 then []
    else if IsLineTerminator(s[0] as int) then MatchPairs(s[1..])
    else if |s| >= 2 && !IsLineTerminator(s[1] as int) then [s[..2]] + MatchPairs(s[2..])
    else [s[..1]] + MatchPairs(s[1..])
  }

  /** One step of `MatchPairsCoversText` for a leading two-character match. */
  lemma CoversPairStep(s: string)
    requires |s| >= 2 && !IsLineTerminator(s[0] as int) && !IsLineTerminator(s[1] as int)
    requires Concat(MatchPairs(s[2..])) == DropLineTerminators(s[2..])
    ensures Concat(MatchPairs(s)) == DropLineTerminators(s)
  {
    var pair, rest, tail := s[..2], MatchPairs(s[2..]), DropLineTerminators(s[2..]);
    assert MatchPairs(s) == [pair] + rest;
    assert ([pair] + rest)[1..] == rest;
    assert Concat(MatchPairs(s)) == pair + tail;
    assert s[1..][0] == s[1] && s[1..][1..] == s[2..];
    assert DropLineTerminators(s[1..]) == [s[1]] + tail;
    assert DropLineTerminators(s) == [s[0]] + ([s[1]] + tail);
    PrependTwo(s[0], s[1], tail);
    assert pair == [s[0], s[1]];
  }

  lemma PrependTwo<T>(x: T, y: T, t: seq<T>)
    ensures [x] + ([y] + t) == [x, y] + t
  {
  }

/** The matches, joined, give back the string without its line
      terminators: no other character is lost, duplicated or moved. */
  lemma {:induction false} MatchPairsCoversText(s: string)
    ensures Concat(MatchPairs(s)) == DropLineTerminators(s)
    decreases |s|
  {
    if |s| == 0 {
    } else if IsLineTerminator(s[0] as int) {
      MatchPairsCoversText(s[1..]);
    } else if |s| >= 2 && !IsLineTerminator(s[1] as int) {
      MatchPairsCoversText(s[2..]);
      CoversPairStep(s);
    } else {
      var rest := MatchPairs(s[1..]);
      MatchPairsCoversText(s[1..]);
      assert ([s[..1]] + rest)[1..] == rest;
    }
  }

  /** A leading two-digit numeral is matched on its own. */
  lemma MatchPairsCons(a: string, rest: string)
    requires |a| == 2 && AllLowerHex(a)
    ensures MatchPairs(a + rest) == [a] + MatchPairs(rest)
  {
    var s := a + rest;
    assert s[0] == a[0] && s[1] == a[1];
    assert !IsLineTerminator(s[0] as int) && !IsLineTerminator(s[1] as int);
    assert s[..2] == a;
    assert s[2..] == rest;
  }

  /** Two leading two-digit numerals are matched on their own. */
  lemma MatchPairsTwoPairs(a: string, b: string, rest: string)
    requires |a| == 2 && AllLowerHex(a) && |b| == 2 && AllLowerHex(b)
    ensures MatchPairs(a + b + rest) == [a, b] + MatchPairs(rest)
  {
    assert a + b + rest == a + (b + rest);
    MatchPairsCons(a, b + rest);
    MatchPairsCons(b, rest);
  }
}
