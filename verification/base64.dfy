/** The base 64 encoding of section 4 of RFC 4648 (standard alphabet, `=` padding),
    used at both edges of the codec pipeline. */
module Base64 {
  import opened Wrappers

  /** Table 1 of RFC 4648: the character that encodes a 6-bit value. */
  function Symbol(v: int): (c: char)
    requires 0 <= v < 64
  {
    if v < 26 then ('A' as int + v) as char
    else if v < 52 then ('a' as int + (v - 26)) as char
    else if v < 62 then ('0' as int + (v - 52)) as char
    else if v == 62 then '+'
    else '/'
  }

  /** The 6-bit value of an alphabet character; `None` for any other character (including `=`). */
  function Value(c: char): (r: Option<int>)
    ensures r.Some? ==> 0 <= r.value < 64 && Symbol(r.value) == c
  {
    if 'A' <= c <= 'Z' then Some(c as int - 'A' as int)
    else if 'a' <= c <= 'z' then Some(c as int - 'a' as int + 26)
    else if '0' <= c <= '9' then Some(c as int - '0' as int + 52)
    else if c == '+' then Some(62)
    else if c == '/' then Some(63)
    else None
  }

  lemma ValueOfSymbol(v: int)
    requires 0 <= v < 64
    ensures Value(Symbol(v)) == Some(v)
  {
  }

  /** The four characters of one full 24-bit group. */
  function Group(b0: byte, b1: byte, b2: byte): string
  {
    [Symbol(b0 / 4), Symbol(b0 % 4 * 16 + b1 / 16), Symbol(b1 % 16 * 4 + b2 / 64), Symbol(b2 % 64)]
  }

  /** The last group: one or two remaining bytes are zero-extended and completed with
      `==` or `=`; three bytes make a full group. */
  function FinalGroup(b: seq<byte>): string
    requires 1 <= |b| <= 3
  {
    if |b| == 1 then [Symbol(b[0] / 4), Symbol(b[0] % 4 * 16), '=', '=']
    else if |b| == 2 then [Symbol(b[0] / 4), Symbol(b[0] % 4 * 16 + b[1] / 16), Symbol(b[1] % 16 * 4), '=']
    else Group(b[0], b[1], b[2])
  }

  /** Encodes 24-bit groups as four characters each (section 4 of RFC 4648). */
  function Encode(b: seq<byte>): (s: string)
    ensures |s| == 4 * ((|b| + 2) / 3)
    decreases |b|
  {
    if |b| == 0 then ""
    else if |b| <= 3 then FinalGroup(b)
    else Group(b[0], b[1], b[2]) + Encode(b[3..])
  }

  /** Decodes a quantum of four alphabet characters into three bytes. */
  function Quantum(c0: char, c1: char, c2: char, c3: char): Option<seq<byte>>
  {
    match (Value(c0), Value(c1), Value(c2), Value(c3))
    case (Some(v0), Some(v1), Some(v2), Some(v3)) =>
      Some([v0 * 4 + v1 / 16, v1 % 16 * 16 + v2 / 4, v2 % 4 * 64 + v3])
    case _ => None
  }

  /** Decodes the final quantum, which may end in `=` or `==`. */
  function FinalQuantum(c0: char, c1: char, c2: char, c3: char): Option<seq<byte>>
  {
    if c2 == '=' && c3 == '=' then
      match (Value(c0), Value(c1))
      case (Some(v0), Some(v1)) => Some([v0 * 4 + v1 / 16])
      case _ => None
    else if c3 == '=' then
      match (Value(c0), Value(c1), Value(c2))
      case (Some(v0), Some(v1), Some(v2)) => Some([v0 * 4 + v1 / 16, v1 % 16 * 16 + v2 / 4])
      case _ => None
    else Quantum(c0, c1, c2, c3)
  }

  /** Strict decoding: the length is a multiple of four, `=` appears only as the padding of the
      final quantum, and every other character is in the alphabet; otherwise `None`. */
  function Decode(s: string): (r: Option<seq<byte>>)
    ensures r.Some? ==> |s| % 4 == 0
    decreases |s|
  {
    if |s| == 0 then Some([])
    else if |s| < 4 then None
    else if |s| == 4 then FinalQuantum(s[0], s[1], s[2], s[3])
    else
      match (Quantum(s[0], s[1], s[2], s[3]), Decode(s[4..]))
      case (Some(head), Some(tail)) => Some(head + tail)
      case _ => None
  }

  /** Splitting a byte into its high six and low two bits and joining them again. */
  lemma SplitHigh(b0: byte, b1: byte)
    ensures (b0 / 4) * 4 + (b0 % 4 * 16 + b1 / 16) / 16 == b0
  {
    assert (b0 % 4 * 16 + b1 / 16) / 16 == b0 % 4;
  }

  lemma SplitMiddle(b0: byte, b1: byte, b2: byte)
    ensures (b0 % 4 * 16 + b1 / 16) % 16 * 16 + (b1 % 16 * 4 + b2 / 64) / 4 == b1
  {
    assert (b0 % 4 * 16 + b1 / 16) % 16 == b1 / 16;
    assert (b1 % 16 * 4 + b2 / 64) / 4 == b1 % 16;
  }

  lemma SplitLow(b1: byte, b2: byte)
    ensures (b1 % 16 * 4 + b2 / 64) % 4 * 64 + b2 % 64 == b2
  {
    assert (b1 % 16 * 4 + b2 / 64) % 4 == b2 / 64;
  }

  lemma DecodeGroup(b0: byte, b1: byte, b2: byte)
    ensures var g := Group(b0, b1, b2); Quantum(g[0], g[1], g[2], g[3]) == Some([b0, b1, b2])
  {
    ValueOfSymbol(b0 / 4);
    ValueOfSymbol(b0 % 4 * 16 + b1 / 16);
    ValueOfSymbol(b1 % 16 * 4 + b2 / 64);
    ValueOfSymbol(b2 % 64);
    SplitHigh(b0, b1);
    SplitMiddle(b0, b1, b2);
    SplitLow(b1, b2);
  }

  lemma DecodeOne(b0: byte)
    ensures Decode(FinalGroup([b0])) == Some([b0])
  {
    ValueOfSymbol(b0 / 4);
    ValueOfSymbol(b0 % 4 * 16);
    SplitHigh(b0, 0);
  }

  lemma DecodeTwo(b0: byte, b1: byte)
    ensures Decode(FinalGroup([b0, b1])) == Some([b0, b1])
  {
    ValueOfSymbol(b0 / 4);
    ValueOfSymbol(b0 % 4 * 16 + b1 / 16);
    ValueOfSymbol(b1 % 16 * 4);
    SplitHigh(b0, b1);
    SplitMiddle(b0, b1, 0);
  }

  lemma DecodeThree(b0: byte, b1: byte, b2: byte)
    ensures Decode(FinalGroup([b0, b1, b2])) == Some([b0, b1, b2])
  {
    DecodeGroup(b0, b1, b2);
  }

  lemma DecodeFinalGroup(b: seq<byte>)
    requires 1 <= |b| <= 3
    ensures Decode(FinalGroup(b)) == Some(b)
  {
    if |b| == 1 {
      assert b == [b[0]];
      DecodeOne(b[0]);
    } else if |b| == 2 {
      assert b == [b[0], b[1]];
      DecodeTwo(b[0], b[1]);
    } else {
      assert b == [b[0], b[1], b[2]];
      DecodeThree(b[0], b[1], b[2]);
    }
  }

  lemma DecodeConcat(g: string, rest: string, head: seq<byte>, tail: seq<byte>)
    requires |g| == 4 && |rest| > 0
    requires Quantum(g[0], g[1], g[2], g[3]) == Some(head) && Decode(rest) == Some(tail)
    ensures Decode(g + rest) == Some(head + tail)
  {
    var s := g + rest;
    assert s[..4] == g && s[4..] == rest;
  }

  lemma SplitThree(b: seq<byte>)
    requires |b| > 3
    ensures b == [b[0], b[1], b[2]] + b[3..]
  {
  }

  /** One full group in front of an encoding that already decodes. */
  lemma DecodeEncodeStep(b: seq<byte>)
    requires |b| > 3 && Decode(Encode(b[3..])) == Some(b[3..])
    ensures Decode(Encode(b)) == Some(b)
  {
    var g := Group(b[0], b[1], b[2]);
    var rest := Encode(b[3..]);
    assert Encode(b) == g + rest;
    DecodeGroup(b[0], b[1], b[2]);
    DecodeConcat(g, rest, [b[0], b[1], b[2]], b[3..]);
    SplitThree(b);
  }

  /** Decoding undoes encoding: the property the pipeline relies on where it decodes
      a string it has just encoded. */
  lemma {:induction false} DecodeEncode(b: seq<byte>)
    ensures Decode(Encode(b)) == Some(b)
    decreases |b|
  {
    if |b| == 0 {
    } else if |b| <= 3 {
      DecodeFinalGroup(b);
    } else {
      DecodeEncode(b[3..]);
      DecodeEncodeStep(b);
    }
  }
}
