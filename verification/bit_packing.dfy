/** Bit strings as the codec writes them (strings of '0' and '1'), their zero padding to a
    byte boundary, and their conversion to and from bytes, most significant bit first. */
module BitPacking {
  import opened Wrappers

  predicate IsBits(s: string)
  {
    forall i :: 0 <= i < |s| ==> s[i] == '0' || s[i] == '1'
  }

  function Pow2(n: nat): (p: nat)
    ensures p >= 1
  {
    if n == 0 then 1 else 2 * Pow2(n - 1)
  }

  lemma Pow2Byte()
    ensures Pow2(8) == 256
  {
    assert Pow2(4) == 16;
  }

  /** The number of zero bits appended to `n` bits: `8 - n % 8`, or 0 when `n` is already aligned. */
  function Padding(n: nat): (p: nat)
    ensures p <= 7
    ensures (n + p) % 8 == 0
    ensures p == 0 <==> n % 8 == 0
  {
    if n % 8 != 0 then 8 - n % 8 else 0
  }

  /** `'0' * n` */
  function Zeros(n: nat): (z: string)
    ensures |z| == n && IsBits(z)
  {
    seq(n, _ => '0')
  }

  function BitValue(c: char): nat
  {
    if c == '1' then 1 else 0
  }

  /** `int(s, 2)`: the value of a bit string read most significant bit first. */
  function ParseBinary(s: string): (v: nat)
    requires IsBits(s)
    ensures v < Pow2(|s|)
  {
    if s == [] then 0 else 2 * ParseBinary(s[..|s| - 1]) + BitValue(s[|s| - 1])
  }

  /** `format(v, "0{width}b")`: the `width` low bits of `v`, most significant first. */
  function Binary(v: nat, width: nat): (s: string)
    ensures |s| == width && IsBits(s)
  {
    if width == 0 then "" else Binary(v / 2, width - 1) + [if v % 2 == 1 then '1' else '0']
  }

  /** Formatting a parsed bit string at its own width gives the bit string back. */
  lemma {:induction false} BinaryOfParse(s: string)
    requires IsBits(s)
    ensures Binary(ParseBinary(s), |s|) == s
  {
    if s != [] {
      var p := s[..|s| - 1];
      assert IsBits(p);
      BinaryOfParse(p);
      var v := ParseBinary(s);
      assert v / 2 == ParseBinary(p) && v % 2 == BitValue(s[|s| - 1]);
      assert s == p + [s[|s| - 1]];
    }
  }

  /** Parsing the formatted value gives the value back, when it fits the width. */
  lemma {:induction false} ParseOfBinary(v: nat, width: nat)
    requires v < Pow2(width)
    ensures ParseBinary(Binary(v, width)) == v
  {
    if width > 0 {
      var s := Binary(v, width);
      ParseOfBinary(v / 2, width - 1);
      assert s[..|s| - 1] == Binary(v / 2, width - 1);
    }
  }

  /** The byte loop of `huffman_encode`: every 8-bit group becomes one byte. */
  function Pack(bits: string): (r: seq<byte>)
    requires IsBits(bits) && |bits| % 8 == 0
    ensures |r| == |bits| / 8
  {
    if bits == [] then []
    else
      Pow2Byte();
      [ParseBinary(bits[..8])] + Pack(bits[8..])
  }

  /** `''.join(f"{byte:08b}" for byte in data)` */
  function Unpack(data: seq<byte>): (s: string)
    ensures |s| == 8 * |data| && IsBits(s)
  {
    if data == [] then "" else Binary(data[0], 8) + Unpack(data[1..])
  }

  /** Eight bits pack into the one byte they spell. */
  lemma PackOne(x: string)
    requires IsBits(x) && |x| == 8
    ensures Pack(x) == [ParseBinary(x)]
  {
    assert x[..8] == x && x[8..] == [];
  }

  /** Whole bytes stay whole bytes when joined or when one byte is taken off. */
  lemma Aligned(m: nat, n: nat)
    requires m % 8 == 0 && n % 8 == 0
    ensures (m + n) % 8 == 0
    ensures m >= 8 ==> (m - 8) % 8 == 0
  {
    var i, j := m / 8, n / 8;
    assert m == 8 * i && n == 8 * j;
    assert m + n == 8 * (i + j);
    assert m >= 8 ==> m - 8 == 8 * (i - 1);
  }

  /** Packing distributes over concatenation of whole bytes. */
  lemma {:induction false} PackAppend(a: string, b: string)
    requires IsBits(a) && |a| % 8 == 0
    requires IsBits(b) && |b| % 8 == 0
    ensures IsBits(a + b) && Pack(a + b) == Pack(a) + Pack(b)
  {
    var s := a + b;
    Aligned(|a|, |b|);
    assert IsBits(s) && |s| % 8 == 0;
    if a == [] {
      assert s == b;
    } else {
      var tail := a[8..];
      assert |tail| % 8 == 0;
      assert s[..8] == a[..8] && s[8..] == tail + b;
      PackAppend(tail, b);
      var head, p, q := [ParseBinary(a[..8])], Pack(tail), Pack(b);
      assert Pack(s) == head + (p + q);
      assert Pack(a) == head + p;
      assert head + (p + q) == (head + p) + q;
    }
  }

  /** Unpacking the packed bytes gives back exactly the bit string that was packed. */
  lemma {:induction false} UnpackPack(bits: string)
    requires IsBits(bits) && |bits| % 8 == 0
    ensures Unpack(Pack(bits)) == bits
  {
    if bits != [] {
      BinaryOfParse(bits[..8]);
      UnpackPack(bits[8..]);
      assert bits == bits[..8] + bits[8..];
    }
  }

  /** Packing unpacked bytes gives back the bytes. */
  lemma {:induction false} PackUnpack(data: seq<byte>)
    ensures Pack(Unpack(data)) == data
  {
    if data != [] {
      var s := Unpack(data);
      Pow2Byte();
      ParseOfBinary(data[0], 8);
      assert s[..8] == Binary(data[0], 8) && s[8..] == Unpack(data[1..]);
      PackUnpack(data[1..]);
    }
  }

  /** Where a Python slice `s[:e]` ends. */
  function SliceEnd(n: nat, e: int): (k: nat)
    ensures k <= n
  {
    if e < 0 then (if n + e < 0 then 0 else n + e)
    else if e > n then n
    else e
  }

  /** `bits[:-padding] if padding else bits`, including Python's slice rules for a padding
      larger than the string or below zero. */
  function StripPadding(bits: string, padding: int): (r: string)
    ensures r <= bits
    ensures 0 <= padding <= |bits| ==> r == bits[..|bits| - padding]
    ensures padding > |bits| ==> r == []
    ensures padding < 0 ==> |r| == if -padding < |bits| then -padding else |bits|
  {
    if padding != 0 then bits[..SliceEnd(|bits|, -padding)] else bits
  }

  /** Removing the padding that was added gives back the unpadded bits. */
  lemma StripZeros(bits: string, padding: nat)
    ensures StripPadding(bits + Zeros(padding), padding) == bits
  {
    assert (bits + Zeros(padding))[..|bits|] == bits;
  }
}
