/** `xor_encrypt`: every byte is XORed with the key byte at the same position modulo the key length. */
module XorCipher {
  import opened Wrappers
  import opened BitPacking

  /** Python's `^` on non-negative integers: bitwise exclusive or, lowest bit first. */
  function Xor(a: nat, b: nat): (x: nat)
    ensures x == 0 <==> a == b
    ensures x <= a + b
    decreases a + b
  {
    if a == 0 && b == 0 then 0 else 2 * Xor(a / 2, b / 2) + (if a % 2 == b % 2 then 0 else 1)
  }

  /** Exclusive or of two `n`-bit numbers is an `n`-bit number. */
  lemma {:induction false} XorFits(a: nat, b: nat, n: nat)
    requires a < Pow2(n) && b < Pow2(n)
    ensures Xor(a, b) < Pow2(n)
  {
    if n > 0 && !(a == 0 && b == 0) {
      XorFits(a / 2, b / 2, n - 1);
    }
  }

  /** Exclusive or with the same value twice is the identity. */
  lemma {:induction false} XorTwice(a: nat, b: nat)
    ensures Xor(Xor(a, b), b) == a
    decreases a + b
  {
    if !(a == 0 && b == 0) {
      XorTwice(a / 2, b / 2);
      var x := Xor(a, b);
      assert x / 2 == Xor(a / 2, b / 2) && x % 2 == (if a % 2 == b % 2 then 0 else 1);
    }
  }

  /** `b ^ k` for two bytes: a byte that the same key byte turns back into `b`. */
  function XorByte(a: byte, k: byte): (x: byte)
    ensures Xor(x, k) == a
  {
    XorTwice(a, k);
    Pow2Byte();
    XorFits(a, k, 8);
    Xor(a, k)
  }

  /** Byte `i` of the output is `data[i] ^ key[i % len(key)]`. With an empty key the modulus
      raises ZeroDivisionError, but only once a byte is processed: empty data with an empty key
      yields empty output. */
  function XorEncrypt(data: seq<byte>, key: seq<byte>): (r: Result<seq<byte>, Error>)
    ensures r.Failure? <==> |key| == 0 && |data| > 0
    ensures r.Failure? ==> r.error == ZeroDivisionError
    ensures r.Success? ==> |r.value| == |data|
  {
    if |data| == 0 then Success([])
    else if |key| == 0 then Failure(ZeroDivisionError)
    else Success(seq(|data|, i requires 0 <= i < |data| => XorByte(data[i], key[i % |key|])))
  }

  /** Applying the cipher twice with the same key gives back the original bytes. */
  lemma XorInvolution(data: seq<byte>, key: seq<byte>)
    requires XorEncrypt(data, key).Success?
    ensures XorEncrypt(XorEncrypt(data, key).value, key) == Success(data)
  {
    var once := XorEncrypt(data, key).value;
    if |data| > 0 {
      var twice := XorEncrypt(once, key).value;
      forall i | 0 <= i < |data|
        ensures twice[i] == data[i]
      {
        XorTwice(data[i], key[i % |key|]);
      }
      assert twice == data;
    }
  }
}
