/** `huffman_encode` and `huffman_decode`: the text becomes the concatenation of its codes,
    zero-padded to whole bytes and base64-encoded; decoding unpacks the bytes, strips the padding
    and matches bits greedily against the reversed table. */
module HuffmanCodec {
  import opened Wrappers
  import opened HuffmanTree
  import opened HuffmanCodes
  import opened BitPacking
  import Base64

  /** `''.join(code_map[char] for char in text)` */
  function EncodeBits(text: string, codes: map<char, string>): (bits: string)
    requires forall c :: c in text ==> c in codes
    ensures text != [] ==> codes[text[0]] <= bits
    ensures (forall c :: c in codes ==> |codes[c]| > 0) ==> |bits| >= |text|
  {
    if text == [] then "" else codes[text[0]] + EncodeBits(text[1..], codes)
  }

  lemma {:induction false} EncodeBitsAreBits(text: string, codes: map<char, string>)
    requires forall c :: c in text ==> c in codes
    requires AllBits(codes)
    ensures IsBits(EncodeBits(text, codes))
  {
    if text != [] {
      EncodeBitsAreBits(text[1..], codes);
    }
  }

  /** `rev` is a possible value of `{v: k for k, v in code_map.items()}`: its keys are the codes,
      and each code maps back to a character that has it. When two characters share a code, the
      one written last wins; which one that is depends on dictionary order. */
  predicate IsReverse(rev: map<string, char>, codes: map<char, string>)
  {
    && rev.Keys == codes.Values
    && forall v :: v in rev ==> rev[v] in codes && codes[rev[v]] == v
  }

  /** The bit loop of `huffman_decode`, started with `current` already read: each bit is appended
      to `current`, and when `current` is a key of `rev` its character is emitted and `current`
      restarts empty. Bits left in `current` at the end are dropped without an error. */
  function Greedy(rev: map<string, char>, current: string, bits: string): (text: string)
    ensures |text| <= |bits|
    decreases |bits|
  {
    if bits == [] then ""
    else
      var code := current + [bits[0]];
      if code in rev then [rev[code]] + Greedy(rev, "", bits[1..])
      else Greedy(rev, code, bits[1..])
  }

  /** `reverse_map = {v: k for k, v in code_map.items()}`, visiting the keys in an order the model
      leaves open. */
  method ReverseCodes(codes: map<char, string>) returns (rev: map<string, char>)
    ensures IsReverse(rev, codes)
  {
    rev := map[];
    var todo := codes.Keys;
    while todo != {}
      invariant todo <= codes.Keys
      invariant forall k :: k in codes && k !in todo ==> codes[k] in rev
      invariant forall v :: v in rev ==> rev[v] in codes && rev[v] !in todo && codes[rev[v]] == v
      decreases todo
    {
      var k :| k in todo;
      rev := rev[codes[k] := k];
      todo := todo - {k};
    }
    forall v | v in codes.Values
      ensures v in rev
    {
      var k :| k in codes && codes[k] == v;
    }
  }

  // ---------------------------------------------------------------------------------------
  // Round trip of the bit layer

  /** Greedy matching reads one code to its end and emits its character: no shorter prefix of a
      code is a key, because the table is prefix-free. */
  lemma {:induction false} GreedyReadsCode(codes: map<char, string>, rev: map<string, char>, c: char, u: string, rest: string)
    requires PrefixFree(codes) && IsReverse(rev, codes)
    requires c in codes && u < codes[c]
    ensures Greedy(rev, u, codes[c][|u|..] + rest) == [c] + Greedy(rev, "", rest)
    decreases |codes[c]| - |u|
  {
    var w := codes[c];
    var bits := w[|u|..] + rest;
    var code := u + [bits[0]];
    assert code == w[..|u| + 1];
    assert bits[1..] == w[|u| + 1..] + rest;
    if |u| + 1 == |w| {
      assert code == w;
      assert w in codes.Values;
      forall k | k in codes && k != c
        ensures codes[k] != w
      {
        assert !(codes[k] <= codes[c]);
      }
      assert bits[1..] == rest;
    } else {
      forall k | k in codes
        ensures codes[k] != code
      {
        if k != c {
          assert !(codes[k] <= w);
        }
      }
      GreedyReadsCode(codes, rev, c, code, rest);
    }
  }

  /** With a prefix-free table of non-empty codes and its reverse, greedy matching recovers
      exactly the encoded text. */
  lemma {:induction false} GreedyDecodesEncoding(codes: map<char, string>, rev: map<string, char>, text: string)
    requires PrefixFree(codes) && IsReverse(rev, codes)
    requires forall c :: c in codes ==> |codes[c]| > 0
    requires forall c :: c in text ==> c in codes
    ensures Greedy(rev, "", EncodeBits(text, codes)) == text
  {
    if text != [] {
      var c := text[0];
      assert codes[c][0..] == codes[c];
      GreedyReadsCode(codes, rev, c, "", EncodeBits(text[1..], codes));
      GreedyDecodesEncoding(codes, rev, text[1..]);
      assert text == [c] + text[1..];
    }
  }

  /** Bits that never complete a key of `rev` are dropped: the result is empty, not an error. */
  lemma {:induction false} GreedyDropsUnmatched(rev: map<string, char>, current: string, bits: string)
    requires forall n :: 0 < n <= |bits| ==> current + bits[..n] !in rev
    ensures Greedy(rev, current, bits) == ""
    decreases |bits|
  {
    if bits != [] {
      var code := current + [bits[0]];
      assert code == current + bits[..1];
      forall n | 0 < n <= |bits| - 1
        ensures code + bits[1..][..n] !in rev
      {
        assert code + bits[1..][..n] == current + bits[..n + 1];
      }
      GreedyDropsUnmatched(rev, code, bits[1..]);
    }
  }

  // ---------------------------------------------------------------------------------------
  // The two stages as functions of the tree

  /** What `huffman_encode` produces before base64: the packed bytes, the table and the padding. */
  datatype Packed = Packed(bytes: seq<byte>, codes: map<char, string>, padding: nat)

  /** The result of `huffman_encode(text)` for the tree the builder returned. */
  function Compress(text: string, tree: Tree): (p: Packed)
    requires IsTreeOf(tree, text)
    ensures p.codes == CodeTable(tree, "")
    ensures p.padding <= 7
    ensures forall c :: c in text ==> c in p.codes
    ensures (8 * |p.bytes| - p.padding) == |EncodeBits(text, p.codes)|
  {
    CodeTableKeys(tree, "");
    CodeTableBits(tree, "");
    var codes := CodeTable(tree, "");
    EncodeBitsAreBits(text, codes);
    var bits := EncodeBits(text, codes);
    var padding := Padding(|bits|);
    Packed(Pack(bits + Zeros(padding)), codes, padding)
  }

  /** What `huffman_decode` computes from the decoded bytes, for the reverse map it built. */
  function Expand(bytes: seq<byte>, rev: map<string, char>, padding: int): (text: string)
    ensures |text| <= 8 * |bytes|
    ensures padding >= 8 * |bytes| ==> text == ""
  {
    Greedy(rev, "", StripPadding(Unpack(bytes), padding))
  }

  /** Round trip of the Huffman layer, for a text with at least two distinct characters. */
  lemma CompressExpand(text: string, tree: Tree, rev: map<string, char>)
    requires IsTreeOf(tree, text) && |FirstSeen(text)| >= 2
    requires IsReverse(rev, Compress(text, tree).codes)
    ensures Expand(Compress(text, tree).bytes, rev, Compress(text, tree).padding) == text
  {
    var p := Compress(text, tree);
    var codes := CodeTable(tree, "");
    CodeTableKeys(tree, "");
    CodeTableBits(tree, "");
    EncodeBitsAreBits(text, codes);
    var bits := EncodeBits(text, codes);
    UnpackPack(bits + Zeros(p.padding));
    StripZeros(bits, p.padding);
    RootShape(tree, text);
    CodeTableLengths(tree);
    CodeTablePrefixFree(tree);
    GreedyDecodesEncoding(codes, rev, text);
  }

  lemma {:induction false} EncodeBitsAllEmpty(text: string, codes: map<char, string>)
    requires forall c :: c in text ==> c in codes && codes[c] == ""
    ensures EncodeBits(text, codes) == ""
  {
    if text != [] {
      EncodeBitsAllEmpty(text[1..], codes);
    }
  }

  /** A text with one distinct character gets the empty code: it compresses to no bytes and no
      padding, and whatever is decoded from that is the empty text. */
  lemma SingleSymbol(text: string, tree: Tree, rev: map<string, char>)
    requires IsTreeOf(tree, text) && |FirstSeen(text)| == 1
    ensures Compress(text, tree) == Packed([], map[text[0] := ""], 0)
    ensures Expand([], rev, 0) == ""
  {
    RootShape(tree, text);
    CodeTableLengths(tree);
    var codes := CodeTable(tree, "");
    assert forall c :: c in text ==> c == text[0] by {
      assert forall c :: c in text ==> c in FirstSeen(text);
      assert text[0] in FirstSeen(text);
    }
    EncodeBitsAllEmpty(text, codes);
  }

  /** The packed bytes are empty exactly when the text has a single distinct character. */
  lemma CompressEmpty(text: string, tree: Tree)
    requires IsTreeOf(tree, text) && text != []
    ensures Compress(text, tree).bytes == [] <==> |FirstSeen(text)| == 1
  {
    assert text[0] in FirstSeen(text);
    if |FirstSeen(text)| == 1 {
      SingleSymbol(text, tree, map[]);
    } else {
      var codes := CodeTable(tree, "");
      RootShape(tree, text);
      CodeTableLengths(tree);
      CodeTableKeys(tree, "");
      assert |EncodeBits(text, codes)| >= |codes[text[0]]| > 0;
    }
  }

  // ---------------------------------------------------------------------------------------
  // The two operations

  /** The result of `huffman_encode`: base64 text, code table, padding. */
  datatype Encoded = Encoded(data: string, codes: map<char, string>, padding: nat)

  /** The byte loop of `huffman_encode`: each group of eight bits, read as a binary number,
      becomes one byte. */
  method PackBits(bits: string) returns (b: seq<byte>)
    requires IsBits(bits) && |bits| % 8 == 0
    ensures b == Pack(bits)
  {
    b := [];
    var i := 0;
    Pow2Byte();
    while i < |bits|
      invariant 0 <= i <= |bits| && i % 8 == 0
      invariant b == Pack(bits[..i])
    {
      var byte := bits[i..i + 8];
      assert Pack(bits[..i + 8]) == b + [ParseBinary(byte)] by {
        assert IsBits(bits[..i]) && IsBits(byte);
        assert bits[..i + 8] == bits[..i] + byte;
        PackAppend(bits[..i], byte);
        PackOne(byte);
      }
      b := b + [ParseBinary(byte)];
      i := i + 8;
    }
    assert bits[..i] == bits;
  }

  /** `huffman_encode(text)`; `tree` is the tree the builder chose. */
  method HuffmanEncode(text: string) returns (r: Result<Encoded, Error>, ghost tree: Tree)
    ensures r.Failure? <==> text == []
    ensures r.Failure? ==> r.error == IndexError
    ensures r.Success? ==>
      && IsTreeOf(tree, text)
      && IsHuffmanTreeOf(tree, text)
      && r.value == Encoded(Base64.Encode(Compress(text, tree).bytes), Compress(text, tree).codes,
                            Compress(text, tree).padding)
  {
    var built, trace := BuildHuffmanTree(text);
    if built.Failure? {
      r, tree := Failure(built.error), Leaf(' ', 0);
      return;
    }
    var root := built.value;
    tree := root;
    var codeMap := GenerateCodes(root);
    var encodedBits := EncodeBits(text, codeMap);
    EncodeBitsAreBits(text, codeMap);
    var padding := Padding(|encodedBits|);
    encodedBits := encodedBits + Zeros(padding);
    var b := PackBits(encodedBits);
    r := Success(Encoded(Base64.Encode(b), codeMap, padding));
  }

  /** The bit loop of `huffman_decode`. */
  method MatchBits(rev: map<string, char>, bits: string) returns (text: string)
    ensures text == Greedy(rev, "", bits)
  {
    var currentCode := "";
    text := "";
    var i := 0;
    while i < |bits|
      invariant 0 <= i <= |bits|
      invariant text + Greedy(rev, currentCode, bits[i..]) == Greedy(rev, "", bits)
    {
      assert bits[i..][1..] == bits[i + 1..];
      currentCode := currentCode + [bits[i]];
      if currentCode in rev {
        text := text + [rev[currentCode]];
        currentCode := "";
      }
      i := i + 1;
    }
    assert bits[i..] == [];
  }

  /** `huffman_decode(encoded_data, code_map, padding)`; `rev` is the reverse map it built.
      Malformed base64 raises; nothing else does. */
  method HuffmanDecode(encodedData: string, codeMap: map<char, string>, padding: int)
    returns (r: Result<string, Error>, ghost rev: map<string, char>)
    ensures IsReverse(rev, codeMap)
    ensures Base64.Decode(encodedData).None? ==> r == Failure(Base64Error)
    ensures Base64.Decode(encodedData).Some? ==> r == Success(Expand(Base64.Decode(encodedData).value, rev, padding))
  {
    var reverseMap := ReverseCodes(codeMap);
    rev := reverseMap;
    var decoded := Base64.Decode(encodedData);
    if decoded.None? {
      return Failure(Base64Error), rev;
    }
    var binaryData := Unpack(decoded.value);
    binaryData := StripPadding(binaryData, padding);
    var decodedText := MatchBits(reverseMap, binaryData);
    r := Success(decodedText);
  }
}
