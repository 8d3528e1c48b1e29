/** `encode_text` and `decode_text`: the Huffman stage, then the XOR cipher over the packed bytes,
    with base64 (section 4 of RFC 4648) between the stages and at both ends. */
module EncryptionService {
  import opened Wrappers
  import opened HuffmanTree
  import opened HuffmanCodec
  import opened XorCipher
  import Base64

  /** The dictionary `encode_text` returns. */
  datatype Envelope = Envelope(encodedData: string, key: seq<byte>, huffmanCodes: map<char, string>, padding: nat)

  /** `encode_text(text, key)`; `tree` is the tree the builder chose. The envelope carries the
      base64 of the encrypted packed bytes and echoes the key, the code table and the padding. */
  method EncodeText(text: string, key: seq<byte>) returns (r: Result<Envelope, Error>, ghost tree: Tree)
    ensures text == [] ==> r == Failure(IndexError)
    ensures text != [] ==> IsTreeOf(tree, text) && IsHuffmanTreeOf(tree, text)
    ensures text != [] && XorEncrypt(Compress(text, tree).bytes, key).Failure? ==> r == Failure(ZeroDivisionError)
    ensures text != [] && XorEncrypt(Compress(text, tree).bytes, key).Success? ==>
      r == Success(Envelope(Base64.Encode(XorEncrypt(Compress(text, tree).bytes, key).value), key,
                            Compress(text, tree).codes, Compress(text, tree).padding))
  {
    var huff;
    huff, tree := HuffmanEncode(text);
    if huff.Failure? {
      return Failure(huff.error), tree;
    }
    Base64.DecodeEncode(Compress(text, tree).bytes);
    var rawBytes := Base64.Decode(huff.value.data).value;
    var xorEncrypted := XorEncrypt(rawBytes, key);
    if xorEncrypted.Failure? {
      return Failure(xorEncrypted.error), tree;
    }
    var encodedFinal := Base64.Encode(xorEncrypted.value);
    r := Success(Envelope(encodedFinal, key, huff.value.codes, huff.value.padding));
  }

  /** `decode_text(encoded_data, key, huffman_codes, padding)`, giving the decoded text; `rev` is
      the reverse map the Huffman decoder built. */
  method DecodeText(encodedData: string, key: seq<byte>, huffmanCodes: map<char, string>, padding: int)
    returns (r: Result<string, Error>, ghost rev: map<string, char>)
    ensures r.Success? ==> IsReverse(rev, huffmanCodes)
    ensures Base64.Decode(encodedData).None? ==> r == Failure(Base64Error)
    ensures Base64.Decode(encodedData).Some? && XorEncrypt(Base64.Decode(encodedData).value, key).Failure? ==>
      r == Failure(ZeroDivisionError)
    ensures Base64.Decode(encodedData).Some? && XorEncrypt(Base64.Decode(encodedData).value, key).Success? ==>
      r == Success(Expand(XorEncrypt(Base64.Decode(encodedData).value, key).value, rev, padding))
  {
    var encryptedBytes := Base64.Decode(encodedData);
    if encryptedBytes.None? {
      return Failure(Base64Error), map[];
    }
    var decryptedBytes := XorEncrypt(encryptedBytes.value, key);
    if decryptedBytes.Failure? {
      return Failure(decryptedBytes.error), map[];
    }
    var huffEncoded := Base64.Encode(decryptedBytes.value);
    Base64.DecodeEncode(decryptedBytes.value);
    r, rev := HuffmanDecode(huffEncoded, huffmanCodes, padding);
  }

  /** `decode_text(**encode_text(text, key))`: an empty text fails in the tree builder; a text
      with two or more distinct characters comes back unchanged under a non-empty key and fails
      on the modulus under an empty one; a text with one distinct character comes back empty. */
  method RoundTrip(text: string, key: seq<byte>) returns (r: Result<string, Error>)
    ensures text == [] ==> r == Failure(IndexError)
    ensures |FirstSeen(text)| >= 2 && key == [] ==> r == Failure(ZeroDivisionError)
    ensures |FirstSeen(text)| >= 2 && key != [] ==> r == Success(text)
    ensures |FirstSeen(text)| == 1 ==> r == Success("")
  {
    var envelope, tree := EncodeText(text, key);
    if envelope.Failure? {
      if text != [] {
        CompressEmpty(text, tree);
      }
      return Failure(envelope.error);
    }
    var e := envelope.value;
    ghost var rev;
    r, rev := DecodeText(e.encodedData, e.key, e.huffmanCodes, e.padding);
    ghost var packed := Compress(text, tree);
    CompressEmpty(text, tree);
    Base64.DecodeEncode(XorEncrypt(packed.bytes, key).value);
    XorInvolution(packed.bytes, key);
    if |FirstSeen(text)| >= 2 {
      CompressExpand(text, tree, rev);
    } else {
      SingleSymbol(text, tree, rev);
    }
  }
}
