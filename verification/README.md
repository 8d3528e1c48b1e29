# Huffman + XOR text codec and audio-cut validator, in Dafny

This project models two parts of a small Python teaching repository.

The first part is the text codec of `2lab/app/services/encryption_service.py`. `encode_text(text, key)`:
- counts the characters of the text;
- builds a Huffman tree with a min-heap;
- derives a `0`/`1` code for every character from its root-to-leaf path;
- concatenates the codes and pads them with zero bits to whole bytes;
- packs the bits into bytes, most significant bit first;
- XORs the bytes against the repeating key;
- returns the base64 text together with the key, the code table and the padding count.

`decode_text` runs the same stages backwards. It ends in a greedy matcher that reads bits until they spell a code.

The second part is the `"cut"` request of the audio server in `1lab/server.py`. The model covers:
- its chain of checks on the file and the requested start and end seconds;
- the millisecond range it slices;
- the file-name filter and format extraction of its metadata list.

Modules:

| file | module | what it holds |
|---|---|---|
| `wrappers.dfy` | `Wrappers` | `Option`, `Result`, the exceptions the code raises, `byte` |
| `huffman_tree.dfy` | `HuffmanTree` | the frequency table, the `Node` tree, `heappop`, `build_huffman_tree` |
| `huffman_codes.dfy` | `HuffmanCodes` | `generate_codes`, tree paths, prefix-freedom |
| `bit_packing.dfy` | `BitPacking` | padding, `int(byte, 2)` / `f"{byte:08b}"`, packing, the padding slice |
| `huffman_codec.dfy` | `HuffmanCodec` | `huffman_encode`, `huffman_decode`, the greedy matcher, the Huffman round trip |
| `xor_cipher.dfy` | `XorCipher` | `^` on integers, `xor_encrypt` |
| `base64.dfy` | `Base64` | base 64 as in section 4 of RFC 4648, and its round trip |
| `encryption_service.dfy` | `EncryptionService` | `encode_text`, `decode_text`, the end-to-end round trip |
| `audio_server.dfy` | `AudioServer` | the cut checks, the metadata filter and format |

## What the code does, as modelled

The model follows the code.

**Ties.** `Node.__lt__` compares frequencies only, and `heappop` removes *some* node of least frequency. Every property below holds for every tie order (`HeapPop`).

**Greedy merges.** The builder records each iteration's two pops as a trace. Replaying the trace from the seeded leaves gives exactly the returned tree (`Replay`). Each replayed step is allowed only when both popped nodes are of least frequency (`GreedyMerge`). So the tree is a Huffman tree for some tie order, and not just any full tree over the right leaves. For example, counts a:3, b:1, c:1 (the text `"aaabc"`) always put `a` directly under the root (`HuffmanTreeOfThreeLeaves`).

**Empty text.** The heap stays empty, and `heap[0]` raises `IndexError`.

**One distinct character.** The tree is a single leaf, and `generate_codes` gives that character the empty code. The text therefore encodes to no bits and no bytes, and decodes to the empty string (`SingleSymbol`, `RoundTrip`).

**Unmatched bits.** The decoder never fails on leftover bits. Bits still pending when the input ends are dropped (`GreedyDropsUnmatched`). Only malformed base64 raises.

**XOR and the key.**
- With an empty key, `i % len(key_bytes)` raises `ZeroDivisionError`, but only once there is a byte to process.
- So an empty key still works when the packed bytes are empty, which is the case for a single-character text.
- For a text with two or more distinct characters, the round trip returns the text for any non-empty key (`RoundTrip`).

**No extra checks.**
- `Node.__lt__` has no tie-break.
- A single character gets the empty code, not a one-bit code.
- Neither function checks for an empty key, for leftover bits, or for a code table that does not match the data. None of these raises an error of its own.

## Model

| member | source | states |
|---|---|---|
| HuffmanTree.LessOrder | 2lab/app/services/encryption_service.py:14-15 | `__lt__` is a strict order on frequencies with no tie-break: two nodes are unordered exactly when their frequencies are equal |
| HuffmanTree.Count | 2lab/app/services/encryption_service.py:18 | a character's count is at most the text length and is positive exactly when the character occurs |
| HuffmanTree.FirstSeen | 2lab/app/services/encryption_service.py:18-19 | the counter's keys are exactly the characters of the text, each once |
| HuffmanTree.Frequencies | 2lab/app/services/encryption_service.py:18 | the frequency table has exactly the text's characters as keys, each with a count of at least one |
| HuffmanTree.CountsSumToLength | 2lab/app/services/encryption_service.py:18 | the counts of the distinct characters add up to the length of the text |
| HuffmanTree.Seed | 2lab/app/services/encryption_service.py:19 | one leaf is seeded per distinct character |
| HuffmanTree.SeedIsLeaves | 2lab/app/services/encryption_service.py:19 | the seeded leaves hold each listed character once, with its count, and their frequencies sum to the counts |
| HuffmanTree.SeedIsHeap | 2lab/app/services/encryption_service.py:18-20 | the initial heap satisfies the heap invariant and is empty exactly when the text is |
| HuffmanTree.MinimalExists | 2lab/app/services/encryption_service.py:22-23 | every non-empty heap has a node no other node is `__lt__` |
| HuffmanTree.HeapPop | 2lab/app/services/encryption_service.py:22-23 | `heappop` returns a node of the heap that no node is `__lt__`, and leaves exactly the other nodes |
| HuffmanTree.RemoveAtBag | 2lab/app/services/encryption_service.py:22-23 | popping a node removes exactly its leaves from the pending leaves |
| HuffmanTree.RemoveAtFreq | 2lab/app/services/encryption_service.py:22-23 | popping a node removes exactly its frequency from the pending total |
| HuffmanTree.MergeKeepsLeaves | 2lab/app/services/encryption_service.py:22-27 | a pop-pop-merge-push step keeps the multiset of pending leaves |
| HuffmanTree.MergeKeepsFreq | 2lab/app/services/encryption_service.py:22-27 | a pop-pop-merge-push step keeps the total frequency |
| HuffmanTree.MergeKeepsTrees | 2lab/app/services/encryption_service.py:24-27 | the merged node's frequency is the sum of its children's, and pending trees stay well formed |
| HuffmanTree.MergeKeepsHeap | 2lab/app/services/encryption_service.py:21-27 | one loop iteration preserves the heap invariant |
| HuffmanTree.LastTree | 2lab/app/services/encryption_service.py:28 | the single remaining tree holds every distinct character once and its frequency is the text length |
| HuffmanTree.GreedyMerge | 2lab/app/services/encryption_service.py:22-27 | one iteration can happen only when both pops return a node of least frequency, and it leaves one node fewer |
| HuffmanTree.GreedyMergePicksLeast | 2lab/app/services/encryption_service.py:22-23 | the first popped node has the least frequency on the heap; the second has the least among the nodes left |
| HuffmanTree.Replay | 2lab/app/services/encryption_service.py:21-27 | replaying recorded iterations removes one node per iteration, and fails as soon as a pop is not of least frequency |
| HuffmanTree.ReplaySnoc | 2lab/app/services/encryption_service.py:21-27 | one more recorded iteration applies one more merge step to the heap reached so far |
| HuffmanTree.TraceGrows | 2lab/app/services/encryption_service.py:22-27 | recording two least-frequency pops extends the trace to the heap after their merge is pushed |
| HuffmanTree.MergeLeastTwo | 2lab/app/services/encryption_service.py:22-27 | one iteration removes one node, keeps the heap invariant, and extends the trace of least-frequency pops to the new heap |
| HuffmanTree.FirstMergeOfThree | 2lab/app/services/encryption_service.py:22-27 | from leaves a:3, b:1, c:1 the first iteration merges `b` and `c` into a node of frequency 2 and keeps `a` |
| HuffmanTree.SecondMergeOfThree | 2lab/app/services/encryption_service.py:22-27 | from `a:3` and a node of frequency 2 the next iteration puts the node left and `a` right |
| HuffmanTree.ThreeLeavesMergeLeastFirst | 2lab/app/services/encryption_service.py:17-28 | every least-frequency run from a:3, b:1, c:1 ends in a root with `a` as its right child and a frequency-2 node as its left |
| HuffmanTree.HuffmanTreeOfThreeLeaves | 2lab/app/services/encryption_service.py:17-28 | for a text counted a:3, b:1, c:1, such as `"aaabc"`, the tree has `a` directly under the root whatever the tie order, so `a` gets a one-bit code |
| HuffmanTree.BuildHuffmanTree | 2lab/app/services/encryption_service.py:17-28 | raises IndexError exactly for the empty text; otherwise, for any tie order, frequencies add up at every node, leaves carry the counts, each distinct character is at exactly one leaf, the root frequency is the text length, and replaying the recorded least-frequency pops from the seeded leaves gives exactly this tree |
| HuffmanTree.LeavesNonEmpty | 2lab/app/services/encryption_service.py:7-12 | every tree has at least one leaf |
| HuffmanTree.RootShape | 2lab/app/services/encryption_service.py:17-28 | the root is internal exactly when the text has at least two distinct characters; otherwise it is the single leaf of that character with the text length as frequency |
| HuffmanTree.CountAll | 2lab/app/services/encryption_service.py:18 | a text made of one character counts it as often as its length |
| HuffmanCodes.CodeTable | 2lab/app/services/encryption_service.py:30-38 | the table `generate_codes` fills, as a function of the tree and prefix; its properties are stated by the `CodeTable*` lemmas below |
| HuffmanCodes.CodeTableKeys | 2lab/app/services/encryption_service.py:30-38 | the table has an entry for exactly the leaf characters |
| HuffmanCodes.CodeTablePaths | 2lab/app/services/encryption_service.py:33-37 | every code is the prefix followed by the path of `0` (left) and `1` (right) edges to that character's leaf |
| HuffmanCodes.CodeTableBits | 2lab/app/services/encryption_service.py:36-37 | every code is a string of `0` and `1` |
| HuffmanCodes.FollowPrefix | 2lab/app/services/encryption_service.py:33-37 | a root-to-leaf path cannot be extended to another root-to-leaf path |
| HuffmanCodes.CodeTablePrefixFree | 2lab/app/services/encryption_service.py:30-38 | no character's code is a prefix of another character's code |
| HuffmanCodes.CodeTableLengths | 2lab/app/services/encryption_service.py:33-37 | below an internal root every code is non-empty; a single-leaf tree gives its character the empty code |
| HuffmanCodes.Walk | 2lab/app/services/encryption_service.py:30-38 | the recursion adds to the shared dictionary exactly the codes of its subtree, right subtree last |
| HuffmanCodes.GenerateCodes | 2lab/app/services/encryption_service.py:30-38 | the table maps each leaf character to its root-to-leaf path, is prefix-free, has non-empty codes below an internal root, and is `{c: ""}` for a single leaf |
| HuffmanCodec.EncodeBits | 2lab/app/services/encryption_service.py:43 | the bits start with the first character's code, and with non-empty codes there is at least one bit per character |
| HuffmanCodec.EncodeBitsAreBits | 2lab/app/services/encryption_service.py:43 | the concatenated codes are a bit string |
| BitPacking.Pow2 | 2lab/app/services/encryption_service.py:49 | powers of two are positive |
| BitPacking.Padding | 2lab/app/services/encryption_service.py:44 | padding is at most 7, aligns the bit length to a multiple of 8, and is 0 exactly when it is already aligned |
| BitPacking.Zeros | 2lab/app/services/encryption_service.py:45 | `'0' * n` is a bit string of length n |
| BitPacking.ParseBinary | 2lab/app/services/encryption_service.py:49 | the value of an n-bit string is below 2^n, so 8 bits give a byte |
| BitPacking.Binary | 2lab/app/services/encryption_service.py:54 | formatting at a width gives a bit string of that width |
| BitPacking.BinaryOfParse | 2lab/app/services/encryption_service.py:49-54 | `08b` of `int(bits, 2)` is the 8 bits again |
| BitPacking.ParseOfBinary | 2lab/app/services/encryption_service.py:49-54 | `int(f"{v:08b}", 2)` is v again for a byte v |
| BitPacking.Pack | 2lab/app/services/encryption_service.py:46-49 | packing gives one byte per 8 bits |
| BitPacking.PackOne | 2lab/app/services/encryption_service.py:48-49 | one 8-bit group packs into the one byte it spells |
| BitPacking.PackAppend | 2lab/app/services/encryption_service.py:46-49 | packing distributes over concatenation of aligned bit strings |
| BitPacking.Unpack | 2lab/app/services/encryption_service.py:54 | unpacking gives 8 bits per byte |
| BitPacking.UnpackPack | 2lab/app/services/encryption_service.py:46-54 | unpacking packed bits gives back exactly the padded bit string |
| BitPacking.PackUnpack | 2lab/app/services/encryption_service.py:46-54 | packing unpacked bytes gives back the bytes |
| BitPacking.SliceEnd | 2lab/app/services/encryption_service.py:55 | a Python slice end lies within the string |
| BitPacking.StripPadding | 2lab/app/services/encryption_service.py:55 | the result is a prefix of the bits: a padding of 0 keeps them all; a padding up to the length removes exactly that many trailing bits; a larger padding leaves nothing; a negative one keeps that many leading bits |
| BitPacking.StripZeros | 2lab/app/services/encryption_service.py:44-55 | stripping the padding that was added restores the unpadded bits |
| HuffmanCodec.ReverseCodes | 2lab/app/services/encryption_service.py:53 | the reverse map has the codes as keys and maps each code back to a character that has it |
| HuffmanCodec.Greedy | 2lab/app/services/encryption_service.py:56-63 | the matcher emits at most one character per bit |
| HuffmanCodec.MatchBits | 2lab/app/services/encryption_service.py:56-63 | the bit loop returns what greedy matching from an empty pending code yields |
| HuffmanCodec.GreedyReadsCode | 2lab/app/services/encryption_service.py:58-62 | with a prefix-free table, the matcher reads a code to its end and emits its character |
| HuffmanCodec.GreedyDecodesEncoding | 2lab/app/services/encryption_service.py:43-63 | with a prefix-free table of non-empty codes, greedy matching of the concatenated codes gives back the text |
| HuffmanCodec.GreedyDropsUnmatched | 2lab/app/services/encryption_service.py:56-63 | bits that never complete a code are dropped, and the result is the empty string rather than an error |
| HuffmanCodec.Compress | 2lab/app/services/encryption_service.py:40-49 | the table is the tree's code table; padding is at most 7; the packed bytes hold the concatenated codes plus the padding |
| HuffmanCodec.Expand | 2lab/app/services/encryption_service.py:53-63 | decoding yields at most one character per bit of the data, and nothing when the padding covers every bit |
| HuffmanCodec.CompressExpand | 2lab/app/services/encryption_service.py:40-63 | for a text with two or more distinct characters, decoding the packed bytes with any reverse map of the table gives back the text |
| HuffmanCodec.EncodeBitsAllEmpty | 2lab/app/services/encryption_service.py:43 | a text whose characters all have the empty code encodes to no bits |
| HuffmanCodec.SingleSymbol | 2lab/app/services/encryption_service.py:30-63 | a text with one distinct character packs to no bytes with padding 0 and table `{c: ""}`, and decodes to `""` |
| HuffmanCodec.CompressEmpty | 2lab/app/services/encryption_service.py:40-50 | the packed bytes of a non-empty text are empty exactly when it has one distinct character |
| HuffmanCodec.PackBits | 2lab/app/services/encryption_service.py:46-49 | the byte loop yields one byte per 8-bit group, in order |
| HuffmanCodec.HuffmanEncode | 2lab/app/services/encryption_service.py:40-50 | raises IndexError exactly for the empty text; otherwise returns the base64 of the packed codes, the code table of the built tree, and the padding, where the tree comes from least-frequency merges |
| HuffmanCodec.HuffmanDecode | 2lab/app/services/encryption_service.py:52-63 | malformed base64 raises; otherwise the result is greedy matching over the unpacked, padding-stripped bits with a reverse map of the table |
| XorCipher.Xor | 2lab/app/services/encryption_service.py:67 | `a ^ b` is 0 exactly when `a == b`, and never exceeds `a + b` |
| XorCipher.XorByte | 2lab/app/services/encryption_service.py:67 | the XOR of two bytes is a byte that the same key byte turns back into the original |
| XorCipher.XorFits | 2lab/app/services/encryption_service.py:67 | XOR of two bytes is a byte |
| XorCipher.XorTwice | 2lab/app/services/encryption_service.py:67 | XOR with the same value twice is the identity |
| XorCipher.XorEncrypt | 2lab/app/services/encryption_service.py:65-67 | raises ZeroDivisionError exactly for an empty key with non-empty data; otherwise has the length of the data |
| XorCipher.XorInvolution | 2lab/app/services/encryption_service.py:65-67 | applying the cipher twice with the same key gives back the data |
| Base64.Value | 2lab/app/services/encryption_service.py:54 | every alphabet character decodes to the 6-bit value it encodes |
| Base64.ValueOfSymbol | 2lab/app/services/encryption_service.py:50-54 | every 6-bit value's character decodes to that value |
| Base64.Encode | 2lab/app/services/encryption_service.py:50 | the encoding has four characters per started group of three bytes |
| Base64.Decode | 2lab/app/services/encryption_service.py:54 | strict decoding accepts only lengths that are multiples of four |
| Base64.DecodeGroup | 2lab/app/services/encryption_service.py:50-54 | a full group of three bytes decodes back to itself |
| Base64.DecodeFinalGroup | 2lab/app/services/encryption_service.py:50-54 | a final group of one to three bytes, with its `=` padding, decodes back to itself |
| Base64.DecodeConcat | 2lab/app/services/encryption_service.py:54 | decoding a quantum followed by more text gives the concatenation |
| Base64.DecodeEncodeStep | 2lab/app/services/encryption_service.py:50-54 | a group in front of an encoding that decodes also decodes |
| Base64.DecodeEncode | 2lab/app/services/encryption_service.py:69-86 | decoding undoes encoding for every byte sequence |
| EncryptionService.EncodeText | 2lab/app/services/encryption_service.py:69-79 | IndexError for the empty text; ZeroDivisionError when the key is empty and the packed bytes are not; otherwise the base64 of the XORed packed bytes, with the key, code table and padding echoed unchanged; the tree behind the table comes from least-frequency merges |
| EncryptionService.DecodeText | 2lab/app/services/encryption_service.py:81-86 | malformed base64 raises; an empty key with non-empty bytes raises ZeroDivisionError; otherwise the Huffman decoding of the XORed bytes |
| EncryptionService.RoundTrip | 2lab/app/services/encryption_service.py:69-86 | `decode_text(**encode_text(t, k))`: IndexError for the empty text; t itself for two or more distinct characters and a non-empty key; ZeroDivisionError for those with an empty key; `""` for one distinct character, whatever the key |
| AudioServer.Duration | 1lab/server.py:77 | the whole seconds fit within the audio length and miss it by less than a second |
| AudioServer.ValidateCut | 1lab/server.py:56-104 | a request is accepted exactly when the file exists, both times parse, and 0 <= start < end <= duration; it then slices [start*1000, end*1000), which lies within the audio |
| AudioServer.RejectionOrder | 1lab/server.py:62-101 | each rejection happens exactly when all earlier checks pass and its own fails: file, parse, sign, start bound, end bound, order; bound errors report the duration |
| AudioServer.EndsWith | 1lab/server.py:29 | a name that ends with a suffix is its first part followed by that suffix |
| AudioServer.IsListed | 1lab/server.py:29 | a listed name has a dot four characters from its end |
| AudioServer.Format | 1lab/server.py:35 | the format is the suffix of the name after its last dot, without a dot, or the whole name if there is none |
| AudioServer.FormatAfterDot | 1lab/server.py:35 | a name ending in a dot and a dot-free extension has that extension as format |
| AudioServer.ListedFormat | 1lab/server.py:29-35 | a listed file's format is `mp3` or `wav` |
| AudioServer.Catalogue | 1lab/server.py:27-36 | metadata entries are exactly the listed files, each with its format |
| AudioServer.CatalogueFormats | 1lab/server.py:29-35 | every metadata entry has format `mp3` or `wav` |
| AudioServer.GenerateMetadata | 1lab/server.py:27-36 | the loop builds the entries of the listed files in listing order |

## Left out

- Sockets, `select`, the client buffers, JSON requests and responses, logging, temporary files and `sendall` in `1lab/server.py` are left out: they are I/O. `os.path.exists` and the directory listing are inputs.
- pydub's `AudioSegment` is a foreign library. The audio length in milliseconds is an input, and the cut produces the millisecond range rather than audio.
- The metadata `duration` (`len(audio) / 1000`) is floating point and left out of `AudioServer.Entry`. Writing `metadata.json` is I/O.
- AudioServer.ValidateCut: `int(command["start"])` is modelled as an already parsed `Option<int>` (None for ValueError). A missing key (KeyError) or a non-string, non-number value (TypeError) escapes the handler uncaught and is not modelled.
- `key.encode()` (UTF-8) is a library call: the key is modelled directly as its bytes.
- Base64.Decode is strict section 4 of RFC 4648 decoding. Python's `b64decode` also discards characters outside the alphabet and accepts some other inputs. The two agree on everything the encoder produces, which is what the codec feeds back in. On other inputs the model may fail where Python would decode.
- HuffmanCodec.HuffmanDecode: the code map's keys are single characters, as `generate_codes` produces them. A caller-supplied table with longer keys or non-bit codes is not modelled. The order in which the reverse map is built is left open (`ReverseCodes`), which matters only for tables in which two characters share a code.
- The exact sift order of `heapq` is left out; `HeapPop` removes some node of least frequency, so the tree is stated up to ties.
- HuffmanTree.BuildHuffmanTree: the greedy choice is stated as a replayable trace of least-frequency merges. The general consequence, that a more frequent character never gets a longer code than a less frequent one, is not proved. It is shown only for counts a:3, b:1, c:1 (`HuffmanTreeOfThreeLeaves`).
- The Python `Node` objects are values (`HuffmanTree.Tree`), because they are never changed after being linked into the tree.
- The dictionaries returned by `encode_text` / `decode_text` are a datatype (`Envelope`) and a plain string.
- The websocket, REST, Celery and CLI code of the repository is left out: it is framework glue around the codec.
