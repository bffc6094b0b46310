# Hamming SECDED codec, modelled in Dafny

The hamming-code program protects a file byte by byte with an extended
Hamming code. Each byte becomes a 13-bit codeword:

- eight data bits M0..M7;
- four Hamming parity bits C0..C3 at the power-of-two positions 1, 2, 4 and 8;
- one overall parity bit G at position 0.

On the way back, `cTest` computes the syndrome. The syndrome is the C bits
the word carries XOR the C bits its data would be encoded with. A syndrome
of 1..12 names the bit to flip, and 13..15 is reported as an error. Then
`gTest` checks G, and `decodeByte` combines the two.

Two bytes on disk are turned back into a codeword by `getBitsetFrom2Bytes`.
The output file names come from `exrtactFileName` and `removeHwamExtension`.

The model works on bit-vectors:

- `bv13` for codewords, `bv8` for data bytes and `bv4` for the C nibble.
- The layout is a table (`Layout.Split`/`Layout.Join`), and the C++
  loops (`SetStruct`, `GetStructuredHW`) are proved equal to it.
- Every decoder property is stated against two reference views:
  - the textbook Hamming checks (`Syndromes.Checks`): check k is the parity
    of the codeword bits at positions whose index has bit k set;
  - the overall parity of all 13 bits (`Bits.EvenParity`).
- From those views the syndrome is linear, a single set bit at position p
  has syndrome p, and every codeword has syndrome 0 and even parity.
- The file-name helpers work on `string`, with each Dafny `char` standing
  for one C++ `char` (one byte), and with `size_t` arithmetic written out
  modulo 2^64.

Modules, in dependency order:

- `Bits`: codeword bits, single-bit flips, overall parity.
- `Layout`: the StructWord layout, `isPowOf2`, `setStruct`/`getStructuredHW`.
- `Encoder`: `encodeByte`.
- `Syndromes`: the syndrome and the Hamming checks.
- `Decoder`: `cTest`, `gTest` and `decodeByte`.
- `DecoderProperties`: round trip, single-error correction, double-error
  detection.
- `Storage`: `getBitsetFrom2Bytes`.
- `Strings`: `find_last_of`, `substr` and `size_t` subtraction.
- `FileNames`: `removeHwamExtension` and `exrtactFileName`.
- `Secded`: the corrected decoder of the first finding.

Two behaviours of the code that differ from a textbook SECDED decoder:

- An extended Hamming (SECDED) decoder normally corrects a flip of G alone.
  This code reports it as an error (see Findings).
- When the G check fails, the code returns a zero byte with the error flag
  (hamming/hamming.cpp:121), not the corrected word.

## Model

| member | source | states |
|---|---|---|
| Bits.Flip | hamming/hamming.cpp:90 | `hw.flip(p)` inverts bit p and keeps every other bit |
| Bits.FlipTogglesParity | hamming/hamming.cpp:90 | flipping one bit of a word turns even overall parity into odd and back |
| Layout.IsPowOf2 | hamming/hamming.cpp:11 | on codeword positions, `n & (n-1) == 0` holds exactly for 0, 1, 2, 4 and 8 |
| Layout.ParityPosition | hamming/hamming.cpp:31-33 | C0..C3 sit at nonzero positions that isPowOf2 accepts |
| Layout.DataPosition | hamming/hamming.cpp:31-35 | M0..M7 sit at positions that isPowOf2 rejects |
| Layout.PositionsAscend | hamming/hamming.cpp:31-35 | both C and M are filled in ascending position order |
| Layout.Split | hamming/hamming.cpp:26-37 | G is bit 0, C_k is the bit at the k-th power-of-two position, and M_k is the bit at the k-th other position |
| Layout.Join | hamming/hamming.cpp:39-49 | the word getStructuredHW builds splits back into the same M, C and G |
| Layout.JoinSplit | hamming/hamming.cpp:21-50 | getStructuredHW(setStruct(hw)) == hw for every 13-bit word |
| Layout.WalkMeetsTables | hamming/hamming.cpp:28-35 | walking positions 1..12, the running counters cIdx/mIdx point at the slot the table assigns to the position |
| Layout.SetStruct | hamming/hamming.cpp:26-37 | the setStruct loop, dispatching on isPowOf2, produces exactly the table layout of hw |
| Layout.GetStructuredHW | hamming/hamming.cpp:39-49 | the getStructuredHW loop produces exactly the word that splits into the given M, C and G |
| Encoder.ParityBits | hamming/hamming.cpp:56-59 | bit k of the C nibble is the XOR of data bits listed for C_k |
| Encoder.EncodeByte | hamming/hamming.cpp:52-67 | the data bits of encodeByte(d) read back as d, and C_k sits at its power-of-two position |
| Encoder.EncodeByteInjective | hamming/hamming.cpp:54 | distinct bytes have distinct codewords |
| Encoder.ParityBitCoversPositions | hamming/hamming.cpp:56-59 | each of the four hard-coded XOR formulas (`Encoder.ParityBit`) is the XOR of exactly the data bits whose codeword position has bit k set (the Hamming rule) |
| Encoder.EncodeByteEvenParity | hamming/hamming.cpp:61-62 | G as the code computes it (`Encoder.OverallParityBit`) makes every codeword have even overall parity: its 13 bits XOR to 0 |
| Encoder.EncodeByteExamples | hamming/hamming.cpp:52-67 | encodeByte(0x00) == 0 and encodeByte(0xFF) == 0x1EEE |
| Syndromes.SyndromeIsChecks | hamming/hamming.cpp:71-79 | the syndrome cTest computes (`Syndromes.Syndrome`: C of the word XOR C of the encoding of its data) equals the four Hamming checks of the received word |
| Syndromes.ChecksOfXor | hamming/hamming.cpp:71-79 | the checks are linear: the checks of a ^ b are the XOR of the checks |
| Syndromes.ChecksOfUnit | hamming/hamming.cpp:71-79 | a word with a single set bit at position p has syndrome p; position 0 has syndrome 0 |
| Syndromes.ChecksOfCodeword | hamming/hamming.cpp:79-82 | every codeword has syndrome 0 |
| Syndromes.ChecksOfFlip | hamming/hamming.cpp:90 | flipping bit p changes the syndrome by XOR with p |
| Decoder.PassingChecksMeansCodewordUpToG | hamming/hamming.cpp:98-105 | a word with syndrome 0 is the encoding of its own data bits, or that encoding with G flipped |
| Decoder.CodewordCharacterization | hamming/hamming.cpp:98-105 | a word is a codeword if and only if its syndrome is 0 and its parity is even |
| Decoder.CTest | hamming/hamming.cpp:70-95 | error exactly when the syndrome exceeds 12, with an empty word; otherwise the returned word has syndrome 0 and is the input with the bit the syndrome names flipped (unchanged for syndrome 0) |
| Decoder.GTest | hamming/hamming.cpp:98-106 | on a word with syndrome 0, gTest passes exactly when the overall parity is even |
| Decoder.DecodeByte | hamming/hamming.cpp:109-125 | error exactly when the syndrome exceeds 12 or disagrees with the parity (zero syndrome with odd parity, nonzero with even); an error carries byte 0; otherwise the byte encodes to the corrected word |
| DecoderProperties.RoundTrip | hamming/hamming.cpp:109-124 | decodeByte(encodeByte(d)) == (d, false) for every byte d |
| DecoderProperties.SyndromeLocatesSingleFlip | hamming/hamming.cpp:71-79 | a codeword with bit p flipped has syndrome exactly p, for every p in 0..12 |
| DecoderProperties.SingleFlipCorrected | hamming/hamming.cpp:90-124 | a codeword with one bit at positions 1..12 flipped decodes to (d, false) |
| DecoderProperties.OverallBitFlipReported | hamming/hamming.cpp:119-121 | a codeword with only G flipped has syndrome 0, fails gTest, and decodes to (0, true) |
| DecoderProperties.LargeSyndromeReported | hamming/hamming.cpp:85-88 | a syndrome above 12 decodes to (0, true) |
| DecoderProperties.DoubleFlipDetected | hamming/hamming.cpp:109-125 | a codeword with any two distinct bits flipped decodes with the error flag |
| DecoderProperties.DecodedWordsAreNearCodewords | hamming/hamming.cpp:109-125 | a word that decodes without error is the encoding of its byte, or that encoding with the syndrome's bit flipped |
| DecoderProperties.DecodedIsNear | hamming/hamming.cpp:109-125 | every word that decodes without error is a codeword or a codeword with one bit other than G flipped |
| DecoderProperties.NearIsDecoded | hamming/hamming.cpp:109-125 | every codeword, and every codeword with one bit other than G flipped, decodes without error |
| DecoderProperties.DecodeSucceedsExactly | hamming/hamming.cpp:109-125 | decoding succeeds if and only if the word is within one non-G flip of a codeword |
| Storage.FromTwoBytesBits | hamming/hamming.cpp:133-137 | bits 0..7 come from the first byte and bits 8..12 from the low five bits of the second |
| Storage.FromTwoBytesValue | hamming/hamming.cpp:127-138 | as a number the codeword is b0 + 256 * (b1 mod 32) |
| Storage.HighBitsIgnored | hamming/hamming.cpp:136-137 | the top three bits of the second byte do not affect the codeword |
| Storage.TwoBytesRoundTrip | hamming/hamming.cpp:127-138 | a codeword is rebuilt from its low byte and high byte |
| Storage.GetBitsetFrom2Bytes | hamming/hamming.cpp:127-139 | the two copy loops produce the codeword with the stored bits above, whose value is b0 + 256 * (b1 mod 32) |
| Strings.SizeSub | main.cpp:19 | size_t subtraction: exact when no underflow, wraps by 2^64 otherwise |
| Strings.FindLastOf | hamming/hamming.cpp:14 | find_last_of with one character: npos exactly when the character is absent, otherwise an index holding it with no later occurrence |
| Strings.Substr | main.cpp:19 | substr takes count characters from pos, clipped at the end of the string |
| FileNames.RemoveHwamExtension | hamming/hamming.cpp:13-19 | a name without '.' is returned unchanged; otherwise the result is the prefix before the last '.' |
| FileNames.RemoveExtensionAfterAppend | hamming/hamming.cpp:13-19 | removing the extension undoes appending '.' and an extension that has no '.' |
| FileNames.RemoveHwamExtensionUndoesAppend | hamming/hamming.cpp:13-19 | removeHwamExtension(s + ".hwam") == s for every s |
| FileNames.ExtractFileName | main.cpp:6-20 | the result has no '/'; with a '/' it is the whole suffix after the last '/' (empty for a trailing '/'); without one it is the input minus its last byte; the empty input gives ""; the extension is never stripped |
| FileNames.ExtractFileNameAfterSlash | main.cpp:8-19 | with a '/' in the path, exrtactFileName returns the last path component |
| FileNames.ExtractFileNameWithoutSlash | main.cpp:11-19 | without a '/', exrtactFileName returns the path minus its last byte |
| FileNames.ExtractFileNameDropsLastCharacter | main.cpp:19 | exrtactFileName("a.txt") == "a.tx", although the last component is "a.txt" |
| FileNames.BaseNameIsLastComponent | main.cpp:8-14 | the last path component has no '/' and is the whole path or follows its last '/' |
| FileNames.ExtractFileNameFixed | main.cpp:6-20 | the corrected helper returns the last path component for every path |
| FileNames.RestoredNameAsWritten | main.cpp:39-44 | encoding path, then decoding the produced file, restores a file named exrtactFileName(path), so a name without '/' loses its last byte |
| FileNames.RestoredNameFixed | main.cpp:39-44 | with the corrected helper, decoding restores the last component of the original path |
| Secded.DecodeByteSecded | hamming/hamming.cpp:109-125 | the corrected decoder: an error exactly when the syndrome exceeds 12 or is nonzero with even parity; otherwise the byte encodes to the word with the damaged bit (G included) flipped back |
| Secded.GOnlyDamaged | hamming/hamming.cpp:98-105 | a word with syndrome 0 and odd parity is a codeword with G flipped |
| Secded.SecdedRoundTrip | hamming/hamming.cpp:109-124 | the corrected decoder returns (d, false) for an undamaged codeword |
| Secded.SecdedCorrectsEverySingleFlip | hamming/hamming.cpp:109-125 | the corrected decoder corrects one flipped bit at any position 0..12 |
| Secded.SecdedDetectsDoubleFlip | hamming/hamming.cpp:109-125 | the corrected decoder still reports any two distinct flipped bits as an error |
| Secded.SecdedDiffersOnlyOnGOnlyDamage | hamming/hamming.cpp:119-121 | the corrected and the written decoder differ exactly on words with syndrome 0 and odd parity |

## Left out

- `hamming::read` and `hamming::write` (hamming/hamming.cpp:142-209) are left out. They are file-stream I/O: the eof loops, the thrown string when a file does not open, and the per-byte calls into the modelled functions.
- The raw-memory write of a `bitset<13>` into two bytes (hamming/hamming.cpp:201) is left out. It depends on the object representation. `Storage.LowByte`/`Storage.HighByte` are only the little-endian reading that `getBitsetFrom2Bytes` inverts.
- The signed `char` to `bitset<8>` conversion in `getBitsetFrom2Bytes` keeps the low eight bits, so the model takes the two bytes as 8-bit values.
- All `cout` messages are logging and are left out.
- `main`'s argument dispatch and `showInstructions` are left out. Only the name flow between `-W` and `-R` is stated, in `FileNames.RestoredNameAsWritten`.
- hamming/hamming.hpp holds declarations only and is not part of this model.
- Layout.IsPowOf2: takes a codeword position 0..12 rather than any `int`, because it is only ever called with 1..12.
- Strings.Substr: requires `pos <= size`. The `out_of_range` exception for a larger position is not modelled, because neither caller can produce one.
- FileNames.ExtractFileName: each Dafny `char` stands for one C++ `char`, a byte, so the model is exact on byte strings and ASCII names. A name that ends in a multi-byte UTF-8 character loses only its last byte in the C++ code. The model does not model UTF-8 encoding.
- FileNames.ExtractFileName: requires the path to be at most 2^64 - 1 characters, which every `std::string` satisfies.
- FileNames.RestoredNameAsWritten: also requires the name plus ".hwam" to fit in a `std::string`.
- Decoder.GTest: its contract describes the result only for words with syndrome 0. Those are the only words `decodeByte` hands to it, because it is always given the word `cTest` corrected.

## Findings

| source | as written | input that shows it | evidently intended | confidence | as-written member | corrected member |
|---|---|---|---|---|---|---|
| hamming/hamming.cpp:119-121 | a codeword whose only damaged bit is G has syndrome 0, fails gTest, and decodeByte reports it as an uncorrectable error | encodeByte(d) with bit 0 flipped, e.g. 0x0001 for d = 0x00 | an extended Hamming (SECDED) decoder corrects every single-bit error, G included; the data bits of such a word are intact | medium, not executed | DecoderProperties.OverallBitFlipReported | Secded.SecdedCorrectsEverySingleFlip |
| main.cpp:19 | `substr(lastSlash, size() - 1)` loses the last byte when the path has no '/' | "a.txt" gives "a.tx", so `-W` writes "a.tx.hwam" and `-R` on it restores "a.tx" | the whole last path component, "a.txt" | high, not executed | FileNames.ExtractFileNameDropsLastCharacter | FileNames.ExtractFileNameFixed |
