# ISO 8583 codec of `8583` (j8583) in Dafny

This project models the core of a small Go ISO 8583 codec and proves properties of the model. The core has four parts:

- **The codec.** The `Message` type of `j8583/message.go` encodes a message as: TPDU, protocol header, MTI, presence bitmap, field data. It can wrap the field data in an encrypted "secure envelope". It also decodes raw bytes back into a message.
- **The scan-code request.** `main.go` builds a scan-code payment request and its MAC fields 57 and 64.
- **The MAC.** `getMac` and `calcMac` in `main.go` compute the message authentication code.
- **Hex encoding.** `EncodeToString` in `utils/typechange.go` produces upper-case hex. Its decoding counterpart, `hex.DecodeString`, is modelled alongside it.

## Modules

| module | models |
|---|---|
| `Base` | bytes, Go strings as byte sequences, `Result`/`Outcome`, one error constructor per distinct message |
| `Utils` | upper-case hex encoding and Go's hex decoding |
| `GoStd` | what `strconv.Atoi` accepts, `strconv.Itoa`, `fmt.Sprintf("%04d", n)` |
| `IsoField` | the field record the core reads (kind, value, encoding, length) |
| `Collaborators` | an `Env` of uninterpreted total functions and constants, one per routine the core calls but whose code is outside the model (BCD packing, `Field.Bytes`, `Field.load`, the DES routine, the field constructors). Properties hold whatever they compute, except where a lemma states an assumption: the MAC lemmas assume `CipherKeepsBlock` (a successful encryption of at least 8 bytes returns at least 8), and `Intended.IntendedRoundTrip` assumes `lbcd` packs the MTI into 2 bytes. |
| `Bitmap` | the presence bitmap: byte `k`, mask `1 << (7 - b)` stands for field `8k + b + 1` |
| `Framing` | the header checks, the 36-entry field table `parseFields`, and the value-level functions `BytesFieldsSpec`, `BytesSpec`, `DecodeSpec` and `DecodeDesSpec` that say what the encoders and decoders compute |
| `J8583` | `class Message`, with the fields of the Go struct and the same loops and appends. Each method is proved to compute the matching `Framing` function. `Decode` and `DecodeDes` are module-level methods that return a fresh `Message`. |
| `Mac` | `getMac` and `calcMac`: the padding, the XOR fold of the 8-byte blocks, the hex step, and the two cipher passes |
| `ScanCode` | `buildSCanCodeMessage`, `buildField57` and `buildField64` |
| `Intended` | for each entry under "Findings": a consequence of the code as written, and the evidently intended definition with its intended property proved |

**Panics.** Where Go panics and a deferred `recover` turns the run-time fault into an error (`Bytes`, `Decode`), the model returns `Err(Critical)`. Where nothing recovers, the fault is a precondition. This covers:

- `SetField` and `getField` on a slice shorter than `fieldLength()`;
- `raw[51:]` in `DecodeDes`;
- `m.Fields[64]` in `buildField64`;
- the block slice of `getMac`.

**Slices and capacity.** Go bounds an index and a one-index slice `s[i:]` by the length, but a two-index slice `s[i:j]` by the capacity. `Decode` takes the bitmap with `raw[21:21+byteNum]`, so the model gives `Decode` a second argument, `spare`: the bytes of raw's backing array from its length up to its capacity. The walked bitmap is read from raw followed by `spare`, and decoding faults only when it runs past both. `DecodeDes` hands `Decode` the result of `append(raw[:11], ...)`. When the decrypted bytes fit in raw's capacity, append writes them into raw's own array and the result keeps the rest of it (`Framing.AppendedSpare`). A short cipher output then makes `Decode` read raw's old bytes as bitmap (`Framing.DecodeDesReadsOldBytes`).

**Code as written.** `Framing`, `J8583`, `Mac` and `ScanCode` follow the code as written, bugs included. The corrected behaviour lives in `Intended`, defined next to a proved consequence of each bug.

**Evidence for the intended behaviour.** The code itself shows what it means to do in four places, and the model follows the code as written in each:

- **Bitmap bits.** In `BytesFields` (j8583/message.go:76-84) the slot loop `for i, f := range m.Fields` reuses the name `i` of the field number being tested. So every populated slot sets the current bit, instead of only the slot whose index is that field number.
- **Bitmap offset.** `Bytes` writes 5 TPDU bytes, 6 header bytes and the 2-byte MTI, then the bitmap. `Decode` reads its `Bitmap` string from exactly there, raw[13:21] (message.go:219), yet walks the bytes from offset 21 (message.go:225-231).
- **Envelope fields.** The envelope's second code is held in a variable named `value41` but read from `m.Fields[42]` (message.go:145-147). `minSize` in `DecodeDes` skips 39 bytes after the 0xE6 marker (message.go:262). That is 15 + 8 + 4 + 12: the 15-character field 42, the 8-character field 41 of the table (message.go:309), the 4-digit length and the twelve '0' characters.
- **MAC padding.** `getMac` pads with `len % 8` zero bytes (main.go:158-161). The 8-byte XOR fold that follows requires zero padding up to a multiple of 8 (padding method 1 of ISO/IEC 9797-1); with `len % 8` bytes a trailing partial block is dropped.

Each of these is a row under "Findings".

## Model

| member | source | states |
|---|---|---|
| `J8583.Message.constructor` | j8583/message.go:17-24 | the six members of the Go struct hold the given values |
| `J8583.Message.FieldLength` | j8583/message.go:47-53 | 64, or 128 exactly when the secondary bitmap is on |
| `J8583.Message.GetField` | j8583/message.go:33-38 | the zero field outside 1..fieldLength(), slot i inside |
| `J8583.Message.GetFieldValue` | j8583/message.go:40-45 | nil outside the range, otherwise the value of `getField(i)` |
| `J8583.Message.SetField` | j8583/message.go:26-31 | out of range nothing changes. Otherwise `getField(i)` reads back the new field, and every other slot, the slot count and the other struct members stay as they were. |
| `J8583.Message.BytesFields` | j8583/message.go:55-99 | the result is lbcd(MTI), then the bitmap, then the field data, exactly as `Framing.BytesFieldsSpec` gives it. It is the first `Field.Bytes()` error when a populated slot fails. |
| `J8583.Message.FillByte` | j8583/message.go:65-94 | one bitmap byte's eight positions. The data grows by eight copies of the payload, the byte ends as `FinalByte`, no other byte changes, and a failing slot's error ends the call. |
| `J8583.Message.CollectSlots` | j8583/message.go:76-92 | the slot loop at one position. It appends the bytes of every populated slot (index >= 2, value not nil) in slot order. It sets the position's bit exactly when some slot is populated, or returns the first failing slot's error. |
| `Framing.PayloadUpToFails` | j8583/message.go:76-89 | the field data of the first k slots fails exactly when one of their populated slots fails to encode |
| `Framing.PayloadFirstError` | j8583/message.go:86-89 | the reported error is that of the first populated slot that fails |
| `Framing.BytesFieldsEmpty` | j8583/message.go:55-99 | with no populated slot, the bitmap is 0x80 (secondary flag) or 0, then zero bytes, and no field data follows |
| `Framing.BytesFieldsAnyPopulated` | j8583/message.go:76-84 | with any populated slot, every bitmap byte is 0xFF, the bitmap names every field from 2 to 64 (or 128), and the payload is repeated once per bitmap position |
| `Bitmap.SetIndicesSpec` | j8583/message.go:234-245 | a field is named by the bitmap exactly when its bit is set and it is not field 1. The named fields come in strictly ascending order. |
| `Bitmap.MaskIsShift` | j8583/message.go:236-237 | the mask table is `0x01 << (7 - bitIndex)` |
| `Bitmap.SetBitTwice` | j8583/message.go:83-84 | setting a bitmap bit again leaves the byte as it was |
| `Framing.EncodeTpdu` | j8583/message.go:178-192 | succeeds exactly for a 10-byte TPDU that `Atoi` accepts, with the BCD packing as value. An empty TPDU gives "tpdu is required"; every other failure gives "tpdu is invalid". |
| `Framing.EncodeHeader` | j8583/message.go:194-206 | succeeds exactly for a 12-byte header that `Atoi` accepts, with the BCD packing as value; otherwise "header is invalid" |
| `Framing.DecodeMti` | j8583/message.go:349-367 | BCD halves the length. A buffer shorter than the length gives "bad raw data". ASCII yields the prefix and BCD its unpacked digits; any other encoding gives "invalid encode type". |
| `Framing.ParseFields` | j8583/message.go:286-347 | every key lies in 2..64 and maps to its table entry; field 64 is 8 fixed binary bytes |
| `Framing.ParseFieldsKeys` | j8583/message.go:286-347 | the table defines exactly the 36 listed fields, so field 1 and fields above 64 have no entry |
| `IsoField.TextOf` | j8583/message.go:142-147 | the string of a field whose value is a string, and nothing for any other value |
| `J8583.Message.Bytes` | j8583/message.go:103-164 | computes `Framing.BytesSpec`. That is: the TPDU, then the header when set, then the field bytes. With a key it adds the envelope, and every error is passed through. A missing slot 42 is the recovered fault. |
| `Framing.BytesPlain` | j8583/message.go:111-135 | without a key, the message is bcd(TPDU), then bcd(header) when one is set, then the field bytes. It fails exactly when one of those fails. |
| `Framing.HeaderBytes` | j8583/message.go:111-135 | fails exactly when the TPDU fails, or a non-empty header fails, with the TPDU error first; otherwise bcd(TPDU) followed by bcd(header) when one is set |
| `Framing.SecureEnvelope` | j8583/message.go:137-161 | a message with at most 42 slots is the recovered fault. Otherwise it succeeds exactly when the key decodes and the cipher succeeds. The result starts with the header bytes and 0xE6, ends with the cipher text, and its length counts field 42's text twice. |
| `Framing.BytesSecure` | j8583/message.go:137-161 | with a key, the message is: the header bytes, 0xE6, field 42's string twice, `%04d` of the plain field-data length, twelve '0' characters, and the encrypted field bytes |
| `J8583.Message.BytesLenHeader` | j8583/message.go:166-176 | the errors of `Bytes`; otherwise `Framing.LenHeaderSpec` of its output |
| `Framing.LenHeaderSpec` | j8583/message.go:171-175 | `Int2Byte` of the high length byte, then the low length byte, then the message unchanged |
| `GoStd.AtoiAccepts` | j8583/message.go:187 | an accepted string is not empty and every character after the first is a digit; every non-empty string of digits is accepted |
| `GoStd.Fmt04` | j8583/message.go:148 | all decimal digits, denoting the number; exactly four characters below 10000, and never cut |
| `GoStd.Itoa` | j8583/message.go:148 | the digits that `%04d` pads: the shortest decimal numeral, digits only, denoting n, no leading zero |
| `J8583.Decode` | j8583/message.go:208-259 | fails exactly when `Framing.DecodeSpec` fails, with its error. Otherwise it returns a fresh message with the decoded TPDU, header, MTI, bitmap string and secondary flag, and no fields. The walked bitmap may reach into the spare capacity of `raw`; the field loads may not. |
| `Framing.DecodeSpareUnused` | j8583/message.go:231 | once raw holds the whole 16-byte bitmap, the spare capacity does not change the result |
| `Framing.DecodeNoFields` | j8583/message.go:225-259 | an 8-byte walked bitmap that names no field always decodes |
| `Framing.DecodeHeaderSlices` | j8583/message.go:216-218 | the three `decodeMti` calls always succeed on their fixed slices, so the `err` that `Decode` returns is nil |
| `J8583.WalkFields` | j8583/message.go:234-257 | the two bitmap loops load, in order from the cursor, exactly the fields the walked bitmap names (`LoadAll` over `SetIndices`). The first undefined field or load error ends the walk. |
| `J8583.WalkByte` | j8583/message.go:235-256 | the inner loop over one byte's eight bits is the walk up to the end of that byte |
| `J8583.VisitBit` | j8583/message.go:236-255 | a clear bit, or field 1, leaves the cursor alone. An undefined field gives "field %d not defined". A load error is wrapped with the field's index. Otherwise the cursor moves by what `load` consumed. |
| `Framing.WalkToIsLoadAll` | j8583/message.go:234-257 | the bit-by-bit walk equals loading the named fields in ascending order |
| `Framing.LoadAllFailsIfUndefined` | j8583/message.go:246-249 | a walk over indices that include one missing from the table fails |
| `Framing.DecodeRejectsUndefined` | j8583/message.go:246-249 | decoding fails whenever the walked bitmap names a field missing from the table |
| `Framing.DecodeRejectsSecondaryFields` | j8583/message.go:226-249 | a 16-byte walked bitmap with any bit of its second half set never decodes |
| `J8583.DecodeDes` | j8583/message.go:261-284 | "buf size is not enough" for an empty buffer and "messageCalculator should not be null" for an empty key. Otherwise it passes on the key's hex error, then the cipher's error. Finally it decodes raw[0:11] followed by the decrypted raw[51:], with the capacity that append leaves; this is `Framing.DecodeDesSpec`. |
| `Framing.AppendedSpare` | j8583/message.go:281 | when the appended bytes fit in raw's capacity, the result of append keeps the rest of raw's array as its spare capacity; otherwise it has none the model records |
| `Framing.AppendedSpareUnused` | j8583/message.go:281 | when append has to copy, the result is longer than 37 bytes, so its spare capacity is never read |
| `Framing.DecodeDesReadsOldBytes` | j8583/message.go:231-281 | a 16-byte zero cipher output leaves a 27-byte message. `Decode` walks bytes 21 to 28, the last two being raw's own old bytes; when those are zero, decoding succeeds. |
| `Utils.EncodeToString` | utils/typechange.go:23-25 | two characters per byte |
| `Utils.EncodeToStringAt` | utils/typechange.go:23-25 | characters 2k and 2k+1 are the upper-case digits of the high and the low nibble of byte k |
| `Utils.EncodeToStringUpperHex` | utils/typechange.go:23-25 | every character is '0'-'9' or 'A'-'F' |
| `Utils.EncodeConcat` | utils/typechange.go:23-25 | encoding distributes over concatenation |
| `Utils.DecodeEncode` | utils/typechange.go:23-25 | `hex.DecodeString` of the encoding gives back the bytes |
| `Utils.DecodeString` | j8583/message.go:151-154 | a decoded string has half the length of its text |
| `Utils.DecodeStringOk` | j8583/message.go:151-154 | a key decodes exactly when it has even length and only hex digits of either case |
| `Mac.Padded` | main.go:158-161 | the MAB followed by `len % 8` zero bytes |
| `Mac.Fold` | main.go:163-169 | eight bytes; byte j is the XOR of column j over the first n blocks |
| `Mac.FoldBlocks` | main.go:163-169 | the nested loop leaves `Fold` of the padded block in `result` |
| `Mac.XorPrefix` | main.go:178-180 | the first eight cipher bytes XORed with the second half of the hex text, the rest unchanged |
| `Mac.XorHead` | main.go:178-180 | the loop computes `XorPrefix` |
| `Mac.GetMac` | main.go:150-188 | "input MAK must has 8 bytes" and "input mab should not be empty" come first. Then the pad, fold, hex and two cipher passes of `Mac.MacSpec`: the first 8 hex characters of the second output, or the cipher's error. |
| `Mac.MacShape` | main.go:186-187 | a MAC is eight upper-case hex characters |
| `Mac.CalcMacSpec` | main.go:142-148 | a key that is not hex gives its decoding error; a MAC is produced only for a 16-character key and has 8 characters |
| `Mac.CalcMac` | main.go:142-148 | the key's hex error, or `getMac` under the decoded key; a MAC is only produced for a 16-character key |
| `ScanCode.Field57` | main.go:105-125 | an LLLVAR binary field with a string value of 12 + 4n characters and length 6 + 2n, for an n-byte order number |
| `ScanCode.Field57Decodes` | main.go:105-125 | the value is upper-case hex of "UPLDC2", then the order number, then the order number again. The length counts those bytes. |
| `ScanCode.Field64Text` | main.go:127-140 | the stored field is `NewFieldFix(BINARY, 8, hex of the MAC)`. The text has 16 upper-case hex characters and decodes back to the MAC. |
| `ScanCode.Field64Value` | main.go:127-139 | succeeds exactly when the message's field bytes encode and the MAC over "test" is computed; a field-bytes error comes first |
| `ScanCode.Field64IgnoresMessage` | main.go:128-133 | field 64 is the same for every message whose field bytes encode, since the MAC is taken over "test" |
| `ScanCode.BuildField64` | main.go:127-140 | a `BytesFields` or MAC error is reported and leaves the message unchanged. Otherwise slot 64, and nothing else, becomes the MAC field. |
| `ScanCode.Field60Parts` | main.go:94-99 | five sub-fields, the second being the batch number |
| `ScanCode.ScanCodeSlots` | main.go:79 | the request has 65 slots |
| `ScanCode.RequestSlot` | main.go:79-101 | a slot the request does not list is the zero field; slot 57 is `buildField57` of the order number when there is one, and zero otherwise |
| `ScanCode.ScanCodeSlotsUnlisted` | main.go:79-101 | every slot the request does not list stays Go's zero field |
| `ScanCode.ScanCodeSlot57` | main.go:90-92 | slot 57 is set exactly when there is an order number, and then holds `buildField57` of it |
| `ScanCode.FillFixed` | main.go:79-88 | 65 slots carrying the nine fixed fields below 50, all others zero |
| `ScanCode.FillSlots` | main.go:79-101 | the slots are exactly those the request lists (`ScanCodeSlots`) |
| `ScanCode.BuildSCanCodeMessage` | main.go:76-103 | the TPDU is set and the MTI is "0200". The slots are the request's 65, with slot 64 the MAC field when `buildField64` succeeds. Header, bitmap string and flag are unchanged, and the error of `buildField64` is dropped. |
| `Intended.ShadowedIndexNamesEmptySlot` | j8583/message.go:76-84 | as written: with only slot 3 populated, the bitmap still names the empty field 2 |
| `Intended.BitsUpTo` | j8583/message.go:65-84 | intended bitmap byte: a bit is set exactly when its position is wanted (the flag, or a populated slot) |
| `Intended.IntendedBitmapBits` | j8583/message.go:65-84 | intended bitmap: each position is set exactly when wanted |
| `Intended.IntendedBitmapNamesPopulated` | j8583/message.go:65-84 | the intended bitmap names exactly the populated slots it has room for |
| `Intended.Covered` | j8583/message.go:65-68 | the slots the bitmap has room for |
| `Intended.IntendedDataOnce` | j8583/message.go:76-91 | intended field data is the payload once, while the code writes it 64 or 128 times |
| `Intended.DecodeWalksWrongBitmap` | j8583/message.go:219-232 | as written: a message whose bitmap at offset 13 names field 3 decodes without loading any field |
| `Intended.IntendedDecodeBitmap` | j8583/message.go:219 | the `Bitmap` string has 16 characters |
| `Intended.IntendedRoundTrip` | j8583/message.go:219-232 | intended encode then decode: the decoder reads the flag the encoder wrote and walks exactly the populated slots it named. Its bitmap string decodes to the first 8 bitmap bytes. |
| `Intended.EnvelopeMisplacesCipher` | j8583/message.go:142-149 | as written: the cipher text starts at 58. `DecodeDes` reads from 51, so it takes seven '0' characters first. |
| `Intended.IntendedEnvelopeLayout` | j8583/message.go:262 | intended envelope (fields 42 then 41): the cipher text starts at exactly 51, after the 11 header bytes |
| `Intended.IntendedEnvelopeDecodes` | j8583/message.go:261-284 | `DecodeDes` of the intended envelope decodes the header bytes followed by the cipher routine's output on the cipher text |
| `Intended.MacIgnoresNinthByte` | main.go:158-169 | as written: two 9-byte MABs that differ only in their last byte get the same MAC |
| `Intended.IntendedPadded` | main.go:158-161 | intended padding: a multiple of 8 bytes, fewer than 8 added, the MAB in front |
| `Intended.FoldSensitive` | main.go:163-169 | changing one byte of the folded blocks changes that byte's column and no other |
| `Intended.IntendedMacCoversAll` | main.go:158-169 | with the intended padding, two MABs of the same length that differ in one byte fold to accumulators that differ in exactly that byte's column |
| `Intended.IntendedMacInputsDiffer` | main.go:158-180 | under the intended padding, a byte in columns 0 to 3 changes the hex text the first cipher pass encrypts, and a byte in columns 4 to 7 changes the text XORed into its output before the second pass |

## Left out

- `main()` is left out: its socket I/O, console output and hard-coded keys. So is `PrintMessage` in `j8583/print.go`. Both are I/O around the core.
- `Field.Bytes`, `Field.load`, the field constructors (`NewFieldFix` and the others), and the BCD routines `lbcd`, `bcd`, `bcd2Ascii` are uninterpreted functions of `Env`. `j8583/field.go` holds only an unfinished `Bytes`, and the rest is not part of this model.
- `security.EncryptWithDESKey` is uninterpreted, so DES itself is not modelled. The MAC assumes only that a successful encryption of at least 8 bytes returns at least 8 bytes (`CipherKeepsBlock`).
- `utils.Int2Byte` is uninterpreted, and `BytesLenHeader` is proved for whatever it returns. Go's `binary.Write` rejects a plain `int`, so the real routine may return no bytes; the model covers that case too.
- `Byte2Int` and the rest of `utils/typechange.go` are not part of the core.
- Error messages are collapsed to one constructor per distinct message. "Critical error:" plus the panic value becomes `Critical`. The `%s` text of a wrapped load error is kept as the wrapped value.
- `Mac.MacSpec`: a MAB of 1 to 3 bytes is a precondition. `mab[:8]` then reaches past the slice length; Go faults or reads spare capacity depending on the allocation.
- `Mac.GetMac`: `result := mab[:8]` aliases the caller's buffer, and the fold writes into it. That update of the caller's bytes is not modelled; the returned MAC is unaffected, because the fold reads only bytes 8 and up.
- `J8583.DecodeDes`: `append(raw[:11], ...)` may overwrite the caller's buffer from offset 11. That write to the caller's bytes is not modelled. Its effect on the decoded message is modelled through the spare capacity. When append copies instead, the new array's spare bytes are left out; `Framing.AppendedSpareUnused` shows they are never read.
- `J8583.Decode` never fills `Fields`: the loaded field values are discarded by the code. The model therefore returns no slots and only the cursor movement of each `load`.
- `ScanCode.Field57`: the padded decimal length string built at main.go:111-117 is never used and is not modelled.
- `ScanCode.BuildField64` requires a 65th slot whenever it would store field 64. `m.Fields[64]` is not recovered.
- `J8583.Message.SetField` and `J8583.Message.GetField` require every addressable index to lie within the slot list (`Addressable`), because `m.Fields[i]` is not recovered.
- `GoStd.AtoiAccepts` models `strconv.Atoi` only for strings under 19 bytes (its fast path). The TPDU and header it checks have 10 and 12 bytes.
- `IsoField.Field` keeps one `encoder` integer. The `CustomField` encoder interface and the duplicate `Encoding` member of the Go struct are not modelled.
- `(length & 0xff00) >> 8` is written as `(length / 256) % 256`; the two agree for the non-negative lengths that occur. Go's `int` never overflows on message lengths, so the model uses unbounded integers.

## Findings

| source | as written | input that shows it | evidently intended | confidence | as-written member | corrected member |
|---|---|---|---|---|---|---|
| j8583/message.go:76-84 | the slot loop `for i, f := range m.Fields` shadows the field number `i`. Every populated slot sets the bit of the current position and appends its bytes at every position. | only slot 3 populated: all bitmap bytes become 0xFF, field 2 is named although empty, and slot 3's bytes are written 64 times | one bit per populated slot, then each slot's bytes once in ascending order | high; not executed | `Intended.ShadowedIndexNamesEmptySlot` | `Intended.IntendedBytesFields`, proved in `Intended.IntendedBitmapNamesPopulated` and `Intended.IntendedRoundTrip` |
| j8583/message.go:219-232 | the `Bitmap` string is taken from raw[13:21], after 5 TPDU, 6 header and 2 MTI bytes, as `Bytes` writes it. The walked bitmap starts at 21. | 13 zero bytes, 0x20, 15 zero bytes: the bitmap at 13 names field 3, yet decoding succeeds without loading a field | walk the bitmap at 13 and load fields from just after it | high; not executed | `Intended.DecodeWalksWrongBitmap` | `Intended.IntendedDecodeSpec`, proved in `Intended.IntendedRoundTrip` |
| j8583/message.go:145-147 | the second copy, named `value41`, reads field 42 again | a 15-character field 42 and field bytes under 10000: the cipher text starts at 58, while `DecodeDes` decrypts from 51 | field 41 (8 characters) after field 42, the 39 + 1 bytes `minSize` skips | medium; not executed | `Intended.EnvelopeMisplacesCipher` | `Intended.IntendedSecureEnvelope`, proved in `Intended.IntendedEnvelopeLayout` and `Intended.IntendedEnvelopeDecodes` |
| main.go:158-161 | the MAB is padded with `len % 8` zero bytes, not up to the next multiple of 8, so a trailing partial block is dropped by the fold | two 9-byte MABs that differ only in byte 9 | pad with `(8 - len % 8) % 8` zero bytes | high; not executed | `Intended.MacIgnoresNinthByte` | `Intended.IntendedPadded` and `Intended.IntendedMacSpec`, proved in `Intended.IntendedMacCoversAll` and `Intended.IntendedMacInputsDiffer` |
