# Oracle of Ages/Seasons save decoder — a Dafny model

This project models the decoding core of the Oracle of Ages/Seasons save viewer.
A save slot is a fixed record of 0x550 bytes. A list of field descriptions
("items") says where each field lives, which datatype it has and, for bit
fields, which bits it uses. The viewer does four things with that list:

- it normalises bit fields so that their first bit lies within one byte;
- it validates a record's 16-bit checksum and its game signature;
- it decodes every item into a map from item name to value;
- it reports which record offsets no item describes.

The model is pure Dafny. Items are immutable datatypes, the record is a
`seq<Byte>`, and every exception the source raises on inputs inside the modelled
domain becomes a `Result` failure (the inputs outside it are listed under
"Left out").
Python's unbounded `int` bit operations (`&`, `>>`, `<<`) are defined on `nat`
in `BitOps` and related there to division and remainder by powers of two.

Modules, one per file:

- `Results` (results.dfy): `Option` and `Result`.
- `BitOps` (bits.dfy): bytes, shifts, bitwise and, masks, bit-field extraction, little-endian words.
- `Schema` (schema.dfy): datatypes, game types, items, errors, text-to-datatype parsing, address resolution and the built-in items.
- `Normalize` (normalize.dfy): the bit-field normalisation pass and loading.
- `Checksum` (checksum.dfy): the checksum and the signature check.
- `Decode` (decode.dfy): per-item decoding, whole-record decoding and parsing.
- `Coverage` (coverage.dfy): the unknown-offset report.

## Behaviour kept as written

Some details of main.py are modelled exactly as the code behaves:

- Address resolution prefers the untagged `addr` key over the game-specific
  `agesaddr`/`ssnsaddr` key (main.py:238, main.py:285). The variant-specific key
  is used only when `addr` is absent, and offset 0 is used when neither applies.
- A `Bit` item tests the whole range `firstbit ..= lastbit` and is true when any
  of those bits is set (main.py:304-309). For a one-bit range this is the single
  bit `firstbit`.
- A `String` or `ByteArray` item without a `length` makes both decoding
  (`range(None)`) and coverage (`None + 1`) fail. The model reports this as the
  `LengthMissing` error.
- The `ByteBcd`/`WordBcd` tags decode exactly like `Byte`/`Word`. The
  coverage width of a string or byte array is `length + 1`. Both are kept as
  written.

## Model

| member | source | states |
|---|---|---|
| `Schema.ParseDataType` | main.py:41-59 | The parsed datatype is never ByteArray. Any other result is the datatype whose tag equals the upper-cased text. Invalid is returned exactly when the upper-cased text matches no tag. |
| `Schema.ParseTagRoundTrip` | main.py:44-57 | Each of the seven text datatypes is recovered from its tag, and from any text whose upper-case form is that tag. |
| `Schema.ParseIgnoresCase` | main.py:44-57 | Parsing upper-cased text gives the same datatype as parsing the text itself. |
| `Schema.ResolveAddress` | main.py:285 | `addr` wins when present. Otherwise `agesaddr` is used for Ages and `ssnsaddr` for any other game type. Otherwise the address is 0. |
| `Schema.ResolveAcrossGames` | main.py:238 | With `addr` present the game type is irrelevant. Any two game types other than Ages, such as Seasons and an invalid game type, always resolve to the same offset. |
| `Normalize.NormalizeItem` | main.py:65-82 | A Bit/Bits item without `firstbit` fails. Otherwise its new first bit is `firstbit mod 8`, and every present address key plus the new first bit names the same record bit as before. The width `lastbit - firstbit` is kept, absent keys stay absent, and nothing else changes. Non-bit items are returned unchanged. |
| `Normalize.NormalizeItems` | main.py:64-82 | The pass fails exactly when some Bit/Bits item lacks `firstbit`, and the error is then the missing-firstbit error. Otherwise it maps `NormalizeItem` over the list, and every Bit/Bits item then has a first bit below 8. |
| `Normalize.NormalizeFixesNormalized` | main.py:70 | A list whose bit fields all start below bit 8 is left unchanged. |
| `Normalize.NormalizeIdempotent` | main.py:64-82 | Normalising twice equals normalising once. |
| `Normalize.NormalizeMovesResolvedAddress` | main.py:70-79 | When an address key applies, the normalised item resolves `firstbit div 8` bytes further on, and the resolved byte plus the first bit name the same bit as before. With no applicable key both resolve to 0. |
| `Normalize.LoadItems` | main.py:64-231 | Loading fails exactly when some Bit/Bits item lacks `firstbit`, with the missing-firstbit error. Otherwise the first entries are the parsed items, each normalised by `NormalizeItem` in the same position, followed by exactly the built-in items, and the whole list is normalised. |
| `BitOps.LittleEndianWord` | main.py:290 | `lo \| hi << 8` is below 65536, and its low byte is `lo` and its high byte `hi`. |
| `BitOps.MaskBits` | main.py:304-306 | The summed mask has exactly the bits `firstbit ..= lastbit` set. |
| `BitOps.BitAndBits` | main.py:309 | A bit of `x & y` is set exactly when it is set in both. |
| `BitOps.ShiftRightIsDivision` | main.py:311 | `x >> n` is `x` divided by `2^n`. |
| `BitOps.ExtractBitsValue` | main.py:304-311 | `(x & mask) >> firstbit` equals `(x / 2^firstbit) mod 2^(lastbit - firstbit + 1)`. The result is below `2^(lastbit - firstbit + 1)`, and it is 0 when the range is empty. |
| `BitOps.AnyBitSetMeaning` | main.py:304-309 | `(x & mask) > 0` holds exactly when some bit of `x` in the range is set. For a one-bit range it holds exactly when bit `firstbit` is set. |
| `Checksum.Words` | main.py:365-366 | The checksummed words are the 0x2A7 little-endian words at offsets 2, 4, ..., 0x54E, which is every word except the stored checksum. |
| `Checksum.WrappingSumIsTruncatedSum` | main.py:365-367 | Masking the running sum to 16 bits after every addition gives the plain sum of the words modulo 65536. |
| `Checksum.CalculateChecksum` | main.py:362-369 | The checksum is below 65536 and equals the sum of the little-endian words at offsets 2, 4, ..., 0x54E, modulo 65536. |
| `Checksum.Signature` | main.py:273-275 | The signature is the eight characters whose codes are the bytes at offsets 2 to 9. |
| `Checksum.ValidateRecord` | main.py:268-279 | A wrong checksum fails with both values before the signature is read. A record is accepted exactly when the checksum matches and its signature names no game or names the requested one. A failure after a matching checksum is always the game-type error. |
| `Decode.TrimTrailingNul` | main.py:295 | The stripped string is a prefix of its input and does not end in NUL. Every character removed was NUL. |
| `Decode.DecodeItem` | main.py:283-313 | Decoding fails exactly for an Invalid datatype, with an error naming the item, or for a String/ByteArray item without a length. Writing a decoded Byte back into the record reproduces the record. A decoded Word is below 65536 and its two bytes are those at the address. A ByteArray is exactly the `length` bytes at the address. A String is the longest prefix of those characters not ending in NUL, and only NULs follow it. Bit decodes to a flag and Bits to a number. |
| `Decode.DecodeBitsValue` | main.py:300-311 | A Bits item yields bits `firstbit ..= lastbit` of its byte, shifted down. The value is below `2^(lastbit - firstbit + 1)`, or 0 for an empty range. `firstbit` defaults to 0 and `lastbit` defaults to `firstbit`. |
| `Decode.DecodeBitValue` | main.py:300-309 | A Bit item is true exactly when some bit of its byte in the range is set. With no `lastbit`, it is true exactly when bit `firstbit` is set. |
| `Decode.BcdDecodesAsPlain` | main.py:287-290 | ByteBcd decodes exactly as Byte, and WordBcd exactly as Word. |
| `Decode.DecodeAll` | main.py:281-315 | The decode succeeds exactly when every item decodes, and then the map's keys are exactly the item names. |
| `Decode.DecodeAllFirstError` | main.py:282-313 | A failed decode carries the error of the first item that cannot be decoded, and no map is returned. |
| `Decode.DecodeAllLastWins` | main.py:282-299 | Each name maps to the value of the last item with that name. |
| `Decode.ParseSave` | main.py:264-315 | A wrong checksum is reported whatever the items are. A correct checksum with a foreign signature is reported as a game-type mismatch. Once the record is valid, the result is exactly whole-record decoding: the same values, or the same first item error. Parsing succeeds exactly when the checksum matches, the signature is acceptable and every item decodes, and then the keys are the item names. |
| `Decode.KnownItemsDecode` | main.py:85-229 | Every built-in item lies inside a 0x550-byte record and decodes. The built-in Checksum item reads back the stored checksum. |
| `Decode.WorkedExamples` | main.py:291-311 | Bits 2 to 4 of 0b01011100 are 7, and the bytes "HI\0\0\0" read as "HI". |
| `Coverage.Width` | main.py:240-244 | Width fails exactly for a String/ByteArray item without a length. Otherwise it is 2 for Word/WordBcd, `length + 1` for String/ByteArray, and 1 for every other datatype, Invalid included. |
| `Coverage.Span` | main.py:246-247 | The marked offsets are exactly `addr ..= addr + width - 1`. |
| `Coverage.KnownOffsets` | main.py:235-249 | Collecting succeeds exactly when every width is defined. A failure is the missing-length error of some String/ByteArray item without a length. On success an offset is known exactly when some item's `[addr, addr + width)` contains it. |
| `Coverage.UnknownFrom` | main.py:250 | The result is strictly ascending and lies in `[lo, 0x550)`. It contains exactly the offsets of that range that are not known. |
| `Coverage.FindUnknownAddresses` | main.py:234-252 | The report fails only with the missing-length error of some String/ByteArray item without a length, and exactly when such an item exists. Otherwise it is strictly ascending, and an offset is in it exactly when it lies in `[0, 0x550)` and no item covers it. So the report and the covered offsets partition the record, and covered offsets outside the record are ignored. |
| `Coverage.WidthVersusReadWidth` | main.py:240-244 | The coverage width is one more than the decoded width for a String/ByteArray with a length. An Invalid item covers one byte but decodes none. Every other datatype covers exactly the bytes it decodes. |
| `Coverage.DecodedBytesAreCovered` | main.py:240-247 | Every byte that decoding an item reads is covered by that item. |

## Left out

- XML loading (main.py:23-62, apart from the datatype text mapping) is not modelled. This covers the ElementTree traversal, hexadecimal text parsing, subtracting the base address 0xC5B0, and the opaque `hint`/`max` tags. Items arrive already parsed, with record-relative addresses.
- Reading a save slot from a file (`load_save`), the command line (`main`, `argparse`) and presentation (`print_parsed_save`, `sort_by_addr`) are not modelled. They are I/O and formatting only.
- The `items is None` guard of `parse_save_with_items` is not modelled, because an item list is always supplied.
- Out-of-range and negative addresses are excluded by the `InBounds` precondition. This replaces Python's negative-index wrap-around and `IndexError`. The record is required to be exactly 0x550 bytes long.
- `firstbit` is a non-negative number, so a negative `firstbit` is not modelled. In the source such a value is left alone by normalisation (the `first_bit > 7` guard, main.py:70) and is never read by coverage (main.py:240-247). A Bits item raises `ValueError` at `1 << b` (main.py:306) when its range is non-empty, otherwise at `>> first_bit` (main.py:311). A Bit item raises at `1 << b` (main.py:306) only when its range is non-empty. With `lastbit < firstbit < 0` the mask is 0 and the item decodes to `False` (main.py:305-309).
- `length` is a non-negative number. A negative `length` raises nothing in the source: `range` of it is empty, so the field decodes to `''` or `[]` (main.py:293, main.py:298) and coverage marks no byte for it (main.py:244-247). The model cannot express that case.
- Every item has a `name`. An item without one, which Python would key as `None`, is not modelled.
- The game-type constants are an enumeration (Seasons, Ages, InvalidGame). The source's one-element tuples compare the same way in every call it makes.
- Schema.ParseDataType: upper-cases ASCII letters only. Python's `str.upper` also maps other Unicode letters, some of them onto ASCII (for example, dotless `ı` becomes `I`).
