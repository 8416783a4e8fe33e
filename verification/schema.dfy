/** The field descriptions that drive the save decoder: the closed set of
    datatypes, the game variants, one item of the field list, the errors the
    decoder raises, the text-to-datatype mapping, address resolution and the
    built-in list of known fields. */
module Schema {
  import opened Results

  /** Length in bytes of one save record. */
  const SaveLength: nat := 0x550

  /** How the bytes of a field are interpreted. `Invalid` stands both for an
      unrecognised datatype text and for an item that names no datatype at
      all; `ByteArray` is only ever used by the built-in items. */
  datatype DataType =
    | Invalid
    | Byte
    | Word
    | ByteBcd
    | WordBcd
    | String
    | Bit
    | Bits
    | ByteArray

  /** The game variant a record is decoded for. */
  datatype GameType = Seasons | Ages | InvalidGame

  /** One field description. Addresses are record-relative offsets (the
      memory base address has already been subtracted); each key of the
      source's dictionary that may be absent is an `Option`. */
  datatype Item = Item(
    section: string,
    name: string,
    addr: Option<int>,
    agesAddr: Option<int>,
    ssnsAddr: Option<int>,
    dataType: DataType,
    length: Option<nat>,
    firstBit: Option<nat>,
    lastBit: Option<int>)

  /** The errors that abort loading, validation or decoding. */
  datatype Error =
    | FirstBitMissing                                  // a Bit/Bits item has no firstbit
    | ChecksumMismatch(computed: nat, stored: nat)     // the record's checksum is wrong
    | GameTypeMismatch                                 // the signature names the other game
    | UnknownDataType(dataType: DataType, name: string) // the item's datatype cannot be decoded
    | LengthMissing(name: string)                      // a String/ByteArray item has no length

  predicate IsBitField(item: Item)
  {
    item.dataType == Bit || item.dataType == Bits
  }

  // ---------------------------------------------------------------------------
  // Datatype tags

  /** The datatypes a field list can name in text. */
  predicate Parsable(d: DataType)
  {
    d != Invalid && d != ByteArray
  }

  /** The canonical, upper-case text of each parsable datatype. */
  function Tag(d: DataType): string
  {
    match d
    case Byte => "BYTE"
    case Word => "WORD"
    case ByteBcd => "BYTE BCD"
    case WordBcd => "WORD BCD"
    case String => "STRING"
    case Bit => "BIT"
    case Bits => "BITS"
    case Invalid => ""
    case ByteArray => ""
  }

  function UpperChar(c: char): char
  {
    if 'a' <= c <= 'z' then (c as int - 32) as char else c
  }

  /** Upper-casing of ASCII letters; every other character is kept. */
  function Upper(s: string): (u: string)
    ensures |u| == |s|
    ensures forall i :: 0 <= i < |s| ==> u[i] == UpperChar(s[i])
  {
    seq(|s|, i requires 0 <= i < |s| => UpperChar(s[i]))
  }

  /** The datatype a field list's text names, ignoring case. */
  function ParseDataType(text: string): (d: DataType)
    ensures d != ByteArray
    ensures d != Invalid ==> Upper(text) == Tag(d)
    ensures d == Invalid ==> forall e: DataType :: Parsable(e) ==> Upper(text) != Tag(e)
  {
    var t := Upper(text);
    if t == "BYTE" then Byte
    else if t == "WORD" then Word
    else if t == "BYTE BCD" then ByteBcd
    else if t == "WORD BCD" then WordBcd
    else if t == "STRING" then String
    else if t == "BIT" then Bit
    else if t == "BITS" then Bits
    else Invalid
  }

  lemma UpperIdempotent(s: string)
    ensures Upper(Upper(s)) == Upper(s)
  {
  }

  /** Every parsable datatype is recovered from its tag, in any letter case. */
  lemma ParseTagRoundTrip(d: DataType, text: string)
    requires Parsable(d)
    ensures ParseDataType(Tag(d)) == d
    ensures Upper(text) == Tag(d) ==> ParseDataType(text) == d
  {
    assert Upper(Tag(d)) == Tag(d);
  }

  /** Parsing only looks at the upper-cased text. */
  lemma ParseIgnoresCase(text: string)
    ensures ParseDataType(Upper(text)) == ParseDataType(text)
  {
    UpperIdempotent(text);
  }

  // ---------------------------------------------------------------------------
  // Address resolution

  /** The variant-specific address key consulted for a game type: Ages reads
      `agesaddr`, every other game type reads `ssnsaddr`. */
  function VariantAddr(item: Item, game: GameType): Option<int>
  {
    if game == Ages then item.agesAddr else item.ssnsAddr
  }

  /** The effective offset of an item: the untagged `addr` when present,
      otherwise the variant-specific address, otherwise 0. */
  function ResolveAddress(item: Item, game: GameType): (a: int)
    ensures item.addr.Some? ==> a == item.addr.value
    ensures item.addr.None? && game == Ages && item.agesAddr.Some? ==> a == item.agesAddr.value
    ensures item.addr.None? && game != Ages && item.ssnsAddr.Some? ==> a == item.ssnsAddr.value
    ensures item.addr.None? && VariantAddr(item, game).None? ==> a == 0
  {
    item.addr.GetOr(VariantAddr(item, game).GetOr(0))
  }

  /** Some key applies to the item under this game type. */
  predicate HasAddress(item: Item, game: GameType)
  {
    item.addr.Some? || VariantAddr(item, game).Some?
  }

  /** The untagged address makes the game type irrelevant, and Seasons and an
      invalid game type always resolve alike. */
  lemma ResolveAcrossGames(item: Item, g1: GameType, g2: GameType)
    ensures item.addr.Some? ==> ResolveAddress(item, g1) == ResolveAddress(item, g2)
    ensures g1 != Ages && g2 != Ages ==> ResolveAddress(item, g1) == ResolveAddress(item, g2)
  {
  }

  // ---------------------------------------------------------------------------
  // Built-in items

  /** A built-in item: placed by the untagged address, no bit range. */
  function Known(section: string, name: string, addr: int, dataType: DataType, length: Option<nat>): Item
  {
    Item(section, name, Some(addr), None, None, dataType, length, None, None)
  }

  /** The fields appended to every field list after normalisation. */
  const KnownItems: seq<Item> := [
    Known("Header", "Checksum", 0x00, Word, None),
    Known("Header", "GameType Identifier", 0x02, String, Some(0xd)),
    Known("Main", "wUnappraisedRings", 0x10, ByteArray, Some(0x40)),
    Known("Main", "Dummy Value (always 1)", 0x58, Byte, None),
    Known("Main", "wWhichGame", 0x61, Byte, None),
    Known("Main", "wRingsObtained", 0x66, ByteArray, Some(0x8)),
    Known("Main", "wPlaytimeCounter", 0x72, ByteArray, Some(0x4)),
    Known("Respawn", "Link object index", 0x84, Byte, None),
    Known("Respawn", "0xC635", 0x85, Byte, None),
    Known("Respawn", "wMinimapGroup", 0x8a, ByteArray, Some(0x4)),
    Known("Inventory", "wInventoryA", 0xd8, Byte, None),
    Known("Inventory", "wInventoryB", 0xd9, Byte, None),
    Known("Inventory", "wInventoryStorage", 0xda, ByteArray, Some(0x10)),
    Known("Inventory", "wObtainedTreasureFlags", 0xea, ByteArray, Some(0x10)),
    Known("Health", "wRingBoxContents", 0x116, ByteArray, Some(0x5)),
    Known("Secrets", "Missing Secret Flags", 0x14f, Byte, None),
    Known("Map", "Present Map Flags", 0x150, ByteArray, Some(0x100)),
    Known("Map", "Past Map Flags", 0x250, ByteArray, Some(0x100)),
    Known("Map", "Group 4 Map Flags", 0x350, ByteArray, Some(0x100)),
    Known("Map", "Group 5 Map Flags", 0x450, ByteArray, Some(0x100))
  ]
}
