/** Decoding a validated save record: each item is read at its resolved
    address according to its datatype, and the results are collected in a
    map keyed by item name. */
module Decode {
  import opened Results
  import opened BitOps
  import opened Schema
  import opened Checksum

  /** A decoded field value. */
  datatype Value =
    | Number(n: nat)              // Byte, Word, their BCD tags, Bits
    | Flag(b: bool)               // Bit
    | Text(s: string)             // String
    | ByteList(bytes: seq<Byte>)  // ByteArray

  /** The number of bytes decoding an item reads from its resolved address. */
  function ReadWidth(item: Item): nat
  {
    match item.dataType
    case Byte | ByteBcd | Bit | Bits => 1
    case Word | WordBcd => 2
    case String | ByteArray => item.length.GetOr(0)
    case Invalid => 0
  }

  /** The item reads only bytes inside a record of `size` bytes. The source
      indexes a Python list, so an out-of-range address is excluded here
      rather than modelled. */
  predicate InBounds(item: Item, game: GameType, size: nat)
  {
    var a := ResolveAddress(item, game);
    ReadWidth(item) == 0 || (0 <= a && a + ReadWidth(item) <= size)
  }

  predicate AllInBounds(items: seq<Item>, game: GameType, size: nat)
  {
    forall k :: 0 <= k < |items| ==> InBounds(items[k], game, size)
  }

  /** First bit of a Bit/Bits item, 0 when absent. */
  function FirstBit(item: Item): nat
  {
    item.firstBit.GetOr(0)
  }

  /** Last bit of a Bit/Bits item, the first bit when absent. */
  function LastBit(item: Item): int
  {
    item.lastBit.GetOr(FirstBit(item))
  }

  /** `s.rstrip('\0')`: drop every trailing NUL character. */
  function TrimTrailingNul(s: string): (t: string)
    ensures t <= s
    ensures |t| == 0 || t[|t| - 1] != '\0'
    ensures forall i :: |t| <= i < |s| ==> s[i] == '\0'
  {
    if |s| > 0 && s[|s| - 1] == '\0' then TrimTrailingNul(s[..|s| - 1]) else s
  }

  /** The `len` bytes at `a`, each read as the character with that code. */
  function Chars(raw: seq<Byte>, a: int, len: nat): (s: string)
    requires len == 0 || (0 <= a && a + len <= |raw|)
    ensures |s| == len
    ensures forall i :: 0 <= i < len ==> s[i] as int == raw[a + i]
  {
    seq(len, i requires 0 <= i < len => raw[a + i] as char)
  }

  /** Decode one item. Bytes and words read as unsigned integers (the BCD
      tags read exactly as the plain ones), a string is the NUL-trimmed
      characters of its `length` bytes, a byte array is those bytes, and a
      Bit/Bits item masks its byte to the bit range. An invalid datatype is
      an error naming the item, and so is a String/ByteArray item without a
      length. */
  function DecodeItem(raw: seq<Byte>, item: Item, game: GameType): (r: Result<Value, Error>)
    requires InBounds(item, game, |raw|)
    ensures r.Failure? <==>
      item.dataType == Invalid || ((item.dataType == String || item.dataType == ByteArray) && item.length.None?)
    ensures item.dataType == Invalid ==> r == Failure(UnknownDataType(Invalid, item.name))
    ensures (item.dataType == String || item.dataType == ByteArray) && item.length.None? ==>
      r == Failure(LengthMissing(item.name))
    ensures item.dataType == Byte || item.dataType == ByteBcd ==>
      var a := ResolveAddress(item, game);
      r.Success? && r.value.Number? && r.value.n < 256 && raw[a := r.value.n] == raw
    ensures item.dataType == Word || item.dataType == WordBcd ==>
      var a := ResolveAddress(item, game);
      && r.Success? && r.value.Number? && r.value.n < 65536
      && r.value.n % 256 == raw[a] && r.value.n / 256 == raw[a + 1]
    ensures item.dataType == ByteArray && item.length.Some? ==>
      var a, len := ResolveAddress(item, game), item.length.value;
      && r.Success? && r.value.ByteList? && |r.value.bytes| == len
      && forall i :: 0 <= i < len ==> r.value.bytes[i] == raw[a + i]
    ensures item.dataType == String && item.length.Some? ==>
      var chars := Chars(raw, ResolveAddress(item, game), item.length.value);
      && r.Success? && r.value.Text?
      && r.value.s <= chars
      && (|r.value.s| == 0 || r.value.s[|r.value.s| - 1] != '\0')
      && (forall i :: |r.value.s| <= i < |chars| ==> chars[i] == '\0')
    ensures item.dataType == Bit ==> r.Success? && r.value.Flag?
    ensures item.dataType == Bits ==> r.Success? && r.value.Number?
  {
    var a := ResolveAddress(item, game);
    match item.dataType
    case Byte | ByteBcd => Success(Number(raw[a]))
    case Word | WordBcd => Success(Number(LittleEndianWord(raw[a], raw[a + 1])))
    case String =>
      if item.length.None? then Failure(LengthMissing(item.name))
      else Success(Text(TrimTrailingNul(Chars(raw, a, item.length.value))))
    case ByteArray =>
      if item.length.None? then Failure(LengthMissing(item.name))
      else Success(ByteList(seq(item.length.value, i requires 0 <= i < item.length.value => raw[a + i])))
    case Bit => Success(Flag(AnyBitSet(raw[a], FirstBit(item), LastBit(item))))
    case Bits => Success(Number(ExtractBits(raw[a], FirstBit(item), LastBit(item))))
    case Invalid => Failure(UnknownDataType(item.dataType, item.name))
  }

  /** A Bits item decodes to the bits `first ..= last` of its byte, shifted
      down to bit 0: a number below `2^(last - first + 1)`, or 0 when the
      range is empty. */
  lemma DecodeBitsValue(raw: seq<Byte>, item: Item, game: GameType)
    requires InBounds(item, game, |raw|) && item.dataType == Bits
    ensures
      var x, first, last := raw[ResolveAddress(item, game)], FirstBit(item), LastBit(item);
      var r := DecodeItem(raw, item, game).value.n;
      && (first <= last ==> r == (x / Pow2(first)) % Pow2(last - first + 1))
      && (first <= last ==> r < Pow2(last - first + 1))
      && (last < first ==> r == 0)
  {
    ExtractBitsValue(raw[ResolveAddress(item, game)], FirstBit(item), LastBit(item));
  }

  /** A Bit item decodes to true exactly when some bit of its byte in
      `first ..= last` is set; with no last bit, exactly when bit `first` is
      set. */
  lemma DecodeBitValue(raw: seq<Byte>, item: Item, game: GameType)
    requires InBounds(item, game, |raw|) && item.dataType == Bit
    ensures
      var x, first, last := raw[ResolveAddress(item, game)], FirstBit(item), LastBit(item);
      DecodeItem(raw, item, game).value.b <==> exists b: nat :: first <= b <= last && TestBit(x, b)
    ensures item.lastBit.None? || item.lastBit == item.firstBit ==>
      (DecodeItem(raw, item, game).value.b <==> TestBit(raw[ResolveAddress(item, game)], FirstBit(item)))
  {
    AnyBitSetMeaning(raw[ResolveAddress(item, game)], FirstBit(item), LastBit(item));
  }

  /** The BCD tags decode exactly like the plain integer tags. */
  lemma BcdDecodesAsPlain(raw: seq<Byte>, item: Item, game: GameType)
    requires InBounds(item, game, |raw|)
    ensures item.dataType == ByteBcd ==>
      DecodeItem(raw, item, game) == DecodeItem(raw, item.(dataType := Byte), game)
    ensures item.dataType == WordBcd ==>
      DecodeItem(raw, item, game) == DecodeItem(raw, item.(dataType := Word), game)
  {
  }

  /** No later item carries the same name as item `k`. */
  predicate LastWithName(items: seq<Item>, k: int)
    requires 0 <= k < |items|
  {
    forall j :: k < j < |items| ==> items[j].name != items[k].name
  }

  /** Decode every item in order. The first item that cannot be decoded
      aborts with no map; otherwise the map has one entry per item name. */
  function DecodeAll(raw: seq<Byte>, items: seq<Item>, game: GameType): (r: Result<map<string, Value>, Error>)
    requires AllInBounds(items, game, |raw|)
    ensures r.Success? <==> forall k :: 0 <= k < |items| ==> DecodeItem(raw, items[k], game).Success?
    ensures r.Success? ==> r.value.Keys == set k | 0 <= k < |items| :: items[k].name
    decreases |items|
  {
    if |items| == 0 then Success(map[])
    else
      var init := items[..|items| - 1];
      var last := items[|items| - 1];
      assert forall k :: 0 <= k < |init| ==> init[k] == items[k];
      var m :- DecodeAll(raw, init, game);
      var v :- DecodeItem(raw, last, game);
      Success(m[last.name := v])
  }

  /** A failed decode reports the error of the first item that cannot be
      decoded. */
  lemma {:induction false} DecodeAllFirstError(raw: seq<Byte>, items: seq<Item>, game: GameType)
    requires AllInBounds(items, game, |raw|)
    requires DecodeAll(raw, items, game).Failure?
    ensures exists k ::
      && 0 <= k < |items|
      && DecodeItem(raw, items[k], game).Failure?
      && DecodeAll(raw, items, game).error == DecodeItem(raw, items[k], game).error
      && forall j :: 0 <= j < k ==> DecodeItem(raw, items[j], game).Success?
    decreases |items|
  {
    var init := items[..|items| - 1];
    assert forall k :: 0 <= k < |init| ==> init[k] == items[k];
    if DecodeAll(raw, init, game).Failure? {
      DecodeAllFirstError(raw, init, game);
      var k :| 0 <= k < |init|
        && DecodeItem(raw, init[k], game).Failure?
        && DecodeAll(raw, init, game).error == DecodeItem(raw, init[k], game).error
        && forall j :: 0 <= j < k ==> DecodeItem(raw, init[j], game).Success?;
      assert items[k] == init[k];
    } else {
      var k := |items| - 1;
      assert forall j :: 0 <= j < k ==> DecodeItem(raw, items[j], game).Success?;
    }
  }

  /** In a successful decode each name maps to the value of the last item
      carrying it: a later item overwrites an earlier one of the same name. */
  lemma {:induction false} DecodeAllLastWins(raw: seq<Byte>, items: seq<Item>, game: GameType, k: int)
    requires AllInBounds(items, game, |raw|)
    requires DecodeAll(raw, items, game).Success?
    requires 0 <= k < |items| && LastWithName(items, k)
    ensures DecodeAll(raw, items, game).value[items[k].name] == DecodeItem(raw, items[k], game).value
    decreases |items|
  {
    var init := items[..|items| - 1];
    assert forall j :: 0 <= j < |init| ==> init[j] == items[j];
    if k < |items| - 1 {
      assert LastWithName(init, k);
      DecodeAllLastWins(raw, init, game, k);
    }
  }

  /** Parse a save record: validate its checksum and signature, then decode
      every item. A record with a wrong checksum is rejected before anything
      else is looked at; one with a foreign signature before any item is
      decoded. */
  function ParseSave(raw: seq<Byte>, items: seq<Item>, game: GameType): (r: Result<map<string, Value>, Error>)
    requires |raw| == SaveLength
    requires AllInBounds(items, game, |raw|)
    ensures Sum(Words(raw)) % Modulus != StoredChecksum(raw) ==>
      r == Failure(ChecksumMismatch(Sum(Words(raw)) % Modulus, StoredChecksum(raw)))
    ensures (&& Sum(Words(raw)) % Modulus == StoredChecksum(raw)
             && SignatureGame(Signature(raw)).Some?
             && SignatureGame(Signature(raw)) != Some(game)) ==>
      r == Failure(GameTypeMismatch)
    ensures r.Success? <==>
      && Sum(Words(raw)) % Modulus == StoredChecksum(raw)
      && (SignatureGame(Signature(raw)).None? || SignatureGame(Signature(raw)) == Some(game))
      && forall k :: 0 <= k < |items| ==> DecodeItem(raw, items[k], game).Success?
    ensures r.Success? ==> r.value.Keys == set k | 0 <= k < |items| :: items[k].name
    ensures ValidateRecord(raw, game).Success? ==> r == DecodeAll(raw, items, game)
  {
    var _ :- ValidateRecord(raw, game);
    DecodeAll(raw, items, game)
  }

  /** The built-in items all lie inside the record and all decode; the first
      of them reads back the stored checksum. */
  lemma KnownItemsDecode(raw: seq<Byte>, game: GameType)
    requires |raw| == SaveLength
    ensures AllInBounds(KnownItems, game, |raw|)
    ensures forall k :: 0 <= k < |KnownItems| ==> DecodeItem(raw, KnownItems[k], game).Success?
    ensures DecodeItem(raw, KnownItems[0], game) == Success(Number(StoredChecksum(raw)))
  {
    forall k | 0 <= k < |KnownItems|
      ensures InBounds(KnownItems[k], game, |raw|)
      ensures KnownItems[k].dataType != Invalid
      ensures KnownItems[k].dataType == String || KnownItems[k].dataType == ByteArray ==>
        KnownItems[k].length.Some?
    {
    }
  }

  /** Worked examples: bits 2 to 4 of 0b01011100 are 0b111, and the five
      bytes "HI\0\0\0" read as the string "HI". */
  lemma WorkedExamples()
    ensures ExtractBits(0x5C, 2, 4) == 7
    ensures TrimTrailingNul("HI\0\0\0") == "HI"
  {
    ExtractBitsValue(0x5C, 2, 4);
    assert "HI\0\0\0"[..4] == "HI\0\0";
    assert "HI\0\0"[..3] == "HI\0";
    assert "HI\0"[..2] == "HI";
  }
}
