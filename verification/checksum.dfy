/** Integrity checks on a save record before any field is decoded: the 16-bit
    checksum over the record's words and the game signature at offset 2. */
module Checksum {
  import opened Results
  import opened BitOps
  import opened Schema

  const Modulus: nat := 0x1_0000

  /** The signature a Seasons record carries at offsets 2 to 9. */
  const SeasonsSignature: string := "Z11216-0"
  /** The signature an Ages record carries at offsets 2 to 9. */
  const AgesSignature: string := "Z21216-0"

  /** The little-endian words the checksum covers: those at offsets 2, 4,
      ..., 0x54E, that is every word of the record except the stored checksum
      at offset 0. */
  function Words(raw: seq<Byte>): (ws: seq<nat>)
    requires |raw| == SaveLength
    ensures |ws| == SaveLength / 2 - 1
    ensures forall j :: 0 <= j < |ws| ==> ws[j] == LittleEndianWord(raw[2 + 2 * j], raw[3 + 2 * j])
  {
    seq(SaveLength / 2 - 1, j requires 0 <= j < SaveLength / 2 - 1 =>
      LittleEndianWord(raw[2 + 2 * j], raw[3 + 2 * j]))
  }

  /** Plain sum, without truncation. */
  function Sum(ws: seq<nat>): nat
  {
    if |ws| == 0 then 0 else ws[0] + Sum(ws[1..])
  }

  /** The checksum loop with running value `acc`: each word is added and the
      sum cut back to 16 bits (`& 0xFFFF`, which on a non-negative value is
      the remainder modulo 2^16). */
  function WrappingSum(ws: seq<nat>, acc: nat): nat
  {
    if |ws| == 0 then acc else WrappingSum(ws[1..], (acc + ws[0]) % Modulus)
  }

  lemma ModOfSum(a: nat, b: nat, c: nat)
    ensures ((a + b) % Modulus + c) % Modulus == (a + (b + c)) % Modulus
  {
    var q, r := (a + b) / Modulus, (a + b) % Modulus;
    var q', r' := (r + c) / Modulus, (r + c) % Modulus;
    assert a + (b + c) == (q + q') * Modulus + r';
    DivModUnique(a + (b + c), Modulus, q + q', r');
  }

  /** Truncating after every step gives the truncated plain sum. */
  lemma {:induction false} WrappingSumIsTruncatedSum(ws: seq<nat>, acc: nat)
    requires acc < Modulus
    ensures WrappingSum(ws, acc) == (acc + Sum(ws)) % Modulus
    decreases |ws|
  {
    if |ws| > 0 {
      WrappingSumIsTruncatedSum(ws[1..], (acc + ws[0]) % Modulus);
      ModOfSum(acc, ws[0], Sum(ws[1..]));
    }
  }

  /** The checksum of a record: the words at offsets 2, 4, ..., 0x54E summed
      with 16-bit wrap-around. The stored checksum word is excluded. */
  function CalculateChecksum(raw: seq<Byte>): (c: nat)
    requires |raw| == SaveLength
    ensures c < Modulus
    ensures c == Sum(Words(raw)) % Modulus
  {
    WrappingSumIsTruncatedSum(Words(raw), 0);
    WrappingSum(Words(raw), 0)
  }

  /** The checksum the record stores in its first two bytes. */
  function StoredChecksum(raw: seq<Byte>): nat
    requires |raw| == SaveLength
  {
    LittleEndianWord(raw[0], raw[1])
  }

  /** The eight characters at offsets 2 to 9. */
  function Signature(raw: seq<Byte>): (sig: string)
    requires |raw| == SaveLength
    ensures |sig| == 8
    ensures forall i :: 0 <= i < 8 ==> sig[i] as int == raw[2 + i]
  {
    seq(8, i requires 0 <= i < 8 => raw[2 + i] as char)
  }

  /** The game a signature identifies, if it identifies one. */
  function SignatureGame(sig: string): Option<GameType>
  {
    if sig == SeasonsSignature then Some(Seasons)
    else if sig == AgesSignature then Some(Ages)
    else None
  }

  /** Validate a record for the requested game: the checksum is compared
      first, and only a record with a correct checksum has its signature
      looked at. A signature that identifies a game rejects every other
      requested game type; any other signature is accepted. */
  function ValidateRecord(raw: seq<Byte>, game: GameType): (r: Result<(), Error>)
    requires |raw| == SaveLength
    ensures r.Success? <==>
      && Sum(Words(raw)) % Modulus == StoredChecksum(raw)
      && (SignatureGame(Signature(raw)).None? || SignatureGame(Signature(raw)) == Some(game))
    ensures Sum(Words(raw)) % Modulus != StoredChecksum(raw) ==>
      r == Failure(ChecksumMismatch(Sum(Words(raw)) % Modulus, StoredChecksum(raw)))
    ensures Sum(Words(raw)) % Modulus == StoredChecksum(raw) && r.Failure? ==>
      r.error == GameTypeMismatch
  {
    var crc := CalculateChecksum(raw);
    var fileCrc := StoredChecksum(raw);
    if crc != fileCrc then Failure(ChecksumMismatch(crc, fileCrc))
    else
      var sig := Signature(raw);
      if (sig == SeasonsSignature && game != Seasons) || (sig == AgesSignature && game != Ages) then
        Failure(GameTypeMismatch)
      else Success(())
  }
}
