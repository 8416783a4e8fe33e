/** Bit-field normalisation, the last step of loading a field list: a Bit or
    Bits item whose first bit lies beyond bit 7 is moved forward by whole
    bytes so that its first bit falls within the byte it is read from. */
module Normalize {
  import opened Results
  import opened Schema

  /** An optional address key moved forward by `bytes`; absent stays absent. */
  function ShiftAddr(a: Option<int>, bytes: nat): (r: Option<int>)
    ensures r.Some? <==> a.Some?
    ensures r.Some? ==> r.value - a.value == bytes
  {
    match a
    case Some(x) => Some(x + bytes)
    case None => None
  }

  /** An optional address key that, paired with the bit offsets `first` before
      and `first'` after, still denotes the same absolute bit of the record. */
  predicate SameBit(before: Option<int>, after: Option<int>, first: nat, first': nat)
  {
    (before.None? && after.None?) ||
    (before.Some? && after.Some? && 8 * after.value + first' == 8 * before.value + first)
  }

  /** Every Bit/Bits item has a first bit within one byte. */
  predicate Normalized(items: seq<Item>)
  {
    forall k :: 0 <= k < |items| && IsBitField(items[k]) ==>
      items[k].firstBit.Some? && items[k].firstBit.value < 8
  }

  /** Normalise one item. A Bit/Bits item without a first bit is an error;
      otherwise its first bit is reduced below 8 and every present address key
      and the last bit are adjusted so that each still names the same bit of
      the record. Items of other datatypes are returned unchanged. */
  function NormalizeItem(item: Item): (r: Result<Item, Error>)
    ensures !IsBitField(item) ==> r == Success(item)
    ensures r.Failure? <==> IsBitField(item) && item.firstBit.None?
    ensures r.Failure? ==> r.error == FirstBitMissing
    ensures r.Success? && IsBitField(item) ==>
      var first := item.firstBit.value;
      var n := r.value;
      && n.firstBit == Some(first % 8)
      && SameBit(item.addr, n.addr, first, first % 8)
      && SameBit(item.agesAddr, n.agesAddr, first, first % 8)
      && SameBit(item.ssnsAddr, n.ssnsAddr, first, first % 8)
      && (n.lastBit.Some? <==> item.lastBit.Some?)
      && (n.lastBit.Some? ==> n.lastBit.value - first % 8 == item.lastBit.value - first)
      && n == item.(firstBit := n.firstBit, addr := n.addr, agesAddr := n.agesAddr,
                    ssnsAddr := n.ssnsAddr, lastBit := n.lastBit)
  {
    if !IsBitField(item) then Success(item)
    else if item.firstBit.None? then Failure(FirstBitMissing)
    else
      var first := item.firstBit.value;
      if first > 7 then
        var bytes := first / 8;
        Success(item.(
          firstBit := Some(first % 8),
          addr := ShiftAddr(item.addr, bytes),
          agesAddr := ShiftAddr(item.agesAddr, bytes),
          ssnsAddr := ShiftAddr(item.ssnsAddr, bytes),
          lastBit := if item.lastBit.Some? then Some(item.lastBit.value - bytes * 8) else None))
      else Success(item)
  }

  /** Normalise a whole field list, in order; the first Bit/Bits item without
      a first bit aborts the load. */
  function NormalizeItems(items: seq<Item>): (r: Result<seq<Item>, Error>)
    ensures r.Failure? <==>
      exists k :: 0 <= k < |items| && IsBitField(items[k]) && items[k].firstBit.None?
    ensures r.Failure? ==> r.error == FirstBitMissing
    ensures r.Success? ==> |r.value| == |items|
    ensures r.Success? ==> forall k :: 0 <= k < |items| ==> NormalizeItem(items[k]) == Success(r.value[k])
    ensures r.Success? ==> Normalized(r.value)
  {
    if |items| == 0 then Success([])
    else
      var head :- NormalizeItem(items[0]);
      var tail :- NormalizeItems(items[1..]);
      assert forall k :: 1 <= k < |items| ==> items[k] == items[1..][k - 1];
      Success([head] + tail)
  }

  /** Loading: normalise the parsed field list, then append the built-in items. */
  function LoadItems(parsed: seq<Item>): (r: Result<seq<Item>, Error>)
    ensures r.Failure? <==>
      exists k :: 0 <= k < |parsed| && IsBitField(parsed[k]) && parsed[k].firstBit.None?
    ensures r.Failure? ==> r.error == FirstBitMissing
    ensures r.Success? ==> |r.value| == |parsed| + |KnownItems| && r.value[|parsed|..] == KnownItems
    ensures r.Success? ==> forall k :: 0 <= k < |parsed| ==> NormalizeItem(parsed[k]) == Success(r.value[k])
    ensures r.Success? ==> Normalized(r.value)
  {
    var normalized :- NormalizeItems(parsed);
    assert forall k :: 0 <= k < |KnownItems| ==> !IsBitField(KnownItems[k]);
    Success(normalized + KnownItems)
  }

  // ---------------------------------------------------------------------------
  // Properties

  /** An item already within one byte is left alone. */
  lemma NormalizeItemFixesNormalized(item: Item)
    requires IsBitField(item) ==> item.firstBit.Some? && item.firstBit.value < 8
    ensures NormalizeItem(item) == Success(item)
  {
  }

  /** A normalised list is a fixed point of normalisation. */
  lemma {:induction false} NormalizeFixesNormalized(items: seq<Item>)
    requires Normalized(items)
    ensures NormalizeItems(items) == Success(items)
    decreases |items|
  {
    if |items| > 0 {
      NormalizeItemFixesNormalized(items[0]);
      assert Normalized(items[1..]) by {
        forall k | 0 <= k < |items[1..]| && IsBitField(items[1..][k])
          ensures items[1..][k].firstBit.Some? && items[1..][k].firstBit.value < 8
        {
          assert items[1..][k] == items[k + 1];
        }
      }
      NormalizeFixesNormalized(items[1..]);
      assert [items[0]] + items[1..] == items;
    }
  }

  /** Running the pass twice is the same as running it once. */
  lemma {:induction false} NormalizeIdempotent(items: seq<Item>)
    requires NormalizeItems(items).Success?
    ensures NormalizeItems(NormalizeItems(items).value) == NormalizeItems(items)
  {
    NormalizeFixesNormalized(NormalizeItems(items).value);
  }

  /** After normalisation a Bit/Bits item resolves `first / 8` bytes further
      on (when any address key applies), and the resolved byte and first bit
      still name the same bit of the record. */
  lemma NormalizeMovesResolvedAddress(item: Item, game: GameType)
    requires IsBitField(item) && item.firstBit.Some?
    ensures
      var first := item.firstBit.value;
      var n := NormalizeItem(item).value;
      && (HasAddress(item, game) ==> ResolveAddress(n, game) == ResolveAddress(item, game) + first / 8)
      && (HasAddress(item, game) ==> 8 * ResolveAddress(n, game) + n.firstBit.value == 8 * ResolveAddress(item, game) + first)
      && (!HasAddress(item, game) ==> ResolveAddress(n, game) == 0)
  {
    var first := item.firstBit.value;
    var n := NormalizeItem(item).value;
    assert HasAddress(n, game) == HasAddress(item, game);
    if HasAddress(item, game) {
      assert 8 * ResolveAddress(n, game) + first % 8 == 8 * ResolveAddress(item, game) + first;
      assert first == 8 * (first / 8) + first % 8;
    }
  }
}
