/** Coverage analysis: which offsets of a save record no item describes.
    Every item marks the bytes from its resolved address up to its width as
    known; the report is every other offset of the record, in ascending
    order. */
module Coverage {
  import opened Results
  import opened Schema
  import Decode

  /** The number of bytes an item marks as known: two for a word, one more
      than the length for a string or byte array (the extra byte is the
      source's own arithmetic and is kept), and one for every other datatype,
      including an invalid one. A string or byte array without a length is an
      error. */
  function Width(item: Item): (r: Result<nat, Error>)
    ensures r.Failure? <==> (item.dataType == String || item.dataType == ByteArray) && item.length.None?
    ensures r.Failure? ==> r.error == LengthMissing(item.name)
    ensures item.dataType == Word || item.dataType == WordBcd ==> r == Success(2)
    ensures (item.dataType == String || item.dataType == ByteArray) && item.length.Some? ==>
      r == Success(item.length.value + 1)
    ensures item.dataType !in {Word, WordBcd, String, ByteArray} ==> r == Success(1)
  {
    match item.dataType
    case Word | WordBcd => Success(2)
    case String | ByteArray =>
      if item.length.None? then Failure(LengthMissing(item.name)) else Success(item.length.value + 1)
    case _ => Success(1)
  }

  /** Item `item` marks offset `u` as known. */
  predicate Covers(item: Item, game: GameType, u: int)
  {
    var a := ResolveAddress(item, game);
    Width(item).Success? && a <= u < a + Width(item).value
  }

  /** Some item of the list marks offset `u` as known. */
  predicate IsCovered(items: seq<Item>, game: GameType, u: int)
  {
    exists k :: 0 <= k < |items| && Covers(items[k], game, u)
  }

  predicate StrictlyIncreasing(s: seq<int>)
  {
    forall i, j :: 0 <= i < j < |s| ==> s[i] < s[j]
  }

  /** The offsets the items mark as known, item by item; the first string or
      byte array without a length aborts. Offsets outside the record are
      collected too. */
  function KnownOffsets(items: seq<Item>, game: GameType): (r: Result<set<int>, Error>)
    ensures r.Success? <==> forall k :: 0 <= k < |items| ==> Width(items[k]).Success?
    ensures r.Success? ==> forall u :: u in r.value <==> IsCovered(items, game, u)
    ensures r.Failure? ==>
      exists k :: 0 <= k < |items| && Width(items[k]).Failure? && r.error == LengthMissing(items[k].name)
    decreases |items|
  {
    if |items| == 0 then Success({})
    else
      var init := items[..|items| - 1];
      var last := items[|items| - 1];
      assert forall k :: 0 <= k < |init| ==> init[k] == items[k];
      var known :- KnownOffsets(init, game);
      var width :- Width(last);
      var a := ResolveAddress(last, game);
      var marked := Span(a, width);
      assert forall u :: u in known + marked <==> IsCovered(items, game, u) by {
        forall u
          ensures u in known + marked <==> IsCovered(items, game, u)
        {
          CoveredSplit(items, game, u);
        }
      }
      Success(known + marked)
  }

  /** An offset is covered by a non-empty list exactly when it is covered by
      all but the last item or by the last item. */
  lemma CoveredSplit(items: seq<Item>, game: GameType, u: int)
    requires |items| > 0
    ensures IsCovered(items, game, u) <==>
      IsCovered(items[..|items| - 1], game, u) || Covers(items[|items| - 1], game, u)
  {
    var init := items[..|items| - 1];
    if IsCovered(items, game, u) {
      var k :| 0 <= k < |items| && Covers(items[k], game, u);
      if k < |init| {
        assert Covers(init[k], game, u);
      }
    }
    if IsCovered(init, game, u) {
      var k :| 0 <= k < |init| && Covers(init[k], game, u);
      assert Covers(items[k], game, u);
    }
  }

  /** The offsets `a`, `a + 1`, ..., `a + width - 1`. */
  function Span(a: int, width: nat): (r: set<int>)
    ensures forall u :: u in r <==> a <= u < a + width
  {
    if width == 0 then {} else Span(a, width - 1) + {a + width - 1}
  }

  /** The offsets from `lo` to the end of the record that are not in
      `known`, ascending. */
  function UnknownFrom(known: set<int>, lo: nat): (r: seq<int>)
    ensures StrictlyIncreasing(r)
    ensures forall i :: 0 <= i < |r| ==> lo <= r[i] < SaveLength
    ensures forall u :: u in r <==> lo <= u < SaveLength && u !in known
    decreases SaveLength - lo
  {
    if lo >= SaveLength then []
    else if lo in known then UnknownFrom(known, lo + 1)
    else [lo] + UnknownFrom(known, lo + 1)
  }

  /** The ascending list of record offsets no item covers. */
  function FindUnknownAddresses(items: seq<Item>, game: GameType): (r: Result<seq<int>, Error>)
    ensures r.Success? <==> forall k :: 0 <= k < |items| ==> Width(items[k]).Success?
    ensures r.Failure? ==>
      exists k :: 0 <= k < |items| && Width(items[k]).Failure? && r.error == LengthMissing(items[k].name)
    ensures r.Success? ==> StrictlyIncreasing(r.value)
    ensures r.Success? ==> forall u :: u in r.value <==> 0 <= u < SaveLength && !IsCovered(items, game, u)
  {
    var known :- KnownOffsets(items, game);
    Success(UnknownFrom(known, 0))
  }

  /** How the coverage width relates to the bytes decoding reads: one more
      for a string or byte array, one byte for an invalid item although
      decoding reads nothing, and the same for every other datatype. */
  lemma WidthVersusReadWidth(item: Item)
    ensures item.dataType == Invalid ==> Width(item) == Success(1) && Decode.ReadWidth(item) == 0
    ensures (item.dataType == String || item.dataType == ByteArray) && item.length.Some? ==>
      Width(item) == Success(Decode.ReadWidth(item) + 1)
    ensures item.dataType !in {Invalid, String, ByteArray} ==> Width(item) == Success(Decode.ReadWidth(item))
  {
  }

  /** Every byte that decoding an item reads is marked known by the item
      (`WidthVersusReadWidth` gives the width relation itself). */
  lemma DecodedBytesAreCovered(items: seq<Item>, game: GameType, k: int, i: int)
    requires 0 <= k < |items| && Width(items[k]).Success?
    requires 0 <= i < Decode.ReadWidth(items[k])
    ensures IsCovered(items, game, ResolveAddress(items[k], game) + i)
  {
    assert Covers(items[k], game, ResolveAddress(items[k], game) + i);
  }
}
