/**
 * The content of one PEB's log as mkfs prepares it: an array of extents, each with a byte offset in
 * the PEB and a buffer, and the byte image those extents describe.
 */
module LogImage {
  import opened Types
  import opened Rounding

  const SEG_LOG_ITEMS_COUNT: nat := 9

  /** struct ssdfs_extent_desc; `Absent` is a descriptor without a buffer. */
  datatype Extent = Absent | Extent(offset: U32, data: seq<Byte>)

  /** struct ssdfs_peb_content */
  datatype PebContent = PebContent(pebId: U64, extents: seq<Extent>)

  function Erased(n: nat): (s: seq<Byte>)
    ensures |s| == n && forall i :: 0 <= i < n ==> s[i] == 0xFF
  {
    seq(n, _ => 0xFF)
  }

  predicate HasAny(exts: seq<Extent>) {
    exists i :: 0 <= i < |exts| && exts[i].Extent?
  }

  /** Offset of the first extent that has a buffer (0 when there is none). */
  function First(exts: seq<Extent>): nat {
    if exts == [] then 0
    else if exts[0].Extent? then exts[0].offset
    else First(exts[1..])
  }

  /** Offset just past the last extent that has a buffer, or `from` when there is none. */
  function End(exts: seq<Extent>, from: nat): nat {
    if exts == [] then from
    else
      match exts[|exts| - 1]
      case Absent => End(exts[..|exts| - 1], from)
      case Extent(offset, data) => offset + |data|
  }

  /**
   * Non-empty extents in ascending order, without overlap, the space in front of each one (counted
   * from `from` for the first) being smaller than `p`.
   */
  predicate Chained(exts: seq<Extent>, p: nat, from: nat) {
    exts == [] ||
    (var init := exts[..|exts| - 1];
     Chained(init, p, from) &&
     match exts[|exts| - 1]
     case Absent => true
     case Extent(offset, data) => data != [] && End(init, from) <= offset < End(init, from) + p)
  }

  /** Bytes of the log from offset `from` to the end of its last extent; space between extents is 0xFF. */
  function Image(exts: seq<Extent>, from: nat): seq<Byte> {
    if exts == [] then []
    else
      var im := Image(exts[..|exts| - 1], from);
      match exts[|exts| - 1]
      case Absent => im
      case Extent(offset, data) =>
        im + Erased(if from + |im| <= offset then offset - from - |im| else 0) + data
  }

  /** `s` filled up with 0xFF to a multiple of `p`. */
  function Padded(s: seq<Byte>, p: nat): (r: seq<Byte>)
    requires p > 0
    ensures |r| == RoundUp(|s|, p) && s <= r
    ensures forall x :: |s| <= x < |r| ==> r[x] == 0xFF
  {
    s + Erased(RoundUp(|s|, p) - |s|)
  }

  predicate InExtent(e: Extent, x: nat) {
    e.Extent? && e.offset <= x < e.offset + |e.data|
  }

  lemma {:induction false} ImageLength(exts: seq<Extent>, p: nat, from: nat)
    requires Chained(exts, p, from)
    ensures from + |Image(exts, from)| == End(exts, from)
  {
    if exts != [] {
      ImageLength(exts[..|exts| - 1], p, from);
    }
  }

  /** Every byte of every extent stands at its own offset. */
  lemma {:induction false} ImageAtExtent(exts: seq<Extent>, p: nat, from: nat, i: nat, k: nat)
    requires Chained(exts, p, from)
    requires i < |exts| && exts[i].Extent? && k < |exts[i].data|
    ensures from <= exts[i].offset + k < from + |Image(exts, from)|
    ensures Image(exts, from)[exts[i].offset + k - from] == exts[i].data[k]
  {
    var init := exts[..|exts| - 1];
    ImageLength(init, p, from);
    if i < |init| {
      ImageAtExtent(init, p, from, i, k);
    } else {
      ImageLength(exts, p, from);
    }
  }

  /** Every byte outside the extents is 0xFF. */
  lemma {:induction false} ImageAtGap(exts: seq<Extent>, p: nat, from: nat, x: nat)
    requires Chained(exts, p, from)
    requires x < |Image(exts, from)|
    requires forall i :: 0 <= i < |exts| ==> !InExtent(exts[i], from + x)
    ensures Image(exts, from)[x] == 0xFF
  {
    var init := exts[..|exts| - 1];
    ImageLength(init, p, from);
    if x < |Image(init, from)| {
      ImageAtGap(init, p, from, x);
    } else {
      assert !InExtent(exts[|exts| - 1], from + x);
    }
  }

  lemma {:induction false} FirstOfInit(exts: seq<Extent>)
    requires exts != [] && HasAny(exts[..|exts| - 1])
    ensures First(exts) == First(exts[..|exts| - 1])
  {
    var init := exts[..|exts| - 1];
    if !exts[0].Extent? {
      var i :| 0 <= i < |init| && init[i].Extent?;
      assert init[1..] == exts[1..][..|exts[1..]| - 1];
      assert init[1..][i - 1].Extent?;
      FirstOfInit(exts[1..]);
    }
  }

  lemma {:induction false} FirstOfLast(exts: seq<Extent>)
    requires exts != [] && !HasAny(exts[..|exts| - 1]) && exts[|exts| - 1].Extent?
    ensures First(exts) == exts[|exts| - 1].offset
  {
    if |exts| > 1 {
      var init := exts[..|exts| - 1];
      assert !init[0].Extent?;
      assert exts[1..][..|exts[1..]| - 1] == init[1..];
      FirstOfLast(exts[1..]);
    }
  }

  lemma {:induction false} EndAtLeast(exts: seq<Extent>, p: nat, from: nat)
    requires Chained(exts, p, from)
    ensures from <= End(exts, from)
    ensures HasAny(exts) ==> from <= First(exts) < End(exts, from)
  {
    if exts != [] {
      var init := exts[..|exts| - 1];
      EndAtLeast(init, p, from);
      if HasAny(init) {
        FirstOfInit(exts);
      } else if exts[|exts| - 1].Extent? {
        FirstOfLast(exts);
      } else {
        assert !HasAny(exts);
      }
    }
  }

  /** Prefixes of a chain are chains that end no later. */
  lemma {:induction false} ChainPrefix(exts: seq<Extent>, p: nat, from: nat, n: nat)
    requires Chained(exts, p, from) && n <= |exts|
    ensures Chained(exts[..n], p, from) && End(exts[..n], from) <= End(exts, from)
  {
    if n < |exts| {
      var init := exts[..|exts| - 1];
      ChainPrefix(init, p, from, n);
      assert init[..n] == exts[..n];
    } else {
      assert exts[..n] == exts;
    }
  }

  /** Start of the page that holds the first byte of the log. */
  function FirstPage(exts: seq<Extent>, p: nat): (r: nat)
    requires p > 0
    ensures r % p == 0 && r <= First(exts) < r + p
  {
    RoundDown(First(exts), p)
  }

  /** A log that the pre-write check accepts: a non-empty chain that ends inside the erase block. */
  predicate WellPlaced(exts: seq<Extent>, p: nat, eraseSize: nat)
    requires p > 0
  {
    && HasAny(exts)
    && Chained(exts, p, FirstPage(exts, p))
    && End(exts, 0) <= eraseSize
  }

  lemma {:induction false} EndOfAny(exts: seq<Extent>, from: nat, from': nat)
    requires HasAny(exts)
    ensures End(exts, from) == End(exts, from')
  {
    if exts[|exts| - 1].Absent? {
      var i :| 0 <= i < |exts| && exts[i].Extent?;
      assert exts[..|exts| - 1][i].Extent?;
      EndOfAny(exts[..|exts| - 1], from, from');
    }
  }

  lemma {:induction false} NoneEnd(exts: seq<Extent>, p: nat, from: nat)
    requires !HasAny(exts)
    ensures End(exts, from) == from && Chained(exts, p, from)
  {
    if exts != [] {
      assert !exts[|exts| - 1].Extent?;
      NoneEnd(exts[..|exts| - 1], p, from);
    }
  }

  lemma ChainNothing(exts: seq<Extent>, p: nat, from: nat)
    ensures Chained(exts[..0], p, from) && End(exts[..0], from) == from
  {
  }

  /** The definitions, unfolded for one more extent. */
  lemma ChainSnoc(exts: seq<Extent>, p: nat, from: nat, i: nat)
    requires i < |exts|
    ensures exts[i].Absent? ==>
              && Chained(exts[..i + 1], p, from) == Chained(exts[..i], p, from)
              && End(exts[..i + 1], from) == End(exts[..i], from)
              && Image(exts[..i + 1], from) == Image(exts[..i], from)
    ensures exts[i].Extent? ==>
              && End(exts[..i + 1], from) == exts[i].offset + |exts[i].data|
              && (Chained(exts[..i + 1], p, from) <==>
                    Chained(exts[..i], p, from) && exts[i].data != []
                    && End(exts[..i], from) <= exts[i].offset < End(exts[..i], from) + p)
              && (from + |Image(exts[..i], from)| <= exts[i].offset ==>
                    Image(exts[..i + 1], from) ==
                      Image(exts[..i], from) + Erased(exts[i].offset - from - |Image(exts[..i], from)|) + exts[i].data)
  {
    assert exts[..i + 1][..i] == exts[..i];
  }

  /** One step along a chain: extent `i` continues the image of the extents before it. */
  lemma ChainStep(exts: seq<Extent>, p: nat, from: nat, i: nat)
    requires HasAny(exts) && Chained(exts, p, from) && i < |exts|
    ensures exts[i].Absent? ==>
              Image(exts[..i + 1], from) == Image(exts[..i], from) && End(exts[..i + 1], 0) == End(exts[..i], 0)
    ensures exts[i].Extent? ==>
              var Extent(offset, data) := exts[i];
              var im := Image(exts[..i], from);
              && data != [] && from + |im| <= offset < from + |im| + p && End(exts[..i], 0) <= offset
              && Image(exts[..i + 1], from) == im + Erased(offset - from - |im|) + data
              && End(exts[..i + 1], 0) == offset + |data| <= End(exts, 0)
  {
    hide Chained, End, Image;
    ChainSnoc(exts, p, from, i);
    ChainSnoc(exts, p, 0, i);
    if exts[i].Extent? {
      ChainPrefix(exts, p, from, i);
      ChainPrefix(exts, p, from, i + 1);
      ImageLength(exts[..i], p, from);
      EndOfAny(exts, 0, from);
      if HasAny(exts[..i]) { EndOfAny(exts[..i], 0, from); } else { NoneEnd(exts[..i], p, 0); }
    }
  }
}
