/** Allocation of a clean segment in one fragment of the segment bitmap (lib/segbmap.c). */
module SegmentSearch {
  import opened Types
  import opened Rounding
  import opened PackedBitmap

  const BITS: nat := 4
  const CLEAN: bv8 := 0
  const FRAGMENT_HEADER_SIZE: nat := 32

  /** The table detect_clean_seg: the first sixteen entries, and then every sixteenth one, are true. */
  predicate DetectCleanSeg(value: bv8) {
    value < 0x10 || value % 0x10 == 0
  }

  /** The table says whether one of the two states of a byte is clean. */
  lemma TableIsExact(value: bv8)
    ensures DetectCleanSeg(value) <==> StateInByte(value, 0, BITS) == CLEAN || StateInByte(value, 1, BITS) == CLEAN
  {
  }

  /** FIND_FIRST_ITEM_IN_BYTE for a clean segment; `Bug` when the start offset is beyond the byte. */
  method FindCleanInByte(value: bv8, start: nat) returns (st: Status, found: nat)
    ensures start > 2 ==> st == Bug
    ensures st != Success ==> found == 0xFF
    ensures start <= 2 && st == Success ==>
              && start <= found < 2 && StateInByte(value, found, BITS) == CLEAN
              && forall i :: start <= i < found ==> StateInByte(value, i, BITS) != CLEAN
    ensures start <= 2 && st != Success ==>
              st == Error(ENODATA) && forall i :: start <= i < 2 ==> StateInByte(value, i, BITS) != CLEAN
  {
    found := 0xFF;
    if start > ItemsPerByte(BITS) {
      return Bug, found;
    }
    TableIsExact(value);
    if DetectCleanSeg(value) {
      var offset := FirstStateInByte(value, CLEAN, start, BITS);
      if offset < ItemsPerByte(BITS) {
        return Success, offset;
      }
    }
    return Error(ENODATA), found;
  }

  /** The first clean item in [lo, hi): the naive scan. */
  function FirstClean(bmap: seq<bv8>, lo: nat, hi: nat): (r: Option<nat>)
    requires hi <= 2 * |bmap|
    ensures r.Some? ==>
              && lo <= r.value < hi && StateAt(bmap, BITS, r.value) == CLEAN
              && forall i :: lo <= i < r.value ==> StateAt(bmap, BITS, i) != CLEAN
    ensures r.None? ==> forall i :: lo <= i < hi ==> StateAt(bmap, BITS, i) != CLEAN
    decreases hi - lo
  {
    if lo >= hi then None
    else if StateAt(bmap, BITS, lo) == CLEAN then Some(lo)
    else FirstClean(bmap, lo + 1, hi)
  }

  lemma FirstCleanUnique(bmap: seq<bv8>, lo: nat, hi: nat, x: nat)
    requires hi <= 2 * |bmap| && lo <= x < hi && StateAt(bmap, BITS, x) == CLEAN
    requires forall i :: lo <= i < x ==> StateAt(bmap, BITS, i) != CLEAN
    ensures FirstClean(bmap, lo, hi) == Some(x)
  {
  }

  /** Items of the fragment, counted from its first one. */
  datatype Window = Window(lo: nat, hi: nat)

  /** Bytes from the fragment's start to the aligned end, in the program's 64-bit arithmetic. */
  function ByteRange(fragmentStart: U64, maxItem: U64): nat
  {
    ((maxItem + 1) % TWO64 / 16 * 16 - fragmentStart + TWO64) % TWO64 / 2
  }

  /** Byte of the fragment that holds the aligned start, in the program's 32-bit arithmetic. */
  function StartByte(fragmentStart: U64, alignedStart: U64): (r: nat)
    requires fragmentStart <= alignedStart
    ensures r < 0x8000_0000
    ensures alignedStart - fragmentStart < TWO32 ==> 2 * r <= alignedStart - fragmentStart <= 2 * r + 1
  {
    (alignedStart - fragmentStart) % TWO32 / 2
  }

  /** Segment number of item `i` of the fragment, in 64-bit arithmetic. */
  function SegAt(fragmentStart: U64, i: nat): (r: U64)
    ensures fragmentStart + i < TWO64 ==> r == fragmentStart + i
    ensures TWO64 <= fragmentStart + i < 2 * TWO64 ==> r == fragmentStart + i - TWO64
  {
    (fragmentStart + i) % TWO64
  }

  /** Where the search loop starts, and how many bytes of the fragment it may touch. */
  datatype Plan = Plan(byteIndex: nat, startOffset: nat, bytes: nat)

  /** The arithmetic in front of the search loop, in 64 and 32 bits; `None` is the BUG_ON on the byte range. */
  function PlanSearch(fragmentStart: U64, payload: nat, startItem: U64, maxItem: U64): (r: Option<Plan>)
    ensures r.Some? ==> r.value.bytes <= payload
  {
    var alignedStart := startItem / 16 * 16;
    var byteRange := ByteRange(fragmentStart, maxItem);
    if byteRange >= U32_MAX then None
    else
      var bytes := if payload <= byteRange then payload else byteRange;
      if fragmentStart <= alignedStart
      then Some(Plan(StartByte(fragmentStart, alignedStart), startItem - alignedStart, bytes))
      else Some(Plan(0, 0, bytes))
  }

  /** The items that the program visits; `None` when a BUG_ON fires. */
  function Visited(fragmentStart: U64, payload: nat, startItem: U64, maxItem: U64): (r: Option<Window>)
    ensures r.Some? ==> r.value.hi <= 2 * payload
  {
    match PlanSearch(fragmentStart, payload, startItem, maxItem)
    case None => None
    case Some(Plan(byteIndex, startOffset, bytes)) =>
      if byteIndex < bytes && startOffset > 2 then None
      else Some(Window(2 * byteIndex + startOffset, 2 * bytes))
  }

  /** The items that the caller asked for. */
  function Requested(fragmentStart: U64, payload: nat, startItem: U64, maxItem: U64): Window
    requires fragmentStart < maxItem
  {
    Window(if startItem <= fragmentStart then 0 else startItem - fragmentStart,
           if maxItem - fragmentStart <= 2 * payload then maxItem - fragmentStart else 2 * payload)
  }

  /** `bmap` with item `i` set to `state`. */
  predicate OnlyChanged(was: seq<bv8>, bmap: seq<bv8>, i: nat, state: bv8)
    requires i < 2 * |was|
  {
    && |bmap| == |was|
    && forall k :: 0 <= k < 2 * |was| ==>
         StateAt(bmap, BITS, k) == if k == i then state & Mask(BITS) else StateAt(was, BITS, k)
  }

  /** Set one item of one byte. */
  method SetItem(bmap: array<bv8>, byteIndex: nat, item: nat, state: bv8)
    requires byteIndex < bmap.Length && item < 2
    modifies bmap
    ensures OnlyChanged(old(bmap[..]), bmap[..], 2 * byteIndex + item, state)
  {
    ghost var was := bmap[..];
    bmap[byteIndex] := SetStateInByte(bmap[byteIndex], item, BITS, state);
    assert bmap[..] == was[byteIndex := SetStateInByte(was[byteIndex], item, BITS, state)];
    forall k | 0 <= k < 2 * |was|
      ensures StateAt(bmap[..], BITS, k) ==
                if k == 2 * byteIndex + item then state & Mask(BITS) else StateAt(was, BITS, k)
    {
      SetInBitmap(was, BITS, byteIndex, item, state, k);
    }
  }

  ghost predicate NoClean(bmap: seq<bv8>, lo: nat, hi: nat) {
    forall i :: lo <= i < hi && i < 2 * |bmap| ==> StateAt(bmap, BITS, i) != CLEAN
  }

  lemma NoCleanByte(bmap: seq<bv8>, lo: nat, byteIndex: nat, offset: nat, upTo: nat)
    requires byteIndex < |bmap| && offset <= 2 && upTo <= 2
    requires NoClean(bmap, lo, 2 * byteIndex) && lo <= 2 * byteIndex + offset
    requires offset == 0 || lo == 2 * byteIndex + offset
    requires forall i :: offset <= i < upTo ==> StateInByte(bmap[byteIndex], i, BITS) != CLEAN
    ensures NoClean(bmap, lo, 2 * byteIndex + upTo)
  {
    forall i | lo <= i < 2 * byteIndex + upTo && i < 2 * |bmap| ensures StateAt(bmap, BITS, i) != CLEAN {
      if i >= 2 * byteIndex {
        assert i / 2 == byteIndex && i % 2 == i - 2 * byteIndex;
      }
    }
  }

  /** The search loop: byte by byte with the table. */
  method SearchAndSet(bmap: array<bv8>, startByte: nat, startOffset: nat, bytes: nat, state: bv8)
    returns (st: Status, byteIndex: nat, offset: nat)
    requires bytes <= bmap.Length
    modifies bmap
    ensures startByte < bytes && startOffset > 2 ==> st == Bug && bmap[..] == old(bmap[..])
    ensures startByte >= bytes || startOffset <= 2 ==>
              match FirstClean(old(bmap[..]), 2 * startByte + startOffset, 2 * bytes)
              case None => st == Error(ENODATA) && bmap[..] == old(bmap[..])
              case Some(i) =>
                st == Success && i == 2 * byteIndex + offset && OnlyChanged(old(bmap[..]), bmap[..], i, state)
  {
    hide FirstClean, OnlyChanged, NoClean, StateInByte;
    byteIndex, offset := startByte, startOffset;
    ghost var was, lo := bmap[..], 2 * startByte + startOffset;
    NothingScanned(was, startByte, startOffset);
    while byteIndex < bytes
      invariant startByte <= byteIndex && bmap[..] == was
      invariant offset == if byteIndex == startByte then startOffset else 0
      invariant byteIndex > startByte ==> startOffset <= 2
      invariant NoClean(was, lo, 2 * byteIndex)
    {
      var found;
      st, found := FindCleanInByte(bmap[byteIndex], offset);
      if st == Success {
        NoCleanByte(was, lo, byteIndex, offset, found);
        FoundFirst(was, lo, bytes, byteIndex, found);
        SetItem(bmap, byteIndex, found, state);
        return st, byteIndex, found;
      } else if st == Bug {
        return;
      }
      NoCleanByte(was, lo, byteIndex, offset, 2);
      offset := 0;
      byteIndex := byteIndex + 1;
    }
    NoneClean(was, lo, 2 * byteIndex, 2 * bytes);
    st := Error(ENODATA);
  }

  lemma NothingScanned(bmap: seq<bv8>, startByte: nat, startOffset: nat)
    ensures NoClean(bmap, 2 * startByte + startOffset, 2 * startByte)
  {
  }

  lemma FoundFirst(bmap: seq<bv8>, lo: nat, bytes: nat, byteIndex: nat, found: nat)
    requires byteIndex < bytes <= |bmap| && found < 2 && StateInByte(bmap[byteIndex], found, BITS) == CLEAN
    requires lo <= 2 * byteIndex + found && NoClean(bmap, lo, 2 * byteIndex + found)
    ensures FirstClean(bmap, lo, 2 * bytes) == Some(2 * byteIndex + found)
  {
    hide FirstClean, StateInByte;
    assert (2 * byteIndex + found) / 2 == byteIndex && (2 * byteIndex + found) % 2 == found;
    FirstCleanUnique(bmap, lo, 2 * bytes, 2 * byteIndex + found);
  }

  lemma NoneClean(bmap: seq<bv8>, lo: nat, scanned: nat, hi: nat)
    requires hi <= 2 * |bmap| && hi <= scanned && NoClean(bmap, lo, scanned)
    ensures FirstClean(bmap, lo, hi) == None
  {
    hide StateInByte;
    var r := FirstClean(bmap, lo, hi);
  }

  /** An unsigned subtraction: a fragment smaller than its header gives a huge size. */
  function PayloadBytes(fragmentBytes: U16): (r: nat)
    ensures fragmentBytes >= FRAGMENT_HEADER_SIZE ==> r == fragmentBytes - FRAGMENT_HEADER_SIZE
    ensures fragmentBytes < FRAGMENT_HEADER_SIZE ==> r > 0x8000_0000
  {
    (fragmentBytes - FRAGMENT_HEADER_SIZE + TWO32) % TWO32
  }

  /** SET_FIRST_CLEAN_ITEM_IN_FRAGMENT; `fragmentStart` and `fragmentBytes` are header fields. */
  method SetFirstCleanItemInFragment(fragmentStart: U64, fragmentBytes: U16, bmap: array<bv8>,
                                     startItem: U64, maxItem: U64, pageSize: U32, state: bv8)
    returns (st: Status, foundSeg: U64)
    requires bmap.Length + FRAGMENT_HEADER_SIZE >= fragmentBytes && pageSize <= 0x8000_0000
    modifies bmap
    ensures startItem >= maxItem ==> st == Error(EINVAL) && bmap[..] == old(bmap[..])
    ensures startItem < maxItem && !Searchable(fragmentStart, fragmentBytes, pageSize) ==>
              st == Error(ERANGE) && bmap[..] == old(bmap[..])
    ensures startItem < maxItem && Searchable(fragmentStart, fragmentBytes, pageSize) ==>
              match Visited(fragmentStart, fragmentBytes - 32, startItem, maxItem)
              case None => st == Bug && bmap[..] == old(bmap[..])
              case Some(w) =>
                && w.hi <= 2 * bmap.Length
                && match FirstClean(old(bmap[..]), w.lo, w.hi)
                   case None => st == Error(ENODATA) && bmap[..] == old(bmap[..])
                   case Some(i) =>
                     && OnlyChanged(old(bmap[..]), bmap[..], i, state)
                     && if SegAt(fragmentStart, i) < maxItem
                        then st == Success && foundSeg == SegAt(fragmentStart, i)
                        else st == Error(ENODATA)
    ensures st != Success ==> foundSeg == U64_MAX
  {
    hide PlanSearch, SegAt, PayloadBytes, OnlyChanged, FirstClean;
    foundSeg := U64_MAX;
    if startItem >= maxItem {
      return Error(EINVAL), foundSeg;
    }
    if fragmentStart == U64_MAX {
      return Error(ERANGE), foundSeg;
    }
    var searchBytes := PayloadBytes(fragmentBytes);
    if searchBytes == 0 || searchBytes > pageSize {
      return Error(ERANGE), foundSeg;
    }
    var plan := PlanSearch(fragmentStart, searchBytes, startItem, maxItem);
    if plan.None? {
      return Bug, foundSeg;
    }
    var Plan(startByte, startOffset, bytes) := plan.value;
    var byteIndex, offset;
    st, byteIndex, offset := SearchAndSet(bmap, startByte, startOffset, bytes, state);
    if st == Success {
      foundSeg := SegAt(fragmentStart, 2 * byteIndex + offset);
      if foundSeg >= maxItem {
        foundSeg := U64_MAX;
      }
      if foundSeg == U64_MAX {
        st := Error(ENODATA);
      }
    }
  }

  predicate Searchable(fragmentStart: U64, fragmentBytes: U16, pageSize: U32) {
    fragmentStart != U64_MAX && 0 < fragmentBytes - 32 <= pageSize
  }

  /** The start item is in the fragment's first reachable byte, or the search starts with the fragment. */
  predicate StartAligned(fragmentStart: U64, startItem: U64) {
    if fragmentStart <= startItem / 16 * 16 then startItem % 16 <= 2 else startItem <= fragmentStart
  }

  /** The end is a multiple of sixteen, or the fragment ends before the last multiple in front of it. */
  predicate EndAligned(fragmentStart: U64, payload: nat, maxItem: U64) {
    || maxItem % 16 == 0
    || (fragmentStart + 2 * payload <= maxItem && fragmentStart + 2 * payload <= (maxItem + 1) / 16 * 16)
  }

  /**
   * A fragment of at most 64 KiB that overlaps the requested range, in a volume whose bitmap passes the
   * BUG_ON of SEG_BMAP_BYTES.
   */
  predicate Overlaps(fragmentStart: U64, payload: nat, startItem: U64, maxItem: U64) {
    && 0 < payload <= U16_MAX && fragmentStart % 2 == 0
    && (maxItem + 1) / 2 < U32_MAX
    && startItem < maxItem && fragmentStart < maxItem && startItem < fragmentStart + 2 * payload
  }

  /** Without wrap-around the byte range is the distance to the aligned end; before it, a BUG_ON. */
  lemma RangeIs(fragmentStart: U64, maxItem: U64)
    requires fragmentStart % 2 == 0 && fragmentStart < maxItem && (maxItem + 1) / 2 < U32_MAX
    ensures var end := (maxItem + 1) / 16 * 16;
            if end < fragmentStart then ByteRange(fragmentStart, maxItem) >= U32_MAX
            else ByteRange(fragmentStart, maxItem) * 2 == end - fragmentStart
  {
    var eighths := (maxItem + 1) / 16;
    ModUnique(maxItem + 1, TWO64, 0, maxItem + 1);
    WrappedDistance(16 * eighths, fragmentStart);
    Halves(8 * eighths, fragmentStart / 2);
  }

  /** An unsigned 64-bit difference. */
  lemma WrappedDistance(a: nat, b: nat)
    requires a < TWO64 && b < TWO64
    ensures (a - b + TWO64) % TWO64 == if b <= a then a - b else a - b + TWO64
  {
    if b <= a {
      ModUnique(a - b + TWO64, TWO64, 1, a - b);
    } else {
      ModUnique(a - b + TWO64, TWO64, 0, a - b + TWO64);
    }
  }

  lemma Halves(a: int, b: int)
    ensures (2 * a - 2 * b) / 2 == a - b && (2 * a - 2 * b + TWO64) / 2 == a - b + TWO64 / 2
  {
  }

  /** The visited end is the requested end exactly under `EndAligned`. */
  lemma EndIff(fragmentStart: U64, payload: nat, startItem: U64, maxItem: U64)
    requires Overlaps(fragmentStart, payload, startItem, maxItem)
    ensures var range := ByteRange(fragmentStart, maxItem);
            var bytes := if payload <= range then payload else range;
            range < U32_MAX && 2 * bytes == Requested(fragmentStart, payload, startItem, maxItem).hi
            <==> EndAligned(fragmentStart, payload, maxItem)
  {
    hide ByteRange;
    RangeIs(fragmentStart, maxItem);
    var end := (maxItem + 1) / 16 * 16;
    assert maxItem % 16 == 0 ==> end == maxItem;
    assert end == maxItem ==> maxItem % 16 == 0;
  }

  lemma StartIndex(fragmentStart: U64, start: U64)
    requires fragmentStart % 2 == 0 && start % 16 == 0 && fragmentStart <= start && start - fragmentStart < TWO32
    ensures StartByte(fragmentStart, start) * 2 == start - fragmentStart
  {
    var d, e := start - fragmentStart, 8 * (start / 16) - fragmentStart / 2;
    assert d == 2 * e;
    assert d % TWO32 == d;
  }

  /** With an aligned end, the visited start is the requested start exactly under `StartAligned`. */
  lemma StartIff(fragmentStart: U64, payload: nat, startItem: U64, maxItem: U64)
    requires Overlaps(fragmentStart, payload, startItem, maxItem) && EndAligned(fragmentStart, payload, maxItem)
    ensures var w := Visited(fragmentStart, payload, startItem, maxItem);
            w.Some? && w.value.lo == Requested(fragmentStart, payload, startItem, maxItem).lo
            <==> StartAligned(fragmentStart, startItem)
  {
    hide ByteRange, StartByte, EndAligned;
    EndIff(fragmentStart, payload, startItem, maxItem);
    var start, r := startItem / 16 * 16, Requested(fragmentStart, payload, startItem, maxItem);
    assert startItem - start == startItem % 16 < 16;
    if fragmentStart <= start {
      StartIndex(fragmentStart, start);
      assert start - fragmentStart <= r.lo < r.hi;
    }
  }

  /** The program visits the requested items exactly when start and end are aligned. */
  lemma WindowIff(fragmentStart: U64, payload: nat, startItem: U64, maxItem: U64)
    requires Overlaps(fragmentStart, payload, startItem, maxItem)
    ensures Visited(fragmentStart, payload, startItem, maxItem) ==
              Some(Requested(fragmentStart, payload, startItem, maxItem))
            <==> StartAligned(fragmentStart, startItem) && EndAligned(fragmentStart, payload, maxItem)
  {
    hide ByteRange, StartAligned, EndAligned;
    EndIff(fragmentStart, payload, startItem, maxItem);
    if EndAligned(fragmentStart, payload, maxItem) {
      StartIff(fragmentStart, payload, startItem, maxItem);
    }
  }

  /** A bitmap whose only clean item is `x`. */
  function OneClean(payload: nat, x: nat): (r: seq<bv8>)
    ensures |r| == payload
  {
    seq(payload, k => if k != x / 2 then 0x11 else if x % 2 == 0 then 0x10 else 0x01)
  }

  lemma OneCleanFirst(payload: nat, x: nat, lo: nat, hi: nat)
    requires x < 2 * payload && hi <= 2 * payload
    ensures FirstClean(OneClean(payload, x), lo, hi) == if lo <= x < hi then Some(x) else None
  {
    var bmap := OneClean(payload, x);
    forall i | 0 <= i < 2 * payload ensures StateAt(bmap, BITS, i) == CLEAN <==> i == x {
      assert bmap[i / 2] == 0x11 || i / 2 == x / 2;
    }
    if lo <= x < hi {
      FirstCleanUnique(bmap, lo, hi, x);
    } else {
      var r := FirstClean(bmap, lo, hi);
    }
  }

  /** The program finds what a naive scan of the requested items finds. */
  predicate Agrees(bmap: seq<bv8>, fragmentStart: U64, startItem: U64, maxItem: U64)
    requires fragmentStart < maxItem
  {
    var w := Visited(fragmentStart, |bmap|, startItem, maxItem);
    var r := Requested(fragmentStart, |bmap|, startItem, maxItem);
    w.Some? && FirstClean(bmap, w.value.lo, w.value.hi) == FirstClean(bmap, r.lo, r.hi)
  }

  /** Different windows are told apart by a bitmap with one clean item. */
  lemma TellApart(payload: nat, w: Window, r: Window) returns (x: nat)
    requires w != r && r.lo < r.hi && w.hi <= 2 * payload && r.hi <= 2 * payload
    ensures x < 2 * payload
    ensures FirstClean(OneClean(payload, x), w.lo, w.hi) != FirstClean(OneClean(payload, x), r.lo, r.hi)
  {
    x := if w.lo >= w.hi then r.lo
         else if w.lo < r.lo then w.lo
         else if r.lo < w.lo then r.lo
         else if w.hi < r.hi then r.hi - 1 else w.hi - 1;
    OneCleanFirst(payload, x, w.lo, w.hi);
    OneCleanFirst(payload, x, r.lo, r.hi);
  }

  /**
   * The table-driven search equals the naive scan on every bitmap if and only if the start item and the
   * end item are aligned as the sixteen-item rounding of the program assumes.
   */
  lemma SearchExactIff(fragmentStart: U64, payload: nat, startItem: U64, maxItem: U64)
    requires Overlaps(fragmentStart, payload, startItem, maxItem)
    ensures (forall bmap: seq<bv8> :: |bmap| == payload ==> Agrees(bmap, fragmentStart, startItem, maxItem))
            <==> StartAligned(fragmentStart, startItem) && EndAligned(fragmentStart, payload, maxItem)
  {
    hide Visited, StartAligned, EndAligned;
    WindowIff(fragmentStart, payload, startItem, maxItem);
    var w := Visited(fragmentStart, payload, startItem, maxItem);
    var r := Requested(fragmentStart, payload, startItem, maxItem);
    if w != Some(r) {
      var bmap := OneClean(payload, 0);
      if w.Some? {
        var x := TellApart(payload, w.value, r);
        bmap := OneClean(payload, x);
      }
      assert !Agrees(bmap, fragmentStart, startItem, maxItem);
    }
  }

  /** One allocation in a window: the first clean item gets `state`. */
  ghost predicate Allocates(was: seq<bv8>, bmap: seq<bv8>, w: Window, state: bv8, i: nat) {
    && w.hi <= 2 * |was| && FirstClean(was, w.lo, w.hi) == Some(i)
    && OnlyChanged(was, bmap, i, state)
  }

  /** Bitmaps[k] is turned into bitmaps[k + 1] by an allocation in some window, with a state that is not clean. */
  ghost predicate Run(bitmaps: seq<seq<bv8>>, windows: seq<Window>, states: seq<bv8>, items: seq<nat>) {
    && |bitmaps| == |items| + 1 && |states| == |items| && |windows| == |items|
    && forall k {:trigger items[k]} :: 0 <= k < |items| ==>
         Allocates(bitmaps[k], bitmaps[k + 1], windows[k], states[k], items[k]) && states[k] & Mask(BITS) != CLEAN
  }

  /** What has been handed out is not clean any more, and has not become clean again. */
  lemma {:induction false} StaysUsed(bitmaps: seq<seq<bv8>>, windows: seq<Window>, states: seq<bv8>, items: seq<nat>,
                                     a: nat, c: nat)
    requires Run(bitmaps, windows, states, items) && a < c <= |items|
    ensures items[a] < 2 * |bitmaps[c]| && StateAt(bitmaps[c], BITS, items[a]) != CLEAN
    decreases c
  {
    assert Allocates(bitmaps[c - 1], bitmaps[c], windows[c - 1], states[c - 1], items[c - 1]);
    if a < c - 1 {
      StaysUsed(bitmaps, windows, states, items, a, c - 1);
    }
  }

  /** Repeated allocations, each in a window of its own, never hand out an item twice; in one window they ascend. */
  lemma RunDistinct(bitmaps: seq<seq<bv8>>, windows: seq<Window>, states: seq<bv8>, items: seq<nat>, a: nat, b: nat)
    requires Run(bitmaps, windows, states, items) && a < b < |items|
    ensures items[a] != items[b]
    ensures (forall k :: a <= k <= b ==> windows[k] == windows[a]) ==> items[a] < items[b]
  {
    StaysUsed(bitmaps, windows, states, items, a, b);
    assert Allocates(bitmaps[b], bitmaps[b + 1], windows[b], states[b], items[b]);
    if forall k :: a <= k <= b ==> windows[k] == windows[a] {
      RunAscends(bitmaps, windows, states, items, a, b);
    }
  }

  lemma {:induction false} RunAscends(bitmaps: seq<seq<bv8>>, windows: seq<Window>, states: seq<bv8>, items: seq<nat>,
                                      a: nat, b: nat)
    requires Run(bitmaps, windows, states, items) && a < b < |items|
    requires forall k :: a <= k <= b ==> windows[k] == windows[a]
    ensures items[a] < items[b]
    decreases b - a
  {
    var c := b - 1;
    assert Allocates(bitmaps[c], bitmaps[b], windows[c], states[c], items[c]);
    assert Allocates(bitmaps[b], bitmaps[b + 1], windows[b], states[b], items[b]);
    if a < c {
      RunAscends(bitmaps, windows, states, items, a, c);
    }
    assert StateAt(bitmaps[b], BITS, items[c]) != CLEAN;
  }

  datatype Request = Request(startItem: U64, maxItem: U64, state: bv8)

  /** Items of the fragment that have been handed out as `segs`, and are not clean any more. */
  ghost predicate HandedOut(fragmentStart: U64, was: seq<bv8>, bmap: seq<bv8>, segs: seq<U64>, items: seq<nat>) {
    && |items| == |segs| && |bmap| == |was|
    && (forall k :: 0 <= k < |segs| ==> items[k] < 2 * |bmap| && segs[k] == SegAt(fragmentStart, items[k]))
    && (forall k :: 0 <= k < |segs| ==>
          StateAt(was, BITS, items[k]) == CLEAN && StateAt(bmap, BITS, items[k]) != CLEAN)
    && (forall j, k :: 0 <= j < k < |segs| ==> items[j] != items[k])
    && (forall i :: 0 <= i < 2 * |was| && StateAt(was, BITS, i) != CLEAN ==>
      StateAt(bmap, BITS, i) == StateAt(was, BITS, i))
  }

  lemma HandOut(fragmentStart: U64, was: seq<bv8>, bmap: seq<bv8>, bmap': seq<bv8>, segs: seq<U64>, items: seq<nat>,
                i: nat, state: bv8)
    requires HandedOut(fragmentStart, was, bmap, segs, items) && i < 2 * |bmap| && StateAt(bmap, BITS, i) == CLEAN
    requires OnlyChanged(bmap, bmap', i, state) && state & Mask(BITS) != CLEAN
    ensures HandedOut(fragmentStart, was, bmap', segs, items)
    ensures HandedOut(fragmentStart, was, bmap', segs + [SegAt(fragmentStart, i)], items + [i])
  {
    hide SegAt, StateAt;
  }

  /** Items of a fragment have different segment numbers, also where these wrap around. */
  lemma SegAtInjective(fragmentStart: U64, i: nat, j: nat)
    requires i < TWO64 && j < TWO64 && SegAt(fragmentStart, i) == SegAt(fragmentStart, j)
    ensures i == j
  {
    var x, y := fragmentStart + i, fragmentStart + j;
    assert x == x / TWO64 * TWO64 + x % TWO64 && y == y / TWO64 * TWO64 + y % TWO64;
    assert x / TWO64 <= 1 && y / TWO64 <= 1;
  }

  /**
   * Any number of calls of SET_FIRST_CLEAN_ITEM_IN_FRAGMENT on one fragment, for any ranges and any states that are
   * not clean: no segment is handed out twice, each was clean before, and no other segment in use is touched.
   */
  method AllocateSegments(fragmentStart: U64, fragmentBytes: U16, bmap: array<bv8>, requests: seq<Request>,
                          pageSize: U32)
    returns (segs: seq<U64>, ghost items: seq<nat>)
    requires bmap.Length + FRAGMENT_HEADER_SIZE >= fragmentBytes && pageSize <= 0x8000_0000 && 2 * bmap.Length < TWO64
    requires forall k :: 0 <= k < |requests| ==> requests[k].state & Mask(BITS) != CLEAN
    modifies bmap
    ensures HandedOut(fragmentStart, old(bmap[..]), bmap[..], segs, items)
    ensures forall j, k :: 0 <= j < k < |segs| ==> segs[j] != segs[k]
  {
    hide SegAt, StateAt, FirstClean, OnlyChanged, Visited, Searchable;
    segs, items := [], [];
    for k := 0 to |requests|
      invariant HandedOut(fragmentStart, old(bmap[..]), bmap[..], segs, items)
    {
      ghost var was := bmap[..];
      var r := requests[k];
      var st, seg := SetFirstCleanItemInFragment(fragmentStart, fragmentBytes, bmap, r.startItem, r.maxItem,
        pageSize, r.state);
      ghost var i := Changed(fragmentStart, fragmentBytes, was, bmap[..], r, pageSize);
      if i.Some? {
        HandOut(fragmentStart, old(bmap[..]), was, bmap[..], segs, items, i.value, r.state);
      }
      if st == Success {
        segs, items := segs + [seg], items + [i.value];
      }
    }
    forall j, k | 0 <= j < k < |segs| ensures segs[j] != segs[k] {
      if segs[j] == segs[k] {
        SegAtInjective(fragmentStart, items[j], items[k]);
      }
    }
  }

  /** The item that a call has changed, if any. */
  ghost function Changed(fragmentStart: U64, fragmentBytes: U16, was: seq<bv8>, bmap: seq<bv8>, r: Request,
                         pageSize: U32): (i: Option<nat>)
    requires |was| + FRAGMENT_HEADER_SIZE >= fragmentBytes
    ensures i.Some? ==> i.value < 2 * |was| && StateAt(was, BITS, i.value) == CLEAN
  {
    if r.startItem < r.maxItem && Searchable(fragmentStart, fragmentBytes, pageSize) then
      match Visited(fragmentStart, fragmentBytes - FRAGMENT_HEADER_SIZE, r.startItem, r.maxItem)
      case None => None
      case Some(w) => FirstClean(was, w.lo, w.hi)
    else None
  }
}
