/**
 * The whole-volume search of fsck sorts the metadata PEBs it has seen by the creation time of their volume and
 * by type (ssdfs_fsck_process_metadata_map_item and its helpers).
 */
module CreationPoints {
  import opened Types
  import opened PebTypes

  /** SSDFS_FSCK_METADATA_MAP_CAPACITY_MIN */
  const CAPACITY_MIN: nat := 8
  /** SSDFS_LAST_KNOWN_SEG_TYPE: number of maps of a creation point. */
  const MAPS: nat := 8

  datatype Item = Item(seg: U64, leb: U64, peb: U64, kind: int, pebTime: U64, time: U64)

  const ZERO_ITEM: Item := Item(0, 0, 0, 0, 0, 0)

  /** The map that a PEB type belongs to. */
  function MapIndex(kind: int): (r: Option<nat>)
    ensures r.Some? ==> r.value < MAPS
  {
    match kind
    case 5 => Some(2) // initial snapshot
    case 6 => Some(1) // superblock
    case 7 => Some(3) // segment bitmap
    case 8 => Some(4) // mapping table
    case 2 => Some(5) // leaf node
    case 3 => Some(6) // hybrid node
    case 4 => Some(7) // index node
    case _ => None
  }

  /** The maps are numbered by segment type: the choice of the map is the inverse of SEG2PEB_TYPE. */
  lemma MapIndexInverse(kind: int, k: nat)
    ensures MapIndex(kind) == Some(k) <==> 0 < k < MAPS && kind == Seg2PebType(k)
  {
  }

  /** Types of the PEBs of metadata segments. */
  predicate Known(kind: int) {
    exists k: nat {:trigger Seg2PebType(k)} :: 0 < k < MAPS && kind == Seg2PebType(k)
  }

  lemma KnownIff(kind: int)
    ensures MapIndex(kind).Some? <==> Known(kind)
  {
    if MapIndex(kind).Some? {
      MapIndexInverse(kind, MapIndex(kind).value);
    }
    if Known(kind) {
      var k: nat :| 0 < k < MAPS && kind == Seg2PebType(k);
      MapIndexInverse(kind, k);
    }
  }

  /** A growing array: `slots` is the allocated memory, of which `count` items are in use. */
  datatype MetaMap = MetaMap(slots: seq<Item>, count: nat)
  {
    predicate Ok() { count <= |slots| }

    function Contents(): seq<Item>
      requires Ok()
    {
      slots[..count]
    }

    /** ssdfs_fsck_resize_metadata_map */
    function Resized(): (r: MetaMap)
      requires Ok()
      ensures r.Ok() && r.count < |r.slots| && r.Contents() == Contents()
      ensures count < |slots| ==> r == this
      ensures count == |slots| ==> |r.slots| == if count == 0 then 8 else 2 * count
    {
      if count < |slots| then this
      else if |slots| == 0 then MetaMap(seq(CAPACITY_MIN, _ => ZERO_ITEM), count)
      else MetaMap(slots + seq(|slots|, _ => ZERO_ITEM), count)
    }

    function Appended(x: Item): (r: MetaMap)
      requires Ok()
      ensures r.Ok() && r.Contents() == Contents() + [x]
    {
      var m := Resized();
      MetaMap(m.slots[m.count := x], m.count + 1)
    }
  }

  const EMPTY_MAP: MetaMap := MetaMap([], 0)

  datatype Point = Point(time: U64, prepared: bool, maps: seq<MetaMap>)
  {
    predicate Ok() { |maps| == MAPS && forall k :: 0 <= k < MAPS ==> maps[k].Ok() }
  }

  /** ssdfs_fsck_init_creation_point */
  function NewPoint(time: U64): (p: Point)
    ensures p.Ok() && p.time == time && !p.prepared && forall k :: 0 <= k < MAPS ==> p.maps[k].Contents() == []
  {
    Point(time, false, seq(MAPS, _ => EMPTY_MAP))
  }

  /** The items of one volume and one type of segment, in order. */
  function Filter(items: seq<Item>, time: U64, k: nat): (r: seq<Item>) {
    var n := |items|;
    if n == 0 then []
    else Filter(items[..n - 1], time, k) + if Matches(items[n - 1], time, k) then [items[n - 1]] else []
  }

  predicate Matches(x: Item, time: U64, k: nat) {
    x.time == time && 0 < k < MAPS && x.kind == Seg2PebType(k)
  }

  lemma FilterNext(items: seq<Item>, x: Item, time: U64, k: nat)
    ensures Filter(items + [x], time, k) == Filter(items, time, k) + if Matches(x, time, k) then [x] else []
  {
    assert (items + [x])[..|items|] == items;
  }

  lemma {:induction false} FilterNone(items: seq<Item>, time: U64, k: nat)
    requires forall i :: 0 <= i < |items| ==> items[i].time != time
    ensures Filter(items, time, k) == []
  {
    if items != [] {
      FilterNone(items[..|items| - 1], time, k);
    }
  }

  predicate TimesAscend(points: seq<Point>) {
    forall i, j :: 0 <= i < j < |points| ==> points[i].time < points[j].time
  }

  /** Each map of each point holds exactly the items of its segment type, in order; map 0 stays empty. */
  predicate Sorted(points: seq<Point>, items: seq<Item>) {
    forall i, k :: 0 <= i < |points| && 0 <= k < MAPS ==> PointHolds(points[i], items, k)
  }

  predicate PointHolds(p: Point, items: seq<Item>, k: nat) {
    && p.Ok() && k < MAPS && p.maps[k].Contents() == Filter(items, p.time, k)
    && (p.prepared <==> p.time in ItemTimes(items))
  }

  predicate HasPoint(points: seq<Point>, time: U64) {
    exists i :: 0 <= i < |points| && points[i].time == time
  }

  /** Every item has a point. */
  predicate Covered(points: seq<Point>, items: seq<Item>) {
    forall x :: x in items ==> HasPoint(points, x.time)
  }

  /** The creation times that have a point. */
  function Times(points: seq<Point>): set<U64> {
    set p | p in points :: p.time
  }

  function ItemTimes(items: seq<Item>): set<U64> {
    set x | x in items :: x.time
  }

  lemma TimesInsert(points: seq<Point>, i: nat, p: Point)
    requires i <= |points|
    ensures Times(points[..i] + [p] + points[i..]) == Times(points) + {p.time}
  {
    var points' := points[..i] + [p] + points[i..];
    assert forall q :: q in points' <==> q in points || q == p by {
      assert points == points[..i] + points[i..];
    }
  }

  lemma TimesReplace(points: seq<Point>, i: nat, p: Point)
    requires i < |points| && p.time == points[i].time
    ensures Times(points[i := p]) == Times(points)
  {
    var points' := points[i := p];
    forall t ensures t in Times(points') <==> t in Times(points) {
      if t in Times(points) {
        var n :| 0 <= n < |points| && points[n].time == t;
        assert points'[n].time == t && points'[n] in points';
      }
      if t in Times(points') {
        var n :| 0 <= n < |points'| && points'[n].time == t;
        assert points[n].time == t && points[n] in points;
      }
    }
  }

  lemma TimeIn(points: seq<Point>, i: nat)
    requires i < |points|
    ensures points[i].time in Times(points)
  {
    assert points[i] in points;
  }

  lemma ItemTimesNext(items: seq<Item>, x: Item)
    ensures ItemTimes(items + [x]) == ItemTimes(items) + {x.time}
  {
    assert forall y :: y in items + [x] <==> y in items || y == x;
  }

  /** Place of a new point: in front of the first later one. */
  predicate PointPlace(points: seq<Point>, time: U64, i: nat) {
    && i <= |points| && (forall j :: 0 <= j < i ==> points[j].time <= time)
    && (i < |points| ==> time < points[i].time)
  }

  lemma InsertPoint(points: seq<Point>, items: seq<Item>, time: U64, i: nat)
    requires TimesAscend(points) && Sorted(points, items) && Covered(points, items)
    requires PointPlace(points, time, i) && !HasPoint(points, time)
    ensures var points' := points[..i] + [NewPoint(time)] + points[i..];
            && TimesAscend(points') && Sorted(points', items) && Covered(points', items) && points'[i].time == time
  {
    hide NewPoint, PointHolds, Covered;
    var p := NewPoint(time);
    var points' := points[..i] + [p] + points[i..];
    forall k | 0 <= k < MAPS ensures PointHolds(p, items, k) {
      NewPointHolds(points, items, time, k);
    }
    StillCovered(points, items, p, i);
    forall n, k | 0 <= n < |points'| && 0 <= k < MAPS ensures PointHolds(points'[n], items, k) {
      assert n < i ==> points'[n] == points[n];
      assert i < n ==> points'[n] == points[n - 1];
    }
  }

  /** No item has the time of a new point. */
  lemma NewPointHolds(points: seq<Point>, items: seq<Item>, time: U64, k: nat)
    requires Covered(points, items) && !HasPoint(points, time) && k < MAPS
    ensures PointHolds(NewPoint(time), items, k)
  {
    forall n | 0 <= n < |items| ensures items[n].time != time {
      assert items[n] in items;
    }
    FilterNone(items, time, k);
  }

  lemma StillCovered(points: seq<Point>, items: seq<Item>, p: Point, i: nat)
    requires Covered(points, items) && i <= |points|
    ensures Covered(points[..i] + [p] + points[i..], items)
  {
    var points' := points[..i] + [p] + points[i..];
    forall x | x in items ensures HasPoint(points', x.time) {
      var n :| 0 <= n < |points| && points[n].time == x.time;
      assert points'[if n < i then n else n + 1] == points[n];
    }
  }

  /** The map that an item belongs to gets it; no other map of any point changes what it should hold. */
  lemma StoreItem(points: seq<Point>, items: seq<Item>, x: Item, i: nat, k: nat)
    requires TimesAscend(points) && Sorted(points, items) && Covered(points, items)
    requires i < |points| && points[i].time == x.time && MapIndex(x.kind) == Some(k)
    requires points[i].Ok()
    ensures var p := points[i];
            var points' := points[i := p.(prepared := true, maps := p.maps[k := p.maps[k].Appended(x)])];
            && TimesAscend(points') && Sorted(points', items + [x]) && Covered(points', items + [x])
  {
    var p := points[i];
    var p' := p.(prepared := true, maps := p.maps[k := p.maps[k].Appended(x)]);
    var points' := points[i := p'];
    forall n, m | 0 <= n < |points'| && 0 <= m < MAPS ensures PointHolds(points'[n], items + [x], m) {
      assert PointHolds(points[n], items, m);
      FilterNext(items, x, points[n].time, m);
      MapIndexInverse(x.kind, m);
      ItemTimesNext(items, x);
    }
    hide PointHolds;
    forall y | y in items + [x] ensures HasPoint(points', y.time) {
      if y in items {
        var n :| 0 <= n < |points| && points[n].time == y.time;
        assert points'[n].time == y.time;
      } else {
        assert points'[i].time == y.time;
      }
    }
  }

  datatype ArrayState = UseBuffer | Allocated

  class Detection {
    var state: ArrayState
    var points: seq<Point>
    /** The items that the points should hold. */
    ghost var items: seq<Item>

    /** The only point is the placeholder that no volume has been assigned to. */
    predicate Blank()
      reads this
    {
      state == UseBuffer && |points| > 0 && points[|points| - 1].time >= U64_MAX
    }

    ghost predicate Valid()
      reads this
    {
      && |points| > 0 && (state == UseBuffer ==> |points| == 1)
      && TimesAscend(points) && Sorted(points, items) && Covered(points, items)
    }

    /** ssdfs_fsck_init_detection_result; the time may come from a snapshot segment found before. */
    constructor (time: U64)
      ensures Valid() && items == [] && (Blank() <==> time == U64_MAX)
    {
      state, points, items := UseBuffer, [NewPoint(time)], [];
    }

    /** ssdfs_fsck_find_creation_point */
    method FindPoint(time: U64) returns (r: Option<nat>)
      requires Valid()
      ensures match r case Some(i) => i < |points| && points[i].time == time case None => !HasPoint(points, time)
    {
      for i := 0 to |points|
        invariant forall j :: 0 <= j < i ==> points[j].time != time
      {
        if points[i].time == time {
          return Some(i);
        }
      }
      return None;
    }

    /** ssdfs_fsck_add_creation_point: a blank placeholder is taken over, with whatever it held lost. */
    method AddPoint(time: U64)
      requires Valid() && !HasPoint(points, time)
      modifies this
      ensures Valid() && HasPoint(points, time) && !Blank()
      ensures items == if old(Blank()) then [] else old(items)
      ensures Times(points) == (if old(Blank()) then {} else old(Times(points))) + {time}
    {
      if state == UseBuffer {
        if points[|points| - 1].time >= U64_MAX {
          points, items := points[|points| - 1 := NewPoint(time)], [];
          assert points[0].time == time;
          return;
        }
        state := Allocated;
      }
      var i := 0;
      while i < |points|
        invariant i <= |points| && forall j :: 0 <= j < i ==> points[j].time <= time
      {
        if time < points[i].time {
          break;
        }
        i := i + 1;
      }
      InsertPoint(points, items, time, i);
      TimesInsert(points, i, NewPoint(time));
      points := points[..i] + [NewPoint(time)] + points[i..];
      assert points[i].time == time;
    }

    /** ssdfs_fsck_process_metadata_map_item */
    method ProcessItem(x: Item) returns (st: Status)
      requires Valid()
      modifies this
      ensures Valid() && (Blank() <==> old(Blank()) && x.time == U64_MAX)
      ensures st == if Known(x.kind) then Success else Error(EINVAL)
      ensures items ==
                (if old(Blank()) && x.time != U64_MAX then [] else old(items)) + if st == Success then [x] else []
      ensures Times(points) == (if old(Blank()) && x.time != U64_MAX then {} else old(Times(points))) + {x.time}
    {
      hide Sorted, Covered, Times, Known, MapIndex;
      KnownIff(x.kind);
      var at := FindPoint(x.time);
      if at.None? {
        AddPoint(x.time);
        at := FindPoint(x.time);
        assert at.Some?;
      } else {
        TimeIn(points, at.value);
      }
      var k := MapIndex(x.kind);
      if k.None? {
        return Error(EINVAL);
      }
      var p := PointAt(at.value);
      TimesReplace(points, at.value, p.(prepared := true, maps := p.maps[k.value := p.maps[k.value].Appended(x)]));
      StoreItem(points, items, x, at.value, k.value);
      points := points[at.value := p.(prepared := true, maps := p.maps[k.value := p.maps[k.value].Appended(x)])];
      items := items + [x];
      return Success;
    }

    method PointAt(i: nat) returns (p: Point)
      requires Valid() && i < |points|
      ensures p == points[i] && p.Ok()
    {
      assert PointHolds(points[i], items, 0);
      return points[i];
    }
  }

  predicate HasReal(items: seq<Item>) {
    exists i :: 0 <= i < |items| && items[i].time != U64_MAX
  }

  /** The items behind the leading ones with time U64_MAX. */
  function AfterMax(items: seq<Item>): seq<Item> {
    if items == [] || items[0].time != U64_MAX then items else AfterMax(items[1..])
  }

  /** What is kept of a run of items: with a blank placeholder, leading items with time U64_MAX are lost. */
  function Kept(blank: bool, items: seq<Item>): seq<Item> {
    if blank && HasReal(items) then AfterMax(items) else items
  }

  /** Nothing is lost, unless a run that starts with time U64_MAX meets a real time behind a blank placeholder. */
  lemma KeptIff(blank: bool, items: seq<Item>)
    ensures Kept(blank, items) == items <==> !(blank && items != [] && items[0].time == U64_MAX && HasReal(items))
  {
    if items != [] && items[0].time == U64_MAX {
      AfterMaxShorter(items[1..]);
    }
  }

  lemma {:induction false} AfterMaxShorter(items: seq<Item>)
    ensures |AfterMax(items)| <= |items|
  {
    if items != [] && items[0].time == U64_MAX {
      AfterMaxShorter(items[1..]);
    }
  }

  lemma {:induction false} AfterMaxNext(items: seq<Item>, x: Item)
    ensures HasReal(items) ==> AfterMax(items + [x]) == AfterMax(items) + [x]
    ensures !HasReal(items) && x.time != U64_MAX ==> AfterMax(items + [x]) == [x]
  {
    if items != [] && items[0].time == U64_MAX {
      AfterMaxNext(items[1..], x);
      assert (items + [x])[1..] == items[1..] + [x];
      if HasReal(items) {
        var i :| 0 <= i < |items| && items[i].time != U64_MAX;
        assert items[1..][i - 1].time != U64_MAX;
      }
    } else if items == [] {
      assert items + [x] == [x];
    } else {
      assert (items + [x])[0] == items[0];
    }
  }

  lemma KeptNext(blank: bool, items: seq<Item>, x: Item)
    ensures Kept(blank, items + [x]) ==
              (if blank && !HasReal(items) && x.time != U64_MAX then [] else Kept(blank, items)) + [x]
    ensures HasReal(items + [x]) <==> HasReal(items) || x.time != U64_MAX
  {
    AfterMaxNext(items, x);
    if HasReal(items) {
      var i :| 0 <= i < |items| && items[i].time != U64_MAX;
      assert (items + [x])[i].time != U64_MAX;
    }
    if x.time != U64_MAX {
      assert (items + [x])[|items|].time != U64_MAX;
    }
  }

  /** The creation times of the items kept, and the initial one unless it was a placeholder that was taken over. */
  function KeptTimes(blank: bool, items: seq<Item>, initial: set<U64>): set<U64> {
    ItemTimes(Kept(blank, items)) + if blank && HasReal(items) then {} else initial
  }

  lemma KeptTimesNext(blank: bool, items: seq<Item>, x: Item, initial: set<U64>)
    ensures KeptTimes(blank, items + [x], initial) ==
              {x.time} +
              if blank && !HasReal(items) && x.time != U64_MAX then {} else KeptTimes(blank, items, initial)
  {
    KeptNext(blank, items, x);
    ItemTimesNext(Kept(blank, items), x);
    ItemTimesNext([], x);
    hide Kept, HasReal, ItemTimes;
    assert ItemTimes([]) == {} by { NoTimes(); }
  }

  lemma KeptStep(blank: bool, all: seq<Item>, i: nat, initial: set<U64>)
    requires i < |all|
    ensures var init, next, x := all[..i], all[..i + 1], all[i];
            var first := blank && !HasReal(init) && x.time != U64_MAX;
            && Kept(blank, next) == (if first then [] else Kept(blank, init)) + [x]
            && KeptTimes(blank, next, initial) == (if first then {} else KeptTimes(blank, init, initial)) + {x.time}
            && (HasReal(next) <==> HasReal(init) || x.time != U64_MAX)
  {
    hide KeptTimes, Kept, HasReal;
    assert all[..i + 1] == all[..i] + [all[i]];
    KeptNext(blank, all[..i], all[i]);
    KeptTimesNext(blank, all[..i], all[i], initial);
  }

  lemma NoTimes()
    ensures ItemTimes([]) == {}
  {
  }

  lemma NothingKept(blank: bool, items: seq<Item>, initial: set<U64>)
    requires items == []
    ensures Kept(blank, items) == [] && KeptTimes(blank, items, initial) == initial && !HasReal(items)
  {
  }

  lemma ValidHolds(d: Detection)
    requires d.Valid()
    ensures TimesAscend(d.points) && Covered(d.points, d.items)
    ensures forall i, k :: 0 <= i < |d.points| && 0 <= k < MAPS ==> PointHolds(d.points[i], d.items, k)
  {
    hide TimesAscend, Covered, PointHolds;
  }

  /**
   * ssdfs_fsck_process_thread_metadata_map over all scanned items: the points are in strictly ascending order
   * of time, every item kept has its point, and map k of each point is exactly the subsequence of the items kept
   * that belong to segments of type k; there is no point for any other time but the initial one. All items are
   * processed unless one has an unknown type.
   */
  method ProcessItems(d: Detection, all: seq<Item>) returns (st: Status)
    requires d.Valid() && d.items == []
    modifies d
    ensures st == Success <==> forall i :: 0 <= i < |all| ==> Known(all[i].kind)
    ensures st == Success ==>
              var kept := Kept(old(d.Blank()), all);
              && TimesAscend(d.points) && Covered(d.points, kept)
              && Times(d.points) == KeptTimes(old(d.Blank()), all, old(Times(d.points)))
              && (forall i, k :: 0 <= i < |d.points| && 0 <= k < MAPS ==> PointHolds(d.points[i], kept, k))
  {
    hide Times, KeptTimes, Kept, HasReal, TimesAscend, Covered, PointHolds, Known, Detection.Valid, Detection.Blank;
    ghost var blank, times0 := d.Blank(), Times(d.points);
    NothingKept(blank, all[..0], times0);
    var i := 0;
    while i < |all|
      invariant i <= |all| && d.Valid() && d.items == Kept(blank, all[..i])
      invariant d.Blank() <==> blank && !HasReal(all[..i])
      invariant Times(d.points) == KeptTimes(blank, all[..i], times0)
      invariant forall j :: 0 <= j < i ==> Known(all[j].kind)
    {
      KeptStep(blank, all, i, times0);
      st := d.ProcessItem(all[i]);
      if st != Success {
        return;
      }
      i := i + 1;
    }
    assert all[..i] == all;
    ValidHolds(d);
    st := Success;
  }

  /** What is lost has no real time: the items of every real time are all kept. */
  lemma {:induction false} FilterAfterMax(items: seq<Item>, time: U64, k: nat)
    requires time != U64_MAX
    ensures Filter(AfterMax(items), time, k) == Filter(items, time, k)
    ensures forall x :: x in items && x.time != U64_MAX ==> x in AfterMax(items)
  {
    if items != [] && items[0].time == U64_MAX {
      FilterAfterMax(items[1..], time, k);
      FilterTail(items, time, k);
    }
  }

  lemma {:induction false} FilterTail(items: seq<Item>, time: U64, k: nat)
    requires items != [] && items[0].time != time
    ensures Filter(items, time, k) == Filter(items[1..], time, k)
  {
    if |items| > 1 {
      var n := |items| - 1;
      FilterTail(items[..n], time, k);
      assert items[..n][1..] == items[1..][..n - 1];
    }
  }

  lemma {:induction false} FilterNothing(items: seq<Item>, time: U64)
    ensures Filter(items, time, 0) == []
  {
    if items != [] { FilterNothing(items[..|items| - 1], time); }
  }
}
