/**
 * The whole-volume search of fsck (execute_whole_volume_search): threads scan the first page of every PEB, each in
 * a range of its own, and what they find is sorted into creation points.
 */
module VolumeSearch {
  import opened Types
  import opened Rounding
  import opened PebTypes
  import opened CreationPoints

  /** What the scan of a PEB meets at its start: no readable page, no segment header, or one. */
  datatype Scan =
    | Unreadable
    | Empty
    | Header(seg: U64, leb: U64, segType: U16, pebTime: U64, time: U64)

  /** The device, as the scan sees it. */
  type Device = U64 -> Scan

  /** ssdfs_fsck_metadata_map_add_peb_descriptor: the PEB type of a metadata segment. */
  function ScannedKind(segType: U16): (r: Option<nat>)
    ensures r.Some? <==> 0 < segType < MAPS
    ensures r.Some? ==> r.value == Seg2PebType(segType)
  {
    match segType
    case 2 => Some(INIT_SNAP_PEB)
    case 1 => Some(SBSEG_PEB)
    case 3 => Some(SEGBMAP_PEB)
    case 4 => Some(MAPTBL_PEB)
    case 5 => Some(LNODE_PEB)
    case 6 => Some(HNODE_PEB)
    case 7 => Some(IDXNODE_PEB)
    case _ => None
  }

  /** ssdfs_fsck_process_peb: PEBs without a header, and those of other segments, are passed over. */
  function ScanPeb(dev: Device, peb: U64): (r: seq<Item>)
    ensures var h := dev(peb);
            r == if h.Header? && 0 < h.segType < MAPS
                 then [Item(h.seg, h.leb, peb, Seg2PebType(h.segType), h.pebTime, h.time)] else []
  {
    var scan := dev(peb);
    if scan.Header? && ScannedKind(scan.segType).Some?
    then [Item(scan.seg, scan.leb, peb, ScannedKind(scan.segType).value, scan.pebTime, scan.time)]
    else []
  }

  /** The items that `n` PEBs from `from` on give. */
  function Scanned(dev: Device, from: nat, n: nat): seq<Item>
    requires from + n <= TWO64
  {
    if n == 0 then [] else Scanned(dev, from, n - 1) + ScanPeb(dev, from + n - 1)
  }

  lemma {:induction false} ScannedSplit(dev: Device, from: nat, a: nat, b: nat)
    requires from + a + b <= TWO64
    ensures Scanned(dev, from, a + b) == Scanned(dev, from, a) + Scanned(dev, from + a, b)
  {
    hide ScanPeb;
    if b > 0 {
      ScannedSplit(dev, from, a, b - 1);
      assert from + (a + b) - 1 == from + a + b - 1;
    }
  }

  /** ssdfs_fsck_process_peb_range: the scan of one thread. */
  method ScanRange(dev: Device, from: U64, n: nat) returns (found: MetaMap)
    requires from + n <= TWO64
    ensures found.Ok() && found.Contents() == Scanned(dev, from, n)
  {
    found := EMPTY_MAP;
    var i := 0;
    while i < n
      invariant i <= n && found.Ok() && found.Contents() == Scanned(dev, from, i)
    {
      var items := ScanPeb(dev, from + i);
      if items != [] {
        found := found.Appended(items[0]);
      }
      i := i + 1;
    }
  }

  /** PEBs of the volume that belong to one thread. */
  function PerThread(pebs: nat, threads: nat): nat
    requires 0 < threads
  {
    DivCeil(pebs, threads)
  }

  /** ssdfs_init_peb_environment: the PEBs of thread `i`, with its unsigned subtraction. */
  function RangeOf(pebs: nat, threads: nat, i: nat): (r: (nat, nat))
    requires 0 < threads
  {
    var per := PerThread(pebs, threads);
    var start := i * per % TWO64;
    (start, Min((pebs - start) % TWO64, per))
  }

  /** A thread that starts inside the volume, or at its end, stays inside; one behind the end scans a full range. */
  lemma RangeIs(pebs: nat, threads: nat, i: nat)
    requires pebs + threads <= U64_MAX && i < threads
    ensures var per := PerThread(pebs, threads);
            && RangeOf(pebs, threads, i).0 == i * per && i * per + per <= U64_MAX
            && RangeOf(pebs, threads, i).1 == if i * per <= pebs then Min(pebs - i * per, per) else per
  {
    var per := PerThread(pebs, threads);
    hide DivCeil;
    CeilBound(pebs, threads);
    MulStep(i, threads, per);
    hide PerThread;
    assert threads * per == per * threads;
    var start := i * per;
    assert start + per < pebs + threads;
    SmallRest(start);
    if start <= pebs {
      SmallRest(pebs - start);
    } else {
      WrappedMod(pebs - start);
    }
  }

  lemma CeilBound(pebs: nat, threads: nat)
    requires 0 < threads
    ensures pebs <= PerThread(pebs, threads) * threads < pebs + threads
  {
  }

  lemma SmallRest(x: nat)
    requires x < TWO64
    ensures x % TWO64 == x
  {
  }

  lemma WrappedMod(x: int)
    requires x < 0 && x + TWO64 > 0
    ensures x % TWO64 == x + TWO64
  {
  }

  /** Some thread reads a PEB behind the volume exactly when the last one starts behind its end. */
  lemma OutsideIff(pebs: nat, threads: nat)
    requires 0 < pebs && 0 < threads && pebs + threads <= U64_MAX
    ensures (exists i: nat :: i < threads && Outside(pebs, threads, i)) <==>
            (threads - 1) * PerThread(pebs, threads) > pebs
  {
    hide PerThread, Outside;
    var per := PerThread(pebs, threads);
    CeilBound(pebs, threads);
    forall i: nat | i < threads ensures Outside(pebs, threads, i) <==> i * per > pebs {
      OutsideIs(pebs, threads, i);
    }
    if (threads - 1) * per > pebs {
      assert Outside(pebs, threads, threads - 1);
    }
    forall i: nat | i < threads && i * per > pebs ensures (threads - 1) * per > pebs {
      MulMonotone(i, threads - 1, per);
    }
  }

  /** The thread reads a PEB that the volume does not have. */
  predicate Outside(pebs: nat, threads: nat, i: nat)
    requires 0 < threads
  {
    var r := RangeOf(pebs, threads, i);
    r.1 > 0 && r.0 + r.1 > pebs
  }

  lemma OutsideIs(pebs: nat, threads: nat, i: nat)
    requires 0 < pebs && pebs + threads <= U64_MAX && i < threads
    ensures Outside(pebs, threads, i) <==> i * PerThread(pebs, threads) > pebs
  {
    hide PerThread, RangeOf;
    CeilBound(pebs, threads);
    RangeIs(pebs, threads, i);
  }

  /** What the first `k` threads find, one after the other. */
  function Gathered(dev: Device, pebs: nat, threads: nat, k: nat): seq<Item>
    requires 0 < threads && pebs + threads <= U64_MAX && k <= threads
  {
    if k == 0 then []
    else
      RangeIs(pebs, threads, k - 1);
      var r := RangeOf(pebs, threads, k - 1);
      Gathered(dev, pebs, threads, k - 1) + Scanned(dev, r.0, r.1)
  }

  /** No PEB behind the volume is read, or none has a header of a metadata segment. */
  predicate NothingBehind(dev: Device, pebs: nat, threads: nat)
    requires 0 < threads && pebs <= U64_MAX
  {
    || (threads - 1) * PerThread(pebs, threads) <= pebs
    || forall peb: U64 :: pebs <= peb ==> ScanPeb(dev, peb) == []
  }

  lemma {:induction false} NothingThere(dev: Device, from: nat, n: nat, pebs: nat)
    requires pebs <= from && from + n <= TWO64 && forall peb: U64 :: pebs <= peb ==> ScanPeb(dev, peb) == []
    ensures Scanned(dev, from, n) == []
  {
    hide ScanPeb;
    if n > 0 {
      NothingThere(dev, from, n - 1, pebs);
    }
  }

  /** Whatever their number, the threads together find what a single scan of the volume finds, in its order. */
  lemma {:induction false} GatheredIs(dev: Device, pebs: nat, threads: nat, k: nat)
    requires 0 < threads && pebs + threads <= U64_MAX && k <= threads && NothingBehind(dev, pebs, threads)
    ensures var done := Min(k * PerThread(pebs, threads), pebs);
            Gathered(dev, pebs, threads, k) == Scanned(dev, 0, done)
  {
    hide PerThread, RangeOf, NothingBehind, Scanned;
    if k == 0 {
      ScannedNothing(dev, 0, k * PerThread(pebs, threads));
    } else {
      GatheredIs(dev, pebs, threads, k - 1);
      RangeIs(pebs, threads, k - 1);
      NextRange(dev, pebs, threads, k - 1);
    }
  }

  lemma ScannedNothing(dev: Device, from: nat, n: nat)
    requires from <= TWO64 && n == 0
    ensures Scanned(dev, from, n) == []
  {
  }

  lemma NextRange(dev: Device, pebs: nat, threads: nat, i: nat)
    requires i < threads && pebs + threads <= U64_MAX && NothingBehind(dev, pebs, threads)
    requires RangeOf(pebs, threads, i).0 + RangeOf(pebs, threads, i).1 <= TWO64
    ensures var per := PerThread(pebs, threads);
            Scanned(dev, 0, Min(i * per, pebs)) + Scanned(dev, RangeOf(pebs, threads, i).0, RangeOf(pebs, threads, i).1)
            == Scanned(dev, 0, Min((i + 1) * per, pebs))
  {
    hide PerThread, RangeOf, Scanned;
    var per := PerThread(pebs, threads);
    RangeIs(pebs, threads, i);
    assert (i + 1) * per == i * per + per;
    var start, n := i * per, RangeOf(pebs, threads, i).1;
    if start <= pebs {
      ScannedSplit(dev, 0, start, n);
    } else {
      MulMonotone(i, threads - 1, per);
      NothingThere(dev, start, n, pebs);
      assert Scanned(dev, 0, pebs) + [] == Scanned(dev, 0, pebs);
    }
  }

  /** The PEB belongs to a segment of the type given, of the volume created at the time given. */
  predicate BelongsTo(scan: Scan, time: U64, segType: nat) {
    scan.Header? && scan.segType == segType && scan.time == time
  }

  /** The PEBs, among the first `n`, of one type of segments of one volume. */
  function PebsOf(dev: Device, n: nat, time: U64, segType: nat): seq<nat>
    requires n <= TWO64
  {
    if n == 0 then []
    else PebsOf(dev, n - 1, time, segType) + if BelongsTo(dev(n - 1), time, segType) then [n - 1] else []
  }

  /** They are exactly the PEBs that belong there, in ascending order. */
  lemma {:induction false} PebsOfIs(dev: Device, n: nat, time: U64, segType: nat)
    requires n <= TWO64
    ensures forall peb: nat :: peb in PebsOf(dev, n, time, segType) <==> peb < n && BelongsTo(dev(peb), time, segType)
    ensures var r := PebsOf(dev, n, time, segType);
            forall i, j :: 0 <= i < j < |r| ==> r[i] < r[j] < n
  {
    if n > 0 {
      PebsOfIs(dev, n - 1, time, segType);
      var init, r := PebsOf(dev, n - 1, time, segType), PebsOf(dev, n, time, segType);
      assert r == init || r == init + [n - 1];
      forall i, j | 0 <= i < j < |r| ensures r[i] < r[j] < n {
        assert init[i] in PebsOf(dev, n - 1, time, segType);
        assert r[i] == init[i] < n - 1;
        if j < |init| {
          assert init[j] in PebsOf(dev, n - 1, time, segType);
          assert r[j] == init[j];
        } else {
          assert r[j] == n - 1;
        }
      }
    }
  }

  /** The PEBs that items name. */
  function Pebs(items: seq<Item>): (r: seq<nat>)
    ensures |r| == |items| && forall i :: 0 <= i < |items| ==> r[i] == items[i].peb
  {
    seq(|items|, i requires 0 <= i < |items| => items[i].peb)
  }

  /** Sorting what was scanned by segment type undoes the choice of the PEB type. */
  lemma {:induction false} FilterScanned(dev: Device, n: nat, time: U64, k: nat)
    requires n <= TWO64 && 0 < k < MAPS
    ensures Pebs(Filter(Scanned(dev, 0, n), time, k)) == PebsOf(dev, n, time, k)
  {
    hide Filter, ScanPeb, Pebs, BelongsTo;
    if n == 0 {
      NoPebs(time, k);
    } else {
      FilterScanned(dev, n - 1, time, k);
      FilterScan(Scanned(dev, 0, n - 1), dev, n - 1, time, k);
    }
  }

  lemma NoPebs(time: U64, k: nat)
    ensures Pebs(Filter([], time, k)) == []
  {
  }

  lemma FilterScan(items: seq<Item>, dev: Device, peb: U64, time: U64, k: nat)
    requires 0 < k < MAPS
    ensures Pebs(Filter(items + ScanPeb(dev, peb), time, k)) ==
              Pebs(Filter(items, time, k)) + if BelongsTo(dev(peb), time, k) then [peb] else []
  {
    hide ScanPeb, Filter, Seg2PebType, Pebs;
    if ScanPeb(dev, peb) == [] {
      assert items + [] == items;
    } else {
      var x := ScanPeb(dev, peb)[0];
      assert ScanPeb(dev, peb) == [x];
      FilterNext(items, x, time, k);
      PebsNext(Filter(items, time, k), x);
      if x.kind == Seg2PebType(k) { Seg2PebTypeInjective(dev(peb).segType, k); }
      assert Filter(items, time, k) + [] == Filter(items, time, k);
    }
  }

  lemma PebsNext(items: seq<Item>, x: Item)
    ensures Pebs(items + [x]) == Pebs(items) + [x.peb]
  {
  }

  /** Every scanned item is of a known type. */
  lemma {:induction false} RangeKnown(dev: Device, from: nat, n: nat)
    requires from + n <= TWO64
    ensures forall x :: x in Scanned(dev, from, n) ==> Known(x.kind)
  {
    hide ScanPeb, Seg2PebType;
    if n > 0 {
      RangeKnown(dev, from, n - 1);
    }
  }

  lemma {:induction false} GatheredKnown(dev: Device, pebs: nat, threads: nat, k: nat)
    requires 0 < threads && pebs + threads <= U64_MAX && k <= threads
    ensures forall x :: x in Gathered(dev, pebs, threads, k) ==> Known(x.kind)
  {
    hide PerThread, RangeOf, Known, Scanned;
    if k > 0 {
      GatheredKnown(dev, pebs, threads, k - 1);
      RangeIs(pebs, threads, k - 1);
      RangeKnown(dev, RangeOf(pebs, threads, k - 1).0, RangeOf(pebs, threads, k - 1).1);
    }
  }

  /** Every PEB with a metadata header has an item. */
  lemma {:induction false} ScannedAll(dev: Device, n: nat)
    requires n <= TWO64
    ensures forall peb: U64 :: peb < n && Metadata(dev(peb)) ==>
              exists x :: x in Scanned(dev, 0, n) && x.time == dev(peb).time
  {
    hide ScanPeb, Seg2PebType;
    if n > 0 {
      ScannedAll(dev, n - 1);
      if Metadata(dev(n - 1)) {
        assert ScanPeb(dev, n - 1)[0] in Scanned(dev, 0, n);
      }
    }
  }

  predicate Metadata(scan: Scan) {
    scan.Header? && 0 < scan.segType < MAPS
  }

  /** The point of every real time holds in map k exactly the PEBs whose headers name a segment of type k. */
  ghost predicate Found(points: seq<Point>, dev: Device, n: nat)
    requires n <= TWO64
  {
    && TimesAscend(points)
    && (forall i :: 0 <= i < |points| ==> points[i].Ok() && points[i].maps[0].Contents() == [])
    && (forall i, k :: 0 <= i < |points| && points[i].time != U64_MAX && 0 < k < MAPS && points[i].Ok() ==>
          Pebs(points[i].maps[k].Contents()) == PebsOf(dev, n, points[i].time, k))
    && (forall peb: U64 :: peb < n && Metadata(dev(peb)) && dev(peb).time != U64_MAX ==>
          HasPoint(points, dev(peb).time))
  }

  lemma FoundBy(points: seq<Point>, dev: Device, n: nat, blank: bool, kept: seq<Item>)
    requires n <= TWO64 && kept == Kept(blank, Scanned(dev, 0, n))
    requires TimesAscend(points) && Covered(points, kept)
    requires forall i, k :: 0 <= i < |points| && 0 <= k < MAPS ==> PointHolds(points[i], kept, k)
    ensures Found(points, dev, n)
  {
    hide TimesAscend, Filter, AfterMax, Scanned, HasReal, Pebs;
    var all := Scanned(dev, 0, n);
    forall i | 0 <= i < |points| ensures points[i].Ok() && points[i].maps[0].Contents() == [] {
      assert PointHolds(points[i], kept, 0);
      FilterNothing(kept, points[i].time);
    }
    forall i, k | 0 <= i < |points| && points[i].time != U64_MAX && 0 < k < MAPS && points[i].Ok()
      ensures Pebs(points[i].maps[k].Contents()) == PebsOf(dev, n, points[i].time, k)
    {
      assert PointHolds(points[i], kept, k);
      FilterAfterMax(all, points[i].time, k);
      FilterScanned(dev, n, points[i].time, k);
    }
    ScannedAll(dev, n);
    forall peb: U64 | peb < n && Metadata(dev(peb)) && dev(peb).time != U64_MAX
      ensures HasPoint(points, dev(peb).time)
    {
      var x :| x in all && x.time == dev(peb).time;
      FilterAfterMax(all, 0, 0);
      assert x in kept;
    }
  }

  /** The scans of all threads, gathered in the order of the threads. */
  method ScanAll(dev: Device, pebs: nat, threads: nat) returns (all: seq<Item>)
    requires 0 < threads && pebs + threads <= U64_MAX
    ensures all == Gathered(dev, pebs, threads, threads)
  {
    hide Scanned, RangeOf, PerThread, MetaMap.Contents, MetaMap.Ok;
    all := [];
    for i := 0 to threads
      invariant all == Gathered(dev, pebs, threads, i)
    {
      RangeIs(pebs, threads, i);
      var r := RangeOf(pebs, threads, i);
      var found := ScanRange(dev, r.0, r.1);
      all := all + found.Contents();
    }
  }

  /**
   * The whole-volume search, with any number of threads, succeeds whatever it meets. If no header is met behind the
   * volume, the points are in ascending order of time, there is one for every real time found, and its map k names
   * in order exactly the PEBs whose header names a segment of type k of the volume created then.
   */
  method SearchVolume(d: Detection, dev: Device, pebs: nat, threads: nat) returns (st: Status)
    requires d.Valid() && d.items == [] && 0 < threads && pebs + threads <= U64_MAX
    modifies d
    ensures st == Success
    ensures NothingBehind(dev, pebs, threads) ==> Found(d.points, dev, pebs)
  {
    hide Found, Detection.Valid, Detection.Blank, Kept, Times, KeptTimes, Scanned, PointHolds, TimesAscend, Covered,
      Known, Gathered, NothingBehind, PerThread;
    ghost var blank := d.Blank();
    var all := ScanAll(dev, pebs, threads);
    if NothingBehind(dev, pebs, threads) {
      GatheredIs(dev, pebs, threads, threads);
      CeilBound(pebs, threads);
      assert threads * PerThread(pebs, threads) == PerThread(pebs, threads) * threads;
    }
    GatheredKnown(dev, pebs, threads, threads);
    st := ProcessItems(d, all);
    if NothingBehind(dev, pebs, threads) {
      FoundBy(d.points, dev, pebs, blank, Kept(blank, all));
    }
  }
}
