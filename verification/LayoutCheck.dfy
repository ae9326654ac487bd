/**
 * The check that mkfs.ssdfs makes of the whole layout before anything is written: every extent inside
 * its PEB and the volume, extents in order with gaps below one page, no page claimed twice.
 */
module LayoutCheck {
  import opened Types
  import opened Rounding
  import opened LogImage
  import opened VolumeWriter

  /** struct ssdfs_segment_desc, reduced to the PEBs to be written and whether it is the initial snapshot. */
  datatype Segment = Segment(initialSnapshot: bool, pebs: seq<PebContent>)

  datatype Volume = Volume(fsSize: U64, segSize: U64, eraseSize: U32, pageSize: U32, segs: seq<Segment>)
  {
    /** What the creation options are checked for, before the zone size of a zoned device replaces the erase size. */
    predicate Valid() {
      && RESERVED_VBR_SIZE < pageSize < eraseSize < U32_MAX && eraseSize % pageSize == 0
      && fsSize < U64_MAX && fsSize % eraseSize == 0
    }

    function FsBlks(): nat
      requires Valid()
    {
      PageOf(fsSize, pageSize)
    }

    /** An extent inside the volume and inside its erase block. */
    predicate ExtentFits(pebId: U64, e: Extent)
      requires Valid()
    {
      e.Extent? ==>
        && pebId < U64_MAX / eraseSize
        && e.data != []
        && PebStart(pebId, eraseSize) + e.offset + |e.data| <= fsSize
        && e.offset + |e.data| <= eraseSize
    }

    predicate PebAcceptable(peb: PebContent)
      requires Valid()
    {
      && WellPlaced(peb.extents, pageSize, eraseSize)
      && forall i :: 0 <= i < |peb.extents| ==> ExtentFits(peb.pebId, peb.extents[i])
    }

    function FirstBlk(peb: PebContent): nat
      requires Valid()
    {
      PageOf(PebStart(peb.pebId, eraseSize) + FirstPage(peb.extents, pageSize), pageSize)
    }

    /** Number of pages from the page of the log's first byte to the page of its last byte. */
    function Blks(peb: PebContent): nat
      requires Valid()
    {
      var first, end := FirstPage(peb.extents, pageSize), End(peb.extents, 0);
      if first <= end then PageOf(RoundUp(end - first, pageSize), pageSize) else 0
    }

    predicate OnPage(peb: PebContent, blk: nat)
      requires Valid()
    {
      FirstBlk(peb) <= blk < FirstBlk(peb) + Blks(peb)
    }

    predicate SharePage(peb: PebContent, peb': PebContent)
      requires Valid()
    {
      FirstBlk(peb) < FirstBlk(peb') + Blks(peb') && FirstBlk(peb') < FirstBlk(peb) + Blks(peb)
    }

    predicate PebsAcceptable(pebs: seq<PebContent>)
      requires Valid()
    {
      && (forall i :: 0 <= i < |pebs| ==> PebAcceptable(pebs[i]))
      && (forall i, j :: 0 <= i < j < |pebs| ==> !SharePage(pebs[i], pebs[j]))
    }

    function SegmentBlks(pebs: seq<PebContent>): nat
      requires Valid()
    {
      if pebs == [] then 0 else SegmentBlks(pebs[..|pebs| - 1]) + Blks(pebs[|pebs| - 1])
    }

    predicate SegmentFits(i: nat)
      requires Valid() && i < |segs|
    {
      SegmentBlks(segs[i].pebs) <= PageOf(segSize, pageSize)
    }

    predicate Acceptable()
      requires Valid()
    {
      && PebsAcceptable(AllPebs(segs))
      && forall i :: 0 <= i < |segs| ==> SegmentFits(i)
    }
  }

  function AllPebs(segs: seq<Segment>): seq<PebContent> {
    if segs == [] then [] else AllPebs(segs[..|segs| - 1]) + segs[|segs| - 1].pebs
  }

  /** check_extent_before_write */
  method CheckExtentBeforeWrite(v: Volume, pebId: U64, e: Extent) returns (st: Status)
    requires v.Valid()
    ensures st == Success <==> v.ExtentFits(pebId, e)
    ensures st == Error(ERANGE) <==>
              && e.Extent? && pebId < U64_MAX / v.eraseSize && e.data != []
              && PebStart(pebId, v.eraseSize) + e.offset + |e.data| <= v.fsSize
              && e.offset + |e.data| > v.eraseSize
    ensures st == Error(E2BIG) ==> e.Extent? && PebStart(pebId, v.eraseSize) + e.offset + |e.data| >= v.fsSize
    ensures st == Success || st == Bug || st == Error(ERANGE) || st == Error(E2BIG)
  {
    if e.Absent? {
      return Success;
    }
    var Extent(offset, data) := e;
    var size := |data|;
    if U64_MAX / v.eraseSize <= pebId {
      return Bug;
    }
    var pebStart := PebStart(pebId, v.eraseSize);
    if pebStart >= v.fsSize {
      return Error(E2BIG);
    }
    if pebStart >= U64_MAX - offset {
      return Bug;
    }
    if pebStart + offset >= v.fsSize {
      return Error(E2BIG);
    }
    if size == 0 || pebStart + offset >= U64_MAX - size {
      return Bug;
    }
    if pebStart + offset + size > v.fsSize {
      return Error(E2BIG);
    }
    if offset + size > v.eraseSize {
      return Error(ERANGE);
    }
    return Success;
  }

  lemma {:induction false} FirstIs(exts: seq<Extent>, i: nat)
    requires i < |exts| && exts[i].Extent? && !HasAny(exts[..i])
    ensures First(exts) == exts[i].offset
  {
    if i > 0 {
      assert !exts[..i][0].Extent?;
      assert exts[1..][..i - 1] == exts[..i][1..];
      FirstIs(exts[1..], i - 1);
    }
  }

  /** What the loop of check_peb_before_write knows after `i` extents. */
  predicate Scanned(v: Volume, peb: PebContent, i: nat, startOffset: U32, payloadSize: U32)
    requires v.Valid()
  {
    var exts, from := peb.extents, FirstPage(peb.extents, v.pageSize);
    && i <= |exts|
    && (forall k :: 0 <= k < i ==> v.ExtentFits(peb.pebId, exts[k]))
    && Chained(exts[..i], v.pageSize, from)
    && if HasAny(exts[..i])
       then
         && startOffset == First(exts) && startOffset < v.eraseSize
         && startOffset + payloadSize == End(exts[..i], from) <= v.eraseSize
       else startOffset == payloadSize == U32_MAX
  }

  lemma ScanAbsent(v: Volume, peb: PebContent, i: nat, startOffset: U32, payloadSize: U32)
    requires v.Valid() && Scanned(v, peb, i, startOffset, payloadSize)
    requires i < |peb.extents| && peb.extents[i].Absent?
    ensures Scanned(v, peb, i + 1, startOffset, payloadSize)
  {
    SameAny(peb.extents, i);
    assert peb.extents[..i + 1][..i] == peb.extents[..i];
  }

  lemma ScanFirst(v: Volume, peb: PebContent, i: nat)
    requires v.Valid() && Scanned(v, peb, i, U32_MAX, U32_MAX)
    requires i < |peb.extents| && peb.extents[i].Extent? && v.ExtentFits(peb.pebId, peb.extents[i])
    ensures Scanned(v, peb, i + 1, peb.extents[i].offset, |peb.extents[i].data|)
  {
    var exts := peb.extents;
    FirstIs(exts, i);
    NoneEnd(exts[..i], v.pageSize, FirstPage(exts, v.pageSize));
    assert exts[..i + 1][..i] == exts[..i];
    assert exts[..i + 1][i].Extent?;
  }

  /** A further extent is accepted exactly when it continues the chain. */
  lemma ScanNext(v: Volume, peb: PebContent, i: nat, startOffset: U32, payloadSize: U32)
    requires v.Valid() && Scanned(v, peb, i, startOffset, payloadSize)
    requires !(startOffset == U32_MAX && payloadSize == U32_MAX)
    requires i < |peb.extents| && peb.extents[i].Extent? && v.ExtentFits(peb.pebId, peb.extents[i])
    ensures var e, cur := peb.extents[i], startOffset + payloadSize;
            if cur <= e.offset < cur + v.pageSize
            then Scanned(v, peb, i + 1, startOffset, e.offset + |e.data| - startOffset)
            else !Chained(peb.extents, v.pageSize, FirstPage(peb.extents, v.pageSize))
  {
    var exts, from := peb.extents, FirstPage(peb.extents, v.pageSize);
    assert exts[..i + 1][..i] == exts[..i];
    assert exts[..i + 1][i].Extent?;
    if Chained(exts, v.pageSize, from) {
      ChainPrefix(exts, v.pageSize, from, i + 1);
    }
    EndAtLeast(exts[..i], v.pageSize, from);
  }

  /** The loop of check_peb_before_write over the extents. */
  method CheckExtents(v: Volume, peb: PebContent) returns (st: Status, startOffset: U32, payloadSize: U32)
    requires v.Valid()
    ensures st == Success <==>
              && Chained(peb.extents, v.pageSize, FirstPage(peb.extents, v.pageSize))
              && forall i :: 0 <= i < |peb.extents| ==> v.ExtentFits(peb.pebId, peb.extents[i])
    ensures st != Success && (forall i :: 0 <= i < |peb.extents| ==> v.ExtentFits(peb.pebId, peb.extents[i])) ==>
              st == Error(ERANGE)
    ensures st == Success ==> Scanned(v, peb, |peb.extents|, startOffset, payloadSize)
  {
    startOffset, payloadSize := U32_MAX, U32_MAX;
    var i := 0;
    while i < |peb.extents|
      invariant Scanned(v, peb, i, startOffset, payloadSize)
    {
      var desc := peb.extents[i];
      if desc.Absent? {
        ScanAbsent(v, peb, i, startOffset, payloadSize);
      } else {
        st := CheckExtentBeforeWrite(v, peb.pebId, desc);
        if st != Success {
          return;
        }
        if startOffset == U32_MAX && payloadSize == U32_MAX {
          ScanFirst(v, peb, i);
          startOffset, payloadSize := desc.offset, |desc.data|;
        } else {
          ScanNext(v, peb, i, startOffset, payloadSize);
          var curOffset := startOffset + payloadSize;
          if curOffset > desc.offset {
            return Error(ERANGE), startOffset, payloadSize;
          }
          if desc.offset - curOffset >= v.pageSize {
            return Error(ERANGE), startOffset, payloadSize;
          }
          if curOffset != desc.offset {
            payloadSize := payloadSize + (desc.offset - curOffset);
          }
          payloadSize := payloadSize + |desc.data|;
        }
      }
      i := i + 1;
    }
    assert peb.extents[..i] == peb.extents;
    st := Success;
  }

  lemma SameAny(exts: seq<Extent>, i: nat)
    requires i < |exts| && exts[i].Absent?
    ensures HasAny(exts[..i + 1]) == HasAny(exts[..i])
  {
    if HasAny(exts[..i]) {
      var k :| 0 <= k < i && exts[..i][k].Extent?;
      assert exts[..i + 1][k].Extent?;
    }
    if HasAny(exts[..i + 1]) {
      var k :| 0 <= k < i + 1 && exts[..i + 1][k].Extent?;
      assert exts[..i][k].Extent?;
    }
  }

  lemma PagesInVolume(v: Volume, peb: PebContent)
    requires v.Valid() && v.PebAcceptable(peb)
    ensures v.FirstBlk(peb) + v.Blks(peb) <= v.FsBlks()
    ensures PebStart(peb.pebId, v.eraseSize) + v.eraseSize <= v.fsSize
  {
    var exts, p, e := peb.extents, v.pageSize, v.eraseSize;
    var base, first, end := PebStart(peb.pebId, e), FirstPage(exts, p), End(exts, 0);
    EndAtLeast(exts, p, first);
    EndOfAny(exts, 0, first);
    var i :| 0 <= i < |exts| && exts[i].Extent?;
    assert v.ExtentFits(peb.pebId, exts[i]);
    MultiplesApart(base, v.fsSize, e);
    PageCount(base, first, end, p, e);
    DivMonotone(base + e, v.fsSize, p);
  }

  /** A log inside [base, base + e) stays on the pages of that block. */
  lemma PageCount(base: nat, first: nat, end: nat, p: nat, e: nat)
    requires p > 0 && e % p == 0 && e > 0 && base % e == 0 && first % p == 0 && first <= end <= e
    ensures base % p == 0
    ensures (base + first) / p + RoundUp(end - first, p) / p <= (base + e) / p
  {
    AlignedBase(base, e, p);
    AddMultiple(base, first, p);
    SubMultiple(first, e, p);
    RoundUpMonotone(end - first, e - first, p);
    RoundUpUnique(e - first, p, e - first);
    AddMultiple(base, e, p);
    DivMonotone(RoundUp(end - first, p), e - first, p);
  }

  /** The bitmap loop of check_peb_before_write. */
  method ClaimBlks(bmap: array<bool>, startBlk: nat, blks: nat) returns (st: Status)
    requires startBlk + blks <= bmap.Length
    modifies bmap
    ensures st == Success <==> forall x :: startBlk <= x < startBlk + blks ==> !old(bmap[x])
    ensures st == Success || st == Error(EINVAL)
    ensures st == Success ==>
              forall x :: 0 <= x < bmap.Length ==> bmap[x] == (old(bmap[x]) || startBlk <= x < startBlk + blks)
  {
    var i := 0;
    while i < blks
      invariant i <= blks
      invariant forall x :: startBlk <= x < startBlk + i ==> !old(bmap[x])
      invariant forall x :: 0 <= x < bmap.Length ==> bmap[x] == (old(bmap[x]) || startBlk <= x < startBlk + i)
    {
      if bmap[startBlk + i] {
        return Error(EINVAL);
      }
      bmap[startBlk + i] := true;
      i := i + 1;
    }
    st := Success;
  }

  /** check_peb_before_write: the log is acceptable and none of its pages is claimed yet. */
  method CheckPebBeforeWrite(v: Volume, peb: PebContent, bmap: array<bool>) returns (st: Status, blks: nat)
    requires v.Valid() && bmap.Length == v.FsBlks()
    modifies bmap
    ensures st == Success <==>
              v.PebAcceptable(peb) && forall x :: 0 <= x < bmap.Length && v.OnPage(peb, x) ==> !old(bmap[x])
    ensures st != Success && v.PebAcceptable(peb) ==> st == Error(EINVAL)
    ensures st == Success ==>
              && blks == v.Blks(peb)
              && forall x :: 0 <= x < bmap.Length ==> bmap[x] == (old(bmap[x]) || v.OnPage(peb, x))
  {
    var startOffset, payloadSize;
    st, startOffset, payloadSize := CheckExtents(v, peb);
    if st != Success {
      return st, 0;
    }
    ScanResult(v, peb, startOffset, payloadSize);
    if startOffset == U32_MAX || payloadSize == U32_MAX || payloadSize == 0 {
      return Bug, 0;
    }
    PagesInVolume(v, peb);
    var alignedOffset := RoundDown(startOffset, v.pageSize);
    var alignedSize := payloadSize + (startOffset - alignedOffset);
    var startBlk := PageOf(PebStart(peb.pebId, v.eraseSize) + alignedOffset, v.pageSize);
    blks := PageOf(RoundUp(alignedSize, v.pageSize), v.pageSize);
    assert startBlk == v.FirstBlk(peb) && blks == v.Blks(peb);
    st := ClaimBlks(bmap, startBlk, blks);
  }

  lemma ScanResult(v: Volume, peb: PebContent, startOffset: U32, payloadSize: U32)
    requires v.Valid() && Scanned(v, peb, |peb.extents|, startOffset, payloadSize)
    ensures HasAny(peb.extents) ==>
              && v.PebAcceptable(peb) && startOffset == First(peb.extents) < v.eraseSize
              && 0 < payloadSize < U32_MAX && startOffset + payloadSize == End(peb.extents, 0)
    ensures !HasAny(peb.extents) ==> startOffset == U32_MAX
  {
    var exts, from := peb.extents, FirstPage(peb.extents, v.pageSize);
    assert exts[..|exts|] == exts;
    if HasAny(exts) {
      EndAtLeast(exts, v.pageSize, from);
      EndOfAny(exts, 0, from);
    }
  }

  lemma {:induction false} AllPebsPrefix(segs: seq<Segment>, i: nat)
    requires i <= |segs|
    ensures AllPebs(segs[..i]) <= AllPebs(segs)
  {
    if i < |segs| {
      var init := segs[..|segs| - 1];
      AllPebsPrefix(init, i);
      assert init[..i] == segs[..i];
    } else {
      assert segs[..i] == segs;
    }
  }

  /** The PEBs checked so far, inside segment `i`, are a prefix of all PEBs. */
  lemma PebsPrefix(segs: seq<Segment>, i: nat, j: nat)
    requires i < |segs| && j <= |segs[i].pebs|
    ensures AllPebs(segs[..i]) + segs[i].pebs[..j] <= AllPebs(segs)
    ensures AllPebs(segs[..i + 1]) == AllPebs(segs[..i]) + segs[i].pebs
  {
    AllPebsPrefix(segs, i + 1);
    assert segs[..i + 1][..i] == segs[..i];
  }

  lemma BlksPositive(v: Volume, peb: PebContent)
    requires v.Valid() && v.PebAcceptable(peb)
    ensures v.Blks(peb) > 0
  {
    var exts, from := peb.extents, FirstPage(peb.extents, v.pageSize);
    EndAtLeast(exts, v.pageSize, from);
    EndOfAny(exts, 0, from);
    var r := RoundUp(End(exts, 0) - from, v.pageSize);
    MultiplesApart(0, r, v.pageSize);
    DivMonotone(v.pageSize, r, v.pageSize);
    ModUnique(v.pageSize, v.pageSize, 1, 0);
  }

  ghost predicate Claimed(v: Volume, pebs: seq<PebContent>, x: nat)
    requires v.Valid()
  {
    exists k :: 0 <= k < |pebs| && v.OnPage(pebs[k], x)
  }

  /** Checking one more PEB against the bitmap is checking it against all PEBs before it. */
  lemma ClaimStep(v: Volume, done: seq<PebContent>, peb: PebContent)
    requires v.Valid() && v.PebsAcceptable(done)
    ensures v.PebsAcceptable(done + [peb]) <==>
              v.PebAcceptable(peb) && forall x :: 0 <= x < v.FsBlks() && v.OnPage(peb, x) ==> !Claimed(v, done, x)
  {
    var all := done + [peb];
    if v.PebsAcceptable(all) {
      assert all[|done|] == peb;
      forall x | 0 <= x < v.FsBlks() && v.OnPage(peb, x) ensures !Claimed(v, done, x) {
        if Claimed(v, done, x) {
          var k :| 0 <= k < |done| && v.OnPage(done[k], x);
          assert v.SharePage(all[k], all[|done|]);
          assert false;
        }
      }
    }
    if v.PebAcceptable(peb) && forall x :: 0 <= x < v.FsBlks() && v.OnPage(peb, x) ==> !Claimed(v, done, x) {
      forall i, j | 0 <= i < j < |all| ensures !v.SharePage(all[i], all[j]) {
        if j == |done| && v.SharePage(done[i], peb) {
          BlksPositive(v, peb);
          BlksPositive(v, done[i]);
          PagesInVolume(v, peb);
          var x := if v.FirstBlk(peb) <= v.FirstBlk(done[i]) then v.FirstBlk(done[i]) else v.FirstBlk(peb);
          assert v.OnPage(peb, x) && v.OnPage(done[i], x);
          assert Claimed(v, done, x);
          assert false;
        }
      }
    }
  }

  /** One PEB of check_layout_before_write, after the PEBs `done`. */
  method CheckNextPeb(v: Volume, ghost done: seq<PebContent>, peb: PebContent, bmap: array<bool>)
    returns (st: Status, blks: nat)
    requires v.Valid() && bmap.Length == v.FsBlks() && v.PebsAcceptable(done)
    requires forall x :: 0 <= x < bmap.Length ==> bmap[x] == Claimed(v, done, x)
    modifies bmap
    ensures st == Success <==> v.PebsAcceptable(done + [peb])
    ensures st == Success ==>
              && blks == v.Blks(peb)
              && forall x :: 0 <= x < bmap.Length ==> bmap[x] == Claimed(v, done + [peb], x)
  {
    ClaimStep(v, done, peb);
    ClaimedStep(v, done, peb);
    st, blks := CheckPebBeforeWrite(v, peb, bmap);
  }

  /** A segment fits exactly when its pages are no more bytes than the segment has. */
  lemma SegmentFitsIff(v: Volume, i: nat)
    requires v.Valid() && i < |v.segs|
    ensures v.SegmentFits(i) <==> v.SegmentBlks(v.segs[i].pebs) * v.pageSize <= v.segSize
  {
    hide Volume.SegmentBlks;
    var blks, pages := v.SegmentBlks(v.segs[i].pebs), PageOf(v.segSize, v.pageSize);
    if pages < blks {
      MulStep(pages, blks, v.pageSize);
    } else {
      MulMonotone(blks, pages, v.pageSize);
    }
  }

  /** Bytes of a log, from the start of its first page to its last byte. */
  function LogLength(v: Volume, peb: PebContent): nat
    requires v.Valid()
  {
    var first, end := FirstPage(peb.extents, v.pageSize), End(peb.extents, 0);
    if first <= end then end - first else 0
  }

  function LogBytes(v: Volume, pebs: seq<PebContent>): nat
    requires v.Valid()
  {
    if pebs == [] then 0 else LogBytes(v, pebs[..|pebs| - 1]) + LogLength(v, pebs[|pebs| - 1])
  }

  /** A log has as many pages as its bytes need. */
  lemma LogInBlks(v: Volume, peb: PebContent)
    requires v.Valid()
    ensures LogLength(v, peb) <= v.Blks(peb) * v.pageSize < LogLength(v, peb) + v.pageSize
  {
    var first, end := FirstPage(peb.extents, v.pageSize), End(peb.extents, 0);
    if first <= end {
      ExactPages(RoundUp(end - first, v.pageSize), v.pageSize);
    }
  }

  lemma AddPages(a: nat, b: nat, p: nat)
    ensures (a + b) * p == a * p + b * p
  {
  }

  /** The pages that are counted hold the logs: together they are not longer than the segment. */
  lemma {:induction false} LogsInBlks(v: Volume, pebs: seq<PebContent>)
    requires v.Valid()
    ensures LogBytes(v, pebs) <= v.SegmentBlks(pebs) * v.pageSize
  {
    var n := |pebs| - 1;
    if n >= 0 {
      LogsInBlks(v, pebs[..n]);
      LogInBlks(v, pebs[n]);
      AddPages(v.SegmentBlks(pebs[..n]), v.Blks(pebs[n]), v.pageSize);
    }
  }

  /** One segment of check_layout_before_write. */
  method CheckSegment(v: Volume, i: nat, bmap: array<bool>) returns (st: Status)
    requires v.Valid() && bmap.Length == v.FsBlks() && i < |v.segs|
    requires v.PebsAcceptable(AllPebs(v.segs[..i]))
    requires forall x :: 0 <= x < bmap.Length ==> bmap[x] == Claimed(v, AllPebs(v.segs[..i]), x)
    modifies bmap
    ensures st == Success ==>
              && v.PebsAcceptable(AllPebs(v.segs[..i + 1]))
              && v.SegmentFits(i)
              && forall x :: 0 <= x < bmap.Length ==> bmap[x] == Claimed(v, AllPebs(v.segs[..i + 1]), x)
    ensures st != Success ==> !v.PebsAcceptable(AllPebs(v.segs)) || (!v.SegmentFits(i) && st == Error(E2BIG))
  {
    hide Volume.PebsAcceptable, Claimed;
    var pebs := v.segs[i].pebs;
    ghost var done := AllPebs(v.segs[..i]);
    var segBlks, j := 0, 0;
    while j < |pebs|
      invariant j <= |pebs| && done == AllPebs(v.segs[..i]) + pebs[..j]
      invariant segBlks == v.SegmentBlks(pebs[..j])
      invariant v.PebsAcceptable(done)
      invariant forall x :: 0 <= x < bmap.Length ==> bmap[x] == Claimed(v, done, x)
    {
      PebsPrefix(v.segs, i, j + 1);
      var blks;
      st, blks := CheckNextPeb(v, done, pebs[j], bmap);
      done := done + [pebs[j]];
      assert done == AllPebs(v.segs[..i]) + pebs[..j + 1];
      if st != Success {
        NotAcceptablePrefix(v, done, AllPebs(v.segs));
        return;
      }
      assert pebs[..j + 1][..j] == pebs[..j];
      segBlks := segBlks + blks;
      j := j + 1;
    }
    assert pebs[..j] == pebs;
    PebsPrefix(v.segs, i, j);
    if segBlks > PageOf(v.segSize, v.pageSize) {
      return Error(E2BIG);
    }
    st := Success;
  }

  lemma NotAcceptablePrefix(v: Volume, pebs: seq<PebContent>, all: seq<PebContent>)
    requires v.Valid() && pebs <= all && !v.PebsAcceptable(pebs)
    ensures !v.PebsAcceptable(all)
  {
  }

  lemma ClaimedStep(v: Volume, done: seq<PebContent>, peb: PebContent)
    requires v.Valid()
    ensures forall x: nat :: Claimed(v, done + [peb], x) == (Claimed(v, done, x) || v.OnPage(peb, x))
  {
    var all := done + [peb];
    forall x: nat ensures Claimed(v, all, x) == (Claimed(v, done, x) || v.OnPage(peb, x)) {
      if Claimed(v, done, x) {
        var k :| 0 <= k < |done| && v.OnPage(done[k], x);
        assert v.OnPage(all[k], x);
      }
      if v.OnPage(peb, x) {
        assert v.OnPage(all[|done|], x);
      }
    }
  }

  /** check_layout_before_write accepts exactly the acceptable layouts. */
  method CheckLayoutBeforeWrite(v: Volume) returns (st: Status)
    requires v.Valid()
    ensures st == Success <==> v.Acceptable()
    ensures st != Success && v.PebsAcceptable(AllPebs(v.segs)) ==> st == Error(E2BIG)
  {
    var bmap := new bool[v.FsBlks()](_ => false);
    assert v.PebsAcceptable([]) && forall x: nat :: !Claimed(v, [], x);
    hide Volume.PebsAcceptable, Volume.SegmentFits, Volume.FsBlks, Claimed;
    var i := 0;
    while i < |v.segs|
      invariant i <= |v.segs|
      invariant v.PebsAcceptable(AllPebs(v.segs[..i]))
      invariant forall k :: 0 <= k < i ==> v.SegmentFits(k)
      invariant forall x :: 0 <= x < bmap.Length ==> bmap[x] == Claimed(v, AllPebs(v.segs[..i]), x)
    {
      st := CheckSegment(v, i, bmap);
      if st != Success {
        return;
      }
      i := i + 1;
    }
    assert v.segs[..i] == v.segs;
    st := Success;
  }
}
