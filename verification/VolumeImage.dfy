/** From an accepted layout to the bytes of the volume: check_layout_before_write, then write_segments. */
module VolumeImage {
  import opened Types
  import opened Rounding
  import opened Bytes
  import opened LogImage
  import opened VolumeWriter
  import opened LayoutCheck

  /** Bytes to be put on the volume at one place. */
  datatype Patch = Patch(at: nat, bytes: seq<Byte>)
  {
    predicate Covers(x: nat) {
      at <= x < at + |bytes|
    }
  }

  predicate Fit(patches: seq<Patch>, size: nat) {
    forall k :: 0 <= k < |patches| ==> patches[k].at + |patches[k].bytes| <= size
  }

  /** The volume after the patches have been put on it, in order. */
  function Apply(device: seq<Byte>, patches: seq<Patch>): (r: seq<Byte>)
    requires Fit(patches, |device|)
    ensures |r| == |device|
  {
    if patches == [] then device
    else
      var last := patches[|patches| - 1];
      Overlay(Apply(device, patches[..|patches| - 1]), last.at, last.bytes)
  }

  ghost predicate Disjoint(patches: seq<Patch>) {
    forall i, j, x :: 0 <= i < j < |patches| && patches[i].Covers(x) ==> !patches[j].Covers(x)
  }

  /** No later patch damages an earlier one. */
  lemma {:induction false} PatchSurvives(device: seq<Byte>, patches: seq<Patch>, i: nat, x: nat)
    requires Fit(patches, |device|) && Disjoint(patches)
    requires i < |patches| && x < |patches[i].bytes|
    ensures Apply(device, patches)[patches[i].at + x] == patches[i].bytes[x]
  {
    var n := |patches| - 1;
    if i < n {
      PatchSurvives(device, patches[..n], i, x);
      assert patches[i].Covers(patches[i].at + x);
      assert !patches[n].Covers(patches[i].at + x);
    }
  }

  /** Bytes outside every patch keep their old value. */
  lemma {:induction false} Untouched(device: seq<Byte>, patches: seq<Patch>, x: nat)
    requires Fit(patches, |device|) && x < |device|
    requires forall i :: 0 <= i < |patches| ==> !patches[i].Covers(x)
    ensures Apply(device, patches)[x] == device[x]
  {
    if patches != [] {
      var n := |patches| - 1;
      Untouched(device, patches[..n], x);
      assert !patches[n].Covers(x);
    }
  }

  /** The pages that write_peb puts at the start of a PEB. */
  function PatchOf(peb: PebContent, pageSize: nat, eraseSize: nat): Patch
    requires pageSize > 0
  {
    Patch(PebStart(peb.pebId, eraseSize), PebImage(peb, pageSize))
  }

  function PatchesOf(pebs: seq<PebContent>, pageSize: nat, eraseSize: nat): (r: seq<Patch>)
    requires pageSize > 0
    ensures |r| == |pebs|
  {
    if pebs == [] then []
    else PatchesOf(pebs[..|pebs| - 1], pageSize, eraseSize) + [PatchOf(pebs[|pebs| - 1], pageSize, eraseSize)]
  }

  lemma {:induction false} PatchAt(pebs: seq<PebContent>, pageSize: nat, eraseSize: nat, i: nat)
    requires pageSize > 0 && i < |pebs|
    ensures PatchesOf(pebs, pageSize, eraseSize)[i] == PatchOf(pebs[i], pageSize, eraseSize)
  {
    if i < |pebs| - 1 {
      PatchAt(pebs[..|pebs| - 1], pageSize, eraseSize, i);
    }
  }

  /** One sequential run of page writes per patch. */
  function RunsOf(patches: seq<Patch>, pageSize: nat): seq<Request>
    requires pageSize > 0
  {
    if patches == [] then []
    else
      var last := patches[|patches| - 1];
      RunsOf(patches[..|patches| - 1], pageSize) + SequentialRun(last.at, pageSize, |last.bytes| / pageSize)
  }

  /** An acceptable log that starts in the first page of its PEB. */
  predicate Writable(v: Volume, peb: PebContent)
    requires v.Valid()
  {
    v.PebAcceptable(peb) && First(peb.extents) < v.pageSize
  }

  predicate AllWritable(v: Volume, pebs: seq<PebContent>)
    requires v.Valid()
  {
    forall i {:trigger Writable(v, pebs[i])} :: 0 <= i < |pebs| ==> Writable(v, pebs[i])
  }

  /** A log that write_peb gets to the end of; `Writable` ones are put at their own place. */
  predicate Accepted(v: Volume, peb: PebContent)
    requires v.Valid()
  {
    v.PebAcceptable(peb) && Flushable(peb.extents, v.pageSize)
  }

  predicate AllAccepted(v: Volume, pebs: seq<PebContent>)
    requires v.Valid()
  {
    forall i {:trigger Accepted(v, pebs[i])} :: 0 <= i < |pebs| ==> Accepted(v, pebs[i])
  }

  predicate AllAcceptable(v: Volume, pebs: seq<PebContent>)
    requires v.Valid()
  {
    forall i {:trigger v.PebAcceptable(pebs[i])} :: 0 <= i < |pebs| ==> v.PebAcceptable(pebs[i])
  }

  lemma WritableAccepted(v: Volume, pebs: seq<PebContent>)
    requires v.Valid() && AllWritable(v, pebs)
    ensures AllAccepted(v, pebs)
  {
    hide Volume.PebAcceptable;
    forall i | 0 <= i < |pebs| ensures Accepted(v, pebs[i]) {
      assert Writable(v, pebs[i]);
    }
  }

  /** The pages written stay inside the erase block. */
  lemma PatchInBlock(v: Volume, peb: PebContent)
    requires v.Valid() && Accepted(v, peb)
    ensures |PebImage(peb, v.pageSize)| <= v.eraseSize && PebStart(peb.pebId, v.eraseSize) + v.eraseSize <= v.fsSize
  {
    hide Overlay, Padded;
    PagesInVolume(v, peb);
    PlacedFits(peb.extents, v.pageSize, v.eraseSize);
    if First(peb.extents) < v.pageSize {
      MultiplesApartZero(FirstPage(peb.extents, v.pageSize), v.pageSize);
    }
  }

  /** A writable log occupies exactly the pages it claimed in the check. */
  lemma ImageBounds(v: Volume, peb: PebContent)
    requires v.Valid() && Writable(v, peb)
    ensures |PebImage(peb, v.pageSize)| <= v.eraseSize
    ensures PebStart(peb.pebId, v.eraseSize) + v.eraseSize <= v.fsSize
    ensures PebStart(peb.pebId, v.eraseSize) == v.FirstBlk(peb) * v.pageSize
    ensures |PebImage(peb, v.pageSize)| == v.Blks(peb) * v.pageSize
    ensures Chained(peb.extents, v.pageSize, 0) && |Image(peb.extents, 0)| == End(peb.extents, 0)
  {
    var exts, p := peb.extents, v.pageSize;
    PagesInVolume(v, peb);
    MultiplesApartZero(FirstPage(exts, p), p);
    ImageLength(exts, p, 0);
    AlignedBase(PebStart(peb.pebId, v.eraseSize), v.eraseSize, p);
    RoundUpMonotone(|Image(exts, 0)|, v.eraseSize, p);
    RoundUpUnique(v.eraseSize, p, v.eraseSize);
    ExactPages(PebStart(peb.pebId, v.eraseSize), p);
    ExactPages(|PebImage(peb, p)|, p);
  }

  lemma DisjointPages(f1: nat, b1: nat, f2: nat, p: nat)
    requires f1 + b1 <= f2
    ensures f1 * p + b1 * p <= f2 * p
  {
    assert (f1 + b1) * p == f1 * p + b1 * p;
    if f1 + b1 < f2 { MulStep(f1 + b1, f2, p); }
  }

  /** Logs that share no page share no byte. */
  lemma DisjointBytes(v: Volume, a: PebContent, b: PebContent)
    requires v.Valid() && Writable(v, a) && Writable(v, b) && !v.SharePage(a, b)
    ensures var pa, pb := PatchOf(a, v.pageSize, v.eraseSize), PatchOf(b, v.pageSize, v.eraseSize);
            pa.at + |pa.bytes| <= pb.at || pb.at + |pb.bytes| <= pa.at
  {
    ImageBounds(v, a);
    ImageBounds(v, b);
    if v.FirstBlk(a) + v.Blks(a) <= v.FirstBlk(b) {
      DisjointPages(v.FirstBlk(a), v.Blks(a), v.FirstBlk(b), v.pageSize);
    } else {
      DisjointPages(v.FirstBlk(b), v.Blks(b), v.FirstBlk(a), v.pageSize);
    }
  }

  lemma AcceptedFit(v: Volume, pebs: seq<PebContent>)
    requires v.Valid() && AllAccepted(v, pebs)
    ensures Fit(PatchesOf(pebs, v.pageSize, v.eraseSize), v.fsSize)
  {
    hide Accepted;
    var patches := PatchesOf(pebs, v.pageSize, v.eraseSize);
    forall k | 0 <= k < |patches| ensures patches[k].at + |patches[k].bytes| <= v.fsSize {
      PatchAt(pebs, v.pageSize, v.eraseSize, k);
      assert Accepted(v, pebs[k]);
      PatchInBlock(v, pebs[k]);
    }
  }

  lemma WritableFit(v: Volume, pebs: seq<PebContent>)
    requires v.Valid() && AllWritable(v, pebs)
    ensures AllAccepted(v, pebs) && Fit(PatchesOf(pebs, v.pageSize, v.eraseSize), v.fsSize)
  {
    WritableAccepted(v, pebs);
    AcceptedFit(v, pebs);
  }

  lemma WritableDisjoint(v: Volume, pebs: seq<PebContent>)
    requires v.Valid() && AllWritable(v, pebs) && v.PebsAcceptable(pebs)
    ensures Disjoint(PatchesOf(pebs, v.pageSize, v.eraseSize))
  {
    var patches := PatchesOf(pebs, v.pageSize, v.eraseSize);
    forall i, j, x | 0 <= i < j < |patches| && patches[i].Covers(x) ensures !patches[j].Covers(x) {
      PatchAt(pebs, v.pageSize, v.eraseSize, i);
      PatchAt(pebs, v.pageSize, v.eraseSize, j);
      assert Writable(v, pebs[i]) && Writable(v, pebs[j]);
      DisjointBytes(v, pebs[i], pebs[j]);
    }
  }

  /** The whole volume after write_segments. */
  function Written(v: Volume, device: seq<Byte>): (r: seq<Byte>)
    requires v.Valid() && |device| == v.fsSize && AllAccepted(v, AllPebs(v.segs))
    ensures |r| == |device|
  {
    AcceptedFit(v, AllPebs(v.segs));
    Apply(device, PatchesOf(AllPebs(v.segs), v.pageSize, v.eraseSize))
  }

  /** The image of every log is on the volume, at the start of its PEB. */
  lemma LogOnVolume(v: Volume, device: seq<Byte>, i: nat, x: nat)
    requires v.Valid() && |device| == v.fsSize && v.PebsAcceptable(AllPebs(v.segs)) && AllWritable(v, AllPebs(v.segs))
    requires i < |AllPebs(v.segs)| && x < |PebImage(AllPebs(v.segs)[i], v.pageSize)|
    ensures AllAccepted(v, AllPebs(v.segs))
    ensures var peb := AllPebs(v.segs)[i];
            && peb.pebId * v.eraseSize + x < |Written(v, device)|
            && Written(v, device)[peb.pebId * v.eraseSize + x] == PebImage(peb, v.pageSize)[x]
  {
    hide PebImage, Writable, Accepted, Volume.PebsAcceptable, Apply;
    var pebs := AllPebs(v.segs);
    var patches := PatchesOf(pebs, v.pageSize, v.eraseSize);
    WritableFit(v, pebs);
    WritableDisjoint(v, pebs);
    PatchAt(pebs, v.pageSize, v.eraseSize, i);
    assert patches[i].at + |patches[i].bytes| <= |device|;
    PatchSurvives(device, patches, i, x);
  }

  /** Byte k of extent e of log i is at peb_id * erase_size + offset + k. */
  lemma ExtentOnVolume(v: Volume, device: seq<Byte>, i: nat, e: nat, k: nat)
    requires v.Valid() && |device| == v.fsSize && v.Acceptable() && AllWritable(v, AllPebs(v.segs))
    requires i < |AllPebs(v.segs)| && e < |AllPebs(v.segs)[i].extents|
    requires AllPebs(v.segs)[i].extents[e].Extent? && k < |AllPebs(v.segs)[i].extents[e].data|
    ensures AllAccepted(v, AllPebs(v.segs))
    ensures var peb := AllPebs(v.segs)[i];
            var at := peb.pebId * v.eraseSize + (peb.extents[e].offset + k);
            at < |Written(v, device)| && Written(v, device)[at] == peb.extents[e].data[k]
  {
    WritableFit(v, AllPebs(v.segs));
    var peb := AllPebs(v.segs)[i];
    var x := peb.extents[e].offset + k;
    assert x < |PebImage(peb, v.pageSize)| && PebImage(peb, v.pageSize)[x] == peb.extents[e].data[k] by {
      assert Writable(v, AllPebs(v.segs)[i]);
      ImageBounds(v, peb);
      ImageAtExtent(peb.extents, v.pageSize, 0, e, k);
    }
    LogOnVolume(v, device, i, x);
  }

  /** In the pages of log i every byte outside its extents is 0xFF. */
  lemma GapOnVolume(v: Volume, device: seq<Byte>, i: nat, x: nat)
    requires v.Valid() && |device| == v.fsSize && v.Acceptable() && AllWritable(v, AllPebs(v.segs))
    requires i < |AllPebs(v.segs)| && x < |PebImage(AllPebs(v.segs)[i], v.pageSize)|
    requires forall e :: 0 <= e < |AllPebs(v.segs)[i].extents| ==> !InExtent(AllPebs(v.segs)[i].extents[e], x)
    ensures AllAccepted(v, AllPebs(v.segs))
    ensures var at := AllPebs(v.segs)[i].pebId * v.eraseSize + x;
            at < |Written(v, device)| && Written(v, device)[at] == 0xFF
  {
    WritableFit(v, AllPebs(v.segs));
    var peb := AllPebs(v.segs)[i];
    assert PebImage(peb, v.pageSize)[x] == 0xFF by {
      assert Writable(v, AllPebs(v.segs)[i]);
      ImageBounds(v, peb);
      if x < |Image(peb.extents, 0)| {
        ImageAtGap(peb.extents, v.pageSize, 0, x);
      }
    }
    LogOnVolume(v, device, i, x);
  }

  /** A byte on no page claimed by the layout keeps its old value. */
  lemma OtherPagesUnchanged(v: Volume, device: seq<Byte>, x: nat)
    requires v.Valid() && |device| == v.fsSize && v.Acceptable() && AllWritable(v, AllPebs(v.segs))
    requires x < |device| && !Claimed(v, AllPebs(v.segs), PageOf(x, v.pageSize))
    ensures AllAccepted(v, AllPebs(v.segs))
    ensures |Written(v, device)| == |device| && Written(v, device)[x] == device[x]
  {
    var pebs := AllPebs(v.segs);
    var patches := PatchesOf(pebs, v.pageSize, v.eraseSize);
    WritableFit(v, pebs);
    forall i | 0 <= i < |patches| ensures !patches[i].Covers(x) {
      PatchAt(pebs, v.pageSize, v.eraseSize, i);
      assert Writable(v, pebs[i]);
      assert !v.OnPage(pebs[i], PageOf(x, v.pageSize));
      ImageBounds(v, pebs[i]);
      CoveredPage(v.FirstBlk(pebs[i]), v.Blks(pebs[i]), v.pageSize, x);
    }
    Untouched(device, patches, x);
  }

  lemma CoveredPage(f: nat, b: nat, p: nat, x: nat)
    requires p > 0
    ensures f * p <= x < f * p + b * p ==> f <= PageOf(x, p) < f + b
  {
    var n := PageOf(x, p);
    if n < f { MulStep(n, f, p); }
    if f + b <= n {
      DisjointPages(f, b, n, p);
    }
  }

  /** Zones left open on a zoned device: one per PEB written, except those of the initial snapshot. */
  function ZonesLeftOpen(segs: seq<Segment>): nat {
    if segs == [] then 0
    else
      var last := segs[|segs| - 1];
      ZonesLeftOpen(segs[..|segs| - 1]) + if last.initialSnapshot then 0 else |last.pebs|
  }

  ghost predicate Matches(w: Writer, v: Volume)
  {
    v.Valid() && w.Valid() && w.eraseSize == v.eraseSize && w.pageSize == v.pageSize
  }

  /** What the device held, and what had been asked of it, before the volume was written. */
  datatype Start = Start(device: seq<Byte>, requests: seq<Request>, openZones: nat)

  /** The logs `done` are on the device, written page after page, and nothing else has changed. */
  ghost predicate Applied(w: Writer, b: Start, done: seq<PebContent>, zones: nat)
    reads w
    requires w.Valid()
  {
    var patches := PatchesOf(done, w.pageSize, w.eraseSize);
    && Fit(patches, |b.device|)
    && w.device == Apply(b.device, patches)
    && w.requests == b.requests + RunsOf(patches, w.pageSize)
    && w.openZones == b.openZones + (if w.zoned then zones else 0)
    && w.bufOffset == 0
  }

  lemma PatchesNext(all: seq<PebContent>, n: nat, pageSize: nat, eraseSize: nat)
    requires n < |all| && pageSize > 0
    ensures var patches := PatchesOf(all[..n + 1], pageSize, eraseSize);
            |patches| == n + 1 && patches[..n] == PatchesOf(all[..n], pageSize, eraseSize)
            && patches[n] == PatchOf(all[n], pageSize, eraseSize)
  {
    assert all[..n + 1][..n] == all[..n];
  }

  lemma AcceptableParts(v: Volume, peb: PebContent)
    requires v.Valid() && v.PebAcceptable(peb)
    ensures WellPlaced(peb.extents, v.pageSize, v.eraseSize)
  {
  }

  /** One more patch, unfolded. */
  lemma ApplyNext(device: seq<Byte>, patches: seq<Patch>, n: nat, pageSize: nat)
    requires |patches| == n + 1 && pageSize > 0 && Fit(patches[..n], |device|)
    requires patches[n].at + |patches[n].bytes| <= |device|
    ensures Fit(patches, |device|)
    ensures Apply(device, patches) == Overlay(Apply(device, patches[..n]), patches[n].at, patches[n].bytes)
    ensures RunsOf(patches, pageSize) ==
              RunsOf(patches[..n], pageSize)
              + SequentialRun(patches[n].at, pageSize, |patches[n].bytes| / pageSize)
  {
    forall k | 0 <= k < |patches| ensures patches[k].at + |patches[k].bytes| <= |device| {
      assert k < n ==> patches[k] == patches[..n][k];
    }
  }

  /** One PEB of write_segments: the `n`-th of `all`. */
  method WriteNextPeb(w: Writer, ghost v: Volume, ghost b: Start, ghost all: seq<PebContent>, ghost n: nat,
                      ghost zones: nat, peb: PebContent, initialSnapshot: bool) returns (st: Status)
    requires Matches(w, v) && |b.device| == v.fsSize && v.PebAcceptable(peb)
    requires n < |all| && all[n] == peb && Applied(w, b, all[..n], zones)
    modifies w`bufOffset, w`device, w`requests, w`openZones, w.buffer
    ensures st == if Flushable(peb.extents, v.pageSize) then Success else Error(ERANGE)
    ensures st == Success ==> Applied(w, b, all[..n + 1], zones + if initialSnapshot then 0 else 1)
  {
    hide Placed, PebImage, AllErased, Overlay, SequentialRun, Volume.PebAcceptable, PatchesOf, Apply, RunsOf, Fit;
    PagesInVolume(v, peb);
    PatchesNext(all, n, w.pageSize, w.eraseSize);
    assert v.PebAcceptable(peb) && WellPlaced(peb.extents, w.pageSize, w.eraseSize) by { AcceptableParts(v, peb); }
    if Accepted(v, peb) {
      PatchInBlock(v, peb);
      ApplyNext(b.device, PatchesOf(all[..n + 1], w.pageSize, w.eraseSize), n, w.pageSize);
    }
    st := w.WritePeb(peb, initialSnapshot);
  }

  /** One segment of write_segments. */
  method WriteSegment(w: Writer, ghost v: Volume, ghost b: Start, ghost done: seq<PebContent>, ghost zones: nat,
                      seg: Segment) returns (st: Status)
    requires Matches(w, v) && Applied(w, b, done, zones) && |b.device| == v.fsSize && AllAcceptable(v, seg.pebs)
    modifies w`bufOffset, w`device, w`requests, w`openZones, w.buffer
    ensures st == if AllAccepted(v, seg.pebs) then Success else Error(ERANGE)
    ensures st == Success ==>
              Applied(w, b, done + seg.pebs, zones + if seg.initialSnapshot then 0 else |seg.pebs|)
  {
    hide Applied, Volume.PebAcceptable, Flushable;
    ghost var all, n, z := done + seg.pebs, |done|, zones;
    assert all[..n] == done;
    var j := 0;
    while j < |seg.pebs|
      invariant j <= |seg.pebs| && n == |done| + j && z == zones + if seg.initialSnapshot then 0 else j
      invariant Applied(w, b, all[..n], z) && forall i :: 0 <= i < j ==> Accepted(v, seg.pebs[i])
    {
      assert v.PebAcceptable(seg.pebs[j]);
      st := WriteNextPeb(w, v, b, all, n, z, seg.pebs[j], seg.initialSnapshot);
      if st != Success {
        assert !Accepted(v, seg.pebs[j]);
        return;
      }
      n, z := n + 1, z + if seg.initialSnapshot then 0 else 1;
      j := j + 1;
    }
    assert all[..n] == all;
    st := Success;
  }

  /** The PEBs of a segment are among all PEBs. */
  lemma SegmentPebs(v: Volume, i: nat)
    requires v.Valid() && i < |v.segs| && AllAcceptable(v, AllPebs(v.segs))
    ensures AllAcceptable(v, v.segs[i].pebs)
    ensures AllPebs(v.segs[..i + 1]) == AllPebs(v.segs[..i]) + v.segs[i].pebs
    ensures !AllAccepted(v, v.segs[i].pebs) ==> !AllAccepted(v, AllPebs(v.segs))
    ensures AllAccepted(v, AllPebs(v.segs[..i])) && AllAccepted(v, v.segs[i].pebs) ==>
              AllAccepted(v, AllPebs(v.segs[..i + 1]))
  {
    hide Volume.PebAcceptable, Accepted, AllPebs;
    PebsPrefix(v.segs, i, |v.segs[i].pebs|);
    var done, pebs, all := AllPebs(v.segs[..i]), v.segs[i].pebs, AllPebs(v.segs);
    assert pebs[..|pebs|] == pebs;
    AcceptedParts(v, done, pebs, all);
  }

  lemma AcceptedParts(v: Volume, done: seq<PebContent>, pebs: seq<PebContent>, all: seq<PebContent>)
    requires v.Valid() && done + pebs <= all
    ensures AllAcceptable(v, all) ==> AllAcceptable(v, pebs)
    ensures AllAccepted(v, all) ==> AllAccepted(v, pebs)
    ensures AllAccepted(v, done) && AllAccepted(v, pebs) ==> AllAccepted(v, done + pebs)
  {
    hide Volume.PebAcceptable, Accepted;
    var n := |done|;
    forall k | 0 <= k < |pebs| ensures all[n + k] == pebs[k] {
      assert (done + pebs)[n + k] == pebs[k];
    }
    if AllAcceptable(v, all) {
      forall k | 0 <= k < |pebs| ensures v.PebAcceptable(pebs[k]) {
        assert v.PebAcceptable(all[n + k]);
      }
    }
    if AllAccepted(v, all) {
      forall k | 0 <= k < |pebs| ensures Accepted(v, pebs[k]) {
        assert Accepted(v, all[n + k]);
      }
    }
  }

  /** write_segments: it gets to the end if and only if write_peb does for every log. */
  method WriteSegments(w: Writer, v: Volume) returns (st: Status)
    requires Matches(w, v) && w.bufOffset == 0 && |w.device| == v.fsSize && AllAcceptable(v, AllPebs(v.segs))
    modifies w`bufOffset, w`device, w`requests, w`openZones, w.buffer
    ensures st == if AllAccepted(v, AllPebs(v.segs)) then Success else Error(ERANGE)
    ensures st == Success ==>
              Applied(w, Start(old(w.device), old(w.requests), old(w.openZones)), AllPebs(v.segs),
                ZonesLeftOpen(v.segs))
  {
    hide Applied, Accepted, AllAccepted, AllAcceptable, Volume.Valid, AllPebs;
    ghost var b := Start(w.device, w.requests, w.openZones);
    NothingApplied(w, b, v.segs);
    var i := 0;
    while i < |v.segs|
      invariant i <= |v.segs| && AllAccepted(v, AllPebs(v.segs[..i]))
      invariant Applied(w, b, AllPebs(v.segs[..i]), ZonesLeftOpen(v.segs[..i]))
    {
      SegmentPebs(v, i);
      assert v.segs[..i + 1][..i] == v.segs[..i];
      st := WriteSegment(w, v, b, AllPebs(v.segs[..i]), ZonesLeftOpen(v.segs[..i]), v.segs[i]);
      if st != Success {
        return;
      }
      i := i + 1;
    }
    assert v.segs[..i] == v.segs;
    st := Success;
  }

  lemma NothingApplied(w: Writer, b: Start, segs: seq<Segment>)
    requires w.Valid() && w.bufOffset == 0 && b == Start(w.device, w.requests, w.openZones)
    ensures Applied(w, b, AllPebs(segs[..0]), ZonesLeftOpen(segs[..0]))
    ensures forall v: Volume :: v.Valid() ==> AllAccepted(v, AllPebs(segs[..0]))
  {
  }

  /**
   * write_device, for `segsCapacity` reserved segments and the number of zones that mkfs has calculated. It ends
   * well if and only if all segments are there, the layout is acceptable, every log gets to its end and, on a
   * zoned device, the zones left open are as many as calculated. A layout that is refused leaves the device alone.
   */
  method WriteDevice(w: Writer, v: Volume, segsCapacity: nat, calculatedOpenZones: nat) returns (st: Status)
    requires Matches(w, v) && w.bufOffset == 0 && |w.device| == v.fsSize
    modifies w`bufOffset, w`device, w`requests, w`openZones, w.buffer
    ensures var written := 0 < |v.segs| == segsCapacity && v.Acceptable() && AllAccepted(v, AllPebs(v.segs));
            && (st == Success <==>
                  written && (w.zoned ==> old(w.openZones) + ZonesLeftOpen(v.segs) == calculatedOpenZones))
            && (written ==> w.device == Written(v, old(w.device)))
            && (st != Success && 0 < |v.segs| == segsCapacity && v.Acceptable() ==> st == Error(ERANGE))
    ensures segsCapacity == 0 || |v.segs| == 0 ==> st == Bug
    ensures 0 < |v.segs| && 0 < segsCapacity && segsCapacity != |v.segs| ==> st == Error(EINVAL)
    ensures !(0 < |v.segs| == segsCapacity && v.Acceptable()) ==>
              w.device == old(w.device) && w.requests == old(w.requests)
  {
    if segsCapacity == 0 || |v.segs| == 0 {
      return Bug;
    }
    if segsCapacity != |v.segs| {
      return Error(EINVAL);
    }
    st := CheckLayoutBeforeWrite(v);
    if st != Success {
      return;
    }
    EachAcceptable(v);
    hide Accepted, Volume.PebAcceptable, Volume.PebsAcceptable;
    st := WriteSegments(w, v);
    if st != Success {
      return;
    }
    if w.zoned && w.openZones != calculatedOpenZones {
      return Error(ERANGE);
    }
  }

  lemma EachAcceptable(v: Volume)
    requires v.Valid() && v.Acceptable()
    ensures AllAcceptable(v, AllPebs(v.segs))
  {
    hide Volume.PebAcceptable;
  }
}
