/**
 * The buffered writer of mkfs.ssdfs: extents are streamed through a one-page buffer that is addressed
 * by `peb_offset % capacity` and flushed, page after page, to the device.
 */
module VolumeWriter {
  import opened Types
  import opened Rounding
  import opened Bytes
  import opened LogImage

  const RESERVED_VBR_SIZE: nat := 1024

  datatype Request = Request(offset: nat, size: nat)

  /** The `p` bytes of `s` from `from` on, filled up with 0xFF where `s` has ended. */
  function Window(s: seq<Byte>, from: nat, p: nat): (r: seq<Byte>)
    requires from <= |s|
    ensures |r| == p
  {
    if from + p <= |s| then s[from..from + p] else s[from..] + Erased(from + p - |s|)
  }

  /** One request per page, in ascending order, starting at `base`. */
  function SequentialRun(base: nat, p: nat, pages: nat): seq<Request> {
    seq(pages, i requires 0 <= i < pages => Request(base + i * p, p))
  }

  lemma OverlayAppend(s: seq<Byte>, at: nat, t: seq<Byte>, u: seq<Byte>)
    requires at + |t| + |u| <= |s|
    ensures Overlay(Overlay(s, at, t), at + |t|, u) == Overlay(s, at, t + u)
  {
  }

  lemma RunAppend(base: nat, p: nat, flushed: nat)
    requires p > 0 && flushed % p == 0
    ensures SequentialRun(base, p, flushed / p) + [Request(base + flushed, p)]
         == SequentialRun(base, p, (flushed + p) / p)
  {
    AddMultiple(flushed, p, p);
    assert p / p == 1 by { ModUnique(p, p, 1, 0); }
    assert flushed / p * p == flushed;
  }

  /** Within a PEB only the first page offset is a zone start. */
  lemma ZoneOfOffset(base: nat, eraseSize: nat, flushed: nat)
    requires flushed < eraseSize && base % eraseSize == 0
    ensures RoundDown(base + flushed, eraseSize) == base
  {
    AddMultiple(base, flushed, eraseSize);
    ModUnique(flushed, eraseSize, 0, flushed);
  }

  function PebStart(pebId: nat, eraseSize: nat): (r: nat)
    ensures eraseSize > 0 ==> r % eraseSize == 0
  {
    if eraseSize > 0 then MultipleModZero(pebId, eraseSize); pebId * eraseSize else 0
  }

  /** A log that starts in the second page of its PEB and fills whole pages. */
  predicate OnePageLate(exts: seq<Extent>, pageSize: nat)
    requires pageSize > 0
  {
    FirstPage(exts, pageSize) == pageSize && |Image(exts, pageSize)| % pageSize == 0
  }

  /** The logs that write_peb gets to the end of. */
  predicate Flushable(exts: seq<Extent>, pageSize: nat)
    requires pageSize > 0
  {
    First(exts) < pageSize || OnePageLate(exts, pageSize)
  }

  /**
   * What write_peb puts at the start of the PEB: the image of a log that starts in the first page, filled up
   * to whole pages; a log that starts one page late is put one page too early, with an erased page behind it.
   */
  function PebImage(peb: PebContent, pageSize: nat): seq<Byte>
    requires pageSize > 0
  {
    if First(peb.extents) < pageSize then Padded(Image(peb.extents, 0), pageSize)
    else Image(peb.extents, pageSize) + Erased(pageSize)
  }

  predicate AllErased(s: seq<Byte>) {
    forall x :: 0 <= x < |s| ==> s[x] == 0xFF
  }

  /** The device with the log at its own place. */
  function Placed(device: seq<Byte>, peb: PebContent, pageSize: nat, eraseSize: nat): seq<Byte>
    requires pageSize > 0 && eraseSize % pageSize == 0 && WellPlaced(peb.extents, pageSize, eraseSize)
    requires PebStart(peb.pebId, eraseSize) + eraseSize <= |device|
  {
    var from := FirstPage(peb.extents, pageSize);
    PlacedFits(peb.extents, pageSize, eraseSize);
    Overlay(device, PebStart(peb.pebId, eraseSize) + from, Padded(Image(peb.extents, from), pageSize))
  }

  lemma PlacedFits(exts: seq<Extent>, pageSize: nat, eraseSize: nat)
    requires pageSize > 0 && eraseSize % pageSize == 0 && WellPlaced(exts, pageSize, eraseSize)
    ensures var from := FirstPage(exts, pageSize);
            && from + |Image(exts, from)| == End(exts, 0) && Image(exts, from) != []
            && from + |Padded(Image(exts, from), pageSize)| <= eraseSize
  {
    var from := FirstPage(exts, pageSize);
    ImageLength(exts, pageSize, from);
    EndOfAny(exts, 0, from);
    EndAtLeast(exts, pageSize, from);
    var n := |Image(exts, from)|;
    RoundUpShift(from, n, pageSize);
    RoundUpMonotone(from + n, eraseSize, pageSize);
    RoundUpUnique(eraseSize, pageSize, eraseSize);
  }

  /** A string that is its own tail, `p` bytes on, followed by 0xFF, is 0xFF throughout. */
  lemma {:induction false} ShiftedErased(s: seq<Byte>, p: nat, x: nat)
    requires p > 0 && x < |s| && (s + Erased(p))[p..] == s
    ensures s[x] == 0xFF
    decreases |s| - x
  {
    assert s[x] == (s + Erased(p))[p..][x] == (s + Erased(p))[x + p];
    if x + p < |s| {
      ShiftedErased(s, p, x + p);
    }
  }

  /** A log written one page too early is still right only if it and the page in front of it are all 0xFF. */
  lemma LateIff(device: seq<Byte>, base: nat, s: seq<Byte>, p: nat)
    requires p > 0 && s != [] && |s| % p == 0 && base + p + |s| <= |device|
    ensures Overlay(device, base, s + Erased(p)) == Overlay(device, base + p, s) <==>
              AllErased(s) && AllErased(device[base..base + p])
  {
    var t := s + Erased(p);
    var d, e := Overlay(device, base, t), Overlay(device, base + p, s);
    MultiplesApart(0, |s|, p);
    if d == e {
      assert d[base + p..base + p + |s|] == t[p..] && e[base + p..base + p + |s|] == s;
      forall x | 0 <= x < |s| ensures s[x] == 0xFF {
        ShiftedErased(s, p, x);
      }
      assert d[base..base + p] == t[..p] && e[base..base + p] == device[base..base + p];
    }
    if AllErased(s) && AllErased(device[base..base + p]) {
      forall x | 0 <= x < |device| ensures d[x] == e[x] {
        if base <= x < base + p {
          assert device[x] == device[base..base + p][x - base];
        }
      }
    }
  }

  /** write_peb leaves the log at its own place if and only if it starts in the first page, or is 0xFF throughout. */
  lemma PlacedIff(device: seq<Byte>, peb: PebContent, pageSize: nat, eraseSize: nat)
    requires pageSize > 0 && eraseSize % pageSize == 0 && WellPlaced(peb.extents, pageSize, eraseSize)
    requires PebStart(peb.pebId, eraseSize) + eraseSize <= |device| && Flushable(peb.extents, pageSize)
    ensures |PebImage(peb, pageSize)| <= eraseSize
    ensures var base := PebStart(peb.pebId, eraseSize);
            Overlay(device, base, PebImage(peb, pageSize)) == Placed(device, peb, pageSize, eraseSize) <==>
              || First(peb.extents) < pageSize
              || (AllErased(Image(peb.extents, pageSize)) && AllErased(device[base..base + pageSize]))
  {
    hide Overlay, Padded;
    var exts := peb.extents;
    PlacedFits(exts, pageSize, eraseSize);
    if First(exts) < pageSize {
      MultiplesApartZero(FirstPage(exts, pageSize), pageSize);
    } else {
      var s := Image(exts, pageSize);
      PaddedWhole(s, pageSize);
      LateIff(device, PebStart(peb.pebId, eraseSize), s, pageSize);
    }
  }

  lemma PaddedWhole(s: seq<Byte>, p: nat)
    requires p > 0 && |s| % p == 0
    ensures Padded(s, p) == s
  {
    RoundUpUnique(|s|, p, |s|);
  }

  function PebRun(peb: PebContent, pageSize: nat, eraseSize: nat): seq<Request>
    requires pageSize > 0
  {
    SequentialRun(PebStart(peb.pebId, eraseSize), pageSize, |PebImage(peb, pageSize)| / pageSize)
  }

  /** What the device held, and what had been asked of it, before a PEB was written. */
  datatype Before = Before(device: seq<Byte>, requests: seq<Request>, openZones: nat, base: nat)

  class Writer {
    const eraseSize: U32
    const pageSize: U32
    const zoned: bool
    /** struct ssdfs_write_buffer: `buffer` has the capacity of one page. */
    const buffer: array<Byte>
    var bufOffset: nat
    /** The volume, and every write request that reached it. */
    var device: seq<Byte>
    var requests: seq<Request>
    var openZones: nat

    ghost predicate Valid()
    {
      && RESERVED_VBR_SIZE < pageSize < eraseSize
      && eraseSize % pageSize == 0
      && buffer.Length == pageSize
    }

    constructor (eraseSize: U32, pageSize: U32, zoned: bool, device: seq<Byte>)
      requires RESERVED_VBR_SIZE < pageSize < eraseSize && eraseSize % pageSize == 0
      ensures Valid() && fresh(buffer) && bufOffset == 0
      ensures this.eraseSize == eraseSize && this.pageSize == pageSize && this.zoned == zoned
      ensures this.device == device && requests == [] && openZones == 0
    {
      this.eraseSize, this.pageSize, this.zoned := eraseSize, pageSize, zoned;
      this.buffer := new Byte[pageSize](_ => 0xFF);
      this.bufOffset, this.device, this.requests, this.openZones := 0, device, [], 0;
    }

    predicate OpensZone(offset: nat)
      requires eraseSize > 0
    {
      zoned && (RoundDown(offset, eraseSize) == offset || offset == 1024)
    }

    /** dev_ops->write: on a zoned device the first write into a zone opens it (zns_write). */
    method DeviceWrite(offset: nat, data: seq<Byte>) returns (st: Status)
      requires eraseSize > 0 && offset + |data| <= |device|
      modifies this`device, this`requests, this`openZones
      ensures openZones == old(openZones) + if OpensZone(offset) then 1 else 0
      ensures zoned && RoundDown(offset, eraseSize) + eraseSize < offset + |data|
              ==> st == Error(ERANGE) && device == old(device) && requests == old(requests)
      ensures !(zoned && RoundDown(offset, eraseSize) + eraseSize < offset + |data|)
              ==> st == Success && device == Overlay(old(device), offset, data)
                  && requests == old(requests) + [Request(offset, |data|)]
    {
      if zoned {
        var zoneStart := RoundDown(offset, eraseSize);
        if zoneStart == offset || offset == RESERVED_VBR_SIZE {
          openZones := openZones + 1;
        }
        if zoneStart + eraseSize < offset + |data| {
          return Error(ERANGE);
        }
      }
      device := Overlay(device, offset, data);
      requests := requests + [Request(offset, |data|)];
      return Success;
    }

    method ResetBuffer()
      requires Valid()
      modifies buffer
      ensures buffer[..] == Erased(pageSize)
    {
      forall i | 0 <= i < buffer.Length {
        buffer[i] := 0xFF;
      }
    }

    /** flush_write_buffer */
    method FlushWriteBuffer(offset: nat, size: nat) returns (st: Status)
      requires Valid() && offset + pageSize <= |device|
      modifies this`bufOffset, this`device, this`requests, this`openZones, buffer
      ensures var fits := 0 < size <= pageSize && offset % pageSize == 0
                          && (zoned ==> RoundDown(offset, eraseSize) + eraseSize >= offset + size);
              st == if fits then Success else Error(ERANGE)
      ensures st == Success ==>
                && device == Overlay(old(device), offset, old(buffer[..size]))
                && requests == old(requests) + [Request(offset, size)]
                && openZones == old(openZones) + (if OpensZone(offset) then 1 else 0)
                && buffer[..] == Erased(pageSize) && bufOffset == 0
    {
      if size == 0 || size > buffer.Length {
        return Error(ERANGE);
      }
      if offset % pageSize != 0 {
        return Error(ERANGE);
      }
      st := DeviceWrite(offset, buffer[..size]);
      if st != Success {
        return;
      }
      ResetBuffer();
      bufOffset := 0;
    }

    /** prepare_write_buffer: copies what fits behind `offset`; ENOSPC asks the caller to flush. */
    method PrepareWriteBuffer(offset: nat, data: seq<Byte>) returns (st: Status, copied: nat)
      requires Valid()
      modifies this`bufOffset, buffer
      ensures offset < old(bufOffset) || offset >= pageSize ==>
                st == Error(ENOSPC) && copied == 0 && bufOffset == old(bufOffset) && buffer[..] == old(buffer[..])
      ensures old(bufOffset) <= offset < pageSize ==>
                && copied == (if |data| <= pageSize - offset then |data| else pageSize - offset)
                && bufOffset == offset + copied
                && buffer[..] == old(buffer[..offset]) + data[..copied] + old(buffer[offset + copied..])
                && st == (if copied != |data| || offset + copied == pageSize then Error(ENOSPC) else Success)
    {
      if offset < bufOffset || offset >= buffer.Length {
        return Error(ENOSPC), 0;
      }
      copied := if |data| <= buffer.Length - offset then |data| else buffer.Length - offset;
      forall i | 0 <= i < copied {
        buffer[offset + i] := data[i];
      }
      bufOffset := offset + copied;
      if copied != |data| {
        return Error(ENOSPC), copied;
      }
      if offset + copied == buffer.Length {
        return Error(ENOSPC), copied;
      }
      return Success, copied;
    }

    /**
     * The writer has taken in `stream`, the bytes of one PEB so far: its first `flushed` bytes are on
     * the device as a sequential run of pages, and the buffer holds the page that follows.
     */
    ghost predicate Streamed(b: Before, stream: seq<Byte>, flushed: nat)
      reads this, buffer
      requires Valid()
    {
      && flushed % pageSize == 0
      && flushed <= |stream| <= eraseSize
      && b.base % eraseSize == 0 && b.base + eraseSize <= |b.device|
      && device == Overlay(b.device, b.base, stream[..flushed])
      && requests == b.requests + SequentialRun(b.base, pageSize, flushed / pageSize)
      && openZones == b.openZones + (if zoned && flushed > 0 then 1 else 0)
      && buffer[..] == Window(stream, flushed, pageSize)
    }

    /** Flushing the window moves the run forward by one page; more than a page is refused. */
    method FlushPage(ghost b: Before, ghost stream: seq<Byte>, volumeOffset: nat, ghost flushed: nat, size: nat)
      returns (st: Status)
      requires Valid() && Streamed(b, stream, flushed)
      requires flushed + pageSize <= eraseSize && pageSize <= size
      requires volumeOffset == b.base + flushed
      modifies this`bufOffset, this`device, this`requests, this`openZones, buffer
      ensures (flushed + pageSize) % pageSize == 0
      ensures size > pageSize ==> st == Error(ERANGE)
      ensures size == pageSize ==>
                && st == Success && bufOffset == 0
                && buffer[..] == Erased(pageSize)
                && device == Overlay(b.device, b.base, stream[..flushed] + Window(stream, flushed, pageSize))
                && requests == b.requests + SequentialRun(b.base, pageSize, (flushed + pageSize) / pageSize)
                && openZones == b.openZones + (if zoned then 1 else 0)
    {
      assert volumeOffset % pageSize == 0 by {
        AlignedBase(b.base, eraseSize, pageSize);
        AddMultiple(b.base, flushed, pageSize);
      }
      ZoneOfOffset(b.base, eraseSize, flushed);
      assert volumeOffset != RESERVED_VBR_SIZE by {
        if volumeOffset == RESERVED_VBR_SIZE {
          ModUnique(RESERVED_VBR_SIZE, pageSize, 0, RESERVED_VBR_SIZE);
        }
      }
      ghost var page := Window(stream, flushed, pageSize);
      assert buffer[..pageSize] == buffer[..] == page;
      OverlayAppend(b.device, b.base, stream[..flushed], page);
      RunAppend(b.base, pageSize, flushed);
      AddMultiple(flushed, pageSize, pageSize);
      st := FlushWriteBuffer(volumeOffset, size);
    }

    /** Between two extents the buffer holds exactly the part of the stream that is not on the device. */
    ghost predicate Settled(b: Before, stream: seq<Byte>, flushed: nat)
      reads this, buffer
      requires Valid()
    {
      Streamed(b, stream, flushed) && |stream| < flushed + pageSize && bufOffset == |stream| - flushed
    }

    /** -ENOSPC path of the inner loop: the full page goes to the device and the buffer starts again. */
    method NextPage(ghost b: Before, ghost stream: seq<Byte>, volumeOffset: nat, ghost flushed: nat)
      returns (st: Status)
      requires Valid() && Streamed(b, stream, flushed)
      requires flushed + pageSize <= |stream| <= flushed + 2 * pageSize
      requires forall x :: flushed + pageSize <= x < |stream| ==> stream[x] == 0xFF
      requires volumeOffset == b.base + flushed
      modifies this`bufOffset, this`device, this`requests, this`openZones, buffer
      ensures st == Success && bufOffset == 0
      ensures Streamed(b, stream, flushed + pageSize)
    {
      st := FlushPage(b, stream, volumeOffset, flushed, pageSize);
      assert stream[..flushed] + Window(stream, flushed, pageSize) == stream[..flushed + pageSize];
      assert Window(stream, flushed + pageSize, pageSize) == Erased(pageSize);
    }

    /** One pass of the inner loop: copy what fits into the page, and flush when it is full. */
    method StreamChunk(ghost b: Before, ghost stream: seq<Byte>, data: seq<Byte>,
                       writeBufOffset: nat, volumeOffset: nat, flushedBytes: nat)
      returns (copied: nat, volumeOffset': nat, flushed: nat)
      requires Valid() && Streamed(b, stream, flushedBytes) && volumeOffset == b.base + flushedBytes
      requires |stream| + |data| <= eraseSize && data != []
      requires var q := |stream| - flushedBytes;
               || (q < pageSize && bufOffset <= q && writeBufOffset == q)
               || (pageSize <= q < 2 * pageSize && q - pageSize < bufOffset && writeBufOffset == q - pageSize
                   && forall x :: flushedBytes + pageSize <= x < |stream| ==> stream[x] == 0xFF)
      modifies this`bufOffset, this`device, this`requests, this`openZones, buffer
      ensures copied <= |data| && volumeOffset' == b.base + flushed
      ensures Streamed(b, stream + data[..copied], flushed)
      ensures |stream| + copied < flushed + pageSize && bufOffset <= |stream| + copied - flushed
      ensures copied > 0 ==> bufOffset == |stream| + copied - flushed
      ensures copied == 0 ==> |stream| >= flushedBytes + pageSize
    {
      hide Overlay, SequentialRun, Erased, Window, RoundDown;
      volumeOffset', flushed := volumeOffset, flushedBytes;
      var st;
      st, copied := PrepareWriteBuffer(writeBufOffset, data);
      ghost var stream' := stream + data[..copied];
      assert Streamed(b, stream', flushed) by {
        if copied > 0 {
          WindowExtend(stream, flushed, pageSize, data[..copied]);
        } else {
          assert stream' == stream;
        }
        assert stream'[..flushed] == stream[..flushed];
      }
      if st == Error(ENOSPC) {
        st := NextPage(b, stream', volumeOffset', flushed);
        volumeOffset' := volumeOffset' + pageSize;
        flushed := flushed + pageSize;
      }
    }

    lemma StreamedBounds(b: Before, stream: seq<Byte>, flushed: nat)
      requires Valid() && Streamed(b, stream, flushed)
      ensures flushed % pageSize == 0 && flushed <= |stream| <= eraseSize
    {
    }

    lemma NothingStreamed(b: Before)
      requires Valid() && bufOffset == 0 && buffer[..] == Erased(pageSize)
      requires b == Before(device, requests, openZones, b.base)
      requires b.base % eraseSize == 0 && b.base + eraseSize <= |device|
      ensures Settled(b, [], 0)
    {
      assert SequentialRun(b.base, pageSize, 0) == [];
    }

    /** Space in front of the next extent is already in the buffer, which is filled with 0xFF. */
    lemma GapStreamed(b: Before, im: seq<Byte>, gap: nat, flushed: nat)
      requires Valid() && Settled(b, im, flushed) && |im| + gap <= eraseSize
      ensures Streamed(b, im + Erased(gap), flushed)
    {
      GapWindow(im, |im| + gap, flushed, pageSize);
    }

    /** The inner loop of write_peb: one extent, page by page. */
    method StreamExtent(ghost b: Before, ghost im: seq<Byte>, ghost from: nat,
                        offset: nat, data: seq<Byte>, volumeOffset: nat, flushedBytes: nat)
      returns (pebOffset: nat, volumeOffset': nat, flushed: nat)
      requires Valid() && Settled(b, im, flushedBytes)
      requires from % pageSize == 0 && from + |im| <= offset < from + |im| + pageSize
      requires offset + |data| - from <= eraseSize && data != []
      requires volumeOffset == b.base + flushedBytes
      modifies this`bufOffset, this`device, this`requests, this`openZones, buffer
      ensures pebOffset == offset + |data| && volumeOffset' == b.base + flushed
      ensures Settled(b, im + Erased(offset - from - |im|) + data, flushed)
    {
      hide Streamed, Erased;
      pebOffset, volumeOffset', flushed := offset, volumeOffset, flushedBytes;
      ghost var gap := im + Erased(offset - from - |im|);
      var rest := data;
      ghost var stream := gap;
      StreamedBounds(b, im, flushed);
      GapStreamed(b, im, offset - from - |im|, flushed);
      while |rest| > 0
        invariant stream + rest == gap + data && pebOffset == from + |stream| && volumeOffset' == b.base + flushed
        invariant Streamed(b, stream, flushed)
        invariant |rest| < |data| || |stream| == |gap|
        invariant |stream| >= flushed + pageSize ==>
                    stream == gap && flushed == flushedBytes && bufOffset == |im| - flushed
        invariant |stream| < flushed + pageSize ==> bufOffset <= |stream| - flushed
        invariant rest == [] ==> |stream| < flushed + pageSize && bufOffset == |stream| - flushed
        decreases |rest|, if |stream| >= flushed + pageSize then 1 else 0
      {
        var writeBufOffset := pebOffset % pageSize;
        StreamedBounds(b, stream, flushed);
        BufferOffset(from, flushed, |stream| - flushed, pageSize);
        var copied;
        copied, volumeOffset', flushed := StreamChunk(b, stream, rest, writeBufOffset, volumeOffset', flushed);
        stream := stream + rest[..copied];
        rest := rest[copied..];
        pebOffset := pebOffset + copied;
      }
      assert stream == gap + data;
    }

    /** The outer loop of write_peb: all extents of the log, the last page possibly still in the buffer. */
    method StreamLog(ghost b: Before, exts: seq<Extent>, volumeOffset: nat)
      returns (pebOffset: nat, volumeOffset': nat, flushed: nat)
      requires Valid() && WellPlaced(exts, pageSize, eraseSize)
      requires Settled(b, [], 0) && volumeOffset == b.base
      modifies this`bufOffset, this`device, this`requests, this`openZones, buffer
      ensures pebOffset == End(exts, 0) && volumeOffset' == b.base + flushed
      ensures Settled(b, Image(exts, FirstPage(exts, pageSize)), flushed)
    {
      hide Settled, Streamed;
      pebOffset, volumeOffset', flushed := 0, volumeOffset, 0;
      ghost var from := FirstPage(exts, pageSize);
      ghost var im: seq<Byte> := [];
      var i := 0;
      while i < |exts|
        invariant i <= |exts| && im == Image(exts[..i], from)
        invariant pebOffset == End(exts[..i], 0) && volumeOffset' == b.base + flushed
        invariant Settled(b, im, flushed)
      {
        ChainStep(exts, pageSize, from, i);
        if exts[i].Extent? {
          var Extent(offset, data) := exts[i];
          // the -ERANGE exit "desc->offset < peb_offset" is not taken by an accepted log
          assert pebOffset <= offset;
          pebOffset, volumeOffset', flushed := StreamExtent(b, im, from, offset, data, volumeOffset', flushed);
          im := Image(exts[..i + 1], from);
        }
        i := i + 1;
      }
      assert exts[..|exts|] == exts;
    }

    /**
     * The end of write_peb. For a log that starts in the first page (`from == 0`) the last, partly filled
     * page is flushed; otherwise the size left to flush is too large by `from`, and only a log that starts one
     * page late and fills whole pages gets through, with a page of 0xFF.
     */
    method FlushTail(ghost b: Before, ghost stream: seq<Byte>, ghost from: nat,
                     pebOffset: nat, volumeOffset: nat, flushed: nat) returns (st: Status)
      requires Valid() && Settled(b, stream, flushed) && stream != []
      requires from % pageSize == 0 && pebOffset == from + |stream| <= eraseSize
      requires volumeOffset == b.base + flushed
      modifies this`bufOffset, this`device, this`requests, this`openZones, buffer
      ensures b.base + eraseSize <= |b.device|
      ensures from == 0 ==>
                && st == Success && bufOffset == 0 && |Padded(stream, pageSize)| <= eraseSize
                && device == Overlay(b.device, b.base, Padded(stream, pageSize))
                && requests == b.requests + SequentialRun(b.base, pageSize, |Padded(stream, pageSize)| / pageSize)
                && openZones == b.openZones + if zoned then 1 else 0
      ensures from > 0 ==> st == if from == pageSize && |stream| % pageSize == 0 then Success else Error(ERANGE)
      ensures from > 0 && st == Success ==>
                && bufOffset == 0 && |stream + Erased(pageSize)| <= eraseSize
                && device == Overlay(b.device, b.base, stream + Erased(pageSize))
                && requests == b.requests + SequentialRun(b.base, pageSize, |stream + Erased(pageSize)| / pageSize)
                && openZones == b.openZones + if zoned then 1 else 0
    {
      if from > 0 {
        LateTail(stream, flushed, from, pageSize);
      } else {
        TailPage(stream, flushed, pageSize, eraseSize);
      }
      if pebOffset > flushed {
        var alignedSize := RoundUp(pebOffset - flushed, pageSize);
        MultiplesApart(0, alignedSize, pageSize);
        st := FlushPage(b, stream, volumeOffset, flushed, alignedSize);
      } else {
        st := Success;
      }
    }

    /**
     * write_peb for a log the pre-write check accepted: success if and only if the log is `Flushable`, and then
     * one sequential run of pages, each written once. The log is left at its own place if and only if it
     * starts in the first page, or is 0xFF throughout on a PEB that starts with an erased page.
     */
    method WritePeb(peb: PebContent, initialSnapshot: bool) returns (st: Status)
      requires Valid() && bufOffset == 0
      requires WellPlaced(peb.extents, pageSize, eraseSize)
      requires PebStart(peb.pebId, eraseSize) + eraseSize <= |device|
      modifies this`bufOffset, this`device, this`requests, this`openZones, buffer
      ensures st == if Flushable(peb.extents, pageSize) then Success else Error(ERANGE)
      ensures st == Success ==>
                && bufOffset == 0 && |PebImage(peb, pageSize)| <= eraseSize
                && device == Overlay(old(device), PebStart(peb.pebId, eraseSize), PebImage(peb, pageSize))
                && requests == old(requests) + PebRun(peb, pageSize, eraseSize)
                && openZones == old(openZones) + if zoned && !initialSnapshot then 1 else 0
      ensures var base := PebStart(peb.pebId, eraseSize);
              st == Success && device == Placed(old(device), peb, pageSize, eraseSize) <==>
                || First(peb.extents) < pageSize
                || (OnePageLate(peb.extents, pageSize) && AllErased(Image(peb.extents, pageSize))
                    && AllErased(old(device[base..base + pageSize])))
    {
      hide Overlay, SequentialRun, Padded, Placed, Settled, AllErased;
      ResetBuffer();
      var base := PebStart(peb.pebId, eraseSize);
      ghost var b := Before(device, requests, openZones, base);
      NothingStreamed(b);
      ghost var exts := peb.extents;
      ghost var from := FirstPage(exts, pageSize);
      var pebOffset, volumeOffset, flushed := StreamLog(b, peb.extents, base);
      ghost var stream := Image(exts, from);
      PlacedFits(exts, pageSize, eraseSize);
      if from < pageSize {
        MultiplesApartZero(from, pageSize);
      }
      if Flushable(exts, pageSize) {
        PlacedIff(b.device, peb, pageSize, eraseSize);
      }
      st := FlushTail(b, stream, from, pebOffset, volumeOffset, flushed);
      if st != Success {
        return;
      }
      if zoned && initialSnapshot {
        openZones := openZones - 1;
      }
    }
  }

  /** The page left in the buffer at the end of a stream completes its padding. */
  lemma TailPage(s: seq<Byte>, flushed: nat, p: nat, eraseSize: nat)
    requires p > 0 && flushed % p == 0 && flushed <= |s| < flushed + p && |s| <= eraseSize && eraseSize % p == 0
    ensures |Padded(s, p)| <= eraseSize
    ensures flushed == |s| ==> Padded(s, p) == s == s[..flushed]
    ensures flushed < |s| ==>
              && RoundUp(|s| - flushed, p) == p && flushed + p == |Padded(s, p)|
              && s[..flushed] + Window(s, flushed, p) == Padded(s, p)
  {
    RoundUpMonotone(|s|, eraseSize, p);
    RoundUpUnique(eraseSize, p, eraseSize);
    if flushed == |s| {
      RoundUpUnique(|s|, p, flushed);
    } else {
      AddMultiple(flushed, p, p);
      RoundUpUnique(|s|, p, flushed + p);
      RoundUpUnique(|s| - flushed, p, p);
    }
  }

  /** What is left to flush of a log behind the first page is one page only if it is exactly one page late. */
  lemma LateTail(s: seq<Byte>, flushed: nat, from: nat, p: nat)
    requires p > 0 && flushed % p == 0 && flushed <= |s| < flushed + p && from > 0 && from % p == 0
    ensures p <= from && (flushed == |s| <==> |s| % p == 0)
    ensures RoundUp(from + |s| - flushed, p) == p <==> from == p && |s| % p == 0
    ensures |s| % p == 0 ==> s[..flushed] + Window(s, flushed, p) == s + Erased(p)
  {
    MultiplesApart(0, from, p);
    AddMultiple(flushed, |s| - flushed, p);
    ModUnique(|s| - flushed, p, 0, |s| - flushed);
    if from == p && flushed == |s| {
      RoundUpUnique(p, p, p);
    }
    if flushed == |s| {
      assert s[..flushed] == s && s[flushed..] == [];
    }
  }

  lemma MultiplesApartZero(a: nat, p: nat)
    requires p > 0 && a % p == 0 && a < p
    ensures a == 0
  {
    if a > 0 { MultiplesApart(0, a, p); }
  }

  /** Appending to the stream inside the current page is writing behind its end in the window. */
  lemma WindowExtend(s: seq<Byte>, from: nat, p: nat, t: seq<Byte>)
    requires from <= |s| && |s| + |t| <= from + p
    ensures Window(s + t, from, p)
         == Window(s, from, p)[..|s| - from] + t + Window(s, from, p)[|s| - from + |t|..]
  {
  }

  /** Skipping space leaves the window as it is: the buffer is already filled with 0xFF. */
  lemma GapWindow(s: seq<Byte>, n: nat, from: nat, p: nat)
    requires from <= |s| <= n && |s| <= from + p
    ensures Window(s + Erased(n - |s|), from, p) == Window(s, from, p)
    ensures (s + Erased(n - |s|))[..from] == s[..from]
  {
  }

  lemma BufferOffset(from: nat, flushed: nat, q: nat, p: nat)
    requires p > 0 && from % p == 0 && flushed % p == 0 && q < 2 * p
    ensures (from + flushed + q) % p == if q < p then q else q - p
  {
    AddMultiple(from, flushed + q, p);
    AddMultiple(flushed, q, p);
    ModUnique(q, p, if q < p then 0 else 1, if q < p then q else q - p);
  }

  lemma AlignedBase(base: nat, eraseSize: nat, pageSize: nat)
    requires pageSize > 0 && eraseSize > 0 && eraseSize % pageSize == 0 && base % eraseSize == 0
    ensures base % pageSize == 0
  {
    var n, k := base / eraseSize, eraseSize / pageSize;
    assert base == n * (k * pageSize) == (n * k) * pageSize;
    MultipleModZero(n * k, pageSize);
  }
}
