/** Block bitmap of a log: four 2-bit block states per byte (lib/blkbmap.c). */
module BlockBitmap {
  import opened Types
  import opened Rounding
  import opened PackedBitmap

  const BITS: nat := 2
  const BLK_STATE_MAX := 4

  /** Number of bytes that ssdfs_blkbmap_set_area visits, in its 32-bit arithmetic. */
  function AreaBytes(start: U32, count: U32): (r: nat)
  {
    var alignedStart := start / 4 * 4;
    var alignedEnd := ((start + count) % TWO32 + 3) % TWO32 / 4 * 4;
    (alignedEnd - alignedStart + TWO32) % TWO32 / 4
  }

  /** Number of items that it sets. */
  function AreaItems(start: U32, count: U32): (r: nat)
    ensures r <= count
  {
    var room := AreaBytes(start, count) * 4 - start % 4;
    if room < 0 then 0 else if room < count then room else count
  }

  /** The bytes between two byte-aligned items, with a difference that wraps around. */
  lemma WrappedBytes(end: nat, start: nat)
    requires end < TWO32 / 4 && start < TWO32 / 4
    ensures (end * 4 - start * 4 + TWO32) % TWO32 / 4 == if start <= end then end - start else end - start + TWO32 / 4
  {
    var d := end - start;
    if start <= end {
      ModUnique(4 * d + TWO32, TWO32, 1, 4 * d);
    } else {
      ModUnique(4 * d + TWO32, TWO32, 0, 4 * d + TWO32);
    }
  }

  /** The byte behind the last item, rounded up and wrapped around. */
  lemma WrappedEnd(x: nat)
    requires x < 2 * TWO32
    ensures (x % TWO32 + 3) % TWO32 == (x + 3) % TWO32
    ensures (x + 3) % TWO32 / 4 == (x + 3) / 4 - (x + 3) / TWO32 * (TWO32 / 4)
    ensures (x + 3) / TWO32 <= 2
  {
    var q, k := x / TWO32, (x + 3) / TWO32;
    MultipleModZero(q, TWO32);
    AddMultiple(q * TWO32, x % TWO32 + 3, TWO32);
    assert x + 3 == 4 * (k * (TWO32 / 4)) + (x + 3) % TWO32;
  }

  lemma AreaSpan(start: U32, count: U32, n: nat)
    requires n == (start % 4 + count + 3) / 4
    ensures AreaBytes(start, count) == if n < TWO32 / 4 then n else n - TWO32 / 4
  {
    SpanBytes(start, count, n);
    WrappedEnd(start + count);
    var first, behind := start / 4, (start + count + 3) % TWO32 / 4;
    AreaBytesIs(start, count, first, behind);
    hide AreaBytes;
    SpanCases(first, n, (start + count + 3) / TWO32, behind);
  }

  lemma AreaBytesIs(start: U32, count: U32, first: nat, behind: nat)
    requires first == start / 4 && behind == (start + count + 3) % TWO32 / 4
    requires ((start + count) % TWO32 + 3) % TWO32 == (start + count + 3) % TWO32
    ensures behind < TWO32 / 4 && first < TWO32 / 4
    ensures AreaBytes(start, count) == if first <= behind then behind - first else behind - first + TWO32 / 4
  {
    WrappedBytes(behind, first);
  }

  /** Whatever has wrapped around, the difference is the span, or what is left of it. */
  lemma SpanCases(first: nat, n: nat, k: nat, behind: nat)
    requires k <= 2 && behind == first + n - k * 0x4000_0000 && n <= 0x4000_0001
    requires first < 0x4000_0000 && behind < 0x4000_0000
    ensures (if first <= behind then behind - first else behind - first + 0x4000_0000) ==
              if n < 0x4000_0000 then n else n - 0x4000_0000
  {
    if k == 0 {} else if k == 1 {} else {}
  }

  /** The bytes from the one of the first item to the one of the last item. */
  lemma SpanBytes(start: nat, count: nat, n: nat)
    requires n == (start % 4 + count + 3) / 4
    ensures (start + count + 3) / 4 == start / 4 + n
  {
    var q := start / 4;
    assert start + count + 3 == 4 * q + (start % 4 + count + 3);
  }

  /** The area is set completely exactly when its span in bytes does not overflow 32 bits. */
  lemma AreaComplete(start: U32, count: U32)
    ensures AreaItems(start, count) == count <==> start % 4 + count <= 0xFFFF_FFFC
    ensures start % 4 + count > 0xFFFF_FFFC ==> AreaItems(start, count) <= 4 < count
  {
    hide AreaBytes;
    var n := (start % 4 + count + 3) / 4;
    AreaSpan(start, count, n);
    if start % 4 + count <= 0xFFFF_FFFC {
      assert n < TWO32 / 4;
    } else {
      assert TWO32 / 4 <= n <= TWO32 / 4 + 1;
    }
  }

  /** ssdfs_blkbmap_set_area */
  method SetArea(bmap: array<bv8>, start: U32, count: U32, state: int) returns (st: Status)
    requires start + count <= bmap.Length * 4
    modifies bmap
    ensures !(0 <= state < 4) ==> st == Error(EINVAL) && bmap[..] == old(bmap[..])
    ensures 0 <= state < 4 ==>
              && st == Success
              && forall i :: 0 <= i < bmap.Length * 4 ==>
                   StateAt(bmap[..], BITS, i) ==
                     if start <= i < start + AreaItems(start, count) then state as bv8
                       else old(StateAt(bmap[..], BITS, i))
  {
    if state < 0 || state >= BLK_STATE_MAX {
      return Error(EINVAL);
    }
    var itemsPerByte := ItemsPerByte(BITS);
    var curByte := start / 4;
    var byteItem := start % 4;
    var bytesCount := AreaBytes(start, count);
    var processed := 0;
    ghost var was := bmap[..];
    var i := 0;
    while i < bytesCount
      invariant i <= bytesCount && curByte == start / 4 + i && byteItem == (if i == 0 then start % 4 else 0)
      invariant processed <= count && (processed < count ==> start + processed == curByte * 4 + byteItem)
      invariant processed == (if i == 0 then 0 else if i * 4 - start % 4 < count then i * 4 - start % 4 else count)
      invariant bmap.Length == |was|
      invariant forall k :: 0 <= k < |was| * 4 ==>
                  StateAt(bmap[..], BITS, k) == if start <= k < start + processed then state as bv8
                    else StateAt(was, BITS, k)
    {
      var j := byteItem;
      while j < itemsPerByte
        invariant byteItem <= j <= itemsPerByte
        invariant processed <= count && (processed < count ==> start + processed == curByte * 4 + j)
        invariant processed == (if i * 4 + j - start % 4 < count then i * 4 + j - start % 4 else count)
        invariant bmap.Length == |was|
        invariant forall k :: 0 <= k < |was| * 4 ==>
                    StateAt(bmap[..], BITS, k) == if start <= k < start + processed then state as bv8
                      else StateAt(was, BITS, k)
      {
        if processed >= count {
          return Success;
        }
        SetBlock(bmap, curByte, j, state);
        processed := processed + 1;
        j := j + 1;
      }
      byteItem := 0;
      curByte := curByte + 1;
      i := i + 1;
    }
    st := Success;
  }

  /** One SET_STATE_IN_BYTE on the bitmap. */
  method SetBlock(bmap: array<bv8>, byteIndex: nat, item: nat, state: int)
    requires byteIndex < bmap.Length && item < 4 && 0 <= state < BLK_STATE_MAX
    modifies bmap
    ensures forall k :: 0 <= k < bmap.Length * 4 ==>
              StateAt(bmap[..], BITS, k) == if k == byteIndex * 4 + item then state as bv8
                else old(StateAt(bmap[..], BITS, k))
  {
    ghost var was := bmap[..];
    bmap[byteIndex] := SetStateInByte(bmap[byteIndex], item, BITS, state as bv8);
    assert state as bv8 & 0x3 == state as bv8 by { SmallState(state); }
    forall k | 0 <= k < bmap.Length * 4
      ensures StateAt(bmap[..], BITS, k) == if k == byteIndex * 4 + item then state as bv8 else StateAt(was, BITS, k)
    {
      assert bmap[..] == was[byteIndex := SetStateInByte(was[byteIndex], item, BITS, state as bv8)];
      SetInBitmap(was, BITS, byteIndex, item, state as bv8, k);
    }
  }

  lemma SmallState(state: int)
    requires 0 <= state < BLK_STATE_MAX
    ensures state as bv8 & 0x3 == state as bv8
  {
    if state == 0 {} else if state == 1 {} else if state == 2 {} else {}
  }
}
