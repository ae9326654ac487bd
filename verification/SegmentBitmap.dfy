/** Size of the segment bitmap: two 4-bit segment states per byte, cut into page-sized fragments (lib/segbmap.c). */
module SegmentBitmap {
  import opened Types
  import opened Rounding

  const FRAGMENT_HEADER_SIZE: nat := 32

  /** SEG_BMAP_BYTES in 64-bit arithmetic; `None` is its BUG_ON. */
  function BitmapBytes(items: U64): (r: Option<nat>)
    ensures items < U64_MAX ==> (r.Some? <==> items <= 2 * (U32_MAX - 1))
    ensures r.Some? && items < U64_MAX ==> 2 * r.value - 1 <= items <= 2 * r.value < 2 * U32_MAX
  {
    var bytes := (items + 1) % TWO64 / 2;
    if bytes >= U32_MAX then None else Some(bytes)
  }

  /** `DivCeil` in the program's 32-bit arithmetic. */
  function DivCeil32(bytes: U32, size: U32): (r: nat)
    requires size > 0
  {
    (bytes + size - 1) % TWO32 / size
  }

  /** The fragment count of SEG_BMAP_FRAGMENTS for a bitmap of `bytes` bytes. */
  function Fragments(bytes: U32, pageSize: U32): nat
    requires pageSize > 0
  {
    var pages := DivCeil32(bytes, pageSize);
    DivCeil32((bytes + pages * FRAGMENT_HEADER_SIZE) % TWO32, pageSize)
  }

  /** Fragments that the bitmap needs: each page carries a header. */
  function NeededFragments(bytes: nat, pageSize: nat): nat
    requires pageSize > FRAGMENT_HEADER_SIZE
  {
    DivCeil(bytes, pageSize - 32)
  }

  lemma DivCeilMonotone(a: nat, b: nat, size: nat)
    requires size > 0 && a <= b
    ensures DivCeil(a, size) <= DivCeil(b, size)
  {
    DivCeilLeast(a, size, DivCeil(b, size));
  }

  /** 32-bit wrap-around makes a count zero. */
  lemma DivCeil32Bound(bytes: U32, size: U32)
    requires size > 0
    ensures DivCeil32(bytes, size) <= DivCeil(bytes, size)
    ensures DivCeil32(bytes, size) == if bytes + size <= TWO32 then DivCeil(bytes, size) else 0
  {
    if bytes + size <= TWO32 {
      DivCeilFloor(bytes, size);
      SmallRest(bytes + size - 1);
    } else {
      WrappedRest(bytes, size);
    }
    hide DivCeil;
  }

  lemma SmallRest(x: nat)
    requires x < TWO32
    ensures x % TWO32 == x
  {
  }

  lemma WrappedRest(bytes: U32, size: U32)
    requires bytes + size > TWO32
    ensures (bytes + size - 1) % TWO32 / size == 0
  {
    var y := bytes + size - 1 - TWO32;
    ModUnique(bytes + size - 1, TWO32, 1, y);
    ModUnique(y, size, 0, y);
  }

  lemma DivCeilFloor(bytes: nat, size: nat)
    requires size > 0
    ensures DivCeil(bytes, size) == (bytes + size - 1) / size
  {
    var x := bytes + size - 1;
    MultipleModZero(x / size, size);
    ModUnique(RoundUp(bytes, size), size, x / size, 0);
  }

  /** Unwrapped form of the computation. */
  function IdealFragments(bytes: nat, pageSize: nat): nat
    requires pageSize > 0
  {
    DivCeil(bytes + DivCeil(bytes, pageSize) * FRAGMENT_HEADER_SIZE, pageSize)
  }

  lemma FragmentsBound(bytes: U32, pageSize: U32)
    requires pageSize > 0
    ensures Fragments(bytes, pageSize) <= IdealFragments(bytes, pageSize)
    ensures bytes + DivCeil(bytes, pageSize) * FRAGMENT_HEADER_SIZE + pageSize <= TWO32 ==>
              Fragments(bytes, pageSize) == IdealFragments(bytes, pageSize)
  {
    hide DivCeil, DivCeil32;
    DivCeil32Bound(bytes, pageSize);
    var all := bytes + DivCeil32(bytes, pageSize) * FRAGMENT_HEADER_SIZE;
    DivCeil32Bound(all % TWO32, pageSize);
    DivCeilMonotone(all % TWO32, bytes + DivCeil(bytes, pageSize) * FRAGMENT_HEADER_SIZE, pageSize);
  }

  lemma IdealAtMostNeeded(bytes: nat, pageSize: nat)
    requires pageSize > FRAGMENT_HEADER_SIZE
    ensures IdealFragments(bytes, pageSize) <= NeededFragments(bytes, pageSize)
  {
    var payload := pageSize - FRAGMENT_HEADER_SIZE;
    var pages, n := DivCeil(bytes, pageSize), NeededFragments(bytes, pageSize);
    assert n * pageSize == n * payload + n * FRAGMENT_HEADER_SIZE;
    DivCeilLeast(bytes, pageSize, n);
    assert n >= pages;
    DivCeilLeast(bytes + pages * FRAGMENT_HEADER_SIZE, pageSize, n);
  }

  /** For every bitmap size the computed count does not exceed the needed one. */
  lemma NeverTooMany(bytes: U32, pageSize: U32)
    requires pageSize > FRAGMENT_HEADER_SIZE
    ensures Fragments(bytes, pageSize) <= NeededFragments(bytes, pageSize)
  {
    FragmentsBound(bytes, pageSize);
    IdealAtMostNeeded(bytes, pageSize);
  }

  lemma SplitPages(f: nat, pageSize: nat)
    requires pageSize > FRAGMENT_HEADER_SIZE
    ensures f * pageSize == f * (pageSize - FRAGMENT_HEADER_SIZE) + f * FRAGMENT_HEADER_SIZE
  {
  }

  /** A count that is not too large is the needed one exactly when it leaves room for its own headers. */
  lemma NeededIff(bytes: nat, pageSize: nat, f: nat)
    requires pageSize > FRAGMENT_HEADER_SIZE && f <= NeededFragments(bytes, pageSize)
    ensures f == NeededFragments(bytes, pageSize) <==> f * pageSize >= bytes + f * FRAGMENT_HEADER_SIZE
  {
    SplitPages(f, pageSize);
    DivCeilLeast(bytes, pageSize - FRAGMENT_HEADER_SIZE, f);
  }

  lemma FewPagesNoWrap(bytes: U32, pageSize: U32, pages: nat)
    requires FRAGMENT_HEADER_SIZE < pageSize <= 0x1_0000 && pages == DivCeil(bytes, pageSize)
    requires FRAGMENT_HEADER_SIZE * (pages + 1) <= pageSize
    ensures Fragments(bytes, pageSize) == IdealFragments(bytes, pageSize)
  {
    PagesBound(pages, pageSize);
    FragmentsBound(bytes, pageSize);
  }

  /** With `pages` bitmap pages and room for one more header than pages, the count is exact. */
  lemma ExactWhenFewPages(bytes: U32, pageSize: U32, pages: nat)
    requires FRAGMENT_HEADER_SIZE < pageSize <= 0x1_0000 && pages == DivCeil(bytes, pageSize)
    requires FRAGMENT_HEADER_SIZE * (pages + 1) <= pageSize
    ensures Fragments(bytes, pageSize) == NeededFragments(bytes, pageSize)
  {
    FewPagesNoWrap(bytes, pageSize, pages);
    IdealAtMostNeeded(bytes, pageSize);
    var f := DivCeil(bytes + pages * FRAGMENT_HEADER_SIZE, pageSize);
    OneExtraPage(bytes, pageSize, pages, f);
    NeededIff(bytes, pageSize, f);
  }

  lemma OneExtraPage(bytes: nat, pageSize: nat, pages: nat, f: nat)
    requires pageSize > 0 && FRAGMENT_HEADER_SIZE * (pages + 1) <= pageSize && bytes <= pages * pageSize
    requires f == DivCeil(bytes + pages * FRAGMENT_HEADER_SIZE, pageSize)
    ensures f * pageSize >= bytes + f * FRAGMENT_HEADER_SIZE
  {
    assert (pages + 1) * pageSize == pages * pageSize + pageSize;
    DivCeilLeast(bytes + pages * FRAGMENT_HEADER_SIZE, pageSize, pages + 1);
  }

  lemma PagesBound(a: nat, b: nat)
    requires a <= 2047 && b <= 0x1_0000
    ensures a * b <= 2047 * 0x1_0000
  {
    assert a * b <= 2047 * b by {
      if a < 2047 { MulStep(a, 2047, b); }
    }
  }

  /** A bitmap size with `pages` pages for which the count is one too small. */
  function WorstBytes(pages: nat, pageSize: nat): nat
    requires pages >= 1 && pageSize > 0
  {
    var headers := FRAGMENT_HEADER_SIZE * pages;
    if headers < pageSize then pages * pageSize
    else pages * pageSize - headers % pageSize
  }

  /** Bytes in the last of `n` pages take `n` pages. */
  lemma DivCeilIs(bytes: nat, size: nat, n: nat)
    requires size > 0 && n >= 1 && n * size - size < bytes <= n * size
    ensures DivCeil(bytes, size) == n
  {
    assert (n - 1) * size == n * size - size;
    DivCeilLeast(bytes, size, n);
    DivCeilLeast(bytes, size, n - 1);
  }

  lemma TooFewOneExtra(pages: nat, pageSize: nat)
    requires pages >= 1 && FRAGMENT_HEADER_SIZE * pages < pageSize < FRAGMENT_HEADER_SIZE * (pages + 1)
    ensures DivCeil(pages * pageSize, pageSize) == pages
    ensures IdealFragments(pages * pageSize, pageSize) < NeededFragments(pages * pageSize, pageSize)
  {
    var bytes := pages * pageSize;
    DivCeilIs(bytes, pageSize, pages);
    assert (pages + 1) * pageSize == bytes + pageSize;
    DivCeilIs(bytes + pages * FRAGMENT_HEADER_SIZE, pageSize, pages + 1);
    IdealAtMostNeeded(bytes, pageSize);
    NeededIff(bytes, pageSize, pages + 1);
  }

  lemma TooFewMoreExtra(pages: nat, pageSize: nat, bytes: nat)
    requires pages >= 1 && FRAGMENT_HEADER_SIZE < pageSize <= FRAGMENT_HEADER_SIZE * pages
    requires bytes == pages * pageSize - (FRAGMENT_HEADER_SIZE * pages) % pageSize
    ensures DivCeil(bytes, pageSize) == pages
    ensures IdealFragments(bytes, pageSize) < NeededFragments(bytes, pageSize)
  {
    hide DivCeil, NeededFragments;
    var headers := FRAGMENT_HEADER_SIZE * pages;
    var k := WholePages(headers, pageSize);
    DivCeilIs(bytes, pageSize, pages);
    assert (pages + k) * pageSize == pages * pageSize + k * pageSize;
    DivCeilIs(bytes + headers, pageSize, pages + k);
    assert IdealFragments(bytes, pageSize) == pages + k;
    IdealAtMostNeeded(bytes, pageSize);
    NeededIff(bytes, pageSize, pages + k);
  }

  lemma WholePages(x: nat, p: nat) returns (k: nat)
    requires 0 < p <= x
    ensures k >= 1 && x == k * p + x % p
  {
    k := x / p;
    DivMonotone(p, x, p);
    ModUnique(p, p, 1, 0);
  }

  lemma TooFewWhenManyPages(pages: nat, pageSize: U32)
    requires FRAGMENT_HEADER_SIZE < pageSize && pages >= 1 && FRAGMENT_HEADER_SIZE * (pages + 1) > pageSize
    requires pages * pageSize < U32_MAX
    ensures var bytes := WorstBytes(pages, pageSize);
            DivCeil(bytes, pageSize) == pages && Fragments(bytes, pageSize) < NeededFragments(bytes, pageSize)
  {
    var bytes, headers := WorstBytes(pages, pageSize), FRAGMENT_HEADER_SIZE * pages;
    if headers < pageSize {
      TooFewOneExtra(pages, pageSize);
    } else {
      TooFewMoreExtra(pages, pageSize, bytes);
    }
    FragmentsBound(bytes, pageSize);
  }

  /**
   * SEG_BMAP_FRAGMENTS is exact for every bitmap of `pages` pages if and only if a page has room for one
   * more fragment header than there are pages.
   */
  lemma ExactIff(pages: nat, pageSize: U32)
    requires FRAGMENT_HEADER_SIZE < pageSize <= 0x1_0000 && pages >= 1 && pages * pageSize < U32_MAX
    ensures (forall bytes: U32 :: DivCeil(bytes, pageSize) == pages ==>
               Fragments(bytes, pageSize) == NeededFragments(bytes, pageSize))
            <==> 32 * (pages + 1) <= pageSize
  {
    if FRAGMENT_HEADER_SIZE * (pages + 1) <= pageSize {
      forall bytes: U32 | DivCeil(bytes, pageSize) == pages
        ensures Fragments(bytes, pageSize) == NeededFragments(bytes, pageSize)
      {
        ExactWhenFewPages(bytes, pageSize, pages);
      }
    } else {
      TooFewWhenManyPages(pages, pageSize);
    }
  }

  /** SEG_BMAP_FRAGMENTS; `None` when one of its BUG_ONs fires. */
  function SegBmapFragments(items: U64, pageSize: U32): (r: Option<nat>)
    requires pageSize > 0
    ensures r.Some? ==> r.value < U16_MAX && (items == U64_MAX || (items + 1) / 2 < U32_MAX)
  {
    match BitmapBytes(items)
    case None => None
    case Some(bytes) =>
      var fragments := Fragments(bytes, pageSize);
      if fragments >= U16_MAX then None else Some(fragments)
  }

  /**
   * As long as the headers of the fragments fill no page of their own, a number of fragments is computed, and it is
   * the least that holds the items, two to a byte.
   */
  lemma FragmentsHoldItems(items: U64, pageSize: U32, n: nat)
    requires FRAGMENT_HEADER_SIZE < pageSize <= 0x1_0000
    requires 32 * (DivCeil((items + 1) / 2, pageSize) + 1) <= pageSize
    ensures SegBmapFragments(items, pageSize).Some?
    ensures 2 * (n * (pageSize - 32)) >= items <==> n >= SegBmapFragments(items, pageSize).value
  {
    hide DivCeil, Fragments;
    var bytes := (items + 1) / 2;
    var pages := DivCeil(bytes, pageSize);
    FewPagesFewFragments(bytes, pageSize, pages);
    ModUnique(items + 1, TWO64, 0, items + 1);
    assert BitmapBytes(items) == Some(bytes);
    ExactWhenFewPages(bytes, pageSize, pages);
    DivCeilLeast(bytes, pageSize - FRAGMENT_HEADER_SIZE, n);
  }

  lemma FewPagesFewFragments(bytes: nat, pageSize: U32, pages: nat)
    requires FRAGMENT_HEADER_SIZE < pageSize <= 0x1_0000 && pages == DivCeil(bytes, pageSize)
    requires FRAGMENT_HEADER_SIZE * (pages + 1) <= pageSize
    ensures bytes < U32_MAX && NeededFragments(bytes, pageSize) < U16_MAX
  {
    hide DivCeil;
    PagesBound(pages, pageSize);
    var f, room := pages + 1, pageSize - FRAGMENT_HEADER_SIZE;
    assert f * room == pages * pageSize + pageSize - FRAGMENT_HEADER_SIZE * f;
    DivCeilLeast(bytes, room, f);
  }
}
