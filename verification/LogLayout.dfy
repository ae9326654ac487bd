/**
 * Placement of the extents of one log (sbin/mkfs.ssdfs/common.c) and the number of pages it takes.
 */
module LogLayout {
  import opened Types
  import opened Rounding
  import opened LogImage

  const SEG_HEADER := 0
  const BLOCK_BITMAP := 1
  const OFFSET_TABLE := 2
  const BLOCK_DESCRIPTORS := 3
  const MAPTBL_CACHE := 4
  const LOG_PAYLOAD := 5
  const LOG_FOOTER := 6
  const BLOCK_BITMAP_BACKUP := 7
  const OFFSET_TABLE_BACKUP := 8

  const SEGMENT_HEADER_SIZE: nat := 2048

  /** Sizes of the nine extents of a log; 0 for an extent without a buffer. */
  type Sizes = s: seq<nat> | |s| == SEG_LOG_ITEMS_COUNT witness [0, 0, 0, 0, 0, 0, 0, 0, 0]

  datatype Slot = Slot(offset: nat, bytes: nat)

  function SizesOf(slots: seq<Slot>): (r: Sizes)
    requires |slots| == SEG_LOG_ITEMS_COUNT
    ensures forall i :: 0 <= i < |slots| ==> r[i] == slots[i].bytes
  {
    seq(|slots|, i requires 0 <= i < |slots| => slots[i].bytes)
  }

  /** Bytes of the metadata in front of the body: segment header, block bitmap, offset table, descriptors. */
  function HeadBytes(s: Sizes, n: nat): nat
    requires n <= 4
  {
    if n == 0 then 0 else HeadBytes(s, n - 1) + s[n - 1]
  }

  /** Bytes the mapping table cache takes in the body; a cache that fits behind the header takes none. */
  function CacheBytes(s: Sizes, page: nat): nat
    requires page > SEGMENT_HEADER_SIZE
  {
    if s[MAPTBL_CACHE] > page - 2048 then s[MAPTBL_CACHE] else 0
  }

  /** Where extent `i` starts, in closed form; `first` is the offset of the segment header. */
  function StartOffset(s: Sizes, first: nat, page: nat, i: nat): nat
    requires page > SEGMENT_HEADER_SIZE && i < SEG_LOG_ITEMS_COUNT
  {
    var body := RoundUp(first + HeadBytes(s, 4), page);
    var payload := body + RoundUp(CacheBytes(s, page), page);
    var footer := payload + RoundUp(s[LOG_PAYLOAD], page);
    if i <= BLOCK_DESCRIPTORS then first + HeadBytes(s, i)
    else if i == MAPTBL_CACHE then body
    else if i == LOG_PAYLOAD then payload
    else if i == LOG_FOOTER then footer
    else if i == BLOCK_BITMAP_BACKUP then footer + RoundUp(s[LOG_FOOTER], page)
    else footer + RoundUp(s[LOG_FOOTER] + s[BLOCK_BITMAP_BACKUP], page)
  }

  lemma RoundUpTwice(a: nat, x: nat, y: nat, p: nat)
    requires p > 0 && a % p == 0
    ensures RoundUp(RoundUp(a + x, p) + y, p) == a + RoundUp(x, p) + RoundUp(y, p)
  {
    RoundUpShift(a, x, p);
    AddMultiple(a, RoundUp(x, p), p);
    RoundUpShift(a + RoundUp(x, p), y, p);
  }

  /** The part of set_extent_start_offset behind the log's head: the offset is kept page aligned. */
  method BodyOffset(s: Sizes, head: nat, page: nat, index: nat) returns (offset: nat)
    requires page > SEGMENT_HEADER_SIZE && MAPTBL_CACHE <= index < SEG_LOG_ITEMS_COUNT
    ensures forall first: nat :: head == first + HeadBytes(s, 4) ==> offset == StartOffset(s, first, page, index)
  {
    hide RoundUp, HeadBytes;
    var inlineCapacity := page - SEGMENT_HEADER_SIZE;
    ghost var body, cache := RoundUp(head, page), CacheBytes(s, page);
    offset := RoundUp(head, page);
    if index >= LOG_FOOTER {
      offset := RoundUp(offset + s[LOG_PAYLOAD], page);
    }
    if index >= LOG_PAYLOAD {
      if s[MAPTBL_CACHE] > inlineCapacity {
        offset := offset + s[MAPTBL_CACHE];
      }
      offset := RoundUp(offset, page);
      RoundUpTwice(body, s[LOG_PAYLOAD], cache, page);
      RoundUpShift(body, cache, page);
    }
    if index >= BLOCK_BITMAP_BACKUP {
      ghost var footer := offset;
      if index == OFFSET_TABLE_BACKUP {
        offset := offset + s[BLOCK_BITMAP_BACKUP];
      }
      offset := offset + s[LOG_FOOTER];
      RoundUpShift(footer, offset - footer, page);
      offset := RoundUp(offset, page);
    }
  }

  /** set_extent_start_offset */
  method SetExtentStartOffset(slots: array<Slot>, page: nat, index: int) returns (st: Status)
    requires slots.Length == SEG_LOG_ITEMS_COUNT && page > SEGMENT_HEADER_SIZE
    modifies slots
    ensures 0 <= index < SEG_LOG_ITEMS_COUNT ==>
              st == Success
              && slots[..] == old(slots[..])[index := old(slots[index]).(offset :=
                   StartOffset(SizesOf(old(slots[..])), old(slots[SEG_HEADER].offset), page, index))]
    ensures !(0 <= index < SEG_LOG_ITEMS_COUNT) ==> st == Error(EINVAL) && slots[..] == old(slots[..])
  {
    if index < 0 || index >= SEG_LOG_ITEMS_COUNT {
      return Error(EINVAL);
    }
    var s, offset := SizesOf(slots[..]), slots[SEG_HEADER].offset;
    HeadSum(s);
    if index >= MAPTBL_CACHE { offset := offset + s[BLOCK_DESCRIPTORS]; }
    if index >= BLOCK_DESCRIPTORS { offset := offset + s[OFFSET_TABLE]; }
    if index >= OFFSET_TABLE { offset := offset + s[BLOCK_BITMAP]; }
    if index >= BLOCK_BITMAP { offset := offset + s[SEG_HEADER]; }
    if index >= MAPTBL_CACHE {
      offset := BodyOffset(s, offset, page, index);
    }
    slots[index] := slots[index].(offset := offset);
    st := Success;
  }

  lemma HeadSum(s: Sizes)
    ensures HeadBytes(s, 0) == 0
    ensures HeadBytes(s, 1) == s[SEG_HEADER]
    ensures HeadBytes(s, 2) == s[SEG_HEADER] + s[BLOCK_BITMAP]
    ensures HeadBytes(s, 3) == s[SEG_HEADER] + s[BLOCK_BITMAP] + s[OFFSET_TABLE]
    ensures HeadBytes(s, 4) == s[SEG_HEADER] + s[BLOCK_BITMAP] + s[OFFSET_TABLE] + s[BLOCK_DESCRIPTORS]
  {
    assert HeadBytes(s, 1) == HeadBytes(s, 0) + s[0];
    assert HeadBytes(s, 2) == HeadBytes(s, 1) + s[1];
    assert HeadBytes(s, 3) == HeadBytes(s, 2) + s[2];
  }

  /**
   * Where extent `i` ends up: a mapping table cache that fits behind the header in a page of the layout is put
   * there, whatever set_extent_start_offset has chosen.
   */
  function PlacedOffset(s: Sizes, first: nat, page: nat, layoutPage: nat, i: nat): nat
    requires SEGMENT_HEADER_SIZE < page <= layoutPage && i < SEG_LOG_ITEMS_COUNT
  {
    if i == MAPTBL_CACHE && s[MAPTBL_CACHE] <= layoutPage - SEGMENT_HEADER_SIZE then first + s[SEG_HEADER]
    else StartOffset(s, first, page, i)
  }

  /** The log whose extents carry `bufs` and stand where mkfs puts them. */
  function PlacedLog(bufs: seq<seq<Byte>>, first: nat, page: nat, layoutPage: nat): (r: seq<Extent>)
    requires |bufs| == SEG_LOG_ITEMS_COUNT && SEGMENT_HEADER_SIZE < page <= layoutPage
    requires Addressable(bufs, first, page, layoutPage)
    ensures |r| == SEG_LOG_ITEMS_COUNT
  {
    seq(SEG_LOG_ITEMS_COUNT, i requires 0 <= i < SEG_LOG_ITEMS_COUNT =>
      if bufs[i] == [] then Absent else Extent(PlacedOffset(Lengths(bufs), first, page, layoutPage, i), bufs[i]))
  }

  function Lengths(bufs: seq<seq<Byte>>): (r: Sizes)
    requires |bufs| == SEG_LOG_ITEMS_COUNT
    ensures forall i :: 0 <= i < SEG_LOG_ITEMS_COUNT ==> r[i] == |bufs[i]|
  {
    seq(SEG_LOG_ITEMS_COUNT, i requires 0 <= i < SEG_LOG_ITEMS_COUNT => |bufs[i]|)
  }

  /** All offsets fit the 32-bit field. */
  predicate Addressable(bufs: seq<seq<Byte>>, first: nat, page: nat, layoutPage: nat)
    requires |bufs| == SEG_LOG_ITEMS_COUNT && SEGMENT_HEADER_SIZE < page <= layoutPage
  {
    forall i :: 0 <= i < SEG_LOG_ITEMS_COUNT ==> PlacedOffset(Lengths(bufs), first, page, layoutPage, i) <= U32_MAX
  }

  /**
   * A cache behind the header does not collide: nothing else is in the head of the log, and the cache ends in
   * the page that the head ends in, unless it is counted as a part of the body.
   */
  predicate CacheApart(s: Sizes, first: nat, page: nat, layoutPage: nat)
    requires SEGMENT_HEADER_SIZE < page <= layoutPage
  {
    var cache, head := s[MAPTBL_CACHE], first + HeadBytes(s, 4);
    || cache == 0 || cache > layoutPage - SEGMENT_HEADER_SIZE
    || (HeadBytes(s, 4) == s[SEG_HEADER]
        && (cache > page - SEGMENT_HEADER_SIZE || head + cache <= RoundUp(head, page)))
  }

  /** Footer and block bitmap backup end in the page that the offset table backup assumes. */
  predicate BackupsApart(s: Sizes, page: nat)
    requires page > 0
  {
    var footer, bmap := s[LOG_FOOTER] % page, s[BLOCK_BITMAP_BACKUP] % page;
    s[OFFSET_TABLE_BACKUP] == 0 || footer == 0 || bmap == 0 || footer + bmap > page
  }

  /** The head of the log is contiguous. */
  lemma HeadChained(bufs: seq<seq<Byte>>, first: nat, page: nat, layoutPage: nat, from: nat)
    requires |bufs| == SEG_LOG_ITEMS_COUNT && SEGMENT_HEADER_SIZE < page <= layoutPage
    requires Addressable(bufs, first, page, layoutPage)
    requires bufs[SEG_HEADER] != [] && from <= first < from + layoutPage
    ensures var exts := PlacedLog(bufs, first, page, layoutPage);
            && Chained(exts[..4], layoutPage, from)
            && End(exts[..4], from) == first + HeadBytes(Lengths(bufs), 4)
  {
    hide Chained, End, Image, RoundUp;
    var exts := PlacedLog(bufs, first, page, layoutPage);
    HeadSum(Lengths(bufs));
    ChainNothing(exts, layoutPage, from);
    ChainSnoc(exts, layoutPage, from, 0);
    ChainSnoc(exts, layoutPage, from, 1);
    ChainSnoc(exts, layoutPage, from, 2);
    ChainSnoc(exts, layoutPage, from, 3);
  }

  /** The head and the cache are in order, and end less than a page in front of the payload. */
  lemma CacheChained(bufs: seq<seq<Byte>>, first: nat, page: nat, layoutPage: nat, from: nat)
    requires |bufs| == SEG_LOG_ITEMS_COUNT && SEGMENT_HEADER_SIZE < page <= layoutPage && layoutPage % page == 0
    requires Addressable(bufs, first, page, layoutPage)
    requires bufs[SEG_HEADER] != [] && from <= first < from + layoutPage
    ensures var exts, s := PlacedLog(bufs, first, page, layoutPage), Lengths(bufs);
            var payload, end := StartOffset(s, first, page, LOG_PAYLOAD), End(exts[..5], from);
            && (Chained(exts[..5], layoutPage, from) && end <= payload < end + layoutPage <==>
                  CacheApart(s, first, page, layoutPage))
  {
    var exts, s := PlacedLog(bufs, first, page, layoutPage), Lengths(bufs);
    HeadChained(bufs, first, page, layoutPage, from);
    HeadSum(s);
    ChainSnoc(exts, layoutPage, from, MAPTBL_CACHE);
    RoundUpUnique(0, page, 0);
    if page < layoutPage {
      RoundUpUnique(page, page, page);
      MultiplesApart(page, layoutPage, page);
    }
    CacheGap(s, first, page, layoutPage);
  }

  /** Space between the end of the cache and the payload. */
  lemma CacheGap(s: Sizes, first: nat, page: nat, layoutPage: nat)
    requires SEGMENT_HEADER_SIZE < page <= layoutPage && (page < layoutPage ==> 2 * page <= layoutPage)
    ensures var cache, head := s[MAPTBL_CACHE], first + HeadBytes(s, 4);
            var payload := StartOffset(s, first, page, LOG_PAYLOAD);
            && (cache > layoutPage - SEGMENT_HEADER_SIZE ==>
                  RoundUp(head, page) + cache <= payload < RoundUp(head, page) + cache + layoutPage)
            && (page - SEGMENT_HEADER_SIZE < cache <= layoutPage - SEGMENT_HEADER_SIZE ==>
                  head + cache <= payload < head + cache + layoutPage)
            && (cache <= page - SEGMENT_HEADER_SIZE ==> payload == RoundUp(head, page) < head + layoutPage)
  {
    RoundUpUnique(0, page, 0);
  }

  /** The body is in order exactly when the cache is apart. */
  lemma BodyChained(bufs: seq<seq<Byte>>, first: nat, page: nat, layoutPage: nat, from: nat)
    requires |bufs| == SEG_LOG_ITEMS_COUNT && SEGMENT_HEADER_SIZE < page <= layoutPage && layoutPage % page == 0
    requires Addressable(bufs, first, page, layoutPage)
    requires bufs[SEG_HEADER] != [] && bufs[LOG_FOOTER] != [] && from <= first < from + layoutPage
    ensures var exts, s := PlacedLog(bufs, first, page, layoutPage), Lengths(bufs);
            && (Chained(exts[..7], layoutPage, from) <==> CacheApart(s, first, page, layoutPage))
            && End(exts[..7], from) == StartOffset(s, first, page, LOG_FOOTER) + s[LOG_FOOTER]
  {
    var exts := PlacedLog(bufs, first, page, layoutPage);
    CacheChained(bufs, first, page, layoutPage, from);
    hide CacheApart;
    RoundUpUnique(0, page, 0);
    ChainSnoc(exts, layoutPage, from, LOG_PAYLOAD);
    ChainSnoc(exts, layoutPage, from, LOG_FOOTER);
  }

  /** The offset table backup clears the block bitmap backup exactly under `BackupsApart`. */
  lemma BackupArithmetic(footer: nat, bmap: nat, page: nat)
    requires page > 0
    ensures RoundUp(footer, page) + bmap <= RoundUp(footer + bmap, page) <==>
              footer % page == 0 || bmap % page == 0 || footer % page + bmap % page > page
    ensures RoundUp(footer + bmap, page) < RoundUp(footer, page) + bmap + page
  {
    hide RoundUp;
    var f, b := footer - footer % page, bmap - bmap % page;
    var x, y := footer % page, bmap % page;
    assert f % page == 0 && b % page == 0 by {
      RoundDownIs(footer, page);
      RoundDownIs(bmap, page);
    }
    AddMultiple(f, b, page);
    RoundUpShift(f, x, page);
    RoundUpShift(f + b, x + y, page);
    BackupCases(x, y, page);
  }

  lemma BackupCases(x: nat, y: nat, page: nat)
    requires x < page && y < page
    ensures RoundUp(x, page) + y <= RoundUp(x + y, page) <==> x == 0 || y == 0 || x + y > page
    ensures RoundUp(x + y, page) < RoundUp(x, page) + y + page
  {
    hide RoundUp;
    SmallRoundUp(x, page);
    SmallRoundUp(x + y, page);
  }

  lemma RoundDownIs(x: nat, p: nat)
    requires p > 0
    ensures (x - x % p) % p == 0
  {
    MultipleModZero(x / p, p);
  }

  lemma SmallRoundUp(x: nat, p: nat)
    requires p > 0 && x < 2 * p
    ensures RoundUp(x, p) == if x == 0 then 0 else if x <= p then p else 2 * p
  {
    MultipleModZero(2, p);
    RoundUpUnique(x, p, if x == 0 then 0 else if x <= p then p else 2 * p);
  }

  /**
   * The offsets of a log pass the pre-write check (in order, no overlap, gaps below one page, inside the erase
   * block) if and only if the log fits the erase block, the cache is apart and the two backups do not collide.
   */
  lemma PlacedWellPlaced(bufs: seq<seq<Byte>>, first: nat, page: nat, layoutPage: nat, eraseSize: nat)
    requires |bufs| == SEG_LOG_ITEMS_COUNT && SEGMENT_HEADER_SIZE < page <= layoutPage && layoutPage % page == 0
    requires Addressable(bufs, first, page, layoutPage)
    requires bufs[SEG_HEADER] != [] && bufs[LOG_FOOTER] != []
    ensures var exts, s := PlacedLog(bufs, first, page, layoutPage), Lengths(bufs);
            && First(exts) == first
            && (WellPlaced(exts, layoutPage, eraseSize) <==>
                  CacheApart(s, first, page, layoutPage) && BackupsApart(s, page) && End(exts, 0) <= eraseSize)
  {
    hide CacheApart, Chained, End, Image, First, RoundUp, RoundDown, StartOffset;
    var exts, s := PlacedLog(bufs, first, page, layoutPage), Lengths(bufs);
    PlacedFirst(bufs, first, page, layoutPage);
    var from := FirstPage(exts, layoutPage);
    BodyChained(bufs, first, page, layoutPage, from);
    ChainSnoc(exts, layoutPage, from, BLOCK_BITMAP_BACKUP);
    ChainSnoc(exts, layoutPage, from, OFFSET_TABLE_BACKUP);
    BackupArithmetic(s[LOG_FOOTER], s[BLOCK_BITMAP_BACKUP], page);
    BackupOffsets(s, first, page);
    assert exts[..9] == exts;
  }

  lemma BackupOffsets(s: Sizes, first: nat, page: nat)
    requires page > SEGMENT_HEADER_SIZE
    ensures var footer := StartOffset(s, first, page, LOG_FOOTER);
            && StartOffset(s, first, page, BLOCK_BITMAP_BACKUP) == footer + RoundUp(s[LOG_FOOTER], page)
            && StartOffset(s, first, page, OFFSET_TABLE_BACKUP) ==
               footer + RoundUp(s[LOG_FOOTER] + s[BLOCK_BITMAP_BACKUP], page)
  {
  }

  lemma PlacedFirst(bufs: seq<seq<Byte>>, first: nat, page: nat, layoutPage: nat)
    requires |bufs| == SEG_LOG_ITEMS_COUNT && SEGMENT_HEADER_SIZE < page <= layoutPage
    requires Addressable(bufs, first, page, layoutPage) && bufs[SEG_HEADER] != []
    ensures var exts := PlacedLog(bufs, first, page, layoutPage); HasAny(exts) && First(exts) == first
  {
    var exts := PlacedLog(bufs, first, page, layoutPage);
    HeadSum(Lengths(bufs));
    assert exts[0].Extent?;
  }

  /** A log that has a header of full size at its start, a cache of any size and a footer, and nothing else. */
  predicate SuperblockSizes(s: Sizes) {
    && s[SEG_HEADER] == 2048 && s[LOG_FOOTER] > 0
    && forall i :: 0 <= i < SEG_LOG_ITEMS_COUNT && i != SEG_HEADER && i != MAPTBL_CACHE && i != LOG_FOOTER ==> s[i] == 0
  }

  /** The log of a superblock segment passes the check exactly when it fits, and its page count is exact. */
  lemma SuperblockLog(bufs: seq<seq<Byte>>, page: nat, layoutPage: nat, eraseSize: nat)
    requires |bufs| == SEG_LOG_ITEMS_COUNT && SEGMENT_HEADER_SIZE < page <= layoutPage && layoutPage % page == 0
    requires Addressable(bufs, 0, page, layoutPage) && SuperblockSizes(Lengths(bufs))
    ensures var exts := PlacedLog(bufs, 0, page, layoutPage);
            && (WellPlaced(exts, layoutPage, eraseSize) <==> End(exts, 0) <= eraseSize)
            && LogBytes(Lengths(bufs), page) == RoundUp(End(exts, 0), page)
  {
    var s := Lengths(bufs);
    HeadSum(s);
    RoundUpUnique(SEGMENT_HEADER_SIZE, page, page) by { ModUnique(page, page, 1, 0); }
    assert CacheApart(s, 0, page, layoutPage);
    PlacedWellPlaced(bufs, 0, page, layoutPage, eraseSize);
    LogPagesIsEnd(bufs, 0, page, layoutPage);
    if s[MAPTBL_CACHE] <= page - SEGMENT_HEADER_SIZE {
      RoundUpUnique(SEGMENT_HEADER_SIZE + s[MAPTBL_CACHE], page, page) by { ModUnique(page, page, 1, 0); }
    }
  }

  /** Bytes of the head and the cache; a cache that fits behind the header shares the pages of the head. */
  function HeadAndCache(s: Sizes, page: nat): (r: nat)
    requires page > SEGMENT_HEADER_SIZE
  {
    RoundUp(HeadBytes(s, 4) + s[MAPTBL_CACHE] - CacheBytes(s, page), page) + RoundUp(CacheBytes(s, page), page)
  }

  /** Bytes of a log, each part rounded up to pages. */
  function LogBytes(s: Sizes, page: nat): (r: nat)
    requires page > SEGMENT_HEADER_SIZE
  {
    HeadAndCache(s, page) + RoundUp(s[LOG_PAYLOAD], page)
    + RoundUp(s[LOG_FOOTER] + s[BLOCK_BITMAP_BACKUP] + s[OFFSET_TABLE_BACKUP], page)
  }

  /** The accumulation of calculate_log_pages in front of the payload. */
  method HeadAndCacheBytes(s: Sizes, page: nat) returns (bytes: nat)
    requires page > SEGMENT_HEADER_SIZE
    ensures bytes % page == 0 && bytes == HeadAndCache(s, page)
  {
    var inlineCapacity := page - SEGMENT_HEADER_SIZE;
    HeadSum(s);
    bytes := s[SEG_HEADER] + s[BLOCK_BITMAP] + s[OFFSET_TABLE] + s[BLOCK_DESCRIPTORS];
    RoundUpShift(RoundUp(bytes, page), s[MAPTBL_CACHE], page);
    RoundUpUnique(0, page, 0);
    if s[MAPTBL_CACHE] > inlineCapacity {
      bytes := RoundUp(bytes, page);
    }
    bytes := bytes + s[MAPTBL_CACHE];
    bytes := RoundUp(bytes, page);
  }

  /** calculate_log_pages; `None` is the BUG_ON for a log that does not fit the erase block. */
  method CalculateLogPages(s: Sizes, page: nat, eraseSize: nat) returns (pages: Option<nat>)
    requires page > SEGMENT_HEADER_SIZE
    ensures if LogBytes(s, page) > eraseSize then pages == None
            else pages.Some? && pages.value * page == LogBytes(s, page)
  {
    var bytes := HeadAndCacheBytes(s, page);
    var tail := s[LOG_FOOTER] + s[BLOCK_BITMAP_BACKUP] + s[OFFSET_TABLE_BACKUP];
    RoundUpTwice(bytes, s[LOG_PAYLOAD], tail, page);
    bytes := RoundUp(bytes + s[LOG_PAYLOAD], page);
    bytes := RoundUp(bytes + tail, page);
    if bytes > eraseSize {
      return None;
    }
    pages := Some(PageOf(bytes, page));
    ExactPages(bytes, page);
  }

  /**
   * Without backups the page count is the rounded-up end of the log if and only if neither the offset of the
   * segment header nor a cache behind it moves the end of the head into another page.
   */
  lemma LogPagesIsEnd(bufs: seq<seq<Byte>>, first: nat, page: nat, layoutPage: nat)
    requires |bufs| == SEG_LOG_ITEMS_COUNT && SEGMENT_HEADER_SIZE < page <= layoutPage && layoutPage % page == 0
    requires Addressable(bufs, first, page, layoutPage)
    requires bufs[SEG_HEADER] != [] && bufs[LOG_FOOTER] != []
    requires bufs[BLOCK_BITMAP_BACKUP] == [] && bufs[OFFSET_TABLE_BACKUP] == []
    ensures var s := Lengths(bufs);
            var behind := s[MAPTBL_CACHE] - CacheBytes(s, page);
            LogBytes(s, page) == RoundUp(End(PlacedLog(bufs, first, page, layoutPage), 0), page) <==>
              RoundUp(HeadBytes(s, 4) + behind, page) == RoundUp(first + HeadBytes(s, 4), page)
  {
    var exts, s := PlacedLog(bufs, first, page, layoutPage), Lengths(bufs);
    FooterEnd(bufs, first, page, layoutPage);
    hide PlacedOffset, PlacedLog;
    var footer := StartOffset(s, first, page, LOG_FOOTER);
    var body, cache := RoundUp(first + HeadBytes(s, 4), page), RoundUp(CacheBytes(s, page), page);
    AddMultiple(body, cache, page);
    AddMultiple(body + cache, RoundUp(s[LOG_PAYLOAD], page), page);
    RoundUpShift(footer, s[LOG_FOOTER], page);
  }

  lemma FooterEnd(bufs: seq<seq<Byte>>, first: nat, page: nat, layoutPage: nat)
    requires |bufs| == SEG_LOG_ITEMS_COUNT && SEGMENT_HEADER_SIZE < page <= layoutPage
    requires Addressable(bufs, first, page, layoutPage)
    requires bufs[LOG_FOOTER] != [] && bufs[BLOCK_BITMAP_BACKUP] == [] && bufs[OFFSET_TABLE_BACKUP] == []
    ensures var s := Lengths(bufs);
            End(PlacedLog(bufs, first, page, layoutPage), 0) == StartOffset(s, first, page, LOG_FOOTER) + s[LOG_FOOTER]
  {
    var exts := PlacedLog(bufs, first, page, layoutPage);
    ChainSnoc(exts, layoutPage, 0, LOG_FOOTER);
    ChainSnoc(exts, layoutPage, 0, BLOCK_BITMAP_BACKUP);
    ChainSnoc(exts, layoutPage, 0, OFFSET_TABLE_BACKUP);
    assert exts[..9] == exts;
  }

  /** An offset depends only on the sizes of the extents in front of it. */
  lemma OffsetsFixed(header: nat, cache: nat, footer: nat, first: nat, page: nat)
    requires page > SEGMENT_HEADER_SIZE
    ensures var s: Sizes := [header, 0, 0, 0, cache, 0, footer, 0, 0];
            && StartOffset([0, 0, 0, 0, 0, 0, 0, 0, 0], first, page, SEG_HEADER) == first
            && StartOffset(s, first, page, SEG_HEADER) == first
            && StartOffset([header, 0, 0, 0, 0, 0, 0, 0, 0], first, page, MAPTBL_CACHE) ==
               StartOffset(s, first, page, MAPTBL_CACHE)
            && StartOffset([header, 0, 0, 0, cache, 0, 0, 0, 0], first, page, LOG_FOOTER) ==
               StartOffset(s, first, page, LOG_FOOTER)
  {
    HeadSum([0, 0, 0, 0, 0, 0, 0, 0, 0]);
    HeadSum([header, 0, 0, 0, 0, 0, 0, 0, 0]);
    HeadSum([header, 0, 0, 0, cache, 0, 0, 0, 0]);
    HeadSum([header, 0, 0, 0, cache, 0, footer, 0, 0]);
    hide HeadBytes, RoundUp;
  }

  /**
   * The extents of a superblock log, in the order of sb_mkfs_define_layout: header, cache with its own offset if
   * it fits a page of the layout, footer. They end up where `PlacedOffset` says.
   */
  method DefineSuperblockLog(slots: array<Slot>, header: nat, cache: nat, footer: nat, page: nat, layoutPage: nat)
    requires slots.Length == SEG_LOG_ITEMS_COUNT && SEGMENT_HEADER_SIZE < page <= layoutPage
    requires forall i :: 0 <= i < SEG_LOG_ITEMS_COUNT ==> slots[i].bytes == 0
    modifies slots
    ensures SizesOf(slots[..]) == [header, 0, 0, 0, cache, 0, footer, 0, 0]
    ensures slots[SEG_HEADER].offset == old(slots[SEG_HEADER].offset)
    ensures forall i {:trigger slots[i]} :: i == SEG_HEADER || i == MAPTBL_CACHE || i == LOG_FOOTER ==>
              slots[i].offset ==
                PlacedOffset(SizesOf(slots[..]), old(slots[SEG_HEADER].offset), page, layoutPage, i)
  {
    hide StartOffset;
    ghost var s0: Sizes := [0, 0, 0, 0, 0, 0, 0, 0, 0];
    ghost var s1: Sizes := [header, 0, 0, 0, 0, 0, 0, 0, 0];
    ghost var s2: Sizes := [header, 0, 0, 0, cache, 0, 0, 0, 0];
    ghost var s3: Sizes := [header, 0, 0, 0, cache, 0, footer, 0, 0];
    OffsetsFixed(header, cache, footer, slots[SEG_HEADER].offset, page);
    assert SizesOf(slots[..]) == s0;
    var st := SetExtentStartOffset(slots, page, SEG_HEADER);
    slots[SEG_HEADER] := slots[SEG_HEADER].(bytes := header);
    assert SizesOf(slots[..]) == s1;
    st := SetExtentStartOffset(slots, page, MAPTBL_CACHE);
    slots[MAPTBL_CACHE] := slots[MAPTBL_CACHE].(bytes := cache);
    if cache <= layoutPage - SEGMENT_HEADER_SIZE {
      slots[MAPTBL_CACHE] := slots[MAPTBL_CACHE].(offset := slots[SEG_HEADER].offset + slots[SEG_HEADER].bytes);
    }
    assert SizesOf(slots[..]) == s2;
    st := SetExtentStartOffset(slots, page, LOG_FOOTER);
    slots[LOG_FOOTER] := slots[LOG_FOOTER].(bytes := footer);
    assert SizesOf(slots[..]) == s3;
  }
}
