/**
 * fsck reads the cache that mkfs has written (sbin/fsck.ssdfs/detect_file_system.c): loading of the area in
 * the superblock's log, without compression, and ssdfs_maptbl_cache_convert_leb2peb.
 */
module CacheLookup {
  import opened Types
  import opened Rounding
  import opened Bytes
  import opened CacheFragment
  import opened MapTableCache
  import MapTable
  import MapTableRun

  /** The PEB cached for a LEB, U64_MAX if there is none. */
  function Find(items: seq<Item>, leb: U64): U64 {
    if items == [] then U64_MAX
    else if items[0].leb == leb then items[0].peb
    else Find(items[1..], leb)
  }

  lemma {:induction false} FindCached(items: seq<Item>, i: nat)
    requires Ascending(items) && i < |items|
    ensures Find(items, items[i].leb) == items[i].peb
  {
    if i > 0 {
      FindCached(items[1..], i - 1);
    }
  }

  lemma {:induction false} FindOther(items: seq<Item>, leb: U64)
    requires forall i :: 0 <= i < |items| ==> items[i].leb != leb
    ensures Find(items, leb) == U64_MAX
  {
    if items != [] {
      FindOther(items[1..], leb);
    }
  }

  /** What fsck answers: it compares the LEB with the low 16 bits of the first and the last LEB. */
  function Answer(items: seq<Item>, leb: U64): U64 {
    if StartLeb(items) % 0x1_0000 <= leb <= EndLeb(items) % 0x1_0000 then Find(items, leb) else U64_MAX
  }

  /** fsck answers correctly for every LEB in the cache if and only if the last one is below 65536. */
  lemma AnswersIff(items: seq<Item>)
    requires Ascending(items) && items != [] && forall i :: 0 <= i < |items| ==> items[i].peb < U64_MAX
    ensures (forall i :: 0 <= i < |items| ==> Answer(items, items[i].leb) == items[i].peb) <==> EndLeb(items) < 0x1_0000
  {
    if EndLeb(items) < 0x1_0000 {
      forall i | 0 <= i < |items| ensures Answer(items, items[i].leb) == items[i].peb {
        FindCached(items, i);
      }
    } else {
      assert items[|items| - 1].leb > EndLeb(items) % 0x1_0000;
    }
  }

  /** For every LEB that is not in the cache the answer is U64_MAX, whatever the LEBs are. */
  lemma AnswerOther(items: seq<Item>, leb: U64)
    requires forall i :: 0 <= i < |items| ==> items[i].leb != leb
    ensures Answer(items, leb) == U64_MAX
  {
    FindOther(items, leb);
  }

  /** Reading a 64-bit field as 16 bits. */
  lemma LowBits(v: U64)
    ensures Value(Le(v, 8)[..2]) == v % 0x1_0000
  {
    hide Le, Value;
    var x, y := v % 0x100, v / 0x100 % 0x100;
    LeStep(v, 8);
    LeStep(v / 0x100, 7);
    assert Le(v, 8)[..2] == [x, y];
    ValueTwo(x, y);
    LowWord(v);
  }

  lemma LowWord(v: nat)
    ensures v % 0x100 + 0x100 * (v / 0x100 % 0x100) == v % 0x1_0000
  {
    var w := v / 0x100;
    assert v == 0x100 * w + v % 0x100 && w == 0x100 * (w / 0x100) + w % 0x100;
    ModUnique(v, 0x1_0000, w / 0x100, v % 0x100 + 0x100 * (w % 0x100));
  }

  lemma LeStep(v: nat, k: nat)
    requires k > 0
    ensures Le(v, k) == [v % 0x100] + Le(v / 0x100, k - 1)
  {
  }

  lemma ValueTwo(x: Byte, y: Byte)
    ensures Value([x, y]) == x + 0x100 * y
  {
    var s, t := [x, y], [y];
    assert t[1..] == [] && Value(t) == y;
    assert s[1..] == t && Value(s) == x + 0x100 * Value(t);
  }

  lemma LowField(b: seq<Byte>, base: nat, v: U64)
    requires At(b, base, Le(v, 8))
    ensures Value(b[base..base + 2]) == v % 0x1_0000
  {
    LowBits(v);
    assert b[base..base + 2] == b[base..base + 8][..2];
  }

  /** Header and data as fsck keeps them. */
  datatype Loaded = Loaded(hdr: seq<Byte>, data: seq<Byte>)

  /** The loaded copy of a cache with these items. */
  predicate Copy(c: Loaded, items: seq<Item>) {
    |c.hdr| == HDR_SIZE && HeaderOk(c.hdr, items) && At(c.data, 0, Pairs(items)) && THRESHOLD + 20 * |items| <= U16_MAX
  }

  /** The PEB of the first of the pairs `i` to `n` - 1 in the data that has the LEB, U64_MAX if there is none. */
  function FindIn(data: seq<Byte>, i: nat, n: nat, leb: U64): nat
    requires i <= n && 16 * n <= |data|
    decreases n - i
  {
    if i == n then U64_MAX
    else if LebAt(data, i) == leb then PebAt(data, i)
    else FindIn(data, i + 1, n, leb)
  }

  function LebAt(data: seq<Byte>, i: nat): nat
    requires 16 * i + 16 <= |data|
  {
    Value(data[16 * i..16 * i + 8])
  }

  function PebAt(data: seq<Byte>, i: nat): nat
    requires 16 * i + 16 <= |data|
  {
    Value(data[16 * i + 8..16 * i + 16])
  }

  lemma {:induction false} FindInFrom(data: seq<Byte>, i: nat, n: nat, leb: U64)
    requires i <= n && 16 * n <= |data| && forall k :: 0 <= k < i ==> LebAt(data, k) != leb
    ensures FindIn(data, 0, n, leb) == FindIn(data, i, n, leb)
  {
    hide LebAt, PebAt;
    if i > 0 {
      FindInFrom(data, i - 1, n, leb);
    }
  }

  /** Number of pairs that are compared before the bytes processed reach the byte count of the header. */
  function Reach(count: U16, bytes: U16): (r: nat)
    ensures r <= count
  {
    if bytes > 0xFFF8 then count else if bytes <= 8 then 0 else Min(count, (bytes + 7) / 16)
  }

  /** The 16-bit number of processed bytes, against the byte count. */
  lemma Processed(i: nat, bytes: U16)
    requires bytes <= 0xFFF8 ==> i == 0 || 16 * i < bytes
    ensures (16 * i + 8) % 0x1_0000 >= bytes <==> bytes <= 0xFFF8 && 16 * i + 8 >= bytes
    ensures bytes <= 0xFFF8 && 16 * i + 8 < bytes ==>
              ((16 * i + 16) % 0x1_0000 >= bytes <==> 16 * i + 16 >= bytes)
    ensures bytes > 0xFFF8 ==> (16 * i + 16) % 0x1_0000 < bytes
  {
    ModEight(16 * i + 8);
    ModEight(16 * i + 16);
    if bytes <= 0xFFF8 {
      ModUnique(16 * i + 8, 0x1_0000, 0, 16 * i + 8);
      if 16 * i + 8 < bytes {
        ModUnique(16 * i + 16, 0x1_0000, 0, 16 * i + 16);
      }
    }
  }

  lemma ModEight(x: nat)
    requires x % 8 == 0
    ensures x % 0x1_0000 <= 0xFFF8
  {
  }

  /** ssdfs_maptbl_cache_convert_leb2peb, for any header and any data that is long enough to be read. */
  method ConvertLeb2Peb(c: Loaded, leb: U64) returns (peb: nat)
    requires |c.hdr| == HDR_SIZE && Value(c.hdr[12..14]) <= U16_MAX && Value(c.hdr[14..16]) <= U16_MAX
    requires 16 * Reach(Value(c.hdr[12..14]), Value(c.hdr[14..16])) <= |c.data|
    ensures peb == if Value(c.hdr[16..18]) <= leb <= Value(c.hdr[24..26])
                   then FindIn(c.data, 0, Reach(Value(c.hdr[12..14]), Value(c.hdr[14..16])), leb) else U64_MAX
  {
    hide Value, LebAt, PebAt;
    var count, bytes := Value(c.hdr[12..14]), Value(c.hdr[14..16]);
    var start, end := Value(c.hdr[16..18]), Value(c.hdr[24..26]);
    if leb < start || leb > end {
      return U64_MAX;
    }
    ghost var reach := Reach(count, bytes);
    if bytes < 8 {
      return U64_MAX;
    }
    var i, processed := 0, 0;
    while i < count
      invariant i <= reach && processed == 16 * i % 0x1_0000
      invariant i > 0 && bytes <= 0xFFF8 ==> 16 * i < bytes
      invariant forall k :: 0 <= k < i ==> LebAt(c.data, k) != leb
    {
      Processed(i, bytes);
      Wrapped(16 * i);
      processed := (processed + 8) % 0x1_0000;
      if processed >= bytes {
        FindInFrom(c.data, i, reach, leb);
        return U64_MAX;
      }
      if LebAt(c.data, i) == leb {
        FindInFrom(c.data, i, reach, leb);
        return PebAt(c.data, i);
      }
      processed := (processed + 8) % 0x1_0000;
      if processed >= bytes {
        FindInFrom(c.data, i + 1, reach, leb);
        return U64_MAX;
      }
      i := i + 1;
    }
    FindInFrom(c.data, i, reach, leb);
    return U64_MAX;
  }

  lemma Wrapped(x: nat)
    ensures (x % 0x1_0000 + 8) % 0x1_0000 == (x + 8) % 0x1_0000
    ensures ((x + 8) % 0x1_0000 + 8) % 0x1_0000 == (x + 16) % 0x1_0000
  {
    WrappedStep(x);
    WrappedStep(x + 8);
  }

  lemma WrappedStep(x: nat)
    ensures (x % 0x1_0000 + 8) % 0x1_0000 == (x + 8) % 0x1_0000
  {
    var q := x / 0x1_0000;
    MultipleModZero(q, 0x1_0000);
    AddMultiple(q * 0x1_0000, x % 0x1_0000 + 8, 0x1_0000);
  }

  /** For the copy of a cache with these items the answer is `Answer`. */
  lemma AnswerIs(c: Loaded, items: seq<Item>, leb: U64)
    requires Copy(c, items)
    ensures Value(c.hdr[12..14]) == |items| <= U16_MAX && Value(c.hdr[14..16]) == THRESHOLD + 20 * |items| <= U16_MAX
    ensures Reach(|items|, THRESHOLD + 20 * |items|) == |items| && 16 * |items| <= |c.data|
    ensures Answer(items, leb) ==
              if Value(c.hdr[16..18]) <= leb <= Value(c.hdr[24..26]) then FindIn(c.data, 0, |items|, leb) else U64_MAX
  {
    hide Pairs, PairBytes, Le, Value, At, Find, LebAt, PebAt;
    CopyHeader(c, items);
    CopyLength(c, items);
    forall i | 0 <= i < |items| ensures LebAt(c.data, i) == items[i].leb && PebAt(c.data, i) == items[i].peb {
      CopyPair(c, items, i);
    }
    if i :| 0 <= i < |items| && items[i].leb == leb {
      var first := FirstWith(items, leb, i);
      FoundAt(items, leb, first);
      FindInFrom(c.data, first, |items|, leb);
    } else {
      FindOther(items, leb);
      FindInFrom(c.data, |items|, |items|, leb);
    }
  }

  lemma CopyLength(c: Loaded, items: seq<Item>)
    requires Copy(c, items)
    ensures 16 * |items| <= |c.data|
  {
    hide Pairs, Le, HeaderOk;
  }

  lemma CopyPair(c: Loaded, items: seq<Item>, i: nat)
    requires Copy(c, items) && i < |items|
    ensures 16 * i + 16 <= |c.data| && LebAt(c.data, i) == items[i].leb && PebAt(c.data, i) == items[i].peb
  {
    hide Pairs, PairBytes, Le, Value, At, HeaderOk;
    PairAt(c.data, 0, items, i);
    PairValue(c.data, 16 * i, items[i]);
  }

  lemma {:induction false} FirstWith(items: seq<Item>, leb: U64, i: nat) returns (first: nat)
    requires i < |items| && items[i].leb == leb
    ensures first <= i && items[first].leb == leb && forall k :: 0 <= k < first ==> items[k].leb != leb
  {
    if k :| 0 <= k < i && items[k].leb == leb {
      first := FirstWith(items, leb, k);
    } else {
      first := i;
    }
  }

  lemma {:induction false} FoundAt(items: seq<Item>, leb: U64, i: nat)
    requires i < |items| && items[i].leb == leb && forall k :: 0 <= k < i ==> items[k].leb != leb
    ensures Find(items, leb) == items[i].peb
  {
    if i > 0 {
      FoundAt(items[1..], leb, i - 1);
    }
  }

  lemma CopyHeader(c: Loaded, items: seq<Item>)
    requires Copy(c, items)
    ensures Value(c.hdr[12..14]) == |items| && Value(c.hdr[14..16]) == THRESHOLD + 20 * |items|
    ensures Value(c.hdr[16..18]) == StartLeb(items) % 0x1_0000 && Value(c.hdr[24..26]) == EndLeb(items) % 0x1_0000
  {
    hide Pairs, Le, Value;
    Value16(|items|);
    Value16(THRESHOLD + 20 * |items|);
    LowField(c.hdr, 16, StartLeb(items));
    LowField(c.hdr, 24, EndLeb(items));
  }

  /** The pages one after the other. */
  function Concat(pages: seq<seq<Byte>>): seq<Byte> {
    if pages == [] then [] else pages[0] + Concat(pages[1..])
  }

  /** Loading of an uncompressed area; `None` when the header counts less bytes than the area has. */
  function Load(area: seq<Byte>): Option<Loaded>
    requires |area| >= HDR_SIZE
  {
    if Value(area[14..16]) < |area| then None else Some(Loaded(area[..HDR_SIZE], area[HDR_SIZE..]))
  }

  lemma {:induction false} TotalOfOne(items: seq<Item>, cap: nat, n: nat)
    requires 0 < |items| <= cap && n > 0
    ensures ChunkBytes(Chunks(items, cap, n)) == THRESHOLD + 20 * |items| && Chunk(items, cap, 0) == items
  {
    assert 0 * cap == 0 && 1 * cap == cap;
    BytesOfNext(items, cap, n - 1);
    if n > 1 {
      TotalOfOne(items, cap, n - 1);
      ChunkBehind(items, cap, n - 1);
    }
  }

  lemma BytesOfNext(items: seq<Item>, cap: nat, n: nat)
    ensures ChunkBytes(Chunks(items, cap, n + 1)) ==
              ChunkBytes(Chunks(items, cap, n)) + UsedBytes(Chunk(items, cap, n))
    ensures ChunkBytes(Chunks(items, cap, 0)) == 0
  {
    hide Chunk;
    assert Chunks(items, cap, n + 1)[..n] == Chunks(items, cap, n);
  }

  lemma ChunkBehind(items: seq<Item>, cap: nat, f: nat)
    requires |items| <= cap && f > 0
    ensures Chunk(items, cap, f) == []
  {
    MulStep(0, f, cap);
    MulStep(0, f + 1, cap);
  }

  lemma TotalOfMore(items: seq<Item>, cap: nat, n: nat)
    requires 0 < cap < |items| <= n * cap
    ensures n >= 2 && ChunkBytes(Chunks(items, cap, n)) > THRESHOLD + 20 * cap && |Chunk(items, cap, 0)| == cap
  {
    if n < 2 { MulStep(n, 2, cap); }
    hide Chunk, ChunkBytes;
    TwoChunks(items, cap);
    TotalGrows(items, cap, 2, n);
    BytesOfNext(items, cap, 0);
    BytesOfNext(items, cap, 1);
  }

  lemma TwoChunks(items: seq<Item>, cap: nat)
    requires 0 < cap < |items|
    ensures |Chunk(items, cap, 0)| == cap && Chunk(items, cap, 1) != []
  {
    assert 0 * cap == 0 && 1 * cap == cap && 2 * cap == cap + cap;
  }

  lemma {:induction false} TotalGrows(items: seq<Item>, cap: nat, m: nat, n: nat)
    ensures m <= n ==> ChunkBytes(Chunks(items, cap, m)) <= ChunkBytes(Chunks(items, cap, n))
  {
    hide ChunkBytes, Chunks;
    if m < n {
      TotalGrows(items, cap, m, n - 1);
      BytesOfNext(items, cap, n - 1);
    }
  }

  /** The fragments' byte counts fit their pages. */
  lemma {:induction false} BytesFit(pages: seq<seq<Byte>>, chunks: seq<seq<Item>>)
    requires |pages| == |chunks| && forall f :: 0 <= f < |pages| ==> Holds(pages[f], chunks[f])
    ensures ChunkBytes(chunks) <= |Concat(pages)|
  {
    hide Holds;
    var n := |pages| - 1;
    if n >= 0 {
      BytesFit(pages[..n], chunks[..n]);
      ConcatLast(pages);
      HoldsLength(pages[n], chunks[n]);
    }
  }

  lemma HoldsLength(b: seq<Byte>, items: seq<Item>)
    requires Holds(b, items)
    ensures UsedBytes(items) <= |b|
  {
  }

  lemma {:induction false} ConcatLast(pages: seq<seq<Byte>>)
    requires pages != []
    ensures Concat(pages) == Concat(pages[..|pages| - 1]) + pages[|pages| - 1]
  {
    if |pages| > 1 {
      ConcatLast(pages[1..]);
      assert pages[1..][..|pages| - 2] == pages[..|pages| - 1][1..];
    }
  }

  /** The content of a superblock's cache extent: as many bytes of the pages one after the other as are in use. */
  method WriteArea(c: Cache) returns (area: seq<Byte>)
    requires c.Valid()
    ensures c.bytesCount <= |Concat(c.Pages())| && area == Concat(c.Pages())[..c.bytesCount]
  {
    hide Holds, ChunkBytes, Concat;
    BytesFit(c.Pages(), c.chunks);
    var pages := [];
    NoPages();
    for k := 0 to |c.fragments|
      invariant pages == Concat(c.Pages()[..k])
    {
      ConcatLast(c.Pages()[..k + 1]);
      assert c.Pages()[..k + 1][..k] == c.Pages()[..k];
      pages := pages + c.fragments[k][..];
    }
    assert c.Pages()[..|c.fragments|] == c.Pages();
    area := pages[..c.bytesCount];
  }

  lemma NoPages()
    ensures Concat([]) == []
  {
  }

  /** The area is long enough for the header, and begins with the first page. */
  lemma AreaBegins(c: Cache, items: seq<Item>)
    requires c.Filled(items) && items != []
    ensures THRESHOLD <= c.bytesCount <= |Concat(c.Pages())| && |c.chunks| == |c.fragments| > 0
    ensures Concat(c.Pages()) == c.Pages()[0] + Concat(c.Pages()[1..]) && |c.Pages()[0]| == c.pageSize
    ensures Holds(c.Pages()[0], c.chunks[0])
    ensures if |items| <= c.Cap() then c.bytesCount == THRESHOLD + 20 * |items| <= c.pageSize && c.chunks[0] == items
            else c.bytesCount > THRESHOLD + 20 * c.Cap() && |c.chunks[0]| == c.Cap()
  {
    hide Chunk, ChunkBytes, Holds;
    var n, cap := |c.fragments|, c.Cap();
    c.CapPositive();
    BytesFit(c.Pages(), c.chunks);
    if |items| <= cap {
      TotalOfOne(items, cap, n);
    } else {
      TotalOfMore(items, cap, n);
    }
  }

  /**
   * Writing and loading: the area that mkfs writes, the first `bytesCount` bytes of its pages, is accepted
   * by fsck if and only if all pairs are in the first fragment; then the loaded copy has exactly these pairs.
   */
  lemma LoadsIff(c: Cache, items: seq<Item>)
    requires c.Filled(items) && items != []
    ensures HDR_SIZE <= c.bytesCount <= |Concat(c.Pages())|
    ensures var area := Concat(c.Pages())[..c.bytesCount];
            && (Load(area).Some? <==> |items| <= c.Cap())
            && (Load(area).Some? ==> Copy(Load(area).value, items))
  {
    hide Chunk, ChunkBytes, Holds, Concat, Value, Cache.Filled, Cache.Cap;
    AreaBegins(c, items);
    var page, rest, chunk := c.Pages()[0], Concat(c.Pages()[1..]), c.chunks[0];
    FragmentHeader(page, chunk);
    PageLoads(page, rest, chunk, c.bytesCount);
  }

  lemma PageLoads(page: seq<Byte>, rest: seq<Byte>, items: seq<Item>, n: nat)
    requires Holds(page, items) && THRESHOLD <= n <= |page + rest|
    ensures var area := (page + rest)[..n];
            && (Load(area).Some? <==> n <= THRESHOLD + 20 * |items|)
            && (n == THRESHOLD + 20 * |items| ==> Copy(Load(area).value, items))
  {
    hide Value, Le, Pairs, States;
    var area := (page + rest)[..n];
    assert area[..HDR_SIZE] == page[..HDR_SIZE];
    FragmentHeader(page, items);
    assert area[14..16] == page[14..16];
    if n == THRESHOLD + 20 * |items| {
      assert area == page[..n];
      HeaderCopied(page, items);
      assert area[HDR_SIZE..][..16 * |items|] == page[HDR_SIZE..HDR_SIZE + 16 * |items|];
    }
  }

  lemma HeaderCopied(page: seq<Byte>, items: seq<Item>)
    requires HeaderOk(page, items) && HDR_SIZE <= |page|
    ensures HeaderOk(page[..HDR_SIZE], items)
  {
    hide Le;
    var h := page[..HDR_SIZE];
    assert h[4..6] == page[4..6] && h[10..12] == page[10..12] && h[12..14] == page[12..14];
    assert h[14..16] == page[14..16] && h[16..24] == page[16..24] && h[24..32] == page[24..32];
  }

  /**
   * From mkfs to fsck: the cache is built for the allocated LEBs, written, loaded and asked for a LEB. It is
   * found if and only if one fragment holds all pairs. Then a LEB that is not cached gets U64_MAX, and each cached
   * LEB gets its PEB, if the last LEB is below 65536.
   */
  method RoundTrip(pageSize: nat, ids: seq<U64>, pebs: seq<U64>, leb: U64) returns (found: bool, peb: nat)
    requires THRESHOLD + 20 <= pageSize <= U16_MAX
    requires DivCeil(|MapTableRun.Allocated(ids)|, Capacity(pageSize)) < U16_MAX
    requires |pebs| == |MapTableRun.Allocated(ids)|
    requires forall i, j :: 0 <= i < j < |pebs| ==> MapTableRun.Allocated(ids)[i] < MapTableRun.Allocated(ids)[j]
    ensures found == (0 < |pebs| <= Capacity(pageSize))
    ensures peb == if found then Answer(Zip(MapTableRun.Allocated(ids), pebs), leb) else U64_MAX
    ensures found && leb !in MapTableRun.Allocated(ids) ==> peb == U64_MAX
    ensures found && |pebs| > 0 && MapTableRun.Allocated(ids)[|pebs| - 1] < 0x1_0000 ==>
              forall i :: 0 <= i < |pebs| && MapTableRun.Allocated(ids)[i] == leb ==> peb == pebs[i]
  {
    hide MapTableRun.Allocated, DivCeil, Capacity, Cache.Valid, Load, Value, Answer, Concat, HeaderOk, Pairs;
    ghost var lebs, items := MapTableRun.Allocated(ids), Zip(MapTableRun.Allocated(ids), pebs);
    var c := BuildCache(pageSize, ids, pebs);
    var area := WriteArea(c);
    if |area| < HDR_SIZE {
      if items != [] { LoadsIff(c, items); }
      return false, U64_MAX;
    }
    EmptyArea(c, items);
    LoadsIff(c, items);
    var loaded := Load(area);
    if loaded.None? {
      return false, U64_MAX;
    }
    AnswerIs(loaded.value, items, leb);
    peb := ConvertLeb2Peb(loaded.value, leb);
    found := true;
    AnswersFor(lebs, pebs, leb);
  }

  lemma EmptyArea(c: Cache, items: seq<Item>)
    requires c.Filled(items) && c.bytesCount > 0
    ensures items != []
  {
    hide Chunk, ChunkBytes, Holds;
    if items == [] {
      NothingCached(c.Cap(), |c.fragments|);
    }
  }

  lemma AnswersFor(lebs: seq<U64>, pebs: seq<U64>, leb: U64)
    requires |lebs| == |pebs| > 0 && forall i, j :: 0 <= i < j < |lebs| ==> lebs[i] < lebs[j]
    ensures leb !in lebs ==> Answer(Zip(lebs, pebs), leb) == U64_MAX
    ensures lebs[|lebs| - 1] < 0x1_0000 ==>
              forall i :: 0 <= i < |lebs| && lebs[i] == leb ==> Answer(Zip(lebs, pebs), leb) == pebs[i]
  {
    var items := Zip(lebs, pebs);
    hide Find;
    if leb !in lebs {
      AnswerOther(items, leb);
    } else if lebs[|lebs| - 1] < 0x1_0000 {
      forall i | 0 <= i < |lebs| && lebs[i] == leb ensures Answer(items, leb) == pebs[i] {
        FindCached(items, i);
      }
    }
  }

  /**
   * From mapping to lookup: after the allocated LEBs have been mapped, and the PEBs they got have been cached, what
   * fsck answers for a LEB is what the mapping table says about it.
   */
  method MapThenLookup(m: MapTable.MapTbl, ids: seq<U64>, kinds: seq<MapTable.PebType>, pageSize: nat, leb: U64)
    returns (st: Status, found: bool, peb: nat)
    requires m.Ok() && |kinds| == |ids| && THRESHOLD + 20 <= pageSize <= U16_MAX
    requires DivCeil(|MapTableRun.Allocated(ids)|, Capacity(pageSize)) < U16_MAX
    requires var lebs := MapTableRun.Allocated(ids);
             && (forall i, j :: 0 <= i < j < |lebs| ==> lebs[i] < lebs[j])
             && (forall x :: x in lebs && x < m.g.pebsPerVolume ==> MapTable.Lookup(m.g, m.t, x).None?)
    modifies m`t
    ensures m.Ok()
    ensures st != Success ==> !found
    ensures !found ==> peb == U64_MAX
    ensures st == Success ==> found == (0 < |MapTableRun.Allocated(ids)| <= Capacity(pageSize))
    ensures st == Success && found ==>
              var lebs := MapTableRun.Allocated(ids);
              && lebs != [] && (leb !in lebs ==> peb == U64_MAX)
              && (leb in lebs && lebs[|lebs| - 1] < 0x1_0000 ==>
                    leb < m.g.pebsPerVolume && MapTable.Lookup(m.g, m.t, leb) == Some(peb))
  {
    hide MapTableRun.Allocated, DivCeil, Capacity, MapTable.Valid, MapTable.Lookup, Answer, Zip, MapTableRun.Run;
    ghost var t0, lebs := m.t, MapTableRun.Allocated(ids);
    var pebs;
    st, pebs := MapTableRun.MapAllocatedLebs(m, ids, kinds);
    found, peb := false, U64_MAX;
    if st != Success {
      return;
    }
    assert lebs[..|pebs|] == lebs;
    found, peb := RoundTrip(pageSize, ids, pebs, leb);
    if found && leb in lebs {
      MappedAs(m, t0, lebs, pebs, leb);
    }
  }

  lemma MappedAs(m: MapTable.MapTbl, t0: MapTable.Table, lebs: seq<U64>, pebs: seq<U64>, leb: U64)
    requires MapTableRun.Run(m.g, t0, m.t, lebs, pebs) && leb in lebs
    ensures m.Ok() && leb < m.g.pebsPerVolume && |lebs| == |pebs|
    ensures exists i :: 0 <= i < |pebs| && lebs[i] == leb && MapTable.Lookup(m.g, m.t, leb) == Some(pebs[i])
  {
    hide MapTable.Lookup, MapTable.Used, MapTable.Shaped, MapTable.Consistent, MapTable.TotalMapped;
    var i :| 0 <= i < |lebs| && lebs[i] == leb;
    assert MapTable.Lookup(m.g, m.t, lebs[i]) == Some(pebs[i]);
  }

  /** Every fragment in use is in the area with all the bytes it uses. */
  ghost predicate Complete(c: Cache)
    reads c, c.fragments
  {
    forall f :: 0 <= f < |c.chunks| && c.chunks[f] != [] ==> f * c.pageSize + UsedBytes(c.chunks[f]) <= c.bytesCount
  }

  /** Bytes of fragments that are full. */
  lemma {:induction false} FullBytes(items: seq<Item>, cap: nat, n: nat)
    requires cap > 0 && n * cap <= |items|
    ensures ChunkBytes(Chunks(items, cap, n)) == n * (THRESHOLD + 20 * cap)
  {
    BytesOfNext(items, cap, n);
    if n > 0 {
      assert n * cap == (n - 1) * cap + cap;
      hide ChunkBytes, Chunks;
      FullBytes(items, cap, n - 1);
      BytesOfNext(items, cap, n - 1);
      FullChunk(items, cap, n - 1);
      assert n * (THRESHOLD + 20 * cap) == (n - 1) * (THRESHOLD + 20 * cap) + (THRESHOLD + 20 * cap);
    }
  }

  lemma FullChunk(items: seq<Item>, cap: nat, f: nat)
    requires cap > 0 && f * cap + cap <= |items|
    ensures |Chunk(items, cap, f)| == cap
  {
    assert (f + 1) * cap == f * cap + cap;
  }

  /** Fragments behind the last item add nothing. */
  lemma {:induction false} NoBytesBehind(items: seq<Item>, cap: nat, m: nat, n: nat)
    requires m <= n && |items| <= m * cap
    ensures ChunkBytes(Chunks(items, cap, n)) == ChunkBytes(Chunks(items, cap, m))
    ensures forall f :: m <= f < n ==> Chunk(items, cap, f) == []
  {
    hide ChunkBytes, Chunks, Chunk;
    if m < n {
      NoBytesBehind(items, cap, m, n - 1);
      BytesOfNext(items, cap, n - 1);
      EmptyBehind(items, cap, m, n - 1);
    }
  }

  lemma EmptyBehind(items: seq<Item>, cap: nat, m: nat, f: nat)
    requires m <= f && |items| <= m * cap
    ensures Chunk(items, cap, f) == []
  {
    if m < f { MulStep(m, f, cap); }
    MulStep(f, f + 1, cap);
  }

  /** Bytes of a filled cache, by the fragment of its last item. */
  lemma BytesByLast(items: seq<Item>, cap: nat, n: nat, last: nat)
    requires cap > 0 && last * cap < |items| <= last * cap + cap && last < n
    ensures ChunkBytes(Chunks(items, cap, n)) == last * (THRESHOLD + 20 * cap) + UsedBytes(Chunk(items, cap, last))
    ensures Chunk(items, cap, last) != [] && forall f :: last < f < n ==> Chunk(items, cap, f) == []
    ensures forall f :: 0 <= f < last ==> |Chunk(items, cap, f)| == cap
  {
    assert (last + 1) * cap == last * cap + cap;
    NotEmpty(items, cap, last);
    hide ChunkBytes, Chunks, Chunk;
    FullBytes(items, cap, last);
    BytesOfNext(items, cap, last);
    NoBytesBehind(items, cap, last + 1, n);
    forall f | 0 <= f < last ensures |Chunk(items, cap, f)| == cap {
      MulStep(f, last, cap);
      FullChunk(items, cap, f);
    }
  }

  lemma NotEmpty(items: seq<Item>, cap: nat, f: nat)
    requires cap > 0 && f * cap < |items|
    ensures Chunk(items, cap, f) != []
  {
    assert (f + 1) * cap == f * cap + cap;
  }

  /**
   * The area takes the bytes in use from the front of the pages, not page by page: it is complete if and only if
   * one fragment holds all pairs, or full fragments fill their pages.
   */
  lemma CompleteIff(c: Cache, items: seq<Item>)
    requires c.Filled(items)
    ensures Complete(c) <==> |items| <= c.Cap() || c.pageSize == THRESHOLD + 20 * c.Cap()
  {
    hide Chunk, ChunkBytes, Holds, Capacity, PageOf;
    c.CapPositive();
    var n, cap, p := |c.fragments|, c.Cap(), c.pageSize;
    if items == [] {
      NothingCached(cap, n);
    } else {
      var last := LastFragment(|items|, cap, n);
      BytesByLast(items, cap, n, last);
      CapFits(p);
      AreaNumbers(last, p, THRESHOLD + 20 * cap);
      if last == 0 || p == THRESHOLD + 20 * cap {
        forall f | 0 <= f < |c.chunks| && c.chunks[f] != [] ensures f * p + UsedBytes(c.chunks[f]) <= c.bytesCount {
          if f < last { MulStep(f, last, p); }
        }
      } else {
        assert c.chunks[last] != [] && last * p + UsedBytes(c.chunks[last]) > c.bytesCount;
      }
    }
  }

  lemma CapFits(pageSize: nat)
    requires THRESHOLD <= pageSize
    ensures THRESHOLD + 20 * Capacity(pageSize) <= pageSize
  {
  }

  lemma LastFragment(count: nat, cap: nat, n: nat) returns (last: nat)
    requires cap > 0 && 0 < count <= n * cap
    ensures last * cap < count <= last * cap + cap && last < n && (last == 0 <==> count <= cap)
  {
    last := PageOf(count - 1, cap);
    QuotientBelow(count - 1, cap, n);
    if last > 0 { MulStep(0, last, cap); }
  }

  lemma AreaNumbers(last: nat, p: nat, full: nat)
    requires full <= p
    ensures last * full == last * p <==> last == 0 || p == full
    ensures last * full <= last * p
  {
    if last > 0 && full < p {
      MulStep(full, p, last);
      assert full * last == last * full && p * last == last * p;
    }
  }
}
