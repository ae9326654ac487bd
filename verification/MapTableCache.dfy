/** The whole cache: fragments that are filled one after the other (cache_leb2peb_pair). */
module MapTableCache {
  import opened Types
  import opened Rounding
  import opened Bytes
  import opened CacheFragment
  import MapTableRun

  /** consistent, in use, no flags, no shared PEB */
  const NEW_STATE: State := [1, 3, 0, 255]

  /** The items of fragment `f` when the items are put into fragments of `cap` in order. */
  function Chunk(items: seq<Item>, cap: nat, f: nat): seq<Item> {
    items[Min(f * cap, |items|)..Min((f + 1) * cap, |items|)]
  }

  predicate Ascending(items: seq<Item>) {
    forall i, j :: 0 <= i < j < |items| ==> items[i].leb < items[j].leb
  }

  /** The fragments, read one after the other. */
  function Flattened(chunks: seq<seq<Item>>): seq<Item> {
    if chunks == [] then [] else Flattened(chunks[..|chunks| - 1]) + chunks[|chunks| - 1]
  }

  function Chunks(items: seq<Item>, cap: nat, n: nat): (r: seq<seq<Item>>)
    ensures |r| == n && forall f :: 0 <= f < n ==> r[f] == Chunk(items, cap, f)
  {
    seq(n, f requires 0 <= f < n => Chunk(items, cap, f))
  }

  /** Whatever is cut into chunks is their concatenation. */
  lemma {:induction false} ChunksFlatten(items: seq<Item>, cap: nat, n: nat)
    ensures Flattened(Chunks(items, cap, n)) == items[..Min(n * cap, |items|)]
  {
    if n > 0 {
      ChunksFlatten(items, cap, n - 1);
      assert Chunks(items, cap, n)[..n - 1] == Chunks(items, cap, n - 1);
      ChunkNext(items, cap, n - 1);
    }
  }

  lemma ChunkNext(items: seq<Item>, cap: nat, f: nat)
    ensures items[..Min(f * cap, |items|)] + Chunk(items, cap, f) == items[..Min((f + 1) * cap, |items|)]
  {
    assert (f + 1) * cap == f * cap + cap;
  }

  /** Bytes of a fragment, if it has items. */
  function UsedBytes(chunk: seq<Item>): nat {
    if chunk == [] then 0 else THRESHOLD + 20 * |chunk|
  }

  /** Sum of the fragments' byte counts. */
  function ChunkBytes(chunks: seq<seq<Item>>): nat {
    if chunks == [] then 0 else ChunkBytes(chunks[..|chunks| - 1]) + UsedBytes(chunks[|chunks| - 1])
  }

  lemma {:induction false} BytesUpdate(chunks: seq<seq<Item>>, f: nat, chunk: seq<Item>)
    requires f < |chunks|
    ensures ChunkBytes(chunks[f := chunk]) + UsedBytes(chunks[f]) == ChunkBytes(chunks) + UsedBytes(chunk)
  {
    var n := |chunks| - 1;
    if f < n {
      BytesUpdate(chunks[..n], f, chunk);
      assert chunks[f := chunk][..n] == chunks[..n][f := chunk];
    } else {
      assert chunks[f := chunk][..n] == chunks[..n];
    }
  }

  /** One more item changes only the fragment that it is put into. */
  lemma ChunkAppend(items: seq<Item>, x: Item, cap: nat, f: nat, at: nat)
    requires cap > 0 && at * cap <= |items| < at * cap + cap
    ensures Chunk(items + [x], cap, f) == if f == at then Chunk(items, cap, f) + [x] else Chunk(items, cap, f)
    ensures |Chunk(items, cap, at)| == |items| - at * cap
  {
    assert (f + 1) * cap == f * cap + cap && (at + 1) * cap == at * cap + cap;
    if f < at {
      MulStep(f, at, cap);
    } else if at < f {
      MulStep(at, f, cap);
    }
  }

  /** A fragment in front of the one being filled is full; its last LEB is one of those cached before. */
  lemma ChunkFull(items: seq<Item>, cap: nat, f: nat, at: nat)
    requires cap > 0 && at * cap <= |items| < at * cap + cap
    ensures f < at ==> |Chunk(items, cap, f)| == cap
    ensures at < f ==> Chunk(items, cap, f) == []
    ensures f == at ==> |Chunk(items, cap, f)| < cap
    ensures Ascending(items) && Named(items) && Chunk(items, cap, f) != [] ==>
              StartLeb(Chunk(items, cap, f)) <= EndLeb(Chunk(items, cap, f)) <= EndLeb(items) < U64_MAX
  {
    assert (f + 1) * cap == f * cap + cap;
    if f < at {
      MulStep(f, at, cap);
    } else if at < f {
      MulStep(at, f, cap);
    }
  }

  /** Insertion of a LEB above all others is at the end. */
  lemma InsertedLast(items: seq<Item>, x: Item)
    requires items == [] || EndLeb(items) < x.leb
    ensures Inserted(items, x) == items + [x]
  {
  }

  /** find_fragment_index stops at a fragment with these items. */
  predicate Takes(chunk: seq<Item>, leb: U64, cap: nat) {
    chunk == [] || StartLeb(chunk) <= leb <= EndLeb(chunk) || (leb > EndLeb(chunk) && |chunk| < cap)
  }

  /** The fragment that a LEB goes to, the number of fragments if there is none. */
  function SlotOf(chunks: seq<seq<Item>>, leb: U64, cap: nat): (r: nat)
    ensures r <= |chunks| && forall f :: 0 <= f < r ==> !Takes(chunks[f], leb, cap)
    ensures r < |chunks| ==> Takes(chunks[r], leb, cap)
  {
    if chunks == [] then 0
    else if Takes(chunks[0], leb, cap) then 0
    else 1 + SlotOf(chunks[1..], leb, cap)
  }

  lemma SlotIs(chunks: seq<seq<Item>>, leb: U64, cap: nat, f: nat)
    requires f <= |chunks| && (f < |chunks| ==> Takes(chunks[f], leb, cap))
    requires forall g :: 0 <= g < f ==> !Takes(chunks[g], leb, cap)
    ensures SlotOf(chunks, leb, cap) == f
  {
    hide Takes;
    var r := SlotOf(chunks, leb, cap);
  }

  class Cache {
    const pageSize: nat
    const fragments: seq<array<Byte>>
    /** Bytes in use, over all fragments. */
    var bytesCount: nat
    /** The items of each fragment. */
    ghost var chunks: seq<seq<Item>>

    function Cap(): nat { Capacity(pageSize) }

    ghost predicate Sized()
      reads this
    {
      && THRESHOLD + 20 <= pageSize <= U16_MAX && |fragments| < U16_MAX
      && (forall f, g :: 0 <= f < g < |fragments| ==> fragments[f] != fragments[g])
      && (forall f :: 0 <= f < |fragments| ==> fragments[f].Length == pageSize)
      && |chunks| == |fragments|
    }

    ghost predicate Valid()
      reads this, fragments
    {
      && Sized() && bytesCount == ChunkBytes(chunks)
      && (forall f :: 0 <= f < |fragments| ==> Holds(fragments[f][..], chunks[f]))
      && forall f :: 0 <= f < |fragments| ==> Identified(fragments[f][..], f)
    }

    /** The cache holds `items` in order, fragment after fragment. */
    ghost predicate Filled(items: seq<Item>)
      reads this, fragments
    {
      && Valid() && Ascending(items) && Named(items) && |items| <= |fragments| * Cap()
      && chunks == Chunks(items, Cap(), |fragments|)
    }

    /** maptbl_cache_mkfs_prepare: as many empty fragments as the allocated LEBs will need. */
    constructor (pageSize: nat, ids: seq<U64>)
      requires THRESHOLD + 20 <= pageSize <= U16_MAX
      requires DivCeil(|MapTableRun.Allocated(ids)|, Capacity(pageSize)) < U16_MAX
      ensures Filled([]) && fresh(this) && (forall f :: 0 <= f < |fragments| ==> fresh(fragments[f]))
      ensures this.pageSize == pageSize
      ensures |fragments| == DivCeil(|MapTableRun.Allocated(ids)|, Capacity(pageSize))
    {
      hide Chunk, ChunkBytes, Holds, Identified, DivCeil, MapTableRun.Allocated;
      var count := CountAllocated(ids);
      var n := DivCeil(count, Capacity(pageSize));
      var pages := PreparePages(pageSize, n);
      this.pageSize, this.fragments, this.bytesCount := pageSize, pages, 0;
      this.chunks := Chunks([], Capacity(pageSize), n);
      new;
      NothingCached(Cap(), n);
    }

    ghost function Pages(): (r: seq<seq<Byte>>)
      requires forall f :: 0 <= f < |fragments| ==> fragments[f].Length >= HDR_SIZE
      reads this, fragments
      ensures |r| == |fragments| && forall f :: 0 <= f < |r| ==> |r[f]| >= HDR_SIZE && r[f] == fragments[f][..]
    {
      seq(|fragments|, f requires 0 <= f < |fragments| reads this, fragments => fragments[f][..])
    }

    /** find_fragment_index */
    method FindFragment(leb: U64) returns (index: nat)
      requires Valid() && leb < U64_MAX
      ensures index == SlotOf(chunks, leb, Cap())
    {
      hide ChunkBytes, Value, Capacity, Holds, Identified;
      index := 0;
      while index < |fragments|
        invariant index <= |fragments| && forall f :: 0 <= f < index ==> !Takes(chunks[f], leb, Cap())
      {
        var a := fragments[index];
        FragmentHeader(a[..], chunks[index]);
        var start, end, count := Value(a[..][16..24]), Value(a[..][24..32]), Value(a[..][12..14]);
        if start == U64_MAX || start <= leb <= end || (leb > end && count < Cap()) {
          break;
        }
        index := index + 1;
      }
      SlotIs(chunks, leb, Cap(), index);
    }

    /**
     * cache_leb2peb_pair. The BUG_ON on the number of fragments fires when no fragment takes the LEB. A fragment
     * with room gets the pair in its place. A full fragment does not survive: its page holds no items at all
     * afterwards, whatever becomes of the pairs that are moved on, unless its last LEB comes again and is written
     * behind the page. So the cache stays valid if and only if the fragment has room, or there is none.
     */
    method CacheLeb2Peb(leb: U64, peb: U64) returns (st: Status)
      requires Valid() && leb < U64_MAX
      modifies this`bytesCount, this`chunks, fragments
      ensures var f, x, before := SlotOf(old(chunks), leb, Cap()), Item(leb, peb, NEW_STATE), old(chunks);
              && (f == |fragments| ==> st == Bug && Valid() && chunks == before)
              && (f < |fragments| && |before[f]| < Cap() ==>
                    st == Success && Valid() && chunks == before[f := Inserted(before[f], x)])
              && (f < |fragments| && |before[f]| >= Cap() ==>
                    if leb == EndLeb(before[f]) && WritesOutside(pageSize, Cap()) then st == Bug
                    else forall items :: !Holds(fragments[f][..], items))
    {
      hide ChunkBytes, Value, Capacity, Holds, Inserted, SlotOf, BodyOk, WritesOutside, EndLeb, Identified;
      CapPositive();
      var index := FindFragment(leb);
      SlotBound(chunks, leb, Cap());
      if index >= |fragments| {
        return Bug;
      }
      var x := Item(leb, peb, NEW_STATE);
      var grown, moving;
      HoldsNamed(fragments[index][..], chunks[index]);
      ghost var page := fragments[index][..];
      st, grown, moving := AddPair(fragments[index], x, chunks[index]);
      assert forall f :: 0 <= f < |fragments| && f != index ==> fragments[f][..] == old(fragments[f][..]);
      bytesCount := bytesCount + grown;
      if st == Success {
        SameIdentity(page, fragments[index][..], index);
        BytesUpdate(chunks, index, Inserted(chunks[index], x));
        chunks := chunks[index := Inserted(chunks[index], x)];
      } else if st == Error(EAGAIN) {
        st := MoveOn(moving, index + 1);
      }
    }

    /** The rest of the do-while loop of cache_leb2peb_pair: fragments in front of `from` are not touched. */
    method MoveOn(moving: Item, from: nat) returns (st: Status)
      requires Sized() && 0 < from <= |fragments| && moving.leb < U64_MAX
      requires forall f :: from <= f < |fragments| ==> Holds(fragments[f][..], chunks[f])
      modifies this`bytesCount, fragments
      ensures forall f :: 0 <= f < from ==> fragments[f][..] == old(fragments[f][..])
    {
      hide Capacity, Holds, Inserted, BodyOk, WritesOutside;
      CapPositive();
      var index, pair := from, moving;
      while true
        invariant from <= index <= |fragments| && pair.leb < U64_MAX
        invariant forall f :: 0 <= f < from ==> fragments[f][..] == old(fragments[f][..])
        invariant forall f :: index <= f < |fragments| ==> Holds(fragments[f][..], chunks[f])
        decreases |fragments| - index
      {
        if index >= |fragments| {
          return Bug;
        }
        var grown, next;
        HoldsNamed(fragments[index][..], chunks[index]);
        label Before:
        st, grown, next := AddPair(fragments[index], pair, chunks[index]);
        assert forall f :: 0 <= f < |fragments| && f != index ==> fragments[f][..] == old@Before(fragments[f][..]);
        bytesCount := bytesCount + grown;
        if st != Error(EAGAIN) {
          return;
        }
        pair, index := next, index + 1;
      }
    }

    lemma CapPositive()
      requires THRESHOLD + 20 <= pageSize
      ensures 0 < Cap()
    {
    }
  }

  /** A full fragment that takes a LEB has it in its range. */
  lemma SlotBound(chunks: seq<seq<Item>>, leb: U64, cap: nat)
    requires cap > 0
    ensures var f := SlotOf(chunks, leb, cap);
            && f <= |chunks|
            && (f < |chunks| && |chunks[f]| >= cap ==> chunks[f] != [] && leb <= EndLeb(chunks[f]))
  {
  }

  lemma HoldsNamed(b: seq<Byte>, items: seq<Item>)
    requires Holds(b, items)
    ensures Named(items) && |items| <= Capacity(|b|)
  {
  }

  /** The fragment of the next item is the last one in use, or the one behind it. */
  lemma FragmentOfNext(items: seq<Item>, cap: nat, n: nat)
    requires cap > 0 && |items| <= n * cap
    ensures var at := PageOf(|items|, cap);
            && at * cap <= |items| < at * cap + cap && at <= n && (at == n <==> |items| == n * cap)
  {
    var at := PageOf(|items|, cap);
    if n < at { MulStep(n, at, cap); }
    if at < n { MulStep(at, n, cap); }
  }

  /** A LEB above all others goes to the fragment of the next item, which has room. */
  lemma AscendingSlot(items: seq<Item>, cap: nat, n: nat, leb: U64)
    requires cap > 0 && |items| < n * cap && Ascending(items) && Named(items) && (items == [] || EndLeb(items) < leb)
    ensures var at := PageOf(|items|, cap);
            && at < n && SlotOf(Chunks(items, cap, n), leb, cap) == at && |Chunk(items, cap, at)| < cap
            && (Chunk(items, cap, at) == [] || EndLeb(Chunk(items, cap, at)) < leb)
  {
    hide Chunk, PageOf, SlotOf;
    FragmentOfNext(items, cap, n);
    var at, chunks := PageOf(|items|, cap), Chunks(items, cap, n);
    forall f | 0 <= f < at ensures !Takes(chunks[f], leb, cap) {
      ChunkFull(items, cap, f, at);
    }
    ChunkFull(items, cap, at, at);
    SlotIs(chunks, leb, cap, at);
  }

  /** Putting the next item into its fragment is cutting the longer list into chunks. */
  lemma ChunksAppend(items: seq<Item>, x: Item, cap: nat, n: nat)
    requires cap > 0 && |items| < n * cap && Ascending(items) && Named(items) && (items == [] || EndLeb(items) < x.leb)
    ensures var at, chunks := PageOf(|items|, cap), Chunks(items, cap, n);
            at < n && Chunks(items + [x], cap, n) == chunks[at := Inserted(chunks[at], x)]
  {
    hide Chunk, PageOf, Inserted;
    FragmentOfNext(items, cap, n);
    AscendingSlot(items, cap, n, x.leb);
    var at, chunks := PageOf(|items|, cap), Chunks(items, cap, n);
    InsertedLast(chunks[at], x);
    forall f | 0 <= f < n ensures Chunks(items + [x], cap, n)[f] == chunks[at := Inserted(chunks[at], x)][f] {
      ChunkAppend(items, x, cap, f, at);
    }
  }

  method CountAllocated(ids: seq<U64>) returns (count: nat)
    ensures count == |MapTableRun.Allocated(ids)|
  {
    count := 0;
    for i := 0 to |ids|
      invariant count == |MapTableRun.Allocated(ids[..i])|
    {
      assert ids[..i + 1][..i] == ids[..i];
      if ids[i] != U64_MAX {
        count := count + 1;
      }
    }
    assert ids[..|ids|] == ids;
  }

  method PreparePages(pageSize: nat, n: nat) returns (pages: seq<array<Byte>>)
    requires THRESHOLD <= pageSize <= U16_MAX && n < U16_MAX
    ensures |pages| == n
    ensures forall f :: 0 <= f < n ==>
              fresh(pages[f]) && pages[f].Length == pageSize && Holds(pages[f][..], []) && Identified(pages[f][..], f)
    ensures forall f, g :: 0 <= f < g < n ==> pages[f] != pages[g]
  {
    hide Holds, Prepared, Identified;
    pages := [];
    while |pages| < n
      invariant |pages| <= n
      invariant forall f :: 0 <= f < |pages| ==>
                  fresh(pages[f]) && pages[f].Length == pageSize && Holds(pages[f][..], [])
                  && Identified(pages[f][..], f)
      invariant forall f, g :: 0 <= f < g < |pages| ==> pages[f] != pages[g]
    {
      var page := new Byte[pageSize];
      PrepareFragment(page, |pages|);
      pages := pages + [page];
    }
  }

  lemma {:induction false} NothingCached(cap: nat, n: nat)
    ensures ChunkBytes(Chunks([], cap, n)) == 0
    ensures forall f :: 0 <= f < n ==> Chunk([], cap, f) == []
  {
    hide Chunk;
    if n > 0 {
      NothingCached(cap, n - 1);
      ChunkOfNothing([], cap, n - 1);
      assert Chunks([], cap, n)[..n - 1] == Chunks([], cap, n - 1);
    }
  }

  lemma ChunkOfNothing(items: seq<Item>, cap: nat, f: nat)
    requires items == []
    ensures Chunk(items, cap, f) == []
  {
  }

  /** Sum of the byte counts in the headers of the pages that have items. */
  function HeaderSum(pages: seq<seq<Byte>>): nat
    requires forall f :: 0 <= f < |pages| ==> |pages[f]| >= HDR_SIZE
  {
    var n := |pages| - 1;
    if n < 0 then 0
    else HeaderSum(pages[..n]) + if Value(pages[n][12..14]) == 0 then 0 else Value(pages[n][14..16])
  }

  lemma {:induction false} HeaderSumIs(pages: seq<seq<Byte>>, chunks: seq<seq<Item>>)
    requires |pages| == |chunks|
    requires forall f :: 0 <= f < |pages| ==> |pages[f]| >= HDR_SIZE && Holds(pages[f], chunks[f])
    ensures HeaderSum(pages) == ChunkBytes(chunks)
  {
    hide Holds, Value;
    var n := |pages| - 1;
    if n >= 0 {
      HeaderSumIs(pages[..n], chunks[..n]);
      FragmentHeader(pages[n], chunks[n]);
    }
  }

  /** The pairs cached for the allocated LEBs. */
  function Zip(lebs: seq<U64>, pebs: seq<U64>): (r: seq<Item>)
    requires |lebs| == |pebs|
    ensures |r| == |lebs| && forall i :: 0 <= i < |r| ==> r[i] == Item(lebs[i], pebs[i], NEW_STATE)
  {
    seq(|lebs|, i requires 0 <= i < |lebs| => Item(lebs[i], pebs[i], NEW_STATE))
  }

  /** Every chunk in front of one that is not empty is full. */
  lemma ChunksFull(items: seq<Item>, cap: nat, n: nat, f: nat, g: nat)
    requires cap > 0 && |items| <= n * cap && f < g < n && Chunk(items, cap, g) != []
    ensures |Chunk(items, cap, f)| == cap
  {
    hide Chunk, PageOf;
    FragmentOfNext(items, cap, n);
    ChunkFull(items, cap, f, PageOf(|items|, cap));
    ChunkFull(items, cap, g, PageOf(|items|, cap));
  }

  /**
   * What a cache is that has been filled in order: its fragments read one after the other give the pairs, every
   * fragment in front of one in use is full, and the bytes in use are those that the headers say.
   */
  lemma CacheShape(c: Cache, items: seq<Item>)
    requires c.Filled(items)
    ensures Flattened(c.chunks) == items
    ensures forall f, g :: 0 <= f < g < |c.fragments| && c.chunks[g] != [] ==> |c.chunks[f]| == c.Cap()
    ensures forall f :: 0 <= f < |c.fragments| ==> Holds(c.Pages()[f], c.chunks[f])
    ensures c.bytesCount == HeaderSum(c.Pages())
  {
    hide Chunk, ChunkBytes, Holds, HeaderSum, Flattened, Identified;
    var n, cap := |c.fragments|, c.Cap();
    ChunksFlatten(items, cap, n);
    assert items[..|items|] == items;
    forall f, g | 0 <= f < g < n && c.chunks[g] != [] ensures |c.chunks[f]| == cap {
      ChunksFull(items, cap, n, f, g);
    }
    HeaderSumIs(c.Pages(), c.chunks);
  }

  /** Every fragment of a valid cache is told by its header: signature, key, version and number. */
  lemma CacheNumbered(c: Cache, f: nat)
    requires c.Valid() && f < |c.fragments|
    ensures Identified(c.Pages()[f], f)
  {
    hide Holds, ChunkBytes, Identified;
  }

  /** A reader of the cached states finds each PEB consistent and in use, without flags and without a shared PEB. */
  lemma CachedStates(c: Cache, lebs: seq<U64>, pebs: seq<U64>, f: nat, i: nat)
    requires |lebs| == |pebs| && c.Filled(Zip(lebs, pebs)) && f < |c.fragments| && i < |c.chunks[f]|
    ensures var page, at := c.Pages()[f], 36 + 16 * |c.chunks[f]| + 4 * i;
            at + 4 <= |page| && page[at] == 1 && page[at + 1] == 3 && page[at + 2] == 0 && page[at + 3] == 0xFF
  {
    hide *;
    var page, items := FilledPage(c, lebs, pebs, f);
    HoldsBody(page, items);
    StateOf(page, items, i);
    StatesFrom(|items|);
    FourBytes(page, 36 + 16 * |items| + 4 * i, items[i].state);
    NewStateIs();
  }

  lemma NewStateIs()
    ensures NEW_STATE[0] == 1 && NEW_STATE[1] == 3 && NEW_STATE[2] == 0 && NEW_STATE[3] == 0xFF
  {
  }

  lemma StatesFrom(n: nat)
    ensures StatesAt(n) == 36 + 16 * n
  {
  }

  lemma HoldsBody(b: seq<Byte>, items: seq<Item>)
    requires Holds(b, items)
    ensures BodyOk(b, items)
  {
  }

  lemma FilledPage(c: Cache, lebs: seq<U64>, pebs: seq<U64>, f: nat) returns (page: seq<Byte>, items: seq<Item>)
    requires |lebs| == |pebs| && c.Filled(Zip(lebs, pebs)) && f < |c.fragments|
    ensures page == c.Pages()[f] && items == c.chunks[f] && Holds(page, items)
    ensures forall i :: 0 <= i < |items| ==> items[i].state == NEW_STATE
  {
    hide ChunkBytes, Holds, Identified, Named, Capacity;
    page, items := c.Pages()[f], c.chunks[f];
    forall i | 0 <= i < |items| ensures items[i].state == NEW_STATE {
      assert items == Chunk(Zip(lebs, pebs), c.Cap(), f);
      assert items[i] in Zip(lebs, pebs);
    }
  }

  lemma FourBytes(b: seq<Byte>, at: nat, s: State)
    requires At(b, at, s)
    ensures at + 4 <= |b| && forall k :: 0 <= k < 4 ==> b[at + k] == s[k]
  {
    forall k | 0 <= k < 4 ensures b[at + k] == s[k] {
      assert b[at..at + 4][k] == b[at + k];
    }
  }

  /**
   * The whole life of the cache in mkfs: for allocated LEBs in ascending order the fragments that were counted
   * are enough, and they hold exactly the pairs in order.
   */
  method BuildCache(pageSize: nat, ids: seq<U64>, pebs: seq<U64>) returns (c: Cache)
    requires THRESHOLD + 20 <= pageSize <= U16_MAX
    requires DivCeil(|MapTableRun.Allocated(ids)|, Capacity(pageSize)) < U16_MAX
    requires |pebs| == |MapTableRun.Allocated(ids)|
    requires forall i, j :: 0 <= i < j < |pebs| ==> MapTableRun.Allocated(ids)[i] < MapTableRun.Allocated(ids)[j]
    ensures fresh(c) && c.pageSize == pageSize && c.Filled(Zip(MapTableRun.Allocated(ids), pebs))
    ensures |c.fragments| == DivCeil(|pebs|, Capacity(pageSize))
  {
    hide DivCeil, MapTableRun.Allocated, Capacity, Cache.Filled, Zip;
    ghost var lebs := MapTableRun.Allocated(ids);
    c := new Cache(pageSize, ids);
    var k := 0;
    NothingZipped(ids, lebs, pebs);
    for i := 0 to |ids|
      invariant fresh(c) && c.pageSize == pageSize && |c.fragments| == DivCeil(|pebs|, Capacity(pageSize))
      invariant forall f :: 0 <= f < |c.fragments| ==> fresh(c.fragments[f])
      invariant k <= |pebs| && MapTableRun.Allocated(ids[..i]) == lebs[..k] && c.Filled(Zip(lebs[..k], pebs[..k]))
    {
      MapTableRun.NextAllocated(ids, i, k);
      if ids[i] != U64_MAX {
        CacheNext(c, lebs, pebs, k, ids[i]);
        k := k + 1;
      }
    }
    assert ids[..|ids|] == ids;
    assert lebs[..k] == lebs && pebs[..k] == pebs;
  }

  method CacheNext(c: Cache, ghost lebs: seq<U64>, pebs: seq<U64>, k: nat, leb: U64)
    requires |lebs| == |pebs| && k < |pebs| <= |c.fragments| * c.Cap() && leb == lebs[k] < U64_MAX
    requires (forall i, j :: 0 <= i < j < |lebs| ==> lebs[i] < lebs[j]) && c.Filled(Zip(lebs[..k], pebs[..k]))
    modifies c`bytesCount, c`chunks, c.fragments
    ensures c.Filled(Zip(lebs[..k + 1], pebs[..k + 1]))
  {
    hide Cache.Valid, Zip, EndLeb, Capacity, Chunks, Inserted, Chunk, SlotOf, PageOf;
    ghost var items, x := Zip(lebs[..k], pebs[..k]), Item(leb, pebs[k], NEW_STATE);
    FilledBounds(c, items);
    if k > 0 { ZipEnd(lebs, pebs, k); }
    AscendingSlot(items, c.Cap(), |c.fragments|, leb);
    ChunksAppend(items, x, c.Cap(), |c.fragments|);
    ZipNext(lebs, pebs, k);
    AscendingNext(items, x);
    var st := c.CacheLeb2Peb(leb, pebs[k]);
    assert st == Success;
  }

  lemma FilledBounds(c: Cache, items: seq<Item>)
    requires c.Filled(items)
    ensures 0 < c.Cap() && Ascending(items) && Named(items)
  {
  }

  lemma AscendingNext(items: seq<Item>, x: Item)
    requires Ascending(items) && Named(items) && x.leb < U64_MAX && (items == [] || EndLeb(items) < x.leb)
    ensures Ascending(items + [x]) && Named(items + [x])
  {
  }

  lemma NothingZipped(ids: seq<U64>, lebs: seq<U64>, pebs: seq<U64>)
    ensures Zip(lebs[..0], pebs[..0]) == [] && MapTableRun.Allocated(ids[..0]) == lebs[..0]
  {
  }

  lemma ZipEnd(lebs: seq<U64>, pebs: seq<U64>, k: nat)
    requires |lebs| == |pebs| && 0 < k <= |lebs|
    ensures EndLeb(Zip(lebs[..k], pebs[..k])) == lebs[k - 1]
  {
  }

  lemma ZipNext(lebs: seq<U64>, pebs: seq<U64>, k: nat)
    requires |lebs| == |pebs| && k < |lebs|
    ensures Zip(lebs[..k + 1], pebs[..k + 1]) == Zip(lebs[..k], pebs[..k]) + [Item(lebs[k], pebs[k], NEW_STATE)]
  {
  }

  lemma FragmentHeader(b: seq<Byte>, items: seq<Item>)
    requires Holds(b, items)
    ensures Value(b[16..24]) == StartLeb(items) && Value(b[24..32]) == EndLeb(items) && Value(b[12..14]) == |items|
    ensures Value(b[14..16]) == THRESHOLD + 20 * |items|
    ensures (StartLeb(items) == U64_MAX <==> items == [])
  {
    hide Value, Le, Pairs, States;
    Value16(|items|);
    Value16(THRESHOLD + 20 * |items|);
    Value64(StartLeb(items));
    Value64(EndLeb(items));
  }
}
