/**
 * One fragment of the mapping table's cache (sbin/mkfs.ssdfs/mapping_table_cache.c): a page that holds a
 * header, the LEB/PEB pairs sorted by LEB, a magic number and the PEB states in the order of the pairs.
 */
module CacheFragment {
  import opened Types
  import opened Bytes

  const HDR_SIZE: nat := 32
  const PAIR_SIZE: nat := 16
  const STATE_SIZE: nat := 4
  /** Header and magic number. */
  const THRESHOLD: nat := 36
  const KEY: nat := 0x4D63
  const STATE_MAGIC: seq<Byte> := [0x53, 0x50, 0x63, 0x4D]

  type State = s: seq<Byte> | |s| == STATE_SIZE witness [0, 0, 0, 0]

  datatype Item = Item(leb: U64, peb: U64, state: State)

  /** SSDFS_LEB2PEB_PAIR_PER_FRAGMENT */
  function Capacity(pageSize: nat): (r: nat)
    ensures pageSize >= THRESHOLD ==> THRESHOLD + 20 * r <= pageSize < THRESHOLD + 20 * r + 20
  {
    if pageSize < THRESHOLD then 0 else (pageSize - THRESHOLD) / (PAIR_SIZE + STATE_SIZE)
  }

  function PairBytes(x: Item): (r: seq<Byte>)
    ensures |r| == PAIR_SIZE
  {
    Le(x.leb, 8) + Le(x.peb, 8)
  }

  function Pairs(items: seq<Item>): (r: seq<Byte>)
    ensures |r| == 16 * |items|
  {
    if items == [] then [] else Pairs(items[..|items| - 1]) + PairBytes(items[|items| - 1])
  }

  function States(items: seq<Item>): (r: seq<Byte>)
    ensures |r| == 4 * |items|
  {
    if items == [] then [] else States(items[..|items| - 1]) + items[|items| - 1].state
  }

  lemma {:induction false} PairsConcat(a: seq<Item>, b: seq<Item>)
    ensures Pairs(a + b) == Pairs(a) + Pairs(b)
  {
    if b == [] {
      assert a + b == a;
    } else {
      var c, i, x := a + b, b[..|b| - 1], b[|b| - 1];
      PairsConcat(a, i);
      assert c[..|c| - 1] == a + i && c[|c| - 1] == x;
      assert Pairs(c) == Pairs(a + i) + PairBytes(x) && Pairs(b) == Pairs(i) + PairBytes(x);
      hide Pairs, PairBytes;
      assert (Pairs(a) + Pairs(i)) + PairBytes(x) == Pairs(a) + (Pairs(i) + PairBytes(x));
    }
  }

  lemma {:induction false} StatesConcat(a: seq<Item>, b: seq<Item>)
    ensures States(a + b) == States(a) + States(b)
  {
    if b == [] {
      assert a + b == a;
    } else {
      var c, i, x := a + b, b[..|b| - 1], b[|b| - 1];
      StatesConcat(a, i);
      assert c[..|c| - 1] == a + i && c[|c| - 1] == x;
      assert States(c) == States(a + i) + x.state && States(b) == States(i) + x.state;
      hide States;
      assert (States(a) + States(i)) + x.state == States(a) + (States(i) + x.state);
    }
  }

  function StartLeb(items: seq<Item>): U64 {
    if items == [] then U64_MAX else items[0].leb
  }

  function EndLeb(items: seq<Item>): U64 {
    if items == [] then U64_MAX else items[|items| - 1].leb
  }

  predicate Named(items: seq<Item>) {
    forall i :: 0 <= i < |items| ==> items[i].leb < U64_MAX
  }

  /** Magic key, no compression flags, and the fields that describe the items. */
  predicate HeaderOk(b: seq<Byte>, items: seq<Item>) {
    && At(b, 4, Le(KEY, 2)) && At(b, 10, Le(0, 2))
    && At(b, 12, Le(|items|, 2)) && At(b, 14, Le(THRESHOLD + 20 * |items|, 2))
    && At(b, 16, Le(StartLeb(items), 8)) && At(b, 24, Le(EndLeb(items), 8))
  }

  predicate BodyOk(b: seq<Byte>, items: seq<Item>) {
    && At(b, HDR_SIZE, Pairs(items)) && At(b, HDR_SIZE + 16 * |items|, STATE_MAGIC)
    && At(b, THRESHOLD + 16 * |items|, States(items))
  }

  /** The page holds exactly `items`. */
  predicate Holds(b: seq<Byte>, items: seq<Item>) {
    && THRESHOLD + 20 * |items| <= |b| <= U16_MAX && Named(items)
    && HeaderOk(b, items) && BodyOk(b, items)
  }

  /** Insertion behind every item with a LEB that is not greater, as in a sorted list. */
  function Inserted(items: seq<Item>, x: Item): (r: seq<Item>)
    ensures |r| == |items| + 1
  {
    var n := |items|;
    if n == 0 || items[n - 1].leb <= x.leb then items + [x] else Inserted(items[..n - 1], x) + [items[n - 1]]
  }

  predicate Sorted(items: seq<Item>) {
    forall i, j :: 0 <= i < j < |items| ==> items[i].leb <= items[j].leb
  }

  /** Insertion keeps the order and adds exactly the new item. */
  lemma InsertedSorted(items: seq<Item>, x: Item)
    ensures Sorted(items) ==> Sorted(Inserted(items, x))
    ensures multiset(Inserted(items, x)) == multiset(items) + multiset{x}
  {
    if Sorted(items) {
      InsertedOrder(items, x);
    }
    InsertedItems(items, x);
  }

  lemma InsertedUnfold(items: seq<Item>, x: Item)
    ensures var n := |items|;
            Inserted(items, x) ==
              if n == 0 || items[n - 1].leb <= x.leb then items + [x] else Inserted(items[..n - 1], x) + [items[n - 1]]
  {
  }

  lemma {:induction false} InsertedOrder(items: seq<Item>, x: Item)
    requires Sorted(items)
    ensures Sorted(Inserted(items, x))
  {
    hide Inserted;
    InsertedUnfold(items, x);
    var n := |items|;
    if n > 0 && items[n - 1].leb > x.leb {
      InsertedOrder(items[..n - 1], x);
      InsertedBelow(items[..n - 1], x, items[n - 1].leb);
      SortedSnoc(Inserted(items[..n - 1], x), items[n - 1]);
    } else {
      SortedSnoc(items, x);
    }
  }

  lemma SortedSnoc(items: seq<Item>, x: Item)
    requires Sorted(items) && forall i :: 0 <= i < |items| ==> items[i].leb <= x.leb
    ensures Sorted(items + [x])
  {
  }

  lemma {:induction false} InsertedItems(items: seq<Item>, x: Item)
    ensures multiset(Inserted(items, x)) == multiset(items) + multiset{x}
  {
    hide Inserted;
    InsertedUnfold(items, x);
    var n := |items|;
    if n > 0 && items[n - 1].leb > x.leb {
      InsertedItems(items[..n - 1], x);
      assert items == items[..n - 1] + [items[n - 1]];
    }
  }

  lemma {:induction false} InsertedBelow(items: seq<Item>, x: Item, bound: nat)
    requires x.leb <= bound
    ensures (forall i :: 0 <= i < |items| ==> items[i].leb <= bound) ==>
              forall i :: 0 <= i < |Inserted(items, x)| ==> Inserted(items, x)[i].leb <= bound
  {
    hide Inserted;
    InsertedUnfold(items, x);
    var n := |items|;
    if n > 0 && items[n - 1].leb > x.leb {
      InsertedBelow(items[..n - 1], x, bound);
    }
  }

  /** The place where the scan from the end stops. */
  predicate InsertionPlace(items: seq<Item>, x: Item, k: nat) {
    && k <= |items| && (k > 0 ==> items[k - 1].leb <= x.leb)
    && forall i :: k <= i < |items| ==> items[i].leb > x.leb
  }

  lemma {:induction false} InsertedAt(items: seq<Item>, x: Item, k: nat)
    requires InsertionPlace(items, x, k)
    ensures Inserted(items, x) == items[..k] + [x] + items[k..]
  {
    hide Inserted;
    InsertedUnfold(items, x);
    var n := |items|;
    if k < n {
      InsertedAt(items[..n - 1], x, k);
      assert items[..n - 1][..k] == items[..k];
      assert items[k..] == items[..n - 1][k..] + [items[n - 1]];
    } else {
      assert items[..k] == items && items[k..] == [];
    }
  }

  lemma PairsParts(pre: seq<Item>, x: Item, post: seq<Item>)
    ensures Pairs(pre + [x] + post) == Pairs(pre) + PairBytes(x) + Pairs(post)
  {
    SinglePair(x);
    hide Pairs, PairBytes;
    PairsConcat(pre + [x], post);
    PairsConcat(pre, [x]);
  }

  lemma StatesParts(pre: seq<Item>, x: Item, post: seq<Item>)
    ensures States(pre + [x] + post) == States(pre) + x.state + States(post)
  {
    SinglePair(x);
    hide States;
    StatesConcat(pre + [x], post);
    StatesConcat(pre, [x]);
  }

  lemma SinglePair(x: Item)
    ensures Pairs([x]) == PairBytes(x) && States([x]) == x.state
  {
    assert [x][..0] == [];
  }

  /** The bytes of pair `i`. */
  lemma PairAt(b: seq<Byte>, base: nat, items: seq<Item>, i: nat)
    requires At(b, base, Pairs(items)) && i < |items|
    ensures At(b, base + 16 * i, PairBytes(items[i]))
  {
    hide Pairs, PairBytes, At, Le, Value;
    var pre, x, post := items[..i], items[i], items[i + 1..];
    PairsParts(pre, x, post);
    AtSplit(b, base, Pairs(pre) + PairBytes(x), Pairs(post));
    AtSplit(b, base, Pairs(pre), PairBytes(x));
    Rejoin(items, i);
  }

  lemma Rejoin(items: seq<Item>, i: nat)
    requires i < |items|
    ensures items == items[..i] + [items[i]] + items[i + 1..]
  {
  }

  lemma PairValue(b: seq<Byte>, at: nat, x: Item)
    requires At(b, at, PairBytes(x))
    ensures at + 16 <= |b| && Value(b[at..at + 8]) == x.leb && Value(b[at + 8..at + 16]) == x.peb
  {
    hide Le, Value;
    AtSplit(b, at, Le(x.leb, 8), Le(x.peb, 8));
    Value64(x.leb);
    Value64(x.peb);
  }

  /** Offset and size of the area of states; `None` for a page that the functions reject. */
  datatype Area = Area(start: nat, size: nat)

  /** __ssdfs_maptbl_cache_area_size, PEB_STATE_AREA and ssdfs_peb_state_area_size */
  function StateArea(b: seq<Byte>): (r: Option<Area>)
    requires |b| >= HDR_SIZE
    ensures r.Some? ==> Value(b[14..16]) == 36 || 36 + 20 * Value(b[12..14]) <= Value(b[14..16])
  {
    var items, bytes := Value(b[12..14]), Value(b[14..16]);
    if bytes < THRESHOLD then None
    else
      var capacity := (bytes - THRESHOLD) / (PAIR_SIZE + STATE_SIZE);
      if bytes != THRESHOLD && items > capacity then None
      else
        var start := HDR_SIZE + 16 * capacity;
        if start + STATE_SIZE > |b| || b[start..start + STATE_SIZE] != STATE_MAGIC then None
        else Some(Area(start, STATE_SIZE + 4 * capacity))
  }

  lemma StateAreaIs(b: seq<Byte>, items: seq<Item>)
    requires Holds(b, items)
    ensures StateArea(b) == Some(Area(HDR_SIZE + 16 * |items|, STATE_SIZE + 4 * |items|))
    ensures Value(b[12..14]) == |items| && Value(b[14..16]) == THRESHOLD + 20 * |items|
  {
    hide Value, Le, Pairs, States;
    Value16(|items|);
    Value16(THRESHOLD + 20 * |items|);
  }

  function MagicAt(n: nat): nat { HDR_SIZE + 16 * n }

  function StatesAt(n: nat): nat { THRESHOLD + 16 * n }

  /** Header and everything behind the items are those of `b0`. */
  predicate Framed(b0: seq<Byte>, b: seq<Byte>, n: nat) {
    && |b| == |b0| && THRESHOLD + 20 * n + 20 <= |b0|
    && At(b, 0, b0[..HDR_SIZE]) && At(b, THRESHOLD + 20 * n + 20, b0[THRESHOLD + 20 * n + 20..])
  }

  /** A memmove below the states, or of the states, that keeps header and tail. */
  lemma FramedMove(b0: seq<Byte>, b: seq<Byte>, n: nat, dst: nat, src: nat, len: nat)
    requires Framed(b0, b, n) && HDR_SIZE <= dst && dst + len <= THRESHOLD + 20 * n + 20 && src + len <= |b|
    ensures Framed(b0, Moved(b, dst, src, len), n)
  {
    hide At, Moved;
    MovedFrame(b, dst, src, len, 0, b0[..HDR_SIZE]);
    MovedFrame(b, dst, src, len, THRESHOLD + 20 * n + 20, b0[THRESHOLD + 20 * n + 20..]);
  }

  lemma FramedWrite(b0: seq<Byte>, b: seq<Byte>, n: nat, dst: nat, s: seq<Byte>)
    requires Framed(b0, b, n) && HDR_SIZE <= dst && dst + |s| <= THRESHOLD + 20 * n + 20
    ensures Framed(b0, Overlay(b, dst, s), n)
  {
    hide At, Overlay;
    OverlayFrame(b, dst, s, 0, b0[..HDR_SIZE]);
    OverlayFrame(b, dst, s, THRESHOLD + 20 * n + 20, b0[THRESHOLD + 20 * n + 20..]);
  }

  lemma FramedSelf(b: seq<Byte>, n: nat)
    requires THRESHOLD + 20 * n + 20 <= |b|
    ensures Framed(b, b, n)
  {
  }

  lemma FramedSize(b0: seq<Byte>, b: seq<Byte>, n: nat)
    requires Framed(b0, b, n)
    ensures |b| == |b0| && THRESHOLD + 20 * n + 20 <= |b|
  {
  }

  /** memmove of the area of states by one pair. */
  lemma ShiftStates(b: seq<Byte>, items: seq<Item>, n: nat)
    requires n == |items| && THRESHOLD + 20 * n + 20 <= |b|
    requires At(b, HDR_SIZE, Pairs(items)) && At(b, MagicAt(n), STATE_MAGIC) && At(b, StatesAt(n), States(items))
    ensures var b' := Moved(b, MagicAt(n + 1), MagicAt(n), STATE_SIZE + 4 * n);
            && Framed(b, b', n) && At(b', HDR_SIZE, Pairs(items))
            && At(b', MagicAt(n + 1), STATE_MAGIC) && At(b', StatesAt(n + 1), States(items))
  {
    hide Pairs, States, At, Moved, Framed;
    var area, s := MagicAt(n), STATE_MAGIC + States(items);
    FramedSelf(b, n);
    AtSplit(b, area, STATE_MAGIC, States(items));
    AtSplit(b, HDR_SIZE, Pairs(items), s);
    MovedApart(b, HDR_SIZE, Pairs(items), s, MagicAt(n + 1), area, STATE_SIZE + 4 * n);
    AtSplit(Moved(b, area + PAIR_SIZE, area, |s|), area + PAIR_SIZE, STATE_MAGIC, States(items));
    FramedMove(b, b, n, area + PAIR_SIZE, area, |s|);
  }

  /** memmove of the pairs behind the new one. */
  lemma ShiftPairs(b0: seq<Byte>, b: seq<Byte>, pre: seq<Item>, post: seq<Item>, n: nat, k: nat)
    requires n == |pre| + |post| && k == |pre| && Framed(b0, b, n) && At(b, HDR_SIZE, Pairs(pre + post))
    requires At(b, MagicAt(n + 1), STATE_MAGIC) && At(b, StatesAt(n + 1), States(pre + post))
    ensures var b' := Moved(b, MagicAt(k + 1), MagicAt(k), 16 * (n - k));
            && Framed(b0, b', n) && At(b', HDR_SIZE, Pairs(pre)) && At(b', MagicAt(k + 1), Pairs(post))
            && At(b', MagicAt(n + 1), STATE_MAGIC) && At(b', StatesAt(n + 1), States(pre + post))
  {
    hide Pairs, States, At, Moved, Framed;
    FramedSize(b0, b, n);
    ShiftOnlyPairs(b, pre, post);
    var dst, src, len, ss := MagicAt(k + 1), MagicAt(k), 16 * (n - k), States(pre + post);
    MovedFrame(b, dst, src, len, MagicAt(n + 1), STATE_MAGIC);
    MovedFrame(b, dst, src, len, StatesAt(n + 1), ss);
    FramedMove(b0, b, n, dst, src, len);
  }

  lemma ShiftOnlyPairs(b: seq<Byte>, pre: seq<Item>, post: seq<Item>)
    requires At(b, HDR_SIZE, Pairs(pre + post)) && MagicAt(|pre| + |post| + 1) <= |b|
    ensures var b' := Moved(b, MagicAt(|pre| + 1), MagicAt(|pre|), 16 * |post|);
            At(b', HDR_SIZE, Pairs(pre)) && At(b', MagicAt(|pre| + 1), Pairs(post))
  {
    hide Pairs, At, Moved;
    PairsConcat(pre, post);
    var s, t := Pairs(pre), Pairs(post);
    MovedApart(b, HDR_SIZE, s, t, MagicAt(|pre| + 1), MagicAt(|pre|), 16 * |post|);
  }

  /** memmove of the states behind the new one. */
  lemma ShiftTail(b0: seq<Byte>, b: seq<Byte>, pre: seq<Item>, post: seq<Item>, n: nat, dst: nat, src: nat, len: nat)
    requires n == |pre| + |post| && src == StatesAt(n + 1) + 4 * |pre| && dst == src + 4 && len == 4 * |post|
    requires Framed(b0, b, n) && At(b, HDR_SIZE, Pairs(pre)) && At(b, MagicAt(|pre| + 1), Pairs(post))
    requires At(b, MagicAt(n + 1), STATE_MAGIC) && At(b, StatesAt(n + 1), States(pre + post))
    ensures |b| == |b0| && dst + len <= |b|
    ensures var b' := Moved(b, dst, src, len);
            && Framed(b0, b', n) && At(b', HDR_SIZE, Pairs(pre)) && At(b', MagicAt(|pre| + 1), Pairs(post))
            && At(b', MagicAt(n + 1), STATE_MAGIC)
            && At(b', StatesAt(n + 1), States(pre)) && At(b', dst, States(post))
  {
    hide Pairs, States, At, Moved, Framed;
    FramedSize(b0, b, n);
    ShiftOnlyStates(b, pre, post, StatesAt(n + 1), dst, src, len);
    MovedFrame(b, dst, src, len, HDR_SIZE, Pairs(pre));
    MovedFrame(b, dst, src, len, MagicAt(|pre| + 1), Pairs(post));
    MovedFrame(b, dst, src, len, MagicAt(n + 1), STATE_MAGIC);
    FramedMove(b0, b, n, dst, src, len);
  }

  lemma ShiftOnlyStates(b: seq<Byte>, pre: seq<Item>, post: seq<Item>, base: nat, dst: nat, src: nat, n: nat)
    requires At(b, base, States(pre + post)) && dst + n <= |b|
    requires src == base + 4 * |pre| && dst == src + 4 && n == 4 * |post|
    ensures At(Moved(b, dst, src, n), base, States(pre)) && At(Moved(b, dst, src, n), dst, States(post))
  {
    hide States, At, Moved;
    StatesConcat(pre, post);
    MovedApart(b, base, States(pre), States(post), dst, src, n);
  }

  /** The new pair is copied into the free place. */
  lemma FillPair(b0: seq<Byte>, b: seq<Byte>, pre: seq<Item>, x: Item, post: seq<Item>, n: nat, k: nat)
    requires n == |pre| + |post| && k == |pre| && Framed(b0, b, n)
    requires At(b, HDR_SIZE, Pairs(pre)) && At(b, MagicAt(k + 1), Pairs(post)) && At(b, MagicAt(n + 1), STATE_MAGIC)
    requires At(b, StatesAt(n + 1), States(pre)) && At(b, StatesAt(n + 1) + 4 * k + 4, States(post))
    ensures var b' := Overlay(b, MagicAt(k), PairBytes(x));
            && Framed(b0, b', n) && At(b', HDR_SIZE, Pairs(pre + [x] + post)) && At(b', MagicAt(n + 1), STATE_MAGIC)
            && At(b', StatesAt(n + 1), States(pre)) && At(b', StatesAt(n + 1) + 4 * k + 4, States(post))
  {
    hide Pairs, States, At, Overlay, PairBytes, Framed;
    FramedSize(b0, b, n);
    var dst, s := MagicAt(k), PairBytes(x);
    FillOnlyPair(b, pre, x, post);
    BehindPairs(b, dst, s, n, STATE_MAGIC, MagicAt(n + 1));
    BehindPairs(b, dst, s, n, States(pre), StatesAt(n + 1));
    BehindPairs(b, dst, s, n, States(post), StatesAt(n + 1) + 4 * k + 4);
    FramedWrite(b0, b, n, dst, s);
  }

  /** What lies behind the pairs stays when a pair is written. */
  lemma BehindPairs(b: seq<Byte>, dst: nat, s: seq<Byte>, n: nat, t: seq<Byte>, base: nat)
    requires At(b, base, t) && |s| == PAIR_SIZE && dst <= MagicAt(n) && MagicAt(n + 1) <= base
    ensures dst + |s| <= |b| && At(Overlay(b, dst, s), base, t)
  {
    hide Overlay;
    OverlayFrame(b, dst, s, base, t);
  }

  lemma FillOnlyPair(b: seq<Byte>, pre: seq<Item>, x: Item, post: seq<Item>)
    requires At(b, HDR_SIZE, Pairs(pre)) && At(b, MagicAt(|pre| + 1), Pairs(post)) && MagicAt(|pre| + 1) <= |b|
    ensures At(Overlay(b, MagicAt(|pre|), PairBytes(x)), HDR_SIZE, Pairs(pre + [x] + post))
  {
    hide Pairs, States, At, Overlay, PairBytes;
    var dst, s := MagicAt(|pre|), PairBytes(x);
    OverlayAt(b, dst, s);
    OverlayFrame(b, dst, s, HDR_SIZE, Pairs(pre));
    OverlayFrame(b, dst, s, dst + PAIR_SIZE, Pairs(post));
    AtJoin(Overlay(b, dst, s), HDR_SIZE, Pairs(pre), s, Pairs(post));
    PairsParts(pre, x, post);
  }

  /** The new state is copied into the free place. */
  lemma FillState(b0: seq<Byte>, b: seq<Byte>, pre: seq<Item>, x: Item, post: seq<Item>, n: nat, dst: nat)
    requires n == |pre| + |post| && dst == StatesAt(n + 1) + 4 * |pre| && Framed(b0, b, n)
    requires At(b, HDR_SIZE, Pairs(pre + [x] + post)) && At(b, MagicAt(n + 1), STATE_MAGIC)
    requires At(b, StatesAt(n + 1), States(pre)) && At(b, dst + 4, States(post))
    ensures Framed(b0, Overlay(b, dst, x.state), n)
    ensures At(Overlay(b, dst, x.state), HDR_SIZE, Pairs(pre + [x] + post))
    ensures At(Overlay(b, dst, x.state), MagicAt(n + 1), STATE_MAGIC)
    ensures At(Overlay(b, dst, x.state), StatesAt(n + 1), States(pre + [x] + post))
  {
    hide Pairs, States, At, Overlay, PairBytes, Framed;
    FramedSize(b0, b, n);
    OverlayFrame(b, dst, x.state, HDR_SIZE, Pairs(pre + [x] + post));
    OverlayFrame(b, dst, x.state, MagicAt(n + 1), STATE_MAGIC);
    FramedWrite(b0, b, n, dst, x.state);
    FillOnlyState(b, pre, x, post, StatesAt(n + 1), dst);
  }

  lemma FillOnlyState(b: seq<Byte>, pre: seq<Item>, x: Item, post: seq<Item>, base: nat, dst: nat)
    requires dst == base + 4 * |pre| && dst + 4 <= |b|
    requires At(b, base, States(pre)) && At(b, dst + 4, States(post))
    ensures At(Overlay(b, dst, x.state), base, States(pre + [x] + post))
  {
    hide States, At, Overlay;
    OverlayAt(b, dst, x.state);
    OverlayFrame(b, dst, x.state, base, States(pre));
    OverlayFrame(b, dst, x.state, dst + 4, States(post));
    AtJoin(Overlay(b, dst, x.state), base, States(pre), x.state, States(post));
    StatesParts(pre, x, post);
  }

  /** The bytes of a LEB, as they are copied from a pair into the header. */
  lemma LebBytes(b: seq<Byte>, items: seq<Item>, i: nat)
    requires BodyOk(b, items) && i < |items|
    ensures MagicAt(i) + 8 <= |b| && b[MagicAt(i)..MagicAt(i) + 8] == Le(items[i].leb, 8)
  {
    hide Pairs, States, Le;
    PairAt(b, HDR_SIZE, items, i);
    AtSplit(b, MagicAt(i), Le(items[i].leb, 8), Le(items[i].peb, 8));
  }

  /** The page with the four header fields stored. */
  function Headed(b: seq<Byte>, first: seq<Byte>, last: seq<Byte>, count: seq<Byte>, bytes: seq<Byte>): (r: seq<Byte>)
    requires |b| >= HDR_SIZE && |first| == |last| == 8 && |count| == |bytes| == 2
    ensures |r| == |b|
  {
    Overlay(Overlay(Overlay(Overlay(b, 16, first), 24, last), 12, count), 14, bytes)
  }

  /** What is outside the four fields stays. */
  lemma HeadedFrame(b: seq<Byte>, f: seq<Byte>, l: seq<Byte>, c: seq<Byte>, y: seq<Byte>, base: nat, t: seq<Byte>)
    requires |b| >= HDR_SIZE && |f| == |l| == 8 && |c| == |y| == 2
    requires At(b, base, t) && (base + |t| <= 12 || HDR_SIZE <= base)
    ensures At(Headed(b, f, l, c, y), base, t)
  {
    hide At, Overlay;
    var b1 := Overlay(b, 16, f);
    var b2 := Overlay(b1, 24, l);
    var b3 := Overlay(b2, 12, c);
    OverlayFrame(b, 16, f, base, t);
    OverlayFrame(b1, 24, l, base, t);
    OverlayFrame(b2, 12, c, base, t);
    OverlayFrame(b3, 14, y, base, t);
  }

  lemma HeadedFields(b: seq<Byte>, f: seq<Byte>, l: seq<Byte>, c: seq<Byte>, y: seq<Byte>)
    requires |b| >= HDR_SIZE && |f| == |l| == 8 && |c| == |y| == 2
    ensures var b' := Headed(b, f, l, c, y); At(b', 16, f) && At(b', 24, l) && At(b', 12, c) && At(b', 14, y)
  {
    hide At, Overlay;
    var b1 := Overlay(b, 16, f);
    var b2 := Overlay(b1, 24, l);
    var b3 := Overlay(b2, 12, c);
    OverlayAt(b, 16, f);
    OverlayAt(b1, 24, l);
    OverlayAt(b2, 12, c);
    OverlayAt(b3, 14, y);
    OverlayFrame(b1, 24, l, 16, f);
    OverlayFrame(b2, 12, c, 16, f);
    OverlayFrame(b2, 12, c, 24, l);
    OverlayFrame(b3, 14, y, 16, f);
    OverlayFrame(b3, 14, y, 24, l);
    OverlayFrame(b3, 14, y, 12, c);
  }

  /** The fields are those of `items`. */
  lemma HeadedOk(b: seq<Byte>, items: seq<Item>, n: nat)
    requires n + 1 == |items| && THRESHOLD + 20 * |items| <= |b| && BodyOk(b, items)
    requires At(b, 4, Le(KEY, 2)) && At(b, 10, Le(0, 2))
    ensures var b' := Headed(b, Le(items[0].leb, 8), Le(items[n].leb, 8), Le(n + 1, 2), Le(THRESHOLD + 20 * (n + 1),
              2));
            HeaderOk(b', items) && BodyOk(b', items)
  {
    hide At, Headed, Le, Pairs, States;
    var f, l, c, y := Le(items[0].leb, 8), Le(items[n].leb, 8), Le(n + 1, 2), Le(THRESHOLD + 20 * (n + 1), 2);
    HeadedFields(b, f, l, c, y);
    HeadedFrame(b, f, l, c, y, 4, Le(KEY, 2));
    HeadedFrame(b, f, l, c, y, 10, Le(0, 2));
    HeadedFrame(b, f, l, c, y, HDR_SIZE, Pairs(items));
    HeadedFrame(b, f, l, c, y, HDR_SIZE + 16 * |items|, STATE_MAGIC);
    HeadedFrame(b, f, l, c, y, THRESHOLD + 16 * |items|, States(items));
  }

  /** The first and the last LEB are copied from pairs 0 and `n`, then the number of items and of bytes are stored. */
  method StoreHeader(a: array<Byte>, n: nat)
    requires MagicAt(n) + 8 <= a.Length
    modifies a
    ensures var b := old(a[..]);
            a[..] == Headed(b, b[MagicAt(0)..MagicAt(0) + 8], b[MagicAt(n)..MagicAt(n) + 8],
                            Le(n + 1, 2), Le(THRESHOLD + 20 * (n + 1), 2))
  {
    hide Le, Overlay;
    ghost var b := a[..];
    CopyBytes(a, 16, MagicAt(0), 8);
    OverlayBehind(b, 16, b[MagicAt(0)..MagicAt(0) + 8], MagicAt(n), 8);
    CopyBytes(a, 24, MagicAt(n), 8);
    Memcpy(a, 12, Le(n + 1, 2));
    Memcpy(a, 14, Le(THRESHOLD + 20 * (n + 1), 2));
  }

  lemma OverlayBehind(b: seq<Byte>, dst: nat, s: seq<Byte>, at: nat, n: nat)
    requires dst + |s| <= at && at + n <= |b|
    ensures Overlay(b, dst, s)[at..at + n] == b[at..at + n]
  {
  }

  /** memcpy of a field of the same page. */
  method CopyBytes(a: array<Byte>, dst: nat, src: nat, n: nat)
    requires dst + n <= a.Length && src + n <= a.Length
    modifies a
    ensures a[..] == Overlay(old(a[..]), dst, old(a[..])[src..src + n])
  {
    Memmove(a, dst, src, n);
  }

  /** The scan for the place of a new pair, from the end. */
  method FindPlace(a: array<Byte>, x: Item, n: nat, ghost items: seq<Item>) returns (k: nat)
    requires At(a[..], HDR_SIZE, Pairs(items)) && n == |items|
    ensures InsertionPlace(items, x, k)
  {
    hide Pairs, PairBytes, At, Value, Le;
    k := n;
    while k > 0
      invariant k <= n && forall i :: k <= i < n ==> items[i].leb > x.leb
    {
      PairAt(a[..], HDR_SIZE, items, k - 1);
      PairValue(a[..], MagicAt(k - 1), items[k - 1]);
      var leb := Value(a[..][MagicAt(k - 1)..MagicAt(k - 1) + 8]);
      if leb <= x.leb {
        return;
      }
      k := k - 1;
    }
  }

  /** The page in which `x` has been inserted at place `k`, except for its header. */
  method InsertBody(a: array<Byte>, x: Item, n: nat, k: nat, ghost pre: seq<Item>, ghost post: seq<Item>)
    requires n == |pre| + |post| && k == |pre| && THRESHOLD + 20 * n + 20 <= a.Length
    requires At(a[..], HDR_SIZE, Pairs(pre + post)) && At(a[..], MagicAt(n + 1), STATE_MAGIC)
    requires At(a[..], StatesAt(n + 1), States(pre + post))
    modifies a
    ensures BodyOk(a[..], pre + [x] + post) && Framed(old(a[..]), a[..], n)
  {
    hide Pairs, States, At, Moved, Overlay, PairBytes, Framed;
    ghost var b0 := a[..];
    FramedSelf(b0, n);
    ShiftPairs(b0, b0, pre, post, n, k);
    ghost var b1 := Moved(b0, MagicAt(k + 1), MagicAt(k), 16 * (n - k));
    var states := StatesAt(n + 1);
    ShiftTail(b0, b1, pre, post, n, states + 4 * k + 4, states + 4 * k, 4 * (n - k));
    if k < n {
      Memmove(a, MagicAt(k + 1), MagicAt(k), 16 * (n - k));
      Memmove(a, states + 4 * k + 4, states + 4 * k, 4 * (n - k));
    } else {
      MovedNothing(b0, MagicAt(k + 1), MagicAt(k));
      MovedNothing(b1, states + 4 * k + 4, states + 4 * k);
    }
    FillPair(b0, a[..], pre, x, post, n, k);
    Memcpy(a, MagicAt(k), PairBytes(x));
    FillState(b0, a[..], pre, x, post, n, states + 4 * k);
    Memcpy(a, states + 4 * k, x.state);
  }

  lemma MovedNothing(b: seq<Byte>, dst: nat, src: nat)
    requires dst <= |b| && src <= |b|
    ensures Moved(b, dst, src, 0) == b
  {
  }

  /** The branch of add_leb2peb_pair for a fragment with room. */
  method AddWithRoom(a: array<Byte>, x: Item, n: nat, area: Area, ghost items: seq<Item>)
    requires Holds(a[..], items) && x.leb < U64_MAX && n == |items| < Capacity(a.Length)
    requires area == Area(MagicAt(n), STATE_SIZE + 4 * n)
    modifies a
    ensures Holds(a[..], Inserted(items, x))
    ensures a[..12] == old(a[..12]) && a[THRESHOLD + 20 * n + 20..] == old(a[THRESHOLD + 20 * n + 20..])
  {
    hide Pairs, States, At, Moved, Overlay, PairBytes, Framed, Le, Value, Inserted, InsertionPlace, Headed;
    ghost var b0 := a[..];
    ShiftStates(b0, items, n);
    Memmove(a, area.start + PAIR_SIZE, area.start, area.size);
    ghost var b1 := a[..];
    var k := FindPlace(a, x, n, items);
    ghost var pre, post := PlaceParts(items, x, k);
    InsertBody(a, x, n, k, pre, post);
    ghost var b2, items' := a[..], Inserted(items, x);
    KeptHeader(b0, b1, b2, items);
    LebBytes(b2, items', 0);
    LebBytes(b2, items', n);
    StoreHeader(a, n);
    HeadedOk(b2, items', n);
    InsertedNamed(items, x);
    KeptRest(b0, b1, b2, items', n);
  }

  /** A new last pair of a full fragment, or its state, does not fit the page. */
  predicate WritesOutside(length: nat, n: nat) {
    length < MagicAt(n) + PAIR_SIZE || length < StatesAt(n) + 4 * n + STATE_SIZE
  }

  /** In numbers: less than four bytes behind the items of a full page, or less than eight if it has room for one. */
  lemma OutsideIff(length: nat, n: nat)
    requires n == Capacity(length) > 0
    ensures WritesOutside(length, n) <==> (length - 36) % 20 < if n == 1 then 8 else 4
  {
    var r := (length - 36) % 20;
    assert length == 36 + 20 * n + r;
  }

  /** The state of an item, read from the page. */
  lemma StateOf(b: seq<Byte>, items: seq<Item>, i: nat)
    requires BodyOk(b, items) && i < |items|
    ensures At(b, StatesAt(|items|) + 4 * i, items[i].state)
  {
    hide Pairs, States, At;
    var base, pre, x, post := StatesAt(|items|), items[..i], items[i], items[i + 1..];
    assert items == pre + ([x] + post);
    StatesConcat(pre, [x] + post);
    StatesConcat([x], post);
    AtSplit(b, base, States(pre), States([x]) + States(post));
    AtSplit(b, base + 4 * i, States([x]), States(post));
    OneState(x);
  }

  lemma OneState(x: Item)
    ensures States([x]) == x.state
  {
    assert [x][..0] == [] && States([]) == [];
  }

  /** The last pair and its state, read from the page. */
  lemma LastItem(b: seq<Byte>, items: seq<Item>, n: nat)
    requires BodyOk(b, items) && n + 1 == |items|
    ensures At(b, MagicAt(n), PairBytes(items[n])) && At(b, StatesAt(n + 1) + 4 * n, items[n].state)
    ensures At(b, HDR_SIZE, Pairs(items[..n])) && At(b, StatesAt(n + 1), States(items[..n]))
  {
    assert Pairs(items) == Pairs(items[..n]) + PairBytes(items[n]);
    assert States(items) == States(items[..n]) + items[n].state;
    hide Pairs, States, PairBytes, At;
    AtSplit(b, HDR_SIZE, Pairs(items[..n]), PairBytes(items[n]));
    AtSplit(b, StatesAt(n + 1), States(items[..n]), items[n].state);
  }

  /** A page whose header has been stored for one item more than it has room for. */
  lemma StoredTooMany(b: seq<Byte>, b': seq<Byte>, n: nat, f: seq<Byte>, l: seq<Byte>, y: seq<Byte>)
    requires THRESHOLD <= |b| <= U16_MAX && n == Capacity(|b|) && |f| == |l| == 8 && |y| == 2
    requires b' == Headed(b, f, l, Le(n + 1, 2), y)
    ensures forall items :: !Holds(b', items)
  {
    hide Headed, Le, Holds;
    HeadedFields(b, f, l, Le(n + 1, 2), y);
    forall items ensures !Holds(b', items) {
      FullNeverHolds(b', items);
    }
  }

  /** Storing the header does not touch the items. */
  lemma HeadedBody(b: seq<Byte>, items: seq<Item>, f: seq<Byte>, l: seq<Byte>, c: seq<Byte>, y: seq<Byte>)
    requires |b| >= HDR_SIZE && |f| == |l| == 8 && |c| == |y| == 2 && BodyOk(b, items)
    ensures BodyOk(Headed(b, f, l, c, y), items)
  {
    hide At, Headed, Pairs, States;
    HeadedFrame(b, f, l, c, y, HDR_SIZE, Pairs(items));
    HeadedFrame(b, f, l, c, y, HDR_SIZE + 16 * |items|, STATE_MAGIC);
    HeadedFrame(b, f, l, c, y, THRESHOLD + 16 * |items|, States(items));
  }

  /**
   * The branch of add_leb2peb_pair for a full fragment: the last item is handed out to be moved on, the others
   * and the new one are in the page, but the header counts one item too many. A LEB above all others is put
   * behind the last pair, over the magic number, or even behind the page.
   */
  method AddToFull(a: array<Byte>, x: Item, n: nat, ghost items: seq<Item>) returns (st: Status, moving: Item)
    requires Holds(a[..], items) && n == |items| == Capacity(a.Length) > 0
    modifies a
    ensures st == if EndLeb(items) <= x.leb && WritesOutside(a.Length, n) then Bug else Error(EAGAIN)
    ensures moving == items[n - 1]
    ensures st == Error(EAGAIN) ==> forall items' :: !Holds(a[..], items')
    ensures st == Error(EAGAIN) && x.leb < EndLeb(items) ==> BodyOk(a[..], Inserted(items, x)[..n])
  {
    hide Pairs, States, At, Moved, Overlay, PairBytes, Framed, Le, Value, Inserted, Headed;
    ghost var b0 := a[..];
    LastItem(b0, items, n - 1);
    moving := ReadItem(a, MagicAt(n - 1), StatesAt(n) + 4 * (n - 1), items[n - 1]);
    var k := FindPlace(a, x, n, items);
    ghost var kept := [];
    if k < n {
      ghost var pre, mid := FullParts(items, x, k);
      InsertBody(a, x, n - 1, k, pre, mid);
      kept := pre + [x] + mid;
    } else {
      if WritesOutside(a.Length, n) {
        return Bug, moving;
      }
      Memcpy(a, MagicAt(n), PairBytes(x));
      Memcpy(a, StatesAt(n) + 4 * n, x.state);
    }
    ghost var b2 := a[..];
    StoreHeader(a, n);
    ghost var f, l := b2[MagicAt(0)..MagicAt(0) + 8], b2[MagicAt(n)..MagicAt(n) + 8];
    ghost var y := Le(THRESHOLD + 20 * (n + 1), 2);
    StoredTooMany(b2, a[..], n, f, l, y);
    if k < n {
      HeadedBody(b2, kept, f, l, Le(n + 1, 2), y);
    }
    return Error(EAGAIN), moving;
  }

  method ReadItem(a: array<Byte>, pair: nat, state: nat, ghost item: Item) returns (r: Item)
    requires At(a[..], pair, PairBytes(item)) && At(a[..], state, item.state)
    ensures r == item
  {
    hide Value, Le, PairBytes;
    PairValue(a[..], pair, item);
    r := Item(Value(a[..][pair..pair + 8]), Value(a[..][pair + 8..pair + 16]), a[..][state..state + STATE_SIZE]);
  }

  /** The items in front of the new one, and those behind it but for the last. */
  lemma FullParts(items: seq<Item>, x: Item, k: nat) returns (pre: seq<Item>, mid: seq<Item>)
    requires InsertionPlace(items, x, k) && k < |items|
    ensures pre + mid == items[..|items| - 1] && |pre| == k
    ensures pre + [x] + mid == Inserted(items, x)[..|items|]
    ensures x.leb < EndLeb(items)
  {
    var n := |items|;
    pre, mid := items[..k], items[k..n - 1];
    InsertedAt(items, x, k);
    hide Inserted;
    assert items[k..] == mid + [items[n - 1]];
    assert pre + [x] + items[k..] == pre + [x] + mid + [items[n - 1]];
  }

  /**
   * add_leb2peb_pair. On a fragment with room the page holds the items of sorted insertion, and nothing in front
   * of the item count or behind the new last state has changed. A full fragment is left with a page that holds
   * no items at all: the page keeps its invariant if and only if it has room. `grown` is by how much the cache
   * grows.
   */
  method AddPair(a: array<Byte>, x: Item, ghost items: seq<Item>) returns (st: Status, grown: nat, moving: Item)
    requires Holds(a[..], items) && x.leb < U64_MAX && 0 < Capacity(a.Length)
    modifies a
    ensures st == Success <==> |items| < Capacity(a.Length)
    ensures st == Success ==>
              && Holds(a[..], Inserted(items, x))
              && a[..12] == old(a[..12])
              && a[THRESHOLD + 20 * |items| + 20..] == old(a[THRESHOLD + 20 * |items| + 20..])
    ensures st == Error(EAGAIN) ==>
              && moving == items[|items| - 1] && (forall items' :: !Holds(a[..], items'))
              && (x.leb < EndLeb(items) ==> BodyOk(a[..], Inserted(items, x)[..|items|]))
    ensures st != Success ==>
              st == if EndLeb(items) <= x.leb && WritesOutside(a.Length, |items|) then Bug else Error(EAGAIN)
    ensures grown == (if |items| == 0 then THRESHOLD else 0) + 20
  {
    hide Value, StateArea, Inserted, HeaderOk, BodyOk, WritesOutside;
    StateAreaIs(a[..], items);
    var n := Value(a[..][12..14]);
    var area := StateArea(a[..]);
    assert area.Some?;
    grown := (if n == 0 then THRESHOLD else 0) + PAIR_SIZE + STATE_SIZE;
    moving := x;
    if n == Capacity(a.Length) {
      st, moving := AddToFull(a, x, n, items);
    } else {
      AddWithRoom(a, x, n, area.value, items);
      st := Success;
    }
  }

  lemma PlaceParts(items: seq<Item>, x: Item, k: nat) returns (pre: seq<Item>, post: seq<Item>)
    requires InsertionPlace(items, x, k)
    ensures items == pre + post && |pre| == k && Inserted(items, x) == pre + [x] + post
  {
    pre, post := items[..k], items[k..];
    InsertedAt(items, x, k);
  }

  lemma {:induction false} InsertedNamed(items: seq<Item>, x: Item)
    requires Named(items) && x.leb < U64_MAX
    ensures Named(Inserted(items, x)) && |Inserted(items, x)| == |items| + 1
  {
    var n := |items|;
    if n > 0 && items[n - 1].leb > x.leb {
      InsertedNamed(items[..n - 1], x);
    }
  }

  lemma FramedParts(b0: seq<Byte>, b: seq<Byte>, n: nat)
    requires Framed(b0, b, n)
    ensures |b| == |b0| && b[..HDR_SIZE] == b0[..HDR_SIZE]
    ensures THRESHOLD + 20 * n + 20 <= |b| && b[THRESHOLD + 20 * n + 20..] == b0[THRESHOLD + 20 * n + 20..]
  {
    assert |b0[..HDR_SIZE]| == HDR_SIZE;
  }

  /** The magic key and the flags are where they were. */
  lemma KeptHeader(b0: seq<Byte>, b1: seq<Byte>, b2: seq<Byte>, items: seq<Item>)
    requires HeaderOk(b0, items) && Framed(b0, b1, |items|) && Framed(b1, b2, |items|)
    ensures At(b2, 4, Le(KEY, 2)) && At(b2, 10, Le(0, 2))
  {
    hide Le;
    FramedParts(b0, b1, |items|);
    FramedParts(b1, b2, |items|);
    assert b2[4..6] == b2[..HDR_SIZE][4..6] && b0[4..6] == b0[..HDR_SIZE][4..6];
    assert b2[10..12] == b2[..HDR_SIZE][10..12] && b0[10..12] == b0[..HDR_SIZE][10..12];
  }

  lemma KeptRest(b0: seq<Byte>, b1: seq<Byte>, b2: seq<Byte>, items: seq<Item>, n: nat)
    requires Framed(b0, b1, n) && Framed(b1, b2, n) && |items| == n + 1
    ensures var b3 := Headed(b2, Le(items[0].leb, 8), Le(items[n].leb, 8), Le(n + 1, 2), Le(THRESHOLD + 20 * (n + 1),
              2));
            && |b3| == |b0| && THRESHOLD + 20 * n + 20 <= |b0| && b3[..12] == b0[..12]
            && b3[THRESHOLD + 20 * n + 20..] == b0[THRESHOLD + 20 * n + 20..]
  {
    hide Le, Headed;
    var f, l, c, y, at := Le(items[0].leb, 8), Le(items[n].leb, 8), Le(n + 1, 2), Le(THRESHOLD + 20 * (n + 1), 2),
      THRESHOLD + 20 * n + 20;
    FramedParts(b0, b1, n);
    FramedParts(b1, b2, n);
    hide Framed;
    assert b2[..12] == b2[..HDR_SIZE][..12] && b0[..12] == b0[..HDR_SIZE][..12];
    HeadedFrame(b2, f, l, c, y, 0, b0[..12]);
    HeadedFrame(b2, f, l, c, y, at, b0[at..]);
    var b3 := Headed(b2, f, l, c, y);
    assert |b0[..12]| == 12 && b3[..12] == b3[0..0 + |b0[..12]|];
    assert |b0[at..]| == |b3| - at && b3[at..] == b3[at..at + |b0[at..]|];
  }

  /** The first bytes of a page without items. */
  function Prepared(index: U16): (r: seq<Byte>)
    ensures |r| == THRESHOLD
  {
    Le(0x53734466, 4) + (Le(KEY, 2) + (([1, 20] + Le(index, 2)) + EmptyFields()))
  }

  function EmptyFields(): (r: seq<Byte>)
    ensures |r| == THRESHOLD - 10
  {
    Le(0, 2) + (Le(0, 2) + (Le(THRESHOLD, 2) + (Le(U64_MAX, 8) + (Le(U64_MAX, 8) + STATE_MAGIC))))
  }

  lemma PreparedHolds(b: seq<Byte>, index: U16)
    requires At(b, 0, Prepared(index)) && THRESHOLD <= |b| <= U16_MAX
    ensures Holds(b, [])
  {
    hide At, Le, Pairs, States, EmptyFields, Holds;
    AtSplit(b, 0, Le(0x53734466, 4), Le(KEY, 2) + (([1, 20] + Le(index, 2)) + EmptyFields()));
    AtSplit(b, 4, Le(KEY, 2), ([1, 20] + Le(index, 2)) + EmptyFields());
    AtSplit(b, 6, [1, 20] + Le(index, 2), EmptyFields());
    EmptyFieldsAt(b);
    EmptyHolds(b, []);
  }

  lemma EmptyHolds(b: seq<Byte>, items: seq<Item>)
    requires THRESHOLD <= |b| <= U16_MAX && items == []
    requires At(b, 4, Le(KEY, 2)) && At(b, 10, Le(0, 2)) && At(b, 12, Le(0, 2)) && At(b, 14, Le(THRESHOLD, 2))
    requires At(b, 16, Le(U64_MAX, 8)) && At(b, 24, Le(U64_MAX, 8)) && At(b, HDR_SIZE, STATE_MAGIC)
    ensures Holds(b, items)
  {
    assert Pairs(items) == [] && States(items) == [];
    hide Le, Pairs, States;
    assert At(b, HDR_SIZE, Pairs(items)) && At(b, THRESHOLD, States(items));
  }

  lemma EmptyFieldsAt(b: seq<Byte>)
    requires At(b, 10, EmptyFields())
    ensures At(b, 10, Le(0, 2)) && At(b, 12, Le(0, 2)) && At(b, 14, Le(THRESHOLD, 2))
    ensures At(b, 16, Le(U64_MAX, 8)) && At(b, 24, Le(U64_MAX, 8)) && At(b, HDR_SIZE, STATE_MAGIC)
  {
    hide At, Le, Value;
    var rest := Le(U64_MAX, 8) + (Le(U64_MAX, 8) + STATE_MAGIC);
    AtSplit(b, 10, Le(0, 2), Le(0, 2) + (Le(THRESHOLD, 2) + rest));
    AtSplit(b, 12, Le(0, 2), Le(THRESHOLD, 2) + rest);
    AtSplit(b, 14, Le(THRESHOLD, 2), rest);
    AtSplit(b, 16, Le(U64_MAX, 8), Le(U64_MAX, 8) + STATE_MAGIC);
    AtSplit(b, 24, Le(U64_MAX, 8), STATE_MAGIC);
  }

  /** What tells a fragment: signature, key, version 1.20, its number in the sequence, and no flags. */
  predicate Identified(b: seq<Byte>, index: U16) {
    && |b| >= 12 && Value(b[0..4]) == 0x53734466 && Value(b[4..6]) == 0x4D63 && b[6] == 1 && b[7] == 20
    && Value(b[8..10]) == index && Value(b[10..12]) == 0
  }

  lemma PreparedIdentified(b: seq<Byte>, index: U16)
    requires At(b, 0, Prepared(index))
    ensures Identified(b, index)
  {
    hide At, Le, EmptyFields, Value;
    AtSplit(b, 0, Le(0x53734466, 4), Le(KEY, 2) + (([1, 20] + Le(index, 2)) + EmptyFields()));
    AtSplit(b, 4, Le(KEY, 2), ([1, 20] + Le(index, 2)) + EmptyFields());
    AtSplit(b, 6, [1, 20] + Le(index, 2), EmptyFields());
    AtSplit(b, 6, [1, 20], Le(index, 2));
    EmptyFieldsAt(b);
    ReadBack(b, 0, 0x53734466, 4);
    ReadBack(b, 4, KEY, 2);
    ReadBack(b, 8, index, 2);
    ReadBack(b, 10, 0, 2);
    TwoBytes(b, 6, 1, 20);
  }

  lemma ReadBack(b: seq<Byte>, at: nat, v: nat, k: nat)
    requires At(b, at, Le(v, k)) && (k == 2 || k == 4) && v < if k == 2 then 0x1_0000 else 0x1_0000_0000
    ensures at + k <= |b| && Value(b[at..at + k]) == v
  {
    hide Le, Value;
    assert Width(2) == 0x1_0000 && Width(4) == 0x1_0000 * Width(2);
    ValueLe(v, k);
  }

  lemma TwoBytes(b: seq<Byte>, at: nat, x: Byte, y: Byte)
    requires At(b, at, [x, y])
    ensures at + 2 <= |b| && b[at] == x && b[at + 1] == y
  {
    assert b[at..at + 2][0] == b[at] && b[at..at + 2][1] == b[at + 1];
  }

  lemma SameIdentity(b: seq<Byte>, b': seq<Byte>, index: U16)
    requires |b| >= 12 && |b'| >= 12 && b'[..12] == b[..12] && Identified(b, index)
    ensures Identified(b', index)
  {
    hide Value;
    var h, h' := b[..12], b'[..12];
    assert b[0..4] == h[0..4] && b[4..6] == h[4..6] && b[8..10] == h[8..10] && b[10..12] == h[10..12];
    assert b'[0..4] == h'[0..4] && b'[4..6] == h'[4..6] && b'[8..10] == h'[8..10] && b'[10..12] == h'[10..12];
    assert b[6] == h[6] && b[7] == h[7] && b'[6] == h'[6] && b'[7] == h'[7];
  }

  /** The magic number in front of the states. */
  lemma StateMagicIs()
    ensures Value(STATE_MAGIC) == 0x4D635053
  {
    var s := STATE_MAGIC;
    assert s[1..] == [0x50, 0x63, 0x4D] && s[1..][1..] == [0x63, 0x4D] && s[1..][1..][1..] == [0x4D];
    assert Value([0x4D]) == 0x4D;
  }

  /** maptbl_cache_prepare_fragment: a page that holds nothing. */
  method PrepareFragment(a: array<Byte>, index: U16)
    requires THRESHOLD <= a.Length <= U16_MAX
    modifies a
    ensures Holds(a[..], []) && Identified(a[..], index) && a[..THRESHOLD] == Prepared(index)
    ensures forall i :: THRESHOLD <= i < a.Length ==> a[i] == 0
  {
    hide Holds, At, Le, Prepared, Identified;
    for i := 0 to a.Length
      invariant forall j :: 0 <= j < i ==> a[j] == 0
    {
      a[i] := 0;
    }
    OverlayAt(a[..], 0, Prepared(index));
    Memcpy(a, 0, Prepared(index));
    PreparedHolds(a[..], index);
    PreparedIdentified(a[..], index);
  }

  /** The count that a full fragment is left with by add_leb2peb_pair is not the count of any items. */
  lemma FullNeverHolds(b: seq<Byte>, items: seq<Item>)
    requires THRESHOLD <= |b| <= U16_MAX && At(b, 12, Le(Capacity(|b|) + 1, 2))
    ensures !Holds(b, items)
  {
    if Holds(b, items) {
      Value16(|items|);
      Value16(Capacity(|b|) + 1);
      assert false;
    }
  }
}
