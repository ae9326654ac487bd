/** Number of pages in a log of the mapping table (maptbl_set_log_pages). */
module LogPages {
  import opened Types
  import opened Rounding

  const LOG_MAX_PAGES: nat := 256
  const LOGS_PER_PEB_DEFAULT: nat := 8

  predicate Divides(d: nat, n: nat) { d > 0 && n % d == 0 }

  /** `d` is the least divisor of `n` from `from` on. */
  predicate LeastDivisor(n: nat, from: nat, d: nat) {
    from <= d <= n && Divides(d, n) && forall k :: from <= k < d ==> !Divides(k, n)
  }

  /**
   * The alignment of a log of at least `blks` pages: the least divisor of the pages in a PEB, or, if that
   * leaves less than three spare pages, the least divisor at least three above it.
   */
  ghost predicate Aligned(n: nat, blks: nat, start: nat, d: nat) {
    exists d1: nat :: LeastDivisor(n, start, d1) && if d1 == n || d1 - blks >= 3 then d == d1
      else LeastDivisor(n, d1 + 3, d)
  }

  function Capped(n: nat, d: nat): nat {
    Min(Max(d, n / LOGS_PER_PEB_DEFAULT), LOG_MAX_PAGES)
  }

  predicate PowerOfTwo(n: nat) {
    n == 1 || (n > 0 && n % 2 == 0 && PowerOfTwo(n / 2))
  }

  lemma {:induction false} PowersDivide(m: nat, n: nat)
    requires PowerOfTwo(m) && PowerOfTwo(n) && m <= n
    ensures Divides(m, n)
  {
    if m > 1 {
      PowersDivide(m / 2, n / 2);
      var q := (n / 2) / (m / 2);
      assert n / 2 == q * (m / 2);
      assert n == q * m;
      MultipleModZero(q, m);
    }
  }

  /** The final number of pages for a request, when there is one. */
  ghost predicate Outcome(n: nat, requested: U16, blks: nat, d: nat) {
    && 0 < blks < U16_MAX && blks / 2 <= n && FirstTry(requested, blks) <= n
    && Aligned(n, Min(blks, LOG_MAX_PAGES), FirstTry(requested, blks), d)
  }

  /**
   * The numbers of pages per PEB that are cut into whole logs whatever is requested: multiples of 256; or, up to
   * 256 pages, those that the default number of logs divides into, and those without a divisor from 4 on that is
   * smaller than the default size.
   */
  predicate WholeLogs(n: nat) {
    if n > LOG_MAX_PAGES then Divides(LOG_MAX_PAGES, n)
    else
      || Divides(n / LOGS_PER_PEB_DEFAULT, n)
      || forall k :: 4 <= k < n / LOGS_PER_PEB_DEFAULT ==> !Divides(k, n)
  }

  /** Every request gives logs that divide the PEB if and only if `WholeLogs`. */
  lemma WholeLogsIff(n: nat)
    requires n >= LOGS_PER_PEB_DEFAULT
    ensures WholeLogs(n) <==>
              forall requested: U16, blks: nat, d: nat :: Outcome(n, requested, blks, d) ==> Divides(Capped(n, d), n)
  {
    hide Outcome, WholeLogs;
    if WholeLogs(n) {
      forall requested: U16, blks: nat, d: nat | Outcome(n, requested, blks, d) ensures Divides(Capped(n, d), n) {
        WholeDivides(n, requested, blks, d);
      }
    } else {
      var requested, d := NotWhole(n);
    }
  }

  /** An aligned size is a divisor of at least four pages. */
  lemma AlignedDivides(n: nat, blks: nat, start: nat, d: nat)
    requires n >= 4 && Aligned(n, blks, start, d) && 0 < blks <= start
    ensures Divides(d, n) && 4 <= d <= n && start <= d
  {
  }

  lemma WholeDivides(n: nat, requested: U16, blks: nat, d: nat)
    requires n >= LOGS_PER_PEB_DEFAULT && WholeLogs(n) && Outcome(n, requested, blks, d)
    ensures Divides(Capped(n, d), n) && Min(blks, LOG_MAX_PAGES) <= Capped(n, d) <= LOG_MAX_PAGES
  {
    AlignedDivides(n, Min(blks, LOG_MAX_PAGES), FirstTry(requested, blks), d);
    if n > LOG_MAX_PAGES {
      MultipleOfEight(n);
      EighthDivides(n);
    }
  }

  lemma MultipleOfEight(n: nat)
    requires Divides(LOG_MAX_PAGES, n)
    ensures n % LOGS_PER_PEB_DEFAULT == 0
  {
    var q := n / 256;
    assert n == (q * 32) * 8;
  }

  /** Otherwise a request of 256 pages, or no request at all, gives a size that does not divide. */
  lemma NotWhole(n: nat) returns (requested: U16, d: nat)
    requires n >= LOGS_PER_PEB_DEFAULT && !WholeLogs(n)
    ensures Outcome(n, requested, 1, d) && !Divides(Capped(n, d), n)
  {
    if n > LOG_MAX_PAGES {
      requested := LOG_MAX_PAGES;
      d := LeastExists(n, LOG_MAX_PAGES);
      assert Aligned(n, 1, LOG_MAX_PAGES, d);
    } else {
      requested := U16_MAX;
      d := LeastExists(n, 4);
      assert LeastDivisor(n, 1, 1);
      assert Aligned(n, 1, 1, d);
      var k :| 4 <= k < n / LOGS_PER_PEB_DEFAULT && Divides(k, n);
    }
  }

  lemma {:induction false} LeastExists(n: nat, from: nat) returns (d: nat)
    requires 0 < from <= n
    ensures LeastDivisor(n, from, d)
    decreases n - from
  {
    if Divides(from, n) {
      d := from;
    } else {
      d := LeastExists(n, from + 1);
    }
  }

  /** Powers of two are cut into whole logs. */
  lemma PowersWhole(n: nat)
    requires PowerOfTwo(n) && n >= LOGS_PER_PEB_DEFAULT
    ensures WholeLogs(n)
  {
    assert PowerOfTwo(8) && PowerOfTwo(16) && PowerOfTwo(32) && PowerOfTwo(64) && PowerOfTwo(128) && PowerOfTwo(256);
    PowersDivide(LOGS_PER_PEB_DEFAULT, n);
    EighthDivides(n);
    if n > LOG_MAX_PAGES {
      PowersDivide(LOG_MAX_PAGES, n);
    }
  }

  lemma EighthDivides(n: nat)
    requires n >= LOGS_PER_PEB_DEFAULT && n % LOGS_PER_PEB_DEFAULT == 0
    ensures Divides(n / LOGS_PER_PEB_DEFAULT, n)
  {
    ModUnique(n, n / LOGS_PER_PEB_DEFAULT, LOGS_PER_PEB_DEFAULT, 0);
  }

  /** Sizes in bytes and in pages have the same divisors. */
  lemma ScaledMod(n: nat, d: nat, p: nat)
    requires d > 0 && p > 0
    ensures d * p > 0 && ((n * p) % (d * p) == 0 <==> Divides(d, n))
  {
    var q, m := n / d, n % d;
    assert n == q * d + m;
    ScaledParts(q, d, m, p);
    MulStep(m, d, p);
    ModUnique(n * p, d * p, q, m * p);
  }

  lemma ScaledParts(q: nat, d: nat, m: nat, p: nat)
    requires p > 0
    ensures (q * d + m) * p == q * (d * p) + m * p
    ensures m * p == 0 <==> m == 0
  {
  }

  /**
   * The loop that increments log_pages, with its 32-bit product; false when it divides by zero, as it does if the
   * page size does not divide the erase size.
   */
  method AlignLogPages(eraseSize: U32, pageSize: U32, n: nat, from: nat) returns (ok: bool, pages: nat)
    requires 0 < pageSize <= eraseSize && n == eraseSize / pageSize && TWO32 % pageSize == 0
    requires 0 < from < TWO32 / pageSize
    ensures ok <==> eraseSize % pageSize == 0 && from <= n
    ensures ok ==> LeastDivisor(n, from, pages)
  {
    pages := from;
    ghost var limit := TWO32 / pageSize;
    ghost var even := eraseSize % pageSize == 0;
    LimitAbove(eraseSize, pageSize, n, limit);
    hide Product, Divides;
    while true
      invariant from <= pages <= limit && (even && from <= n ==> pages <= n)
      invariant forall k :: from <= k < pages ==> !(even && Divides(k, n))
      decreases limit - pages
    {
      ProductTest(eraseSize, pages, pageSize, n, limit);
      var product := Product(pages, pageSize);
      if product == 0 {
        return false, pages;
      }
      if eraseSize % product == 0 {
        return true, pages;
      }
      pages := pages + 1;
    }
  }

  /** log_pages * page_size in 32 bits. */
  function Product(pages: nat, pageSize: nat): nat {
    pages * pageSize % TWO32
  }

  lemma LimitAbove(eraseSize: nat, pageSize: nat, n: nat, limit: nat)
    requires 0 < pageSize <= eraseSize < TWO32 && n == eraseSize / pageSize
    requires TWO32 % pageSize == 0 && limit == TWO32 / pageSize
    ensures limit * pageSize == TWO32 && 0 < n < limit
  {
    assert n * pageSize <= eraseSize;
    if limit < n { MulStep(limit, n, pageSize); }
    DivMonotone(pageSize, eraseSize, pageSize);
    ModUnique(pageSize, pageSize, 1, 0);
  }

  lemma ProductTest(eraseSize: nat, pages: nat, pageSize: nat, n: nat, limit: nat)
    requires pageSize > 0 && n == eraseSize / pageSize && limit * pageSize == TWO32
    requires 0 < pages <= limit && 0 < n < limit
    ensures Product(pages, pageSize) == 0 <==> pages == limit
    ensures pages < limit ==>
              (eraseSize % Product(pages, pageSize) == 0 <==> eraseSize % pageSize == 0 && Divides(pages, n))
    ensures Divides(n, n) && (pages > n ==> !Divides(pages, n))
  {
    ProductWraps(pages, pageSize, limit);
    if pages < limit {
      hide Divides;
      var product := pages * pageSize;
      DivisorTest(eraseSize, pages, pageSize, n, product);
    }
  }

  lemma DivisorTest(eraseSize: nat, pages: nat, pageSize: nat, n: nat, product: nat)
    requires pageSize > 0 && pages > 0 && n == eraseSize / pageSize && product == pages * pageSize > 0
    ensures eraseSize % product == 0 <==> eraseSize % pageSize == 0 && Divides(pages, n)
  {
    if eraseSize % pageSize == 0 {
      ExactPages(eraseSize, pageSize);
      ScaledMod(n, pages, pageSize);
    } else {
      NotMultiple(eraseSize, pages, pageSize);
    }
  }

  /** What is no multiple of the page size is no multiple of several pages. */
  lemma NotMultiple(x: nat, d: nat, p: nat)
    requires p > 0 && d > 0 && d * p > 0 && x % p != 0
    ensures x % (d * p) != 0
  {
    if x % (d * p) == 0 {
      var q := x / (d * p);
      assert x == q * (d * p) == (q * d) * p;
      MultipleModZero(q * d, p);
    }
  }

  lemma ProductWraps(pages: nat, pageSize: nat, limit: nat)
    requires pageSize > 0 && limit * pageSize == TWO32 && 0 < pages <= limit
    ensures pages * pageSize % TWO32 == if pages < limit then pages * pageSize else 0
    ensures pages < limit ==> 0 < pages * pageSize
  {
    if pages < limit {
      MulStep(pages, limit, pageSize);
      MulStep(0, pages, pageSize);
    }
  }

  /** A proper divisor of a number of at least five pages is at least three below it. */
  lemma RoomToRetry(n: nat, d: nat)
    requires n >= 5 && Divides(d, n) && d < n
    ensures d + 3 <= n
  {
    var q := n / d;
    assert n == q * d;
    if q >= 2 {
      assert q * d == (q - 2) * d + 2 * d;
    }
  }

  /** The size that the search starts from: the payload, or what is requested if that is more. */
  function FirstTry(requested: U16, blks: nat): (r: nat)
    ensures r >= Min(blks, LOG_MAX_PAGES) && (requested != U16_MAX ==> r >= requested)
    ensures r == Min(blks, LOG_MAX_PAGES) || r == requested != U16_MAX
  {
    if requested == U16_MAX then Min(blks, LOG_MAX_PAGES) else Max(Min(blks, LOG_MAX_PAGES), requested)
  }

  /** From five pages per PEB on, every start that fits the PEB can be aligned. */
  lemma AlignedExists(n: nat, blks: nat, start: nat)
    requires n >= 5 && 0 < start
    ensures (exists d :: Aligned(n, blks, start, d)) <==> start <= n
  {
    if start <= n {
      var d1 := LeastExists(n, start);
      if d1 == n || d1 - blks >= 3 {
        assert Aligned(n, blks, start, d1);
      } else {
        RoomToRetry(n, d1);
        var d := LeastExists(n, d1 + 3);
        assert Aligned(n, blks, start, d);
      }
    }
  }

  /**
   * maptbl_set_log_pages for `blks` blocks of payload and a requested log size (U16_MAX: none). It ends well
   * exactly when the page size divides the PEB and the size it starts from can be aligned (see `AlignedExists`);
   * otherwise it runs into a BUG_ON or a division by zero.
   */
  method SetLogPages(eraseSize: U32, pageSize: U32, requested: U16, blks: U32) returns (st: Status, logPages: nat)
    requires 0 < pageSize <= 0x8000 && TWO32 % pageSize == 0 && pageSize <= eraseSize
    ensures var n := eraseSize / pageSize;
            && (st == Success <==>
                  && eraseSize % pageSize == 0 && 0 < blks < U16_MAX && blks / 2 <= n
                  && exists d :: Aligned(n, Min(blks, LOG_MAX_PAGES), FirstTry(requested, blks), d))
            && (st == Success || st == Bug)
            && (st == Success ==>
                  exists d :: Outcome(n, requested, blks, d) && logPages == Capped(n, d))
            && (st == Success ==>
                  && Min(blks, 256) <= logPages <= 256
                  && (requested != U16_MAX ==> Min(requested, 256) <= logPages))
            && (st == Success && n >= 8 && WholeLogs(n) ==>
                  Divides(logPages, n) && Min(blks, LOG_MAX_PAGES) <= logPages <= LOG_MAX_PAGES)
  {
    if blks == 0 || blks >= U16_MAX {
      return Bug, 0;
    }
    var n := eraseSize / pageSize;
    if blks / 2 > n {
      return Bug, 0;
    }
    var b := Min(blks, LOG_MAX_PAGES);
    var start := if requested == U16_MAX then b else if requested < b then b else requested;
    assert start == FirstTry(requested, blks);
    hide WholeLogs, Aligned;
    var ok, pages := AlignWithRoom(eraseSize, pageSize, n, b, start);
    if !ok {
      return Bug, 0;
    }
    AlignedBound(n, b, start, pages);
    assert start <= pages;
    assert Outcome(n, requested, blks, pages);
    logPages := Min(Max(pages, n / LOGS_PER_PEB_DEFAULT), LOG_MAX_PAGES);
    if n >= 8 && WholeLogs(n) {
      WholeDivides(n, requested, blks, pages);
    }
    return Success, logPages;
  }

  /** The retry loop: at least three pages more than the payload, or a single log. */
  method AlignWithRoom(eraseSize: U32, pageSize: U32, n: nat, b: nat, start: nat) returns (ok: bool, pages: nat)
    requires 0 < pageSize <= 0x8000 && TWO32 % pageSize == 0 && pageSize <= eraseSize && n == eraseSize / pageSize
    requires 0 < b <= start < 0x1_0000
    ensures ok <==> eraseSize % pageSize == 0 && exists d :: Aligned(n, b, start, d)
    ensures ok ==> Aligned(n, b, start, pages)
  {
    EnoughProducts(eraseSize, pageSize, start, n);
    ok, pages := AlignLogPages(eraseSize, pageSize, n, start);
    if !ok {
      return;
    }
    ghost var first := pages;
    while pages != n && pages - b < 3
      invariant ok && eraseSize % pageSize == 0 && LeastDivisor(n, start, first)
      invariant pages == first || (LeastDivisor(n, first + 3, pages) && first != n && first - b < 3)
      decreases n - pages
    {
      RetryFits(n, pages, TWO32 / pageSize);
      ok, pages := AlignLogPages(eraseSize, pageSize, n, pages + 3);
      if !ok {
        NoRoom(n, b, start, first);
        return;
      }
    }
    assert Aligned(n, b, start, pages);
  }

  lemma AlignedBound(n: nat, b: nat, start: nat, d: nat)
    requires Aligned(n, b, start, d)
    ensures start <= n && start <= d
  {
  }

  lemma LeastUnique(n: nat, from: nat, a: nat, b: nat)
    requires LeastDivisor(n, from, a) && LeastDivisor(n, from, b)
    ensures a == b
  {
  }

  lemma NoRoom(n: nat, b: nat, start: nat, first: nat)
    requires LeastDivisor(n, start, first) && first != n && first - b < 3 && first + 3 > n
    ensures !exists d :: Aligned(n, b, start, d)
  {
    forall d ensures !Aligned(n, b, start, d) {
      forall d1: nat | LeastDivisor(n, start, d1) ensures d1 == first {
        LeastUnique(n, start, first, d1);
      }
    }
  }

  lemma RetryFits(n: nat, d: nat, limit: nat)
    requires Divides(d, n) && d < n < limit && limit >= 0x1_0000
    ensures d + 3 < limit
  {
    var q := n / d;
    assert n == q * d;
    if q >= 2 {
      assert q * d == (q - 2) * d + 2 * d;
    }
  }

  lemma EnoughProducts(eraseSize: nat, pageSize: nat, start: nat, n: nat)
    requires 0 < pageSize <= 0x8000 && TWO32 % pageSize == 0 && start < 0x1_0000
    requires pageSize <= eraseSize < TWO32 && n == eraseSize / pageSize
    ensures start < TWO32 / pageSize && 0 < n < TWO32 / pageSize && TWO32 / pageSize >= 0x1_0000
  {
    var limit := TWO32 / pageSize;
    LimitAbove(eraseSize, pageSize, n, limit);
    if limit <= 0x1_0000 {
      ProductBound(limit, pageSize);
    }
  }

  lemma ProductBound(limit: nat, p: nat)
    requires limit <= 0x1_0000 && p <= 0x8000
    ensures limit * p <= 0x8000_0000
  {
    if limit < 0x1_0000 { MulStep(limit, 0x1_0000, p); }
  }
}
