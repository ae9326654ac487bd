/**
 * Geometry of the PEB mapping table (sbin/mkfs.ssdfs/mapping_table.c): the table is cut into portions, each
 * with pages of LEB descriptors and one page of PEB descriptors per stripe.
 */
module MapTableGeometry {
  import opened Types
  import opened Rounding

  /** LEB and PEB descriptors that fit one page behind its header. */
  const LEB_DESC_PER_FRAGMENT: nat := 1016
  const PEB_DESC_PER_FRAGMENT: nat := 476

  function Mul(a: nat, b: nat): nat {
    a * b
  }

  /** Consecutive ids described by one fragment. */
  datatype Range = Range(start: nat, count: nat)
  {
    predicate Covers(id: nat) {
      start <= id < start + count
    }
  }

  /** Where the descriptor of a LEB is found. */
  datatype LebPlace = LebPlace(fragment: nat, portion: nat, page: nat, slot: nat)

  datatype Geometry = Geometry(
    pebsPerVolume: nat, pebsPerSeg: nat,
    stripes: nat, pebsPerStripe: nat, pebsPerPortion: nat, lebPages: nat,
    portionsPerFragment: nat, maptblPebs: nat, portions: nat)
  {
    predicate Valid() {
      && 0 < pebsPerVolume && 0 < pebsPerSeg
      && 0 < stripes && 0 < pebsPerStripe <= PEB_DESC_PER_FRAGMENT
      && pebsPerPortion == pebsPerStripe * stripes && 0 < pebsPerPortion < U16_MAX
      && lebPages == DivCeil(pebsPerPortion, LEB_DESC_PER_FRAGMENT)
      && 0 < portionsPerFragment
      && portions == maptblPebs * portionsPerFragment && portions < U16_MAX
      && pebsPerVolume <= portions * pebsPerPortion
    }

    /** maptbl_prepare_leb_table: the LEBs described by one page of a portion. */
    function LebFragment(portion: nat, page: nat): Range
    {
      var start := pebsPerPortion * portion + LEB_DESC_PER_FRAGMENT * page;
      if pebsPerVolume <= start then Range(start, 0)
      else
        var rest := pebsPerVolume - start;
        var rest := if rest <= pebsPerPortion then rest else pebsPerPortion;
        Range(start, if rest <= LEB_DESC_PER_FRAGMENT then rest else LEB_DESC_PER_FRAGMENT)
    }

    /** PEBs of the volume that belong to a portion, counted with the program's 64-bit subtraction. */
    function RestPebs(portion: nat): nat
    {
      var rest := (pebsPerVolume - pebsPerPortion * portion) % TWO64;
      if rest <= pebsPerPortion then rest else pebsPerPortion
    }

    /** Distance between the stripes of a portion. */
    function StripeStep(portion: nat): nat
      requires stripes > 0
    {
      DivCeil(RestPebs(portion), stripes)
    }

    /** PEBs that each stripe of a portion is meant to describe. */
    function StripeSize(portion: nat): nat
      requires stripes > 0
    {
      PageOf(RestPebs(portion) + RestPebs(portion) % stripes, stripes)
    }

    /** maptbl_prepare_peb_table: the PEBs described by one stripe of a portion. */
    function PebFragment(portion: nat, stripe: nat): Range
      requires stripes > 0
    {
      var start := Mul(pebsPerPortion, portion) + Mul(StripeStep(portion), stripe);
      if pebsPerVolume <= start then Range(start, 0)
      else
        var count := StripeSize(portion);
        Range(start, if start + count > pebsPerVolume then pebsPerVolume - start else count)
    }

    /** The indexes that get_lebtbl_fragment computes by repeated division. */
    function Locate(leb: nat): LebPlace
      requires pebsPerPortion > 0 && portionsPerFragment > 0
    {
      var perPeb := pebsPerPortion * portionsPerFragment;
      MulPositive(pebsPerPortion, portionsPerFragment);
      QuotientFits(leb, perPeb);
      var fragment := leb / perPeb;
      var diff: nat := leb - fragment * perPeb;
      QuotientFits(diff, pebsPerPortion);
      var portion := diff / pebsPerPortion;
      var diff' := diff - portion * pebsPerPortion;
      LebPlace(fragment, portion, diff' / LEB_DESC_PER_FRAGMENT, diff' % LEB_DESC_PER_FRAGMENT)
    }
  }

  /** `n` is the least number of pieces of size `part` that hold `total`. */
  predicate LeastCount(n: nat, total: nat, part: nat) {
    n > 0 && n * part >= total && (n - 1) * part < total
  }

  lemma LeastUnique(n: nat, m: nat, total: nat, part: nat)
    requires LeastCount(n, total, part) && LeastCount(m, total, part)
    ensures n == m
  {
    if n < m {
      MulMonotone(n, m - 1, part);
    } else if m < n {
      MulMonotone(m, n - 1, part);
    }
  }

  lemma CeilIsLeast(total: nat, part: nat)
    requires 0 < total && 0 < part
    ensures LeastCount(DivCeil(total, part), total, part)
  {
    var n := DivCeil(total, part);
    assert n > 0;
    assert (n - 1) * part == n * part - part;
  }

  lemma MulPositive(a: nat, b: nat)
    requires a > 0 && b > 0
    ensures a * b > 0
  {
  }

  lemma MulAssoc(q: nat, a: nat, b: nat)
    ensures q * (a * b) == (q * b) * a
  {
  }

  /** Two divisions are one division by the product. */
  lemma NestedDivision(x: nat, a: nat, b: nat, c: nat, q: nat, d: nat)
    requires a > 0 && c == a * b && x == q * c + d && d < c
    ensures q * b + d / a == x / a && d / a < b && d - (d / a) * a == x % a
  {
    MulAssoc(q, a, b);
    MultipleModZero(q * b, a);
    ModUnique((q * b) * a, a, q * b, 0);
    AddMultiple((q * b) * a, d, a);
    QuotientBelow(d, a, b);
  }

  /**
   * Lookup agrees with the prepared table: for every LEB of the volume the indexes are in range and the
   * fragment found describes the LEB at slot leb - start_leb.
   */
  lemma LocateAgrees(g: Geometry, leb: nat)
    requires g.Valid() && leb < g.pebsPerVolume
    ensures var at := g.Locate(leb);
            && at.fragment < g.maptblPebs && at.portion < g.portionsPerFragment && at.page < g.lebPages
            && at.slot < LEB_DESC_PER_FRAGMENT
            && (var portion := at.fragment * g.portionsPerFragment + at.portion;
                && portion == leb / g.pebsPerPortion < g.portions
                && g.LebFragment(portion, at.page).Covers(leb)
                && at.slot == leb - g.LebFragment(portion, at.page).start)
  {
    hide DivCeil, Geometry.Locate;
    var at, per := g.Locate(leb), g.pebsPerPortion;
    LocateIndexes(g, leb);
    var portion, diff := leb / per, leb % per;
    assert diff < g.lebPages * LEB_DESC_PER_FRAGMENT;
    assert leb == per * portion + diff;
  }

  lemma LocateIndexes(g: Geometry, leb: nat)
    requires g.Valid() && leb < g.pebsPerVolume
    ensures var at := g.Locate(leb);
            && at.fragment < g.maptblPebs && at.portion < g.portionsPerFragment
            && at.fragment * g.portionsPerFragment + at.portion == leb / g.pebsPerPortion < g.portions
            && at.page == leb % g.pebsPerPortion / LEB_DESC_PER_FRAGMENT
            && at.slot == leb % g.pebsPerPortion % LEB_DESC_PER_FRAGMENT
  {
    hide DivCeil;
    LocateNumbers(leb, g.pebsPerPortion, g.portionsPerFragment, g.maptblPebs, g.portions);
  }

  lemma LocateNumbers(leb: nat, per: nat, ppf: nat, pebs: nat, portions: nat)
    requires per > 0 && ppf > 0 && portions == pebs * ppf && leb < portions * per
    ensures per * ppf > 0
    ensures var c := per * ppf; var f := leb / c; var d := leb - f * c;
            && f < pebs && 0 <= d && d / per < ppf
            && f * ppf + d / per == leb / per < portions && d - (d / per) * per == leb % per
  {
    MulPositive(per, ppf);
    var c := per * ppf;
    QuotientBelow(leb, per, portions);
    MulAssoc(pebs, per, ppf);
    QuotientBelow(leb, c, pebs);
    NestedDivision(leb, per, ppf, c, leb / c, leb % c);
  }

  /** The stripes of a portion are described completely: no remainder, or at least half a stripe count. */
  predicate StripesEven(pebs: nat, stripes: nat)
    requires stripes > 0
  {
    pebs % stripes == 0 || 2 * (pebs % stripes) >= stripes
  }

  /** The count put into a stripe's header against the distance between stripes. */
  lemma StripeCount(pebs: nat, stripes: nat)
    requires stripes > 0
    ensures DivCeil(pebs, stripes) == pebs / stripes + (if pebs % stripes == 0 then 0 else 1)
    ensures (pebs + pebs % stripes) / stripes == DivCeil(pebs, stripes) - (if StripesEven(pebs, stripes) then 0 else 1)
  {
    var q, m := pebs / stripes, pebs % stripes;
    assert pebs == q * stripes + m;
    assert (q + 1) * stripes == q * stripes + stripes;
    RoundUpUnique(pebs, stripes, if m == 0 then q * stripes else (q + 1) * stripes) by {
      MultipleModZero(q, stripes);
      MultipleModZero(q + 1, stripes);
    }
    ModUnique(RoundUp(pebs, stripes), stripes, if m == 0 then q else q + 1, 0);
    if 2 * m < stripes {
      ModUnique(pebs + m, stripes, q, 2 * m);
    } else {
      ModUnique(pebs + m, stripes, q + 1, 2 * m - stripes);
    }
  }

  /** PEBs between the start of a portion and the end of the volume or of the portion. */
  lemma RestIs(g: Geometry, portion: nat)
    requires 0 < g.pebsPerPortion && g.pebsPerVolume < TWO64
    ensures var base := g.pebsPerPortion * portion;
            base < g.pebsPerVolume ==>
              0 < g.RestPebs(portion)
              && g.RestPebs(portion) == Min(g.pebsPerVolume - base, g.pebsPerPortion)
  {
    var base := g.pebsPerPortion * portion;
    if base < g.pebsPerVolume {
      SmallMod(g.pebsPerVolume - base);
    }
  }

  lemma SmallMod(x: nat)
    requires x < TWO64
    ensures x % TWO64 == x
  {
  }

  predicate InStripe(g: Geometry, portion: nat, stripe: nat, id: nat)
    requires g.stripes > 0
  {
    var start := g.pebsPerPortion * portion + g.StripeStep(portion) * stripe;
    start <= id < start + g.StripeSize(portion) && id < g.pebsPerVolume
  }

  lemma CoversIff(g: Geometry, portion: nat, stripe: nat, id: nat)
    requires g.stripes > 0
    ensures g.PebFragment(portion, stripe).Covers(id) <==> InStripe(g, portion, stripe, id)
  {
  }

  /** A full portion is divided evenly; the last one ends with the volume. */
  lemma StripeBounds(g: Geometry, portion: nat, stripe: nat)
    requires g.Valid() && g.pebsPerVolume < TWO64 && portion < g.portions && stripe < g.stripes
    requires g.pebsPerPortion * portion < g.pebsPerVolume
    ensures 0 < g.StripeStep(portion) && g.StripeSize(portion) <= g.StripeStep(portion)
    ensures g.StripeSize(portion) == g.StripeStep(portion) <==> StripesEven(g.RestPebs(portion), g.stripes)
    ensures g.RestPebs(portion) <= g.StripeStep(portion) * g.stripes
    ensures g.RestPebs(portion) == g.pebsPerPortion ==>
              g.StripeStep(portion) == g.pebsPerStripe
              && g.StripeStep(portion) * stripe + g.StripeSize(portion) <= g.pebsPerPortion
  {
    RestIs(g, portion);
    hide Geometry.RestPebs, DivCeil, PageOf, StripesEven;
    StripeNumbers(g.RestPebs(portion), g.stripes);
    if g.RestPebs(portion) == g.pebsPerPortion {
      FullStripes(g.pebsPerStripe, g.stripes, stripe);
    }
  }

  lemma StripeNumbers(pebs: nat, stripes: nat)
    requires pebs > 0 && stripes > 0
    ensures var step, size := DivCeil(pebs, stripes), PageOf(pebs + pebs % stripes, stripes);
            0 < step && size <= step && (size == step <==> StripesEven(pebs, stripes)) && pebs <= step * stripes
  {
    StripeCount(pebs, stripes);
    hide StripesEven;
  }

  /** The stripes of a full portion. */
  lemma FullStripes(perStripe: nat, stripes: nat, stripe: nat)
    requires perStripe > 0 && stripe < stripes
    ensures var pebs := perStripe * stripes;
            && DivCeil(pebs, stripes) == perStripe
            && perStripe * stripe + PageOf(pebs + pebs % stripes, stripes) <= pebs
  {
    var pebs := perStripe * stripes;
    ModUnique(pebs, stripes, perStripe, 0);
    StripeCount(pebs, stripes);
    MulStep(stripe, stripes, perStripe);
    MulSwap(perStripe, stripes);
    MulSwap(perStripe, stripe);
  }

  lemma MulSwap(a: nat, b: nat)
    ensures a * b == b * a
  {
  }

  /** A stripe's descriptors fit its page. */
  lemma StripeFitsPage(g: Geometry, portion: nat, stripe: nat)
    requires g.Valid() && g.pebsPerVolume < TWO64 && portion < g.portions && stripe < g.stripes
    ensures g.PebFragment(portion, stripe).count <= PEB_DESC_PER_FRAGMENT
  {
    if g.pebsPerPortion * portion < g.pebsPerVolume {
      StripeBounds(g, portion, stripe);
      StepAtMostStripe(g, portion);
      hide Geometry.StripeStep, Geometry.StripeSize, Geometry.RestPebs, DivCeil;
    }
  }

  lemma StepAtMostStripe(g: Geometry, portion: nat)
    requires g.Valid()
    ensures g.StripeStep(portion) <= g.pebsPerStripe
  {
    var n := g.StripeStep(portion);
    if n > g.pebsPerStripe {
      MulStep(g.pebsPerStripe, n, g.stripes);
      assert false;
    }
  }

  /** Everything a stripe describes is inside its portion and inside the volume. */
  lemma CoveredInPortion(g: Geometry, portion: nat, stripe: nat, id: nat)
    requires g.Valid() && g.pebsPerVolume < TWO64 && portion < g.portions && stripe < g.stripes
    requires g.PebFragment(portion, stripe).Covers(id)
    ensures id < g.pebsPerVolume && g.pebsPerPortion * portion < g.pebsPerVolume
    ensures id / g.pebsPerPortion == portion
    ensures 0 < g.StripeStep(portion) && id % g.pebsPerPortion / g.StripeStep(portion) == stripe
  {
    var base, step := g.pebsPerPortion * portion, g.StripeStep(portion);
    CoversIff(g, portion, stripe, id);
    assert base < g.pebsPerVolume by { assert base <= id; }
    StripeBounds(g, portion, stripe);
    RestIs(g, portion);
    var d := id - base;
    assert d < g.pebsPerPortion;
    ModUnique(id, g.pebsPerPortion, portion, d);
    ModUnique(d, step, stripe, d - step * stripe);
  }

  /** No PEB is described twice, whatever the number of stripes. */
  lemma PebFragmentsDisjoint(g: Geometry, p: nat, s: nat, p': nat, s': nat, id: nat)
    requires g.Valid() && g.pebsPerVolume < TWO64
    requires p < g.portions && s < g.stripes && p' < g.portions && s' < g.stripes
    requires g.PebFragment(p, s).Covers(id) && g.PebFragment(p', s').Covers(id)
    ensures p == p' && s == s'
  {
    CoveredInPortion(g, p, s, id);
    CoveredInPortion(g, p', s', id);
  }

  ghost predicate Described(g: Geometry, id: nat)
    requires g.stripes > 0
  {
    exists p, s :: 0 <= p < g.portions && 0 <= s < g.stripes && g.PebFragment(p, s).Covers(id)
  }

  lemma DescribedBy(g: Geometry, p: nat, s: nat, id: nat)
    requires g.stripes > 0 && p < g.portions && s < g.stripes && InStripe(g, p, s, id)
    ensures Described(g, id)
  {
    CoversIff(g, p, s, id);
  }

  /** The stripe of the `d`-th PEB of an evenly divided portion. */
  lemma EvenStripe(d: nat, step: nat, stripes: nat) returns (s: nat)
    requires step > 0 && d < step * stripes
    ensures s < stripes && step * s <= d < step * s + step
  {
    s := PageOf(d, step);
    assert step * stripes == stripes * step;
    QuotientBelow(d, step, stripes);
    assert s * step == step * s;
  }

  /** Every PEB of an evenly divided portion is described. */
  lemma EvenDescribed(g: Geometry, p: nat, d: nat, id: nat)
    requires g.Valid() && g.pebsPerVolume < TWO64 && p < g.portions && d < g.pebsPerPortion
    requires id == g.pebsPerPortion * p + d < g.pebsPerVolume && StripesEven(g.RestPebs(p), g.stripes)
    ensures Described(g, id)
  {
    hide Geometry.StripeStep, Geometry.StripeSize, Geometry.RestPebs;
    RestIs(g, p);
    StripeBounds(g, p, 0);
    var s := EvenStripe(d, g.StripeStep(p), g.stripes);
    DescribedBy(g, p, s, id);
  }

  lemma StepAtMostRest(r: nat, s: nat)
    requires s > 0 && r > 0
    ensures DivCeil(r, s) <= r
  {
    var c := DivCeil(r, s);
    if c > r {
      MulAtLeast(r, c, s);
    }
  }

  lemma MulAtLeast(r: nat, c: nat, s: nat)
    requires s > 0 && c > r
    ensures c * s >= r + s
  {
    MulStep(r, c, s);
    if r > 0 {
      MulStep(0, s, r);
      assert s * r == r * s;
    }
  }

  /** PEB `step - 1` of an uneven portion is in no stripe of any portion. */
  lemma UnevenUncovered(g: Geometry, p: nat, id: nat, p': nat, s': nat)
    requires g.Valid() && g.pebsPerVolume < TWO64 && p < g.portions && p' < g.portions && s' < g.stripes
    requires g.StripeSize(p) < g.StripeStep(p) <= g.pebsPerPortion
    requires id == g.pebsPerPortion * p + g.StripeStep(p) - 1
    ensures !g.PebFragment(p', s').Covers(id)
  {
    hide Geometry.StripeStep, Geometry.StripeSize, Geometry.RestPebs, Geometry.PebFragment;
    if g.PebFragment(p', s').Covers(id) {
      var step := g.StripeStep(p);
      CoveredInPortion(g, p', s', id);
      ModUnique(id, g.pebsPerPortion, p, step - 1);
      ModUnique(step - 1, step, 0, step - 1);
      CoversIff(g, p, 0, id);
      assert false;
    }
  }

  lemma UnevenBounds(g: Geometry, p: nat)
    requires g.Valid() && g.pebsPerVolume < TWO64 && p < g.portions && g.pebsPerPortion * p < g.pebsPerVolume
    requires !StripesEven(g.RestPebs(p), g.stripes)
    ensures g.StripeSize(p) < g.StripeStep(p) <= g.pebsPerPortion
    ensures g.pebsPerPortion * p + g.StripeStep(p) <= g.pebsPerVolume
  {
    RestIs(g, p);
    StepAtMostRest(g.RestPebs(p), g.stripes);
    assert g.StripeStep(p) <= g.RestPebs(p);
    hide Geometry.StripeStep, Geometry.StripeSize, Geometry.RestPebs;
    StripeBounds(g, p, 0);
  }

  /** An uneven portion leaves out the last PEB of its first stripe. */
  lemma UnevenMissed(g: Geometry, p: nat) returns (id: nat)
    requires g.Valid() && g.pebsPerVolume < TWO64 && p < g.portions && g.pebsPerPortion * p < g.pebsPerVolume
    requires !StripesEven(g.RestPebs(p), g.stripes)
    ensures id < g.pebsPerVolume && !Described(g, id)
  {
    hide Geometry.StripeStep, Geometry.StripeSize, StripesEven, Geometry.RestPebs, Geometry.PebFragment, DivCeil,
      RoundUp, RoundDown, PageOf, Range.Covers;
    UnevenBounds(g, p);
    id := g.pebsPerPortion * p + g.StripeStep(p) - 1;
    forall p', s' | 0 <= p' < g.portions && 0 <= s' < g.stripes ensures !g.PebFragment(p', s').Covers(id) {
      UnevenUncovered(g, p, id, p', s');
    }
  }

  /** PEBs in the portion that the volume ends in (a whole portion when it ends on a boundary). */
  function LastPortionPebs(g: Geometry): nat
    requires g.pebsPerPortion > 0
  {
    var rest := g.pebsPerVolume % g.pebsPerPortion;
    if rest == 0 then g.pebsPerPortion else rest
  }

  /** A portion is full, and then even, or it is the last one. */
  lemma PortionCases(g: Geometry, p: nat)
    requires g.Valid() && g.pebsPerVolume < TWO64 && p < g.portions && g.pebsPerPortion * p < g.pebsPerVolume
    ensures || (g.RestPebs(p) == g.pebsPerPortion && StripesEven(g.RestPebs(p), g.stripes))
            || g.RestPebs(p) == LastPortionPebs(g)
  {
    RestIs(g, p);
    var per, base := g.pebsPerPortion, g.pebsPerPortion * p;
    if g.pebsPerVolume - base < per {
      ModUnique(g.pebsPerVolume, per, p, g.pebsPerVolume - base);
    } else {
      ModUnique(per, g.stripes, g.pebsPerStripe, 0);
    }
  }

  /**
   * The stripes describe every PEB of the volume if and only if the PEBs of the last portion leave no
   * remainder below half the number of stripes; in particular always with one or two stripes.
   */
  lemma PebTilingIff(g: Geometry)
    requires g.Valid() && g.pebsPerVolume < TWO64
    ensures (forall id: nat :: id < g.pebsPerVolume ==> Described(g, id)) <==>
              StripesEven(LastPortionPebs(g), g.stripes)
    ensures g.stripes <= 2 ==> StripesEven(LastPortionPebs(g), g.stripes)
  {
    hide Geometry.StripeStep, Geometry.RestPebs;
    if StripesEven(LastPortionPebs(g), g.stripes) {
      forall id: nat | id < g.pebsPerVolume ensures Described(g, id) {
        var p := PortionOf(g, id);
        PortionCases(g, p);
        EvenDescribed(g, p, id - g.pebsPerPortion * p, id);
      }
    } else {
      var p := PortionOf(g, g.pebsPerVolume - 1);
      LastRest(g, p);
      var id := UnevenMissed(g, p);
    }
  }

  lemma PortionOf(g: Geometry, id: nat) returns (p: nat)
    requires g.Valid() && id < g.pebsPerVolume
    ensures p < g.portions && g.pebsPerPortion * p <= id < g.pebsPerPortion * p + g.pebsPerPortion
  {
    p := PageOf(id, g.pebsPerPortion);
    QuotientBelow(id, g.pebsPerPortion, g.portions);
    assert p * g.pebsPerPortion == g.pebsPerPortion * p;
  }

  lemma LastRest(g: Geometry, p: nat)
    requires g.Valid() && g.pebsPerVolume < TWO64 && p < g.portions
    requires g.pebsPerPortion * p < g.pebsPerVolume <= g.pebsPerPortion * p + g.pebsPerPortion
    ensures g.RestPebs(p) == LastPortionPebs(g)
  {
    RestIs(g, p);
    var per, d := g.pebsPerPortion, g.pebsPerVolume - g.pebsPerPortion * p;
    if d < per {
      ModUnique(g.pebsPerVolume, per, p, d);
    } else {
      assert g.pebsPerVolume == (p + 1) * per;
      ModUnique(g.pebsPerVolume, per, p + 1, 0);
    }
  }

  /** LEB pages fill their portion exactly, or there is a single page or a single portion. */
  predicate LebPagesExact(g: Geometry) {
    || g.pebsPerPortion <= LEB_DESC_PER_FRAGMENT
    || g.pebsPerPortion % LEB_DESC_PER_FRAGMENT == 0
    || g.pebsPerVolume <= g.pebsPerPortion
  }

  /** Under `LebPagesExact` a page that describes a LEB is the one that lookup finds. */
  lemma LebPageIs(g: Geometry, p: nat, page: nat, leb: nat)
    requires g.Valid() && p < g.portions && page < g.lebPages && LebPagesExact(g)
    requires g.LebFragment(p, page).Covers(leb)
    ensures leb < g.pebsPerVolume
    ensures leb / g.pebsPerPortion == p && leb % g.pebsPerPortion / LEB_DESC_PER_FRAGMENT == page
  {
    hide DivCeil;
    var per, base := g.pebsPerPortion, Mul(g.pebsPerPortion, p);
    var d := leb - base;
    LebPageNumbers(per, base, g.pebsPerVolume, p, page, g.lebPages, d);
    ModUnique(leb, per, p, d);
  }

  lemma LebPageNumbers(per: nat, base: nat, volume: nat, p: nat, page: nat, pages: nat, d: nat)
    requires per > 0 && page < pages && per <= pages * LEB_DESC_PER_FRAGMENT < per + LEB_DESC_PER_FRAGMENT
    requires base == per * p && base + d < volume
    requires 1016 * page <= d < 1016 * page + 1016 && d < 1016 * page + per
    requires per <= LEB_DESC_PER_FRAGMENT || per % LEB_DESC_PER_FRAGMENT == 0 || volume <= per
    ensures d < per && d / LEB_DESC_PER_FRAGMENT == page
  {
    if per <= LEB_DESC_PER_FRAGMENT {
      assert page == 0;
    } else if per % LEB_DESC_PER_FRAGMENT != 0 && p > 0 {
      MulStep(0, p, per);
      MulSwap(per, p);
    }
    ModUnique(d, LEB_DESC_PER_FRAGMENT, page, d - 1016 * page);
  }

  /**
   * The LEB pages (which describe every LEB of the volume, see `LocateAgrees`) describe each one once if
   * and only if they fill their portion exactly, as they do with one or two stripes, where a portion has a
   * single page.
   */
  lemma LebTilingIff(g: Geometry)
    requires g.Valid()
    ensures DescribedOnce(g) <==> LebPagesExact(g)
    ensures g.stripes <= 2 ==> LebPagesExact(g)
  {
    hide DivCeil;
    if LebPagesExact(g) {
      forall p, page, p', page', leb: nat | CoverTwice(g, p, page, p', page', leb) ensures p == p' && page == page' {
        LebPageIs(g, p, page, leb);
        LebPageIs(g, p', page', leb);
      }
    } else {
      OverlappingPage(g);
    }
    if g.stripes == 2 {
      assert g.pebsPerPortion == g.pebsPerStripe * 2;
    }
  }

  ghost predicate CoverTwice(g: Geometry, p: int, page: int, p': int, page': int, leb: nat) {
    && 0 <= p < g.portions && 0 <= page < g.lebPages && 0 <= p' < g.portions && 0 <= page' < g.lebPages
    && g.LebFragment(p, page).Covers(leb) && g.LebFragment(p', page').Covers(leb)
  }

  ghost predicate DescribedOnce(g: Geometry) {
    forall p, page, p', page', leb: nat :: CoverTwice(g, p, page, p', page', leb) ==> p == p' && page == page'
  }

  /** Otherwise the last page of the first portion also claims the first LEB of the second portion. */
  lemma OverlappingPage(g: Geometry)
    requires g.Valid() && !LebPagesExact(g)
    ensures g.lebPages >= 2 && g.portions >= 2 && CoverTwice(g, 0, g.lebPages - 1, 1, 0, g.pebsPerPortion)
  {
    var per, n := g.pebsPerPortion, g.lebPages;
    assert per < n * LEB_DESC_PER_FRAGMENT < per + LEB_DESC_PER_FRAGMENT;
    QuotientBelow(per, per, g.portions);
    ModUnique(per, per, 1, 0);
  }

  /** Fewer than 65535 portions of fewer than 65535 PEBs. */
  lemma VolumeSmall(g: Geometry)
    requires g.Valid()
    ensures g.pebsPerVolume < TWO32
  {
    var a, b := g.portions, g.pebsPerPortion;
    MulStep(a, 0x1_0000, b);
    MulStep(b, 0x1_0000, 0x1_0000);
    assert 0x1_0000 * b == b * 0x1_0000;
  }
}
