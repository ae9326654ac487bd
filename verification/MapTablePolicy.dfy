/** Choice of the mapping table's geometry from the creation options (maptbl_mkfs_allocation_policy). */
module MapTablePolicy {
  import opened Types
  import opened Rounding
  import opened MapTableGeometry
  import MapTable

  /** Creation options after validate_key_creation_options() and the option checks. */
  datatype Options = Options(
    fsSize: nat, segSize: nat, eraseSize: nat, pageSize: nat, nandDies: nat,
    stripes: nat, portionsPerFragment: nat, zoned: bool, backupCopy: bool)
  {
    predicate Valid() {
      && 0 < pageSize && 0 < eraseSize && 0 < segSize && segSize % eraseSize == 0
      && segSize < fsSize && fsSize % segSize == 0
      && 0 < nandDies && 0 < stripes < U16_MAX && portionsPerFragment < U16_MAX && eraseSize <= U32_MAX
    }
  }

  datatype Choice = Chosen(g: Geometry, portionSize: nat, segs: nat) | Refused(status: Status) | PortionTooLarge

  /**
   * The number of stripes corrected by the number of NAND dies: with more stripes than dies the largest multiple of
   * the dies up to the request, otherwise what the dies are short of a multiple of the stripes.
   */
  predicate Corrected(r: nat, stripes: nat, dies: nat)
    requires stripes > 0 && dies > 0
  {
    if stripes > dies then r % dies == 0 && 0 < r <= stripes < r + dies
    else (dies + r) % stripes == 0 && 0 < r <= stripes
  }

  /** correct_maptbl_stripes_per_portion */
  function CorrectStripes(stripes: nat, dies: nat): (r: nat)
    requires stripes > 0 && dies > 0
    ensures 0 < r <= stripes && Corrected(r, stripes, dies)
  {
    if stripes > dies then
      ModBelow(stripes, dies);
      stripes - stripes % dies
    else if stripes < dies then
      ModUp(dies, stripes);
      stripes - dies % stripes
    else
      ModUp(dies, stripes);
      stripes
  }

  lemma ModBelow(x: nat, p: nat)
    requires 0 < p <= x
    ensures x % p < x && (x - x % p) % p == 0
  {
    assert x - x % p == x / p * p;
    MultipleModZero(x / p, p);
  }

  lemma ModUp(x: nat, p: nat)
    requires p > 0
    ensures (x + (p - x % p)) % p == 0
    ensures x == p ==> (x + p) % p == 0
  {
    assert x + (p - x % p) == (x / p + 1) * p by {
      assert (x / p + 1) * p == x / p * p + p;
    }
    MultipleModZero(x / p + 1, p);
    if x == p {
      assert x + p == 2 * p;
      MultipleModZero(2, p);
    }
  }

  /**
   * The number of stripes balanced against one page of LEB descriptors: two if the PEB pages describe less than
   * such a page, otherwise the number of such pages that the PEB pages fill.
   */
  predicate Balanced(r: nat, stripes: nat) {
    if 476 * stripes < 1016 then r == 2 else r * 1016 <= 476 * stripes < (r + 1) * 1016
  }

  /** Stripes per portion: PEB pages of a portion are balanced against one page of LEB descriptors. */
  function BalanceStripes(stripes: nat): (r: nat)
    requires stripes > 0
    ensures 0 < r && Balanced(r, stripes)
    ensures stripes <= 6 ==> r <= 2
  {
    var perPortion := PEB_DESC_PER_FRAGMENT * stripes;
    if LEB_DESC_PER_FRAGMENT > perPortion then LEB_DESC_PER_FRAGMENT / PEB_DESC_PER_FRAGMENT
    else if LEB_DESC_PER_FRAGMENT < perPortion then perPortion / LEB_DESC_PER_FRAGMENT
    else stripes
  }

  /**
   * The requested number of portions per PEB, cut down to what an erase block holds; it fits if and only if the
   * requested size does not overflow 32 bits. With an overflow it is only cut by the bytes that the cut size has
   * too much, in whole portions.
   */
  function PortionsPerFragment(requested: nat, eraseSize: U32, portionSize: nat): (r: nat)
    requires 0 < portionSize <= eraseSize && requested < U16_MAX
    ensures r <= requested && (requested > 0 ==> r > 0)
    ensures r * portionSize <= eraseSize <==> requested * portionSize < TWO32
    ensures requested * portionSize < TWO32 ==> r == requested || (r < requested && (r + 1) * portionSize > eraseSize)
    ensures requested * portionSize >= TWO32 ==>
              var bytes := requested * portionSize % TWO32;
              if bytes <= eraseSize then r == requested
              else LeastCount(requested - r, bytes - eraseSize, portionSize)
  {
    var fit := PageOf(eraseSize, portionSize);
    assert (fit + 1) * portionSize == fit * portionSize + portionSize;
    if fit < requested then
      MulStep(fit, requested, portionSize);
      var bytes := requested * portionSize % TWO32;
      WrapCases(requested * portionSize, bytes);
      if bytes > eraseSize then
        var cut := DivCeil(bytes - eraseSize, portionSize);
        WrappedCut(requested, portionSize, bytes, eraseSize, fit, cut);
        CeilIsLeast(bytes - eraseSize, portionSize);
        Max(fit, requested - cut)
      else requested
    else if fit > requested then
      MulStep(requested, fit, portionSize);
      requested
    else fit
  }

  /** The correction is exact without overflow; with overflow it is too small by the bytes lost. */
  lemma WrappedCut(requested: nat, portionSize: nat, bytes: nat, eraseSize: nat, fit: nat, cut: nat)
    requires 0 < portionSize <= eraseSize < TWO32 && bytes > eraseSize && fit < requested
    requires bytes == requested * portionSize % TWO32 && cut == DivCeil(bytes - eraseSize, portionSize)
    requires fit * portionSize <= eraseSize < fit * portionSize + portionSize
    ensures cut <= requested
    ensures requested * portionSize < TWO32 ==> requested - cut == fit
    ensures requested * portionSize >= TWO32 ==> fit < requested - cut && (requested - cut) * portionSize > eraseSize
  {
    hide DivCeil;
    WrapCases(requested * portionSize, bytes);
    if requested * portionSize < TWO32 {
      CutPortions(requested, eraseSize, portionSize, fit);
    } else {
      TooLittleCut(requested, portionSize, requested * portionSize, cut, eraseSize);
      MulOrder(fit, requested - cut, portionSize);
    }
  }

  lemma WrapCases(whole: nat, bytes: nat)
    requires bytes == whole % TWO32
    ensures if whole < TWO32 then bytes == whole else bytes + TWO32 <= whole
  {
    if whole < TWO32 {
      ModUnique(whole, TWO32, 0, whole);
    } else {
      LostBytes(whole, bytes);
    }
  }

  lemma TooLittleCut(requested: nat, portionSize: nat, whole: nat, cut: nat, eraseSize: nat)
    requires whole == requested * portionSize && cut * portionSize + TWO32 < whole && eraseSize < TWO32
    ensures cut <= requested && (requested - cut) * portionSize > eraseSize
  {
    MulOrder(cut, requested, portionSize);
    assert (requested - cut) * portionSize == whole - cut * portionSize;
  }

  lemma MulOrder(a: nat, b: nat, p: nat)
    requires a * p < b * p
    ensures a < b
  {
    if b <= a { MulMonotone(b, a, p); }
  }

  lemma LostBytes(whole: nat, bytes: nat)
    requires whole >= TWO32 && bytes == whole % TWO32
    ensures bytes + TWO32 <= whole
  {
    var k := whole / TWO32;
    assert whole == k * TWO32 + bytes;
    assert k >= 1;
  }

  /** Taking away the excess bytes in whole portions leaves what fits the erase block. */
  lemma CutPortions(requested: nat, eraseSize: nat, portionSize: nat, fit: nat)
    requires portionSize > 0 && fit < requested && fit * portionSize <= eraseSize < fit * portionSize + portionSize
    requires requested * portionSize > eraseSize
    ensures DivCeil(requested * portionSize - eraseSize, portionSize) == requested - fit
  {
    var diff := requested * portionSize - eraseSize;
    var n := requested - fit;
    assert n * portionSize == requested * portionSize - fit * portionSize;
    var c := DivCeil(diff, portionSize);
    if c < n { MulStep(c, n, portionSize); } else if n < c { MulStep(n, c, portionSize); }
  }

  function PebsPerVolume(o: Options): nat
    requires o.Valid()
  {
    PageOf(o.fsSize, o.eraseSize)
  }

  /** seg_size / erase_size in 32 bits. */
  function PebsPerSeg(o: Options): nat
    requires o.Valid()
  {
    PageOf(o.segSize, o.eraseSize) % TWO32
  }

  /** The erase blocks counted are those of the volume and of a segment. */
  lemma PebNumbers(o: Options)
    requires o.Valid()
    ensures PebsPerVolume(o) * o.eraseSize <= o.fsSize < PebsPerVolume(o) * o.eraseSize + o.eraseSize
    ensures o.segSize < TWO32 * o.eraseSize ==> PebsPerSeg(o) * o.eraseSize == o.segSize
  {
    SegPebs(o.segSize, o.eraseSize);
  }

  lemma SegPebs(segSize: nat, eraseSize: nat)
    requires 0 < eraseSize && segSize % eraseSize == 0
    ensures segSize < TWO32 * eraseSize ==> PageOf(segSize, eraseSize) % TWO32 * eraseSize == segSize
  {
    if segSize < TWO32 * eraseSize {
      ExactPages(segSize, eraseSize);
      QuotientBelow(segSize, eraseSize, TWO32);
    }
  }

  /** The stripes that the options ask for, corrected and balanced; or, on a zoned device, the fewest that suffice. */
  ghost predicate StripesRule(o: Options, r: nat)
    requires o.Valid()
  {
    exists c: nat :: Corrected(c, o.stripes, o.nandDies)
                     && if o.zoned then LeastCount(r, PebsPerVolume(o), PEB_DESC_PER_FRAGMENT * c) else Balanced(r, c)
  }

  /** Stripes per portion; a zoned device has as many as there would be portions. */
  function StripesOf(o: Options): (r: nat)
    requires o.Valid()
    ensures 0 < r && StripesRule(o, r)
    ensures !o.zoned && o.stripes <= 6 ==> r <= 2
  {
    PebCounts(o.fsSize, o.segSize, o.eraseSize);
    var stripes := CorrectStripes(o.stripes, o.nandDies);
    CeilIsLeast(PebsPerVolume(o), PEB_DESC_PER_FRAGMENT * stripes);
    if o.zoned then DivCeil(PebsPerVolume(o), PEB_DESC_PER_FRAGMENT * stripes) else BalanceStripes(stripes)
  }

  /** There are not too many stripes, and enough for the PEBs of a segment. */
  predicate StripesFit(o: Options)
    requires o.Valid()
  {
    (o.zoned ==> StripesOf(o) <= U16_MAX) && PebsPerSeg(o) <= PEB_DESC_PER_FRAGMENT * StripesOf(o)
  }

  /** The largest multiple, up to a page of descriptors, of the PEBs that a segment has in a stripe. */
  ghost predicate PerStripeRule(r: nat, pebsPerSeg: nat, stripes: nat) {
    if pebsPerSeg > stripes
    then exists n: nat :: LeastCount(n, pebsPerSeg, stripes) && r % n == 0 && r <= 476 < r + n
    else r == 476
  }

  /** PEB descriptors per stripe: a multiple of the PEBs that a segment has in a stripe. */
  function PebsPerStripe(pebsPerSeg: nat, stripes: nat): (r: nat)
    requires stripes > 0
    ensures r <= PEB_DESC_PER_FRAGMENT && (r > 0 <==> pebsPerSeg <= PEB_DESC_PER_FRAGMENT * stripes)
    ensures PerStripeRule(r, pebsPerSeg, stripes)
  {
    if pebsPerSeg > stripes then
      CeilIsLeast(pebsPerSeg, stripes);
      StripesEnough(pebsPerSeg, stripes);
      RoundDown(PEB_DESC_PER_FRAGMENT, DivCeil(pebsPerSeg, stripes))
    else PEB_DESC_PER_FRAGMENT
  }

  lemma StripesEnough(pebsPerSeg: nat, stripes: nat)
    requires pebsPerSeg > stripes > 0
    ensures var n := DivCeil(pebsPerSeg, stripes);
            && n > 0 && RoundDown(PEB_DESC_PER_FRAGMENT, n) <= PEB_DESC_PER_FRAGMENT
            && (RoundDown(PEB_DESC_PER_FRAGMENT, n) > 0 <==> pebsPerSeg <= PEB_DESC_PER_FRAGMENT * stripes)
  {
    var n := DivCeil(pebsPerSeg, stripes);
    DivCeilLeast(pebsPerSeg, stripes, 0);
    DivCeilLeast(pebsPerSeg, stripes, PEB_DESC_PER_FRAGMENT);
    RoundDownPositive(PEB_DESC_PER_FRAGMENT, n);
  }

  lemma RoundDownPositive(x: nat, p: nat)
    requires p > 0
    ensures RoundDown(x, p) > 0 <==> p <= x
  {
    var r := RoundDown(x, p);
    if r > 0 { MultiplesApart(0, r, p); }
  }

  /** Bytes of a portion: its pages of LEBs and its stripes. */
  function PortionBytes(o: Options): (r: nat)
    requires o.Valid() && StripesFit(o)
  {
    Mul(LebPages(o) + StripesOf(o), o.pageSize)
  }

  function PebsPerPortion(o: Options): (r: nat)
    requires o.Valid() && StripesFit(o)
    ensures r > 0
  {
    MulPositive(PebsPerStripe(PebsPerSeg(o), StripesOf(o)), StripesOf(o));
    PebsPerStripe(PebsPerSeg(o), StripesOf(o)) * StripesOf(o)
  }

  function LebPages(o: Options): nat
    requires o.Valid() && StripesFit(o)
  {
    DivCeil(PebsPerPortion(o), LEB_DESC_PER_FRAGMENT)
  }

  /** Options that let the numbers of the table be computed without a division by zero. */
  predicate Computable(o: Options) {
    && o.Valid() && StripesFit(o) && 0 < PebsPerSeg(o) && 0 < o.portionsPerFragment
    && 0 < PortionBytes(o) <= o.eraseSize
  }

  /** Portions that the PEBs of the volume need. */
  function PortionsNeeded(o: Options): nat
    requires o.Valid() && StripesFit(o)
  {
    DivCeil(PebsPerVolume(o), PebsPerPortion(o))
  }

  function Portions(o: Options): (r: nat)
    requires Computable(o)
    ensures r > 0
  {
    PortionsPerFragment(o.portionsPerFragment, o.eraseSize, PortionBytes(o))
  }

  /** Segments of one copy of the table. */
  function TableSegs(o: Options): nat
    requires Computable(o)
  {
    DivCeil(DivCeil(PortionsNeeded(o), Portions(o)), PebsPerSeg(o))
  }

  /** The geometry that the options lead to. */
  function GeometryOf(o: Options): Geometry
    requires Computable(o)
  {
    Geometry(PebsPerVolume(o), PebsPerSeg(o), StripesOf(o), PebsPerStripe(PebsPerSeg(o), StripesOf(o)),
             PebsPerPortion(o), LebPages(o), Portions(o), TableSegs(o) * PebsPerSeg(o),
             TableSegs(o) * PebsPerSeg(o) * Portions(o) % TWO32)
  }

  /** A tenth of the segments of the volume. */
  function Quota(o: Options): nat
    requires o.Valid()
  {
    PageOf(o.fsSize, o.segSize) * 10 / 100
  }

  lemma QuotaIs(o: Options)
    requires o.Valid()
    ensures 10 * Quota(o) * o.segSize <= o.fsSize < 10 * (Quota(o) + 1) * o.segSize
  {
    TenthOf(o.fsSize, o.segSize);
  }

  lemma TenthOf(size: nat, part: nat)
    requires part > 0
    ensures var r := PageOf(size, part) * 10 / 100; 10 * r * part <= size < 10 * (r + 1) * part
  {
    var n := PageOf(size, part);
    var r := n * 10 / 100;
    assert 10 * r <= n < 10 * (r + 1);
    MulMonotone(10 * r, n, part);
    MulMonotone(n + 1, 10 * (r + 1), part);
    assert (n + 1) * part == n * part + part;
  }

  function Copies(o: Options): nat { if o.backupCopy then 2 else 1 }

  /** The options for which a geometry is chosen. */
  predicate Acceptable(o: Options) {
    && Computable(o) && PortionsNeeded(o) < U32_MAX
    && TableSegs(o) * Copies(o) <= Quota(o)
    && PebsPerPortion(o) < U16_MAX && GeometryOf(o).portions < U16_MAX
  }

  /** Stripes per portion and PEB descriptors per stripe; a `Bug` is a division by zero. */
  method ChooseStripes(o: Options) returns (st: Status, stripes: nat, pebsPerStripe: nat)
    requires o.Valid()
    ensures st == if o.zoned && StripesOf(o) > U16_MAX then Error(E2BIG) else if StripesFit(o) then Success else Bug
    ensures st == Success ==> stripes == StripesOf(o) && pebsPerStripe == PebsPerStripe(PebsPerSeg(o), stripes)
    ensures st == Success ==> StripesRule(o, stripes) && PerStripeRule(pebsPerStripe, PebsPerSeg(o), stripes)
  {
    hide StripesRule, PerStripeRule, LeastCount, Corrected, Balanced, DivCeil, RoundDown, PageOf, BalanceStripes,
      CorrectStripes, PebsPerStripe, PebsPerSeg, PebsPerVolume;
    VolumePositive(o);
    stripes := CorrectStripes(o.stripes, o.nandDies);
    var pebsPerPortion := PEB_DESC_PER_FRAGMENT * stripes;
    stripes := BalanceStripes(stripes);
    pebsPerStripe := PEB_DESC_PER_FRAGMENT;
    if o.zoned {
      CeilPositive(PebsPerVolume(o), pebsPerPortion);
      stripes := DivCeil(PebsPerVolume(o), pebsPerPortion);
      if stripes > U16_MAX {
        return Error(E2BIG), stripes, pebsPerStripe;
      }
    }
    pebsPerStripe := PebsPerStripe(PebsPerSeg(o), stripes);
    if pebsPerStripe == 0 {
      return Bug, stripes, pebsPerStripe;
    }
    st := Success;
  }

  /** The number of stripes follows from the options alone. */
  lemma StripesUnique(o: Options, a: nat, b: nat)
    requires o.Valid() && StripesRule(o, a) && StripesRule(o, b)
    ensures a == b
  {
    hide LeastCount, Balanced, PebsPerVolume, Corrected;
    var c: nat :| Corrected(c, o.stripes, o.nandDies)
                  && if o.zoned then LeastCount(a, PebsPerVolume(o), PEB_DESC_PER_FRAGMENT * c) else Balanced(a, c);
    var d: nat :| Corrected(d, o.stripes, o.nandDies)
                  && if o.zoned then LeastCount(b, PebsPerVolume(o), PEB_DESC_PER_FRAGMENT * d) else Balanced(b, d);
    CorrectedUnique(c, d, o.stripes, o.nandDies);
    if o.zoned {
      LeastUnique(a, b, PebsPerVolume(o), PEB_DESC_PER_FRAGMENT * c);
    } else {
      BalancedUnique(a, b, c);
    }
  }

  lemma CorrectedUnique(c: nat, d: nat, stripes: nat, dies: nat)
    requires stripes > 0 && dies > 0 && Corrected(c, stripes, dies) && Corrected(d, stripes, dies)
    ensures c == d
  {
    if stripes > dies {
      if c < d { MultiplesApart(c, d, dies); } else if d < c { MultiplesApart(d, c, dies); }
    } else {
      if c < d {
        MultiplesApart(dies + c, dies + d, stripes);
      } else if d < c {
        MultiplesApart(dies + d, dies + c, stripes);
      }
    }
  }

  lemma BalancedUnique(a: nat, b: nat, c: nat)
    requires Balanced(a, c) && Balanced(b, c)
    ensures a == b
  {
  }

  /** One stripe on one die of a block device: two stripes and 952 PEBs per portion, up to two PEBs per segment. */
  lemma DefaultStripes(o: Options)
    requires o.Valid() && !o.zoned && o.stripes == 1 && o.nandDies == 1 && PebsPerSeg(o) <= 2
    ensures StripesOf(o) == 2 && StripesFit(o) && PebsPerPortion(o) == 952
  {
    hide DivCeil, PageOf, PebsPerSeg, PebsPerVolume;
  }

  lemma CeilPositive(x: nat, p: nat)
    requires 0 < x && 0 < p
    ensures DivCeil(x, p) > 0
  {
  }

  lemma VolumePositive(o: Options)
    requires o.Valid()
    ensures PebsPerVolume(o) > 0
  {
    PebCounts(o.fsSize, o.segSize, o.eraseSize);
  }

  /** The properties of the geometry that the options lead to. */
  lemma GeometryGood(o: Options)
    requires Acceptable(o)
    ensures var g := GeometryOf(o);
            && (g.Valid() <==> g.maptblPebs * g.portionsPerFragment < TWO32)
            && (g.portionsPerFragment * PortionBytes(o) <= o.eraseSize <==>
              o.portionsPerFragment * PortionBytes(o) < TWO32)
            && g.pebsPerSeg <= g.maptblPebs
            && ((g.maptblPebs - g.pebsPerSeg) * g.portionsPerFragment) * g.pebsPerPortion < g.pebsPerVolume
  {
    hide DivCeil, RoundUp, RoundDown, PageOf, StripesOf, PortionsPerFragment, PebsPerStripe, PortionBytes, PebsPerSeg;
    VolumePositive(o);
    var g := GeometryOf(o);
    var segs, n := TableSegs(o), DivCeil(PortionsNeeded(o), Portions(o));
    FewestSegments(g.pebsPerVolume, g.pebsPerPortion, PortionsNeeded(o), Portions(o), g.pebsPerSeg, n, segs);
    EnoughPortions(g.pebsPerVolume, g.pebsPerPortion, PortionsNeeded(o), Portions(o), g.maptblPebs);
    WrapCases(g.maptblPebs * g.portionsPerFragment, g.portions);
  }

  /**
   * maptbl_mkfs_allocation_policy, with the limit on the number of portions that maptbl_mkfs_prepare
   * imposes. A geometry is chosen if and only if the options are acceptable. It is one that the table's lookup
   * agrees with, unless the number of portions overflows 32 bits; it takes the fewest segments that describe
   * every PEB, and at most a tenth of the volume.
   */
  method ChooseGeometry(o: Options) returns (c: Choice)
    requires o.Valid()
    ensures c.Chosen? <==> Acceptable(o)
    ensures c == Refused(Error(E2BIG)) <==>
              || (o.zoned && StripesOf(o) > U16_MAX)
              || (Computable(o) && PortionsNeeded(o) < U32_MAX
                  && TableSegs(o) * Copies(o) > Quota(o))
    ensures c.Refused? ==> c.status == Error(E2BIG) || c.status == Bug
    ensures c == PortionTooLarge <==> StripesFit(o) && 0 < o.portionsPerFragment && PortionBytes(o) > o.eraseSize
    ensures c.Chosen? ==>
              && c.g == GeometryOf(o) && c.portionSize == PortionBytes(o)
              && (c.g.Valid() <==> c.g.maptblPebs * c.g.portionsPerFragment < TWO32)
              && (c.g.portionsPerFragment * c.portionSize <= o.eraseSize <==>
                o.portionsPerFragment * c.portionSize < TWO32)
              && c.segs <= Quota(o)
              && c.segs * c.g.pebsPerSeg == Copies(o) * c.g.maptblPebs
              && c.g.pebsPerSeg <= c.g.maptblPebs
              && ((c.g.maptblPebs - c.g.pebsPerSeg) * c.g.portionsPerFragment) * c.g.pebsPerPortion < c.g.pebsPerVolume
              && StripesRule(o, c.g.stripes) && PerStripeRule(c.g.pebsPerStripe, c.g.pebsPerSeg, c.g.stripes)
              && (!o.zoned && o.stripes <= 6 ==> c.g.stripes <= 2)
  {
    hide DivCeil, RoundUp, RoundDown, PageOf, StripesOf, PortionsPerFragment, PebsPerStripe, StripesRule,
      PerStripeRule, LeastCount, Corrected, Balanced, Quota;
    var st, stripes, pebsPerStripe := ChooseStripes(o);
    if st != Success {
      return Refused(st);
    }
    if o.portionsPerFragment == 0 {
      return Refused(Bug);
    }
    var pebsPerPortion := pebsPerStripe * stripes;
    MulPositive(pebsPerStripe, stripes);
    var lebPages := DivCeil(pebsPerPortion, LEB_DESC_PER_FRAGMENT);
    var portionSize := Mul(lebPages + stripes, o.pageSize);
    MulPositive(lebPages + stripes, o.pageSize);
    if portionSize > o.eraseSize {
      return PortionTooLarge;
    }
    var fragments := DivCeil(PebsPerVolume(o), pebsPerPortion);
    if fragments >= U32_MAX || PebsPerSeg(o) == 0 {
      return Refused(Bug);
    }
    var portions := PortionsPerFragment(o.portionsPerFragment, o.eraseSize, portionSize);
    var maptblSegs := DivCeil(DivCeil(fragments, portions), PebsPerSeg(o));
    var maptblPebs := maptblSegs * PebsPerSeg(o);
    var all := maptblPebs * portions % TWO32;
    var segs := if o.backupCopy then maptblSegs * 2 else maptblSegs;
    CopiesOf(maptblSegs, PebsPerSeg(o));
    if segs > Quota(o) {
      return Refused(Error(E2BIG));
    }
    if pebsPerPortion >= U16_MAX || all >= U16_MAX {
      return Refused(Bug);
    }
    var g := Geometry(PebsPerVolume(o), PebsPerSeg(o), stripes, pebsPerStripe, pebsPerPortion, lebPages,
                      portions, maptblPebs, all);
    assert g == GeometryOf(o);
    GeometryGood(o);
    c := Chosen(g, portionSize, segs);
  }

  /** A geometry that is chosen can be prepared as a table, if the number of portions fits 32 bits. */
  lemma ChosenUsable(o: Options)
    requires Acceptable(o) && GeometryOf(o).maptblPebs * GeometryOf(o).portionsPerFragment < TWO32
    ensures MapTable.Usable(GeometryOf(o))
  {
    hide GeometryOf, Computable, DivCeil, PortionsNeeded, TableSegs, PebsPerPortion;
    GeometryGood(o);
    VolumeSmall(GeometryOf(o));
  }

  lemma CopiesOf(segs: nat, perSeg: nat)
    ensures (segs * 2) * perSeg == 2 * (segs * perSeg)
  {
  }

  /** With one segment less some PEB of the volume would have no descriptor. */
  lemma FewestSegments(pebs: nat, perPortion: nat, fragments: nat, perFragment: nat, perSeg: nat, n: nat, segs: nat)
    requires perPortion > 0 && perFragment > 0 && perSeg > 0 && pebs > 0 && fragments == DivCeil(pebs, perPortion)
    requires n == DivCeil(fragments, perFragment) && segs == DivCeil(n, perSeg)
    ensures segs > 0 && perSeg <= segs * perSeg && ((segs * perSeg - perSeg) * perFragment) * perPortion < pebs
  {
    LastPiece(pebs, perPortion, fragments);
    LastPiece(fragments, perFragment, n);
    LastPiece(n, perSeg, segs);
    hide DivCeil;
    var less := segs * perSeg - perSeg;
    FewerPieces(less, n, perFragment, fragments);
    FewerPieces(less * perFragment, fragments, perPortion, pebs);
  }

  /** All pieces but the last one are not enough. */
  lemma LastPiece(x: nat, p: nat, q: nat)
    requires x > 0 && p > 0 && q == DivCeil(x, p)
    ensures q > 0 && 0 <= q * p - p < x
  {
    if q > 0 { MulMonotone(1, q, p); }
  }

  lemma FewerPieces(a: nat, q: nat, p: nat, x: nat)
    requires a < q && q * p - p < x
    ensures 0 <= a * p < x
  {
    MulStep(a, q, p);
  }

  lemma PebCounts(fsSize: nat, segSize: nat, eraseSize: nat)
    requires 0 < eraseSize && 0 < segSize && segSize % eraseSize == 0 && segSize < fsSize && fsSize % segSize == 0
    ensures 0 < segSize / eraseSize && 0 < fsSize / eraseSize
  {
    if segSize < eraseSize { ModUnique(segSize, eraseSize, 0, segSize); }
    DivMonotone(eraseSize, segSize, eraseSize);
    DivMonotone(eraseSize, fsSize, eraseSize);
    ModUnique(eraseSize, eraseSize, 1, 0);
  }

  /** Rounding up twice never loses a portion. */
  lemma EnoughPortions(pebs: nat, perPortion: nat, fragments: nat, perFragment: nat, maptblPebs: nat)
    requires perPortion > 0 && perFragment > 0 && pebs <= fragments * perPortion
    requires DivCeil(fragments, perFragment) <= maptblPebs
    ensures pebs <= (maptblPebs * perFragment) * perPortion
  {
    var n := DivCeil(fragments, perFragment);
    assert fragments <= n * perFragment;
    assert n * perFragment <= maptblPebs * perFragment by {
      if n < maptblPebs { MulStep(n, maptblPebs, perFragment); }
    }
    assert fragments * perPortion <= (maptblPebs * perFragment) * perPortion by {
      if fragments < maptblPebs * perFragment { MulStep(fragments, maptblPebs * perFragment, perPortion); }
    }
  }
}
