/** Marking of the PEBs that mkfs leaves unallocated as pre-erased (mark_unallocated_pebs_as_pre_erased). */
module PreErase {
  import opened Types
  import opened Rounding
  import opened MapTableGeometry
  import opened MapTable
  import opened MapTableRun

  /** The dirty bit of a PEB, wherever it is described. */
  ghost predicate PreErased(g: Geometry, t: Table, id: nat)
    requires g.stripes > 0 && Shaped(g, t)
  {
    exists p, s :: DirtyAt(g, t, p, s, id)
  }

  ghost predicate DirtyAt(g: Geometry, t: Table, p: int, s: int, id: nat)
    requires g.stripes > 0 && Shaped(g, t)
  {
    && 0 <= p < g.portions && 0 <= s < g.stripes
    && g.PebFragment(p, s).Covers(id) && t.pebs[p][s].dirty[id - g.PebFragment(p, s).start]
  }

  /** define_peb_as_pre_erased on the PEBs of one page from `from` on; a descriptor in use is a BUG_ON. */
  method MarkStripe(page: PebTable, from: nat) returns (st: Status, page': PebTable)
    requires page.range.count <= PEB_DESC_PER_FRAGMENT
    requires |page.dirty| == BMAP_BITS && |page.descs| == PEB_DESC_PER_FRAGMENT && from <= page.range.count
    ensures st == if forall j :: from <= j < page.range.count ==> page.descs[j] == BLANK then Success else Bug
    ensures st == Success ==> page' == MarkedPage(page, from)
  {
    var dirty, descs := page.dirty, page.descs;
    var j := from;
    while j < page.range.count
      invariant from <= j <= page.range.count
      invariant dirty == Filled(page.dirty, from, j, true)
      invariant descs == Filled(page.descs, from, j, PebDesc(0, PreEraseState))
      invariant forall k :: from <= k < j ==> page.descs[k] == BLANK
    {
      if descs[j] != BLANK {
        return Bug, page;
      }
      dirty, descs := dirty[j := true], descs[j := PebDesc(0, PreEraseState)];
      j := j + 1;
    }
    return Success, page.(dirty := dirty, descs := descs);
  }

  function Filled<T>(s: seq<T>, from: nat, to: nat, v: T): (r: seq<T>)
    requires from <= to <= |s|
    ensures |r| == |s| && forall i :: 0 <= i < |s| ==> r[i] == if from <= i < to then v else s[i]
  {
    seq(|s|, i requires 0 <= i < |s| => if from <= i < to then v else s[i])
  }

  /**
   * Progress of the marking: the PEBs below `n` are used, those from `n` to `done` are pre-erased, and
   * nothing else has been touched.
   */
  ghost predicate Marked(g: Geometry, t: Table, n: nat, done: nat)
  {
    && Usable(g) && Shaped(g, t) && n <= done
    && (forall id: nat :: Used(g, t, id) <==> id < n)
    && (forall id: nat :: PreErased(g, t, id) <==> n <= id < done)
  }

  /** The table with one PEB page replaced. */
  function SetPage(t: Table, p: nat, s: nat, page: PebTable): Table
    requires p < |t.pebs| && s < |t.pebs[p]|
  {
    t.(pebs := t.pebs[p := t.pebs[p][s := page]])
  }

  function MarkedPage(page: PebTable, from: nat): PebTable
    requires from <= page.range.count <= |page.dirty| && page.range.count <= |page.descs|
  {
    page.(dirty := Filled(page.dirty, from, page.range.count, true),
          descs := Filled(page.descs, from, page.range.count, PebDesc(0, PreEraseState)))
  }

  /** The pages of LEBs, the used PEBs and their descriptors are as they were. */
  predicate Keeps(t: Table, t': Table) {
    && t'.lebs == t.lebs && |t'.pebs| == |t.pebs|
    && (forall p :: 0 <= p < |t.pebs| ==> |t'.pebs[p]| == |t.pebs[p]|)
    && (forall p, s :: 0 <= p < |t.pebs| && 0 <= s < |t.pebs[p]| ==> KeepsPage(t.pebs[p][s], t'.pebs[p][s]))
  }

  predicate KeepsPage(page: PebTable, page': PebTable) {
    && page'.used == page.used && |page'.descs| == |page.descs|
    && forall i :: 0 <= i < |page.used| && i < |page.descs| && page.used[i] ==> page'.descs[i] == page.descs[i]
  }

  lemma KeepsSame(t: Table)
    ensures Keeps(t, t)
  {
  }

  lemma KeepsTwice(t: Table, t': Table, t'': Table)
    requires Keeps(t, t') && Keeps(t', t'')
    ensures Keeps(t, t'')
  {
    forall p, s | 0 <= p < |t.pebs| && 0 <= s < |t.pebs[p]| ensures KeepsPage(t.pebs[p][s], t''.pebs[p][s]) {
      assert KeepsPage(t.pebs[p][s], t'.pebs[p][s]) && KeepsPage(t'.pebs[p][s], t''.pebs[p][s]);
    }
  }

  lemma SetKeeps(t: Table, p: nat, s: nat, page: PebTable)
    requires p < |t.pebs| && s < |t.pebs[p]| && KeepsPage(t.pebs[p][s], page)
    ensures Keeps(t, SetPage(t, p, s, page))
  {
  }

  /** The descriptor of a used PEB is kept. */
  lemma DescKept(g: Geometry, t: Table, t': Table, id: nat, desc: PebDesc)
    requires Usable(g) && Shaped(g, t) && Shaped(g, t') && Keeps(t, t') && Used(g, t, id)
    ensures DescIs(g, t', id, desc) <==> DescIs(g, t, id, desc)
  {
    hide Geometry.PebFragment, Geometry.LebFragment, LebTableOk, Geometry.Valid, DescFits;
    var p, s :| UsedAt(g, t, p, s, id);
    var i := id - g.PebFragment(p, s).start;
    assert PebTableOk(t.pebs[p][s], g.PebFragment(p, s));
    assert KeepsPage(t.pebs[p][s], t'.pebs[p][s]);
    var d := t.pebs[p][s].descs[i];
    assert DescAt(g, t, p, s, id, d) && DescAt(g, t', p, s, id, d);
    OneDesc(g, t, id, d, desc);
    OneDesc(g, t', id, d, desc);
  }

  /** A PEB has one descriptor. */
  lemma OneDesc(g: Geometry, t: Table, id: nat, a: PebDesc, b: PebDesc)
    requires Usable(g) && Shaped(g, t) && DescIs(g, t, id, a)
    ensures DescIs(g, t, id, b) <==> a == b
  {
    hide Geometry.PebFragment, Geometry.LebFragment, LebTableOk, Geometry.Valid, DescFits, Shaped;
    if DescIs(g, t, id, b) {
      var p, s :| DescAt(g, t, p, s, id, a);
      var p', s' :| DescAt(g, t, p', s', id, b);
      PebFragmentsDisjoint(g, p, s, p', s', id);
    }
  }

  /**
   * The descriptors of a table: a used PEB is in use and has one of the eight types, a pre-erased PEB has the
   * unknown type, and every other PEB that is described has neither type nor state.
   */
  lemma DescriptorStates(g: Geometry, t: Table, id: nat)
    requires Usable(g) && Shaped(g, t) && Described(g, id)
    ensures Used(g, t, id) <==> exists kind: PebType :: DescIs(g, t, id, PebDesc(kind, UsingState))
    ensures PreErased(g, t, id) <==> DescIs(g, t, id, PebDesc(0, PreEraseState))
    ensures !Used(g, t, id) && !PreErased(g, t, id) <==> DescIs(g, t, id, PebDesc(0, UnknownState))
  {
    hide Geometry.PebFragment, Geometry.LebFragment, LebTableOk, Geometry.Valid;
    var p, s :| 0 <= p < g.portions && 0 <= s < g.stripes && g.PebFragment(p, s).Covers(id);
    var page, i := t.pebs[p][s], id - g.PebFragment(p, s).start;
    assert PebTableOk(page, g.PebFragment(p, s));
    assert DescAt(g, t, p, s, id, page.descs[i]);
    BitsAt(g, t, p, s, id);
    hide Used, PreErased, Shaped;
    forall desc: PebDesc ensures DescIs(g, t, id, desc) <==> desc == page.descs[i] {
      OneDesc(g, t, id, page.descs[i], desc);
    }
    hide DescIs;
    if page.used[i] {
      var kind: PebType := page.descs[i].kind;
      assert DescIs(g, t, id, PebDesc(kind, UsingState));
    }
  }

  /** The bits of a PEB are those of the page that describes it. */
  lemma BitsAt(g: Geometry, t: Table, p: nat, s: nat, id: nat)
    requires Usable(g) && Shaped(g, t) && p < g.portions && s < g.stripes && g.PebFragment(p, s).Covers(id)
    requires PebTableOk(t.pebs[p][s], g.PebFragment(p, s))
    ensures Used(g, t, id) <==> t.pebs[p][s].used[id - g.PebFragment(p, s).start]
    ensures PreErased(g, t, id) <==> t.pebs[p][s].dirty[id - g.PebFragment(p, s).start]
  {
    hide Geometry.PebFragment, Geometry.LebFragment, LebTableOk, Geometry.Valid, DescFits;
    if Used(g, t, id) {
      var p', s' :| UsedAt(g, t, p', s', id);
      PebFragmentsDisjoint(g, p, s, p', s', id);
    }
    if PreErased(g, t, id) {
      var p', s' :| DirtyAt(g, t, p', s', id);
      PebFragmentsDisjoint(g, p, s, p', s', id);
    }
    if t.pebs[p][s].used[id - g.PebFragment(p, s).start] {
      assert UsedAt(g, t, p, s, id);
    }
    if t.pebs[p][s].dirty[id - g.PebFragment(p, s).start] {
      assert DirtyAt(g, t, p, s, id);
    }
  }

  /** Descriptors that have not been reached are untouched. */
  lemma StillUnknown(g: Geometry, t: Table, n: nat, done: nat, p: nat, s: nat, i: nat)
    requires Marked(g, t, n, done) && p < g.portions && s < g.stripes && i < g.PebFragment(p, s).count
    requires g.PebFragment(p, s).start + i >= done
    ensures t.pebs[p][s].descs[i] == BLANK
  {
    hide Geometry.PebFragment, LebTableOk, Geometry.Valid;
    var range := g.PebFragment(p, s);
    assert PebTableOk(t.pebs[p][s], range);
    assert !Used(g, t, range.start + i) && !PreErased(g, t, range.start + i);
    assert !UsedAt(g, t, p, s, range.start + i) && !DirtyAt(g, t, p, s, range.start + i);
  }

  lemma StillUnused(g: Geometry, t: Table, n: nat, done: nat, p: nat, s: nat, i: nat)
    requires Marked(g, t, n, done) && p < g.portions && s < g.stripes && i < g.PebFragment(p, s).count
    requires g.PebFragment(p, s).start + i >= done && i < |t.pebs[p][s].used|
    ensures !t.pebs[p][s].used[i]
  {
    hide Geometry.PebFragment, LebTableOk, PebTableOk, Geometry.Valid;
    assert !Used(g, t, g.PebFragment(p, s).start + i);
    assert !UsedAt(g, t, p, s, g.PebFragment(p, s).start + i);
  }

  /** A page whose unused end has been marked is consistent. */
  lemma MarkedOk(page: PebTable, range: Range, from: nat)
    requires PebTableOk(page, range) && from <= range.count && forall j :: from <= j < range.count ==> !page.used[j]
    ensures PebTableOk(MarkedPage(page, from), range) && KeepsPage(page, MarkedPage(page, from))
    ensures MarkedPage(page, from).used == page.used
  {
    hide Filled;
    var page' := MarkedPage(page, from);
    forall i | 0 <= i < |page.used| && i < |page.descs| && page.used[i] ensures page'.descs[i] == page.descs[i] {}
  }

  lemma MarkStep(g: Geometry, t: Table, n: nat, done: nat, p: nat, s: nat)
    requires Marked(g, t, n, done) && p < g.portions && s < g.stripes
    requires var range := g.PebFragment(p, s); range.start <= done <= range.start + range.count
    requires PebTableOk(t.pebs[p][s], g.PebFragment(p, s))
    ensures var range := g.PebFragment(p, s);
            && Marked(g, SetPage(t, p, s, MarkedPage(t.pebs[p][s], done - range.start)), n, range.start + range.count)
            && Keeps(t, SetPage(t, p, s, MarkedPage(t.pebs[p][s], done - range.start)))
  {
    hide Geometry.PebFragment, Geometry.LebFragment, LebTableOk, Geometry.Valid, Used, PreErased, MarkedPage, Keeps,
      KeepsPage, DescFits;
    var range := g.PebFragment(p, s);
    forall j | done - range.start <= j < range.count ensures !t.pebs[p][s].used[j] {
      StillUnused(g, t, n, done, p, s, j);
    }
    MarkedOk(t.pebs[p][s], range, done - range.start);
    SetKeeps(t, p, s, MarkedPage(t.pebs[p][s], done - range.start));
    var t' := SetPage(t, p, s, MarkedPage(t.pebs[p][s], done - range.start));
    assert Shaped(g, t');
    forall id: nat ensures Used(g, t', id) <==> id < n {
      UsedKept(g, t, t', id);
    }
    hide Shaped;
    forall id: nat ensures PreErased(g, t', id) <==> n <= id < range.start + range.count {
      DirtyAfter(g, t, done, p, s, id);
    }
  }

  /** The used PEBs depend on the used bitmaps only. */
  lemma UsedKept(g: Geometry, t: Table, t': Table, id: nat)
    requires g.stripes > 0 && Shaped(g, t) && Shaped(g, t')
    requires forall p, s :: 0 <= p < g.portions && 0 <= s < g.stripes ==> t.pebs[p][s].used == t'.pebs[p][s].used
    ensures Used(g, t, id) <==> Used(g, t', id)
  {
    hide Geometry.PebFragment, Geometry.LebFragment, LebTableOk;
    if Used(g, t, id) {
      var p, s :| UsedAt(g, t, p, s, id);
      assert UsedAt(g, t', p, s, id);
    }
    if Used(g, t', id) {
      var p, s :| UsedAt(g, t', p, s, id);
      assert UsedAt(g, t, p, s, id);
    }
  }

  /** Marking the rest of a page adds exactly its PEBs to the pre-erased ones. */
  lemma DirtyAfter(g: Geometry, t: Table, done: nat, p: nat, s: nat, id: nat)
    requires g.stripes > 0 && Shaped(g, t) && p < g.portions && s < g.stripes
    requires var range := g.PebFragment(p, s); range.start <= done <= range.start + range.count
    requires PebTableOk(t.pebs[p][s], g.PebFragment(p, s))
    requires Shaped(g, SetPage(t, p, s, MarkedPage(t.pebs[p][s], done - g.PebFragment(p, s).start)))
    ensures var range := g.PebFragment(p, s);
            PreErased(g, SetPage(t, p, s, MarkedPage(t.pebs[p][s], done - range.start)), id) <==>
              PreErased(g, t, id) || done <= id < range.start + range.count
  {
    hide Geometry.PebFragment, Geometry.LebFragment, LebTableOk, DescFits;
    var range := g.PebFragment(p, s);
    var t' := SetPage(t, p, s, MarkedPage(t.pebs[p][s], done - range.start));
    if PreErased(g, t', id) && !(done <= id < range.start + range.count) {
      var p', s' :| DirtyAt(g, t', p', s', id);
      assert DirtyAt(g, t, p', s', id);
    }
    if PreErased(g, t, id) {
      var p', s' :| DirtyAt(g, t, p', s', id);
      assert DirtyAt(g, t', p', s', id);
    }
    if done <= id < range.start + range.count {
      assert DirtyAt(g, t', p, s, id);
    }
  }

  /** First PEB behind a portion that lies at least partly inside the volume. */
  function PortionEnd(g: Geometry, p: nat): nat {
    Mul(g.pebsPerPortion, p) + g.RestPebs(p)
  }

  function StripeStart(g: Geometry, p: nat, s: nat): nat
    requires g.stripes > 0
  {
    Mul(g.pebsPerPortion, p) + Mul(g.StripeStep(p), s)
  }

  /** A stripe describes what is left of its portion, up to the stripe size. */
  lemma StripeIs(g: Geometry, p: nat, s: nat)
    requires g.Valid() && g.pebsPerVolume < TWO64 && p < g.portions && s < g.stripes
    requires Mul(g.pebsPerPortion, p) < g.pebsPerVolume
    ensures var start, end, size := StripeStart(g, p, s), PortionEnd(g, p), g.StripeSize(p);
            && end <= g.pebsPerVolume && g.PebFragment(p, s).start == start
            && g.PebFragment(p, s).count ==
               if end <= start then 0 else if start + size <= end then size else end - start
  {
    RestIs(g, p);
    StripeBounds(g, p, s);
    hide Geometry.RestPebs, Geometry.StripeStep, Geometry.StripeSize, Geometry.Valid;
  }

  lemma NextStripe(g: Geometry, p: nat, s: nat)
    requires g.stripes > 0
    ensures StripeStart(g, p, s + 1) == StripeStart(g, p, s) + g.StripeStep(p)
    ensures StripeStart(g, p, 0) == Mul(g.pebsPerPortion, p)
  {
    hide Geometry.StripeStep;
    var step := g.StripeStep(p);
    assert step * (s + 1) == step * s + step;
  }

  lemma StripesAscend(g: Geometry, p: nat, s: nat, s': nat)
    requires g.stripes > 0 && s <= s'
    ensures StripeStart(g, p, s) <= StripeStart(g, p, s')
  {
    hide Geometry.StripeStep;
    var step := g.StripeStep(p);
    if s < s' {
      MulStep(s, s', step);
      assert step * s == s * step && step * s' == s' * step;
    }
  }

  /** The last stripe reaches the end of its portion. */
  lemma StripesReachEnd(g: Geometry, p: nat)
    requires g.Valid() && g.pebsPerVolume < TWO64 && p < g.portions && Mul(g.pebsPerPortion, p) < g.pebsPerVolume
    ensures PortionEnd(g, p) <= StripeStart(g, p, g.stripes)
    ensures 0 < g.StripeStep(p) && g.StripeSize(p) <= g.StripeStep(p)
    ensures g.StripeSize(p) == g.StripeStep(p) <==> StripesEven(g.RestPebs(p), g.stripes)
    ensures Mul(g.pebsPerPortion, p) < PortionEnd(g, p)
  {
    RestIs(g, p);
    StripeBounds(g, p, 0);
  }

  /** The stripes of a portion follow each other without a gap, and none starts behind the portion. */
  predicate StripesFollow(g: Geometry, p: nat)
    requires g.stripes > 0
  {
    StripesEven(g.RestPebs(p), g.stripes) && StripeStart(g, p, g.stripes - 1) <= PortionEnd(g, p)
  }

  /** The marking goes on at stripe `i` from `peb`: in its range, or anywhere behind its start if it is empty. */
  predicate Passes(g: Geometry, p: nat, i: nat, peb: nat)
    requires g.stripes > 0
  {
    var range := g.PebFragment(p, i);
    range.start <= peb && (range.count == 0 || peb < range.start + range.count)
  }

  /** One stripe: a PEB in front of it, or behind it, is a BUG_ON. */
  method MarkOneStripe(g: Geometry, t: Table, p: nat, i: nat, pebId: nat, ghost n: nat)
    returns (st: Status, t': Table, peb: nat)
    requires Usable(g) && Shaped(g, t) && p < g.portions && i < g.stripes
    requires g.PebFragment(p, i).start <= pebId ==> Marked(g, t, n, pebId)
    ensures st == if Passes(g, p, i, pebId) then Success else Bug
    ensures st == Success ==>
              peb == g.PebFragment(p, i).start + g.PebFragment(p, i).count && Shaped(g, t') && Keeps(t, t')
    ensures st == Success && (g.PebFragment(p, i).count > 0 || pebId == g.PebFragment(p, i).start) ==>
              Marked(g, t', n, peb)
  {
    hide Geometry.PebFragment, Geometry.LebFragment, LebTableOk, Used, PreErased, Filled, Geometry.Valid;
    var page := t.pebs[p][i];
    assert PebTableOk(page, g.PebFragment(p, i));
    var start, count := page.range.start, page.range.count;
    if pebId < start {
      return Bug, t, pebId;
    }
    if count == 0 {
      KeepsSame(t);
      return Success, t, start;
    }
    if pebId >= start + count {
      return Bug, t, pebId;
    }
    forall j | pebId - start <= j < count ensures page.descs[j] == BLANK {
      StillUnknown(g, t, n, pebId, p, i, j);
    }
    MarkStep(g, t, n, pebId, p, i);
    var page';
    st, page' := MarkStripe(page, pebId - start);
    t', peb := SetPage(t, p, i, page'), start + count;
  }

  /** PEB reached after the first `i` stripes. */
  ghost predicate Reached(g: Geometry, p: nat, i: nat, pebId: nat, peb: nat)
    requires g.stripes > 0
  {
    var end, step, size := PortionEnd(g, p), g.StripeStep(p), g.StripeSize(p);
    if i == 0 then peb == pebId
    else
      var start := StripeStart(g, p, i - 1);
      && start <= end && peb == (if start + size <= end then start + size else end)
      && (i >= 2 ==> size == step)
      && pebId < StripeStart(g, p, 0) + size && pebId < end
  }

  /** The marking can get through a portion from `pebId`. */
  predicate Through(g: Geometry, p: nat, pebId: nat)
    requires g.stripes > 0
  {
    StripesFollow(g, p) && pebId < g.PebFragment(p, 0).start + g.PebFragment(p, 0).count
  }

  /** The marking is in front of a stripe that it has not reached: the first stripe is empty. */
  predicate Stuck(g: Geometry, p: nat, i: nat, pebId: nat, peb: nat)
    requires g.stripes > 0
  {
    0 < i < g.stripes && peb < g.PebFragment(p, i).start && !Through(g, p, pebId)
  }

  /** Passing one more stripe means that it follows the previous one; failing means that it does not. */
  lemma ReachNext(g: Geometry, p: nat, i: nat, pebId: nat, peb: nat)
    requires g.Valid() && g.pebsPerVolume < TWO64 && p < g.portions && i < g.stripes
    requires Mul(g.pebsPerPortion, p) <= pebId && Mul(g.pebsPerPortion, p) < g.pebsPerVolume
    requires Reached(g, p, i, pebId, peb)
    ensures var range := g.PebFragment(p, i);
            if Passes(g, p, i, peb)
              then
              || (Reached(g, p, i + 1, pebId, range.start + range.count) && (range.count > 0 || peb == range.start))
              || Stuck(g, p, i + 1, pebId, range.start + range.count)
              else !Through(g, p, pebId)
  {
    hide Geometry.PebFragment, Geometry.RestPebs, Geometry.StripeStep, Geometry.StripeSize, StripeStart, PortionEnd,
      StripesEven, Mul, DivCeil;
    StripeIs(g, p, i);
    StripeIs(g, p, 0);
    if i + 1 < g.stripes { StripeIs(g, p, i + 1); }
    StripesReachEnd(g, p);
    NextStripe(g, p, i);
    if i > 0 { NextStripe(g, p, i - 1); }
    StripesAscend(g, p, i, g.stripes - 1);
    if g.stripes == 1 { OneStripeEven(g, p); }
  }

  lemma ReachEnd(g: Geometry, p: nat, pebId: nat, peb: nat)
    requires g.Valid() && g.pebsPerVolume < TWO64 && p < g.portions
    requires Mul(g.pebsPerPortion, p) <= pebId && Mul(g.pebsPerPortion, p) < g.pebsPerVolume
    requires Reached(g, p, g.stripes, pebId, peb)
    ensures Through(g, p, pebId) && peb == PortionEnd(g, p)
  {
    StripesReachEnd(g, p);
    StripeIs(g, p, 0);
    NextStripe(g, p, g.stripes - 1);
    if g.stripes == 1 { OneStripeEven(g, p); }
    hide Geometry.PebFragment, Geometry.RestPebs, Geometry.StripeStep, Geometry.StripeSize, Geometry.Valid,
      StripeStart, PortionEnd, StripesEven, Mul;
  }

  lemma OneStripeEven(g: Geometry, p: nat)
    requires g.stripes == 1
    ensures StripesEven(g.RestPebs(p), g.stripes)
  {
  }

  /** State in front of stripe `i` of a portion that the marking entered at `pebId`. */
  ghost predicate Going(g: Geometry, t: Table, p: nat, i: nat, pebId: nat, peb: nat, n: nat)
  {
    && Usable(g) && Shaped(g, t) && p < g.portions && i <= g.stripes
    && Mul(g.pebsPerPortion, p) <= pebId && Mul(g.pebsPerPortion, p) < g.pebsPerVolume
    && ((Marked(g, t, n, peb) && Reached(g, p, i, pebId, peb)) || Stuck(g, p, i, pebId, peb))
  }

  method MarkNextStripe(g: Geometry, t: Table, p: nat, i: nat, ghost pebId: nat, peb: nat, ghost n: nat)
    returns (st: Status, t': Table, peb': nat)
    requires Going(g, t, p, i, pebId, peb, n) && i < g.stripes
    ensures st == Success || st == Bug
    ensures if st == Success then Going(g, t', p, i + 1, pebId, peb', n) && Keeps(t, t') else !Through(g, p, pebId)
  {
    hide Geometry.PebFragment, Geometry.Valid, Reached, Marked, Through, Mul, Shaped;
    if !Stuck(g, p, i, pebId, peb) {
      ReachNext(g, p, i, pebId, peb);
    }
    st, t', peb' := MarkOneStripe(g, t, p, i, peb, n);
  }

  /**
   * The loop of mark_unallocated_pebs_as_pre_erased over the stripes of one portion, from PEB `pebId` on. It
   * gets through exactly when `pebId` is in the first stripe and the stripes follow each other.
   */
  method MarkPortion(g: Geometry, t: Table, p: nat, pebId: nat, ghost n: nat)
    returns (st: Status, t': Table, peb: nat)
    requires Marked(g, t, n, pebId) && p < g.portions
    requires Mul(g.pebsPerPortion, p) <= pebId && Mul(g.pebsPerPortion, p) < g.pebsPerVolume
    ensures st == if Through(g, p, pebId) then Success else Bug
    ensures st == Success ==> peb == PortionEnd(g, p) && Marked(g, t', n, peb) && Keeps(t, t')
  {
    hide Geometry.PebFragment, Geometry.Valid, Through, PortionEnd, Mul, Shaped, Used, PreErased;
    t', peb := t, pebId;
    KeepsSame(t);
    assert Going(g, t, p, 0, pebId, peb, n);
    var i := 0;
    while i < g.stripes
      invariant i <= g.stripes && Going(g, t', p, i, pebId, peb, n) && Keeps(t, t')
    {
      hide Going, Keeps;
      ghost var t1 := t';
      st, t', peb := MarkNextStripe(g, t', p, i, pebId, peb, n);
      if st != Success {
        return;
      }
      KeepsTwice(t, t1, t');
      i := i + 1;
    }
    ReachEnd(g, p, pebId, peb);
    st := Success;
  }

  /** All LEBs of the metadata take their PEBs from the first stripe of their portion (see `FirstStripe`). */
  predicate OneStripe(g: Geometry) {
    g.stripes == 1 || g.pebsPerSeg <= g.stripes
  }

  lemma FirstStripe(g: Geometry, leb: nat)
    requires g.Valid() && leb < g.pebsPerVolume && OneStripe(g)
    ensures StripeOf(g, leb) == 0
  {
    hide PlaceOf, Geometry.LebFragment, DivCeil;
    if g.stripes == 1 {
      SingleStripeSlot(g, leb);
    } else {
      ModUnique(leb % g.pebsPerSeg, g.pebsPerSeg, 0, leb % g.pebsPerSeg);
    }
  }

  /**
   * With more PEBs in a segment than stripes, the last PEB of the last segment is not in the first stripe. The marking
   * starts there with the next LEB, and the first stripe that it visits is a BUG_ON, unless the metadata ends with a
   * portion.
   */
  lemma SpreadNotMarked(g: Geometry, leb: nat, peb: nat)
    requires Usable(g) && 1 < g.stripes < g.pebsPerSeg && 0 < leb < g.pebsPerVolume
    requires leb % g.pebsPerSeg == 0 && leb % g.pebsPerPortion != 0 && InOwnStripe(g, leb - 1, peb)
    ensures StripeOf(g, leb) == 0 && !Passes(g, leb / g.pebsPerPortion, StripeOf(g, leb), peb + 1)
  {
    hide StripeOf, StripeRule, DivCeil, Geometry.PebFragment, Passes, InOwnStripe, Range.Covers, Geometry.Valid;
    FirstOfSegment(g, leb);
    PortionBelow(g, leb);
    SameQuotient(leb, g.pebsPerPortion);
    var s := OwnStripe(g, leb - 1, peb);
    LastOfSegment(g, leb, s);
    BehindFirstStripe(g, leb / g.pebsPerPortion, s, peb);
  }

  lemma PortionBelow(g: Geometry, leb: nat)
    requires g.Valid() && leb < g.pebsPerVolume
    ensures 0 < g.pebsPerPortion && 0 < g.pebsPerSeg && leb / g.pebsPerPortion < g.portions
  {
    hide DivCeil;
    QuotientBelow(leb, g.pebsPerPortion, g.portions);
  }

  lemma OwnStripe(g: Geometry, leb: nat, peb: nat) returns (s: nat)
    requires 0 < g.stripes && 0 < g.pebsPerSeg && 0 < g.pebsPerPortion && InOwnStripe(g, leb, peb)
    ensures s < g.stripes && StripeRule(g, leb, s) && g.PebFragment(leb / g.pebsPerPortion, s).Covers(peb)
  {
    hide StripeRule, Geometry.PebFragment, Range.Covers;
    s :| s < g.stripes && StripeRule(g, leb, s) && g.PebFragment(leb / g.pebsPerPortion, s).Covers(peb);
  }

  lemma SameQuotient(x: nat, p: nat)
    requires p > 0 && x % p != 0
    ensures x > 0 && (x - 1) / p == x / p
  {
    ModUnique(x - 1, p, x / p, x % p - 1);
  }

  lemma FirstOfSegment(g: Geometry, leb: nat)
    requires g.Valid() && 1 < g.stripes < g.pebsPerSeg && leb < g.pebsPerVolume && leb % g.pebsPerSeg == 0
    ensures StripeOf(g, leb) == 0
  {
    hide StripeOf, DivCeil;
    CeilIsLeast(g.pebsPerSeg, g.stripes);
    assert LeastCount(DivCeil(g.pebsPerSeg, g.stripes), g.pebsPerSeg, g.stripes);
    assert StripeRule(g, leb, 0);
    hide StripeRule;
    StripeUnique(g, leb, 0);
  }

  lemma LastOfSegment(g: Geometry, leb: nat, s: nat)
    requires 1 < g.stripes < g.pebsPerSeg && 0 < leb && leb % g.pebsPerSeg == 0 && StripeRule(g, leb - 1, s)
    ensures s > 0
  {
    hide LeastCount;
    var c := g.pebsPerSeg;
    LastRemainder(leb, c);
    var n: nat :| LeastCount(n, c, g.stripes) && s * n <= (leb - 1) % c < s * n + n;
    ShareBelow(n, c, g.stripes);
    assert s * n > 0;
  }

  lemma LastRemainder(x: nat, c: nat)
    requires c > 0 && x > 0 && x % c == 0
    ensures (x - 1) % c == c - 1
  {
    assert x == x / c * c && x / c > 0;
    assert x - 1 == (x / c - 1) * c + (c - 1);
    ModUnique(x - 1, c, x / c - 1, c - 1);
  }

  /** A share is not a whole segment. */
  lemma ShareBelow(n: nat, c: nat, stripes: nat)
    requires 1 < stripes < c && LeastCount(n, c, stripes)
    ensures n < c
  {
    MulMonotone(2, stripes, n - 1);
    MulSwap(stripes, n - 1);
  }

  lemma BehindFirstStripe(g: Geometry, p: nat, s: nat, peb: nat)
    requires Usable(g) && p < g.portions && 0 < s < g.stripes && g.PebFragment(p, s).Covers(peb)
    ensures !Passes(g, p, 0, peb + 1)
  {
    hide DivCeil, Geometry.RestPebs, Geometry.StripeStep, Geometry.StripeSize;
    CoversIff(g, p, s, peb);
    StripeBounds(g, p, s);
    MulMonotone(1, s, g.StripeStep(p));
    assert s * g.StripeStep(p) == g.StripeStep(p) * s;
  }

  function Upto(n: nat): (r: seq<nat>)
    ensures |r| == n && forall i :: 0 <= i < n ==> r[i] == i
  {
    seq(n, i => i)
  }

  /** The stripe of a LEB starts no later than the LEB itself. */
  lemma StripeStartsBelow(g: Geometry, leb: nat)
    requires g.Valid() && leb < g.pebsPerVolume && OneStripe(g)
    ensures LebStripe(g, leb).start <= leb
  {
    FirstStripe(g, leb);
    PortionFacts(g, leb);
    LocateAgrees(g, leb);
    hide Geometry.Locate, Geometry.Valid, Geometry.StripeStep, Geometry.StripeSize, StripeOf, Geometry.LebFragment,
      DivCeil;
    assert Mul(g.StripeStep(PlaceOf(g, leb).portion), 0) == 0;
  }

  /** Mapping the LEBs below `n` in order, into an unused table, uses exactly the PEBs below `n`. */
  lemma {:induction false} InOrderRun(g: Geometry, t0: Table, t: Table, n: nat, pebs: seq<nat>)
    requires Run(g, t0, t, Upto(n), pebs) && OneStripe(g) && forall id: nat :: !Used(g, t0, id)
    ensures pebs == Upto(n) && forall id: nat :: Used(g, t, id) <==> id < n
    ensures n <= g.pebsPerVolume && forall k :: 0 <= k < n ==> LebStripe(g, k).Covers(k)
  {
    hide Run, Used, Shaped, Geometry.Valid, LebStripe, FirstFree, Upto;
    RunParts(g, t0, t, Upto(n), pebs);
    var i := 0;
    NothingUpto(pebs);
    while i < n
      invariant i <= n && i <= g.pebsPerVolume && pebs[..i] == Upto(i)
      invariant forall k :: 0 <= k < i ==> LebStripe(g, k).Covers(k)
    {
      assert FirstFree(g, t0, pebs[..i], Upto(n)[i], pebs[i]) && pebs[i] !in pebs[..i];
      InOrderNext(g, t0, i, pebs[i]);
      assert pebs[..i + 1] == pebs[..i] + [i];
      UptoNext(i);
      i := i + 1;
    }
    assert pebs[..n] == pebs && pebs == Upto(n);
    forall id: nat ensures Used(g, t, id) <==> id < n {
      InUpto(n, id);
      assert Used(g, t, id) <==> Used(g, t0, id) || id in pebs;
      assert !Used(g, t0, id);
    }
  }

  lemma NothingUpto(pebs: seq<nat>)
    ensures pebs[..0] == Upto(0)
  {
  }

  lemma UptoNext(n: nat)
    ensures Upto(n + 1) == Upto(n) + [n]
  {
  }

  lemma RunParts(g: Geometry, t0: Table, t: Table, lebs: seq<nat>, pebs: seq<nat>)
    requires Run(g, t0, t, lebs, pebs)
    ensures g.Valid() && g.stripes > 0 && Shaped(g, t0) && Shaped(g, t) && |lebs| == |pebs|
    ensures forall i :: 0 <= i < |pebs| ==>
              lebs[i] < g.pebsPerVolume && FirstFree(g, t0, pebs[..i], lebs[i], pebs[i]) && pebs[i] !in pebs[..i]
    ensures forall id: nat :: Used(g, t, id) <==> Used(g, t0, id) || id in pebs
  {
    hide Used, Lookup, LebStripe, Shaped, Consistent, DivCeil, NoDirty, TotalMapped, FirstFree, OthersKept;
  }

  lemma InUpto(n: nat, id: nat)
    ensures id in Upto(n) <==> id < n
  {
    if id < n {
      assert Upto(n)[id] == id;
    }
  }

  /** The first free PEB, when those below `i` are taken, is `i`. */
  lemma InOrderNext(g: Geometry, t0: Table, i: nat, peb: nat)
    requires g.Valid() && Shaped(g, t0) && OneStripe(g) && i < g.pebsPerVolume && (forall id: nat :: !Used(g, t0, id))
    requires FirstFree(g, t0, Upto(i), i, peb) && peb !in Upto(i)
    ensures peb == i && LebStripe(g, i).Covers(i)
  {
    hide Used, Shaped, Geometry.Valid, LebStripe, Upto;
    StripeStartsBelow(g, i);
    InUpto(i, i);
    InUpto(i, peb);
  }

  /** Portion of a PEB or LEB. */
  function PortionAt(g: Geometry, id: nat): nat
    requires g.pebsPerPortion > 0
  {
    id / g.pebsPerPortion
  }

  /**
   * When the PEBs from `id` on can be marked: the first stripe of the portion has a PEB left, the stripes of
   * the last portion follow each other, and no portion has a second page of LEBs.
   */
  predicate Markable(g: Geometry, id: nat)
    requires g.stripes > 0 && g.pebsPerPortion > 0
  {
    || id >= g.pebsPerVolume
    || (var p := PortionAt(g, id);
        && Through(g, p, id) && StripesFollow(g, PortionAt(g, g.pebsPerVolume - 1))
        && (|| g.pebsPerPortion <= LEB_DESC_PER_FRAGMENT
            || g.pebsPerVolume <= Mul(g.pebsPerPortion, p) + LEB_DESC_PER_FRAGMENT))
  }

  /** Portion and ids around a LEB. */
  lemma PortionFacts(g: Geometry, id: nat)
    requires g.Valid() && id < g.pebsPerVolume
    ensures var p := PortionAt(g, id);
            && p < g.portions && Mul(g.pebsPerPortion, p) <= id < Mul(g.pebsPerPortion, p) + g.pebsPerPortion
            && Mul(g.pebsPerPortion, p + 1) == Mul(g.pebsPerPortion, p) + g.pebsPerPortion
  {
    var p := PortionOf(g, id);
    ModUnique(id, g.pebsPerPortion, p, id - g.pebsPerPortion * p);
  }

  lemma PortionIs(g: Geometry, p: nat, id: nat)
    requires g.pebsPerPortion > 0 && Mul(g.pebsPerPortion, p) <= id < Mul(g.pebsPerPortion, p) + g.pebsPerPortion
    ensures PortionAt(g, id) == p
  {
    ModUnique(id, g.pebsPerPortion, p, id - g.pebsPerPortion * p);
  }

  /** A portion that is not the last one has stripes that follow each other. */
  lemma FullFollow(g: Geometry, p: nat)
    requires g.Valid() && g.pebsPerVolume < TWO64 && p < g.portions
    requires Mul(g.pebsPerPortion, p) + g.pebsPerPortion <= g.pebsPerVolume
    ensures StripesFollow(g, p) && g.RestPebs(p) == g.pebsPerPortion
  {
    RestIs(g, p);
    StripeBounds(g, p, g.stripes - 1);
    ModUnique(g.pebsPerPortion, g.stripes, g.pebsPerStripe, 0);
    hide Geometry.RestPebs, Geometry.StripeStep, Geometry.StripeSize;
  }

  /** The marking gets through a portion that it enters at its start exactly when the stripes follow. */
  lemma ThroughFromStart(g: Geometry, p: nat)
    requires g.Valid() && g.pebsPerVolume < TWO64 && p < g.portions && Mul(g.pebsPerPortion, p) < g.pebsPerVolume
    ensures Through(g, p, Mul(g.pebsPerPortion, p)) <==> StripesFollow(g, p)
  {
    StripeIs(g, p, 0);
    NextStripe(g, p, 0);
    StripesReachEnd(g, p);
    hide Geometry.PebFragment, Geometry.RestPebs, Geometry.StripeStep, Geometry.StripeSize, Geometry.Valid,
      StripeStart, PortionEnd, StripesEven, Mul;
  }

  lemma PortionEndIs(g: Geometry, p: nat)
    requires g.Valid() && g.pebsPerVolume < TWO64 && p < g.portions && Mul(g.pebsPerPortion, p) < g.pebsPerVolume
    ensures var base, per := Mul(g.pebsPerPortion, p), g.pebsPerPortion;
            PortionEnd(g, p) == if g.pebsPerVolume - base <= per then g.pebsPerVolume else base + per
  {
    RestIs(g, p);
  }

  /** End of the LEB page that is in front of the marking. */
  function LebPageEnd(g: Geometry, leb: nat): nat
    requires g.Valid() && leb < g.pebsPerVolume
  {
    var at := PlaceOf(g, leb);
    g.LebFragment(at.portion, at.page).start + g.LebFragment(at.portion, at.page).count
  }

  /** The page is the first one of its portion. */
  lemma LebPageEndIs(g: Geometry, leb: nat)
    requires g.Valid() && leb < g.pebsPerVolume
    requires leb - Mul(g.pebsPerPortion, PortionAt(g, leb)) < LEB_DESC_PER_FRAGMENT
    ensures var base, per := Mul(g.pebsPerPortion, PortionAt(g, leb)), g.pebsPerPortion;
            var size := if per <= LEB_DESC_PER_FRAGMENT then per else LEB_DESC_PER_FRAGMENT;
            LebPageEnd(g, leb) == if g.pebsPerVolume <= base + size then g.pebsPerVolume else base + size
  {
    hide DivCeil;
    PortionFacts(g, leb);
    LocateIndexes(g, leb);
    ModUnique(leb, g.pebsPerPortion, PortionAt(g, leb), leb - Mul(g.pebsPerPortion, PortionAt(g, leb)));
  }

  /** Through a portion from `id` means that `id` is on the first page of LEBs. */
  lemma ThroughFirstPage(g: Geometry, id: nat)
    requires g.Valid() && g.pebsPerVolume < TWO64 && id < g.pebsPerVolume && Through(g, PortionAt(g, id), id)
    ensures id - Mul(g.pebsPerPortion, PortionAt(g, id)) < PEB_DESC_PER_FRAGMENT
    ensures StripesFollow(g, PortionAt(g, id))
  {
    var p := PortionAt(g, id);
    PortionFacts(g, id);
    StripeFitsPage(g, p, 0);
    StripeIs(g, p, 0);
    NextStripe(g, p, 0);
    hide Geometry.PebFragment, Geometry.RestPebs, Geometry.StripeStep, Geometry.StripeSize, Geometry.Valid,
      StripeStart, PortionEnd, StripesEven, Mul;
  }

  /** Where the marking stands in front of a LEB page, having started at `n`. */
  predicate InFront(g: Geometry, n: nat, leb: nat, peb: nat)
    requires g.stripes > 0 && g.pebsPerPortion > 0
  {
    || (leb == peb <= g.pebsPerVolume && (Markable(g, n) <==> Markable(g, leb)))
    || (leb < g.pebsPerVolume && Mul(g.pebsPerPortion, PortionAt(g, leb)) <= peb
        && !Through(g, PortionAt(g, leb), peb) && !Markable(g, n))
  }

  /** The portion behind a full one can be entered at its start, if the stripes of the last one follow. */
  lemma NextPortion(g: Geometry, p: nat)
    requires g.Valid() && g.pebsPerVolume < TWO64 && Mul(g.pebsPerPortion, p) + g.pebsPerPortion < g.pebsPerVolume
    ensures var id := Mul(g.pebsPerPortion, p) + g.pebsPerPortion;
            && PortionAt(g, id) == p + 1 && Mul(g.pebsPerPortion, p + 1) == id
            && (StripesFollow(g, PortionAt(g, g.pebsPerVolume - 1)) ==> Through(g, p + 1, id))
  {
    hide Through, StripesFollow, PortionAt, DivCeil;
    var id, per := Mul(g.pebsPerPortion, p) + g.pebsPerPortion, g.pebsPerPortion;
    assert per * (p + 1) == per * p + per;
    PortionIs(g, p + 1, id);
    PortionFacts(g, id);
    ThroughFromStart(g, p + 1);
    if id + per <= g.pebsPerVolume {
      FullFollow(g, p + 1);
    } else {
      PortionIs(g, p + 1, g.pebsPerVolume - 1);
    }
  }

  lemma NotThroughAtEnd(g: Geometry, p: nat)
    requires g.Valid() && g.pebsPerVolume < TWO64 && p < g.portions && Mul(g.pebsPerPortion, p) < g.pebsPerVolume
    ensures !Through(g, p, PortionEnd(g, p))
  {
    hide Geometry.PebFragment, Geometry.RestPebs, Geometry.StripeStep, Geometry.StripeSize, StripeStart, PortionEnd,
      StripesFollow, Mul, DivCeil;
    StripeIs(g, p, 0);
    StripesReachEnd(g, p);
    NextStripe(g, p, 0);
  }

  /** After a portion, the marking stands in front of the next one, or of a second page where it must stop. */
  lemma NextPage(g: Geometry, leb: nat)
    requires g.Valid() && g.pebsPerVolume < TWO64 && leb < g.pebsPerVolume && Through(g, PortionAt(g, leb), leb)
    ensures leb < LebPageEnd(g, leb) && InFront(g, leb, LebPageEnd(g, leb), PortionEnd(g, PortionAt(g, leb)))
  {
    hide Geometry.PebFragment, Geometry.RestPebs, Geometry.StripeStep, Geometry.StripeSize, StripeStart, PortionEnd,
      StripesEven, StripesFollow, Mul, PortionAt, DivCeil, LebPageEnd, Through;
    var p, per := PortionAt(g, leb), g.pebsPerPortion;
    var base := Mul(per, p);
    PortionFacts(g, leb);
    ThroughFirstPage(g, leb);
    LebPageEndIs(g, leb);
    PortionEndIs(g, p);
    PortionFacts(g, g.pebsPerVolume - 1);
    if base + per >= g.pebsPerVolume {
      PortionIs(g, p, g.pebsPerVolume - 1);
    }
    NotThroughAtEnd(g, p);
    if per <= LEB_DESC_PER_FRAGMENT || g.pebsPerVolume <= base + LEB_DESC_PER_FRAGMENT {
      if base + per < g.pebsPerVolume {
        NextPortion(g, p);
      }
    } else {
      PortionIs(g, p, base + LEB_DESC_PER_FRAGMENT);
    }
  }

  /** One or two stripes always follow each other. */
  lemma TwoStripesFollow(g: Geometry, p: nat)
    requires g.Valid() && g.pebsPerVolume < TWO64 && p < g.portions && Mul(g.pebsPerPortion, p) < g.pebsPerVolume
    requires g.stripes <= 2
    ensures StripesFollow(g, p)
  {
    RestIs(g, p);
    hide StripesEven, DivCeil, Mul, Geometry.RestPebs, Geometry.Valid;
    TwoStripesNumbers(g.RestPebs(p), g.stripes);
  }

  lemma TwoStripesNumbers(pebs: nat, stripes: nat)
    requires 0 < stripes <= 2 && 0 < pebs
    ensures StripesEven(pebs, stripes) && Mul(DivCeil(pebs, stripes), stripes - 1) <= pebs
  {
    StepAtMostRest(pebs, stripes);
    if stripes == 1 {} else {}
  }

  /** The descriptors after the marking: those below `n` are as before, the others say pre-erased and no type. */
  ghost predicate Erasable(g: Geometry, t: Table, t': Table, n: nat)
    requires g.stripes > 0 && Shaped(g, t) && Shaped(g, t')
  {
    && (forall id: nat, desc: PebDesc :: id < n ==> (DescIs(g, t', id, desc) <==> DescIs(g, t, id, desc)))
    && (forall id: nat :: n <= id < g.pebsPerVolume ==> DescIs(g, t', id, PebDesc(0, PreEraseState)))
  }

  lemma MarkedDescs(g: Geometry, t: Table, t': Table, n: nat)
    requires Usable(g) && Shaped(g, t) && Keeps(t, t') && Marked(g, t', n, g.pebsPerVolume)
    requires forall id: nat :: Used(g, t, id) <==> id < n
    ensures g.stripes > 0 && Shaped(g, t') && Erasable(g, t, t', n)
  {
    hide Shaped, Used, PreErased, DescIs, Keeps, DivCeil;
    forall id: nat, desc: PebDesc | id < n ensures DescIs(g, t', id, desc) <==> DescIs(g, t, id, desc) {
      DescKept(g, t, t', id, desc);
    }
    forall id: nat | n <= id < g.pebsPerVolume ensures DescIs(g, t', id, PebDesc(0, PreEraseState)) {
      ErasedDescribed(g, t', id);
      DescriptorStates(g, t', id);
    }
  }

  lemma ErasedDescribed(g: Geometry, t: Table, id: nat)
    requires Usable(g) && Shaped(g, t) && PreErased(g, t, id)
    ensures Described(g, id)
  {
    hide Shaped, Geometry.PebFragment, DivCeil;
    var p, s :| DirtyAt(g, t, p, s, id);
  }

  /**
   * mark_unallocated_pebs_as_pre_erased, when the LEBs and the PEBs below `n` are in use. A volume that is going to
   * be erased is left alone. Otherwise it succeeds exactly when `Markable`, and then every PEB of the volume is
   * either used, with its descriptor as before, or pre-erased.
   */
  method MarkUnallocated(m: MapTbl, n: nat, needErase: bool) returns (st: Status, preErased: nat)
    requires m.Ok() && OneStripe(m.g) && 0 < n <= m.g.pebsPerVolume
    requires forall id: nat :: Used(m.g, m.t, id) <==> id < n
    modifies m`t
    ensures needErase ==> st == Success && m.t == old(m.t) && preErased == 0
    ensures !needErase ==> st == if Markable(m.g, n) then Success else Bug
    ensures st != Success ==> m.t == old(m.t)
    ensures !needErase && st == Success ==>
              && Marked(m.g, m.t, n, m.g.pebsPerVolume) && preErased == m.g.pebsPerVolume - n
              && Erasable(m.g, old(m.t), m.t, n)
    ensures m.t.lebs == old(m.t.lebs)
  {
    if needErase {
      return Success, 0;
    }
    var g, t := m.g, m.t;
    NoneMarked(g, t, n);
    hide Geometry.PebFragment, Geometry.LebFragment, Geometry.Valid, Through, PortionEnd, Mul, Shaped, Used, PreErased;
    KeepsSame(t);
    var leb, peb := n, n;
    while leb < g.pebsPerVolume
      invariant Usable(g) && Marked(g, t, n, peb) && InFront(g, n, leb, peb)
      invariant m.t == old(m.t) && Keeps(m.t, t)
      decreases g.pebsPerVolume - leb
    {
      hide StripeOf, PlaceOf, Markable, Marked, PortionAt, Keeps;
      PortionFacts(g, leb);
      FirstStripe(g, leb);
      assert StripeOf(g, leb) == 0;
      var p := PortionAt(g, leb);
      ghost var t1 := t;
      st, t, peb := MarkPortion(g, t, p, peb, n);
      if st != Success {
        return Bug, 0;
      }
      KeepsTwice(m.t, t1, t);
      NextPage(g, leb);
      leb := LebPageEnd(g, leb);
    }
    MarkedDescs(g, m.t, t, n);
    m.t := t;
    return Success, g.pebsPerVolume - n;
  }

  lemma NoneMarked(g: Geometry, t: Table, n: nat)
    requires Valid(g, t) && forall id: nat :: Used(g, t, id) <==> id < n
    ensures Marked(g, t, n, n)
  {
  }

  /** With one or two stripes it is enough that the first stripe of the portion has a PEB left. */
  lemma MarkableTwoStripes(g: Geometry, n: nat)
    requires Usable(g) && g.stripes <= 2 && n < g.pebsPerVolume
    ensures Markable(g, n) <==> n < PebEnd(g, PortionAt(g, n), 0)
  {
    hide PebEnd, DivCeil;
    PortionFacts(g, n);
    PortionFacts(g, g.pebsPerVolume - 1);
    TwoStripesFollow(g, PortionAt(g, n));
    TwoStripesFollow(g, PortionAt(g, g.pebsPerVolume - 1));
    PortionSmall(g);
    PebEndIs(g, PortionAt(g, n), 0);
    hide Geometry.PebFragment, Geometry.RestPebs, Geometry.StripeStep, Geometry.StripeSize, StripesFollow, PortionAt,
      Mul;
  }

  function PebEnd(g: Geometry, p: nat, s: nat): nat
    requires g.stripes > 0
  {
    g.PebFragment(p, s).start + g.PebFragment(p, s).count
  }

  lemma PebEndIs(g: Geometry, p: nat, s: nat)
    requires g.stripes > 0
    ensures PebEnd(g, p, s) == g.PebFragment(p, s).start + g.PebFragment(p, s).count
  {
  }

  lemma PortionSmall(g: Geometry)
    requires g.Valid() && g.stripes <= 2
    ensures g.pebsPerPortion <= LEB_DESC_PER_FRAGMENT
  {
    hide DivCeil;
    AtMostTwice(g.pebsPerStripe, g.stripes);
  }

  lemma AtMostTwice(a: nat, s: nat)
    requires s <= 2
    ensures a * s <= 2 * a
  {
    if s == 0 {} else if s == 1 {} else {}
  }

  lemma UptoPrefix(n: nat, k: nat)
    requires k <= n
    ensures Upto(n)[..k] == Upto(k)
  {
  }

  /** The run stopped at LEB `k` because all PEBs of its stripe are used. */
  lemma StripeFull(g: Geometry, t: Table, k: nat)
    requires Usable(g) && Shaped(g, t) && k < g.pebsPerVolume && (forall id: nat :: Used(g, t, id) <==> id < k)
    requires NoneFree(g, t, k)
    ensures !LebStripe(g, k).Covers(k)
  {
    hide Used, LebStripe, Shaped;
    assert !Used(g, t, k);
  }

  /**
   * The mapping part of mkfs: the LEBs below `n` are mapped in order into an unused table, then the PEBs left
   * are marked. It succeeds exactly when every LEB finds the PEB of its own number in its stripe and the rest is
   * markable; then each PEB below `n` is in use with its LEB's type and each other PEB of the volume is pre-erased.
   */
  method MapAndMark(m: MapTbl, ids: seq<U64>, kinds: seq<PebType>, n: nat) returns (st: Status, preErased: nat)
    requires |kinds| == |ids| && m.Ok() && OneStripe(m.g) && 0 < n <= m.g.pebsPerVolume && Allocated(ids) == Upto(n)
    requires forall id: nat :: !Used(m.g, m.t, id)
    requires forall leb: nat :: leb < m.g.pebsPerVolume ==> Lookup(m.g, m.t, leb).None?
    modifies m`t
    ensures st == if exists k :: 0 <= k < n && !LebStripe(m.g, k).Covers(k) then Error(ERANGE)
                  else if Markable(m.g, n) then Success else Bug
    ensures st == Success ==>
              && Marked(m.g, m.t, n, m.g.pebsPerVolume) && preErased == m.g.pebsPerVolume - n
              && TotalMapped(m.t.lebs) == TotalMapped(old(m.t.lebs)) + n
              && (forall id: nat :: id < n ==>
                    DescIs(m.g, m.t, id, PebDesc(AllocatedKinds(ids, kinds)[id], UsingState)))
              && (forall id: nat :: n <= id < m.g.pebsPerVolume ==>
                    DescIs(m.g, m.t, id, PebDesc(0, PreEraseState)))
  {
    hide Used, Lookup, LebStripe, Shaped, Consistent, Geometry.Valid, NoDirty, TotalMapped, Allocated, Marked,
      Markable, NoneFree, TooFar, Run, AllocatedKinds, DescIs;
    ghost var t0 := m.t;
    var pebs;
    st, pebs := MapAllocatedLebs(m, ids, kinds);
    ghost var k := |pebs|;
    UptoPrefix(n, k);
    InOrderRun(m.g, t0, m.t, k, pebs);
    if st != Success {
      InFirstStripe(m.g, m.t, k);
      StripeFull(m.g, m.t, k);
      return st, 0;
    }
    RunTotal(m.g, t0, m.t, Upto(n), pebs);
    st, preErased := MarkUnallocated(m, n, false);
  }

  lemma InFirstStripe(g: Geometry, t: Table, leb: nat)
    requires g.Valid() && leb < g.pebsPerVolume && OneStripe(g)
    ensures !TooFar(g, t, leb)
  {
    hide StripeOf, TooFar;
    FirstStripe(g, leb);
    NearEnough(g, t, leb);
  }

  lemma RunTotal(g: Geometry, t0: Table, t: Table, lebs: seq<nat>, pebs: seq<nat>)
    requires Run(g, t0, t, lebs, pebs)
    ensures TotalMapped(t.lebs) == TotalMapped(t0.lebs) + |lebs|
  {
    hide Used, Lookup, LebStripe, Shaped, Consistent, Geometry.Valid, NoDirty, TotalMapped;
  }
}
