/**
 * The PEB mapping table while mkfs fills it: find_unused_peb, define_peb_as_used, define_leb_as_mapped and
 * map_leb2peb (sbin/mkfs.ssdfs/mapping_table.c).
 */
module MapTable {
  import opened Types
  import opened Rounding
  import opened MapTableGeometry

  const BITS_PER_LONG: nat := 64
  /** Bits of one bitmap in the header of a PEB table page. */
  const BMAP_BITS: nat := 512

  datatype PebState = UnknownState | UsingState | PreEraseState

  /** Type of the PEB of a metadata segment; 0 is the unknown type. */
  type PebType = k: nat | 1 <= k <= 8 witness 1

  datatype PebDesc = PebDesc(kind: nat, state: PebState)

  const BLANK: PebDesc := PebDesc(0, UnknownState)

  /** One page of LEB descriptors: header range, mapped_lebs and the physical indexes (U16_MAX: not mapped). */
  datatype LebTable = LebTable(range: Range, mapped: nat, descs: seq<U16>)

  /** One page of PEB descriptors: header range, the used and dirty bitmaps and the descriptors. */
  datatype PebTable = PebTable(range: Range, used: seq<bool>, dirty: seq<bool>, descs: seq<PebDesc>)

  /** All pages: `lebs` by portion and page, `pebs` by portion and stripe. */
  datatype Table = Table(lebs: seq<seq<LebTable>>, pebs: seq<seq<PebTable>>)

  /** Number of descriptors that hold a physical index. */
  function CountMapped(descs: seq<U16>): (r: nat)
    ensures r <= |descs|
  {
    if descs == [] then 0
    else CountMapped(descs[..|descs| - 1]) + if descs[|descs| - 1] == U16_MAX then 0 else 1
  }

  lemma {:induction false} CountUpdate(descs: seq<U16>, i: nat, v: U16)
    requires i < |descs| && descs[i] == U16_MAX && v != U16_MAX
    ensures CountMapped(descs[i := v]) == CountMapped(descs) + 1
    ensures CountMapped(descs) < |descs|
  {
    var n := |descs| - 1;
    if i < n {
      CountUpdate(descs[..n], i, v);
      assert descs[i := v][..n] == descs[..n][i := v];
    } else {
      assert descs[i := v][..n] == descs[..n];
    }
  }

  function RowMapped(row: seq<LebTable>): nat {
    if row == [] then 0 else RowMapped(row[..|row| - 1]) + row[|row| - 1].mapped
  }

  /** Sum of mapped_lebs over all pages. */
  function TotalMapped(lebs: seq<seq<LebTable>>): nat {
    if lebs == [] then 0 else TotalMapped(lebs[..|lebs| - 1]) + RowMapped(lebs[|lebs| - 1])
  }

  lemma {:induction false} RowUpdate(row: seq<LebTable>, i: nat, t: LebTable)
    requires i < |row|
    ensures RowMapped(row[i := t]) + row[i].mapped == RowMapped(row) + t.mapped
  {
    var n := |row| - 1;
    if i < n {
      RowUpdate(row[..n], i, t);
      assert row[i := t][..n] == row[..n][i := t];
    } else {
      assert row[i := t][..n] == row[..n];
    }
  }

  lemma {:induction false} TotalUpdate(lebs: seq<seq<LebTable>>, p: nat, i: nat, t: LebTable)
    requires p < |lebs| && i < |lebs[p]|
    ensures TotalMapped(lebs[p := lebs[p][i := t]]) + lebs[p][i].mapped == TotalMapped(lebs) + t.mapped
  {
    var n := |lebs| - 1;
    var lebs' := lebs[p := lebs[p][i := t]];
    if p < n {
      TotalUpdate(lebs[..n], p, i, t);
      assert lebs'[..n] == lebs[..n][p := lebs[..n][p][i := t]];
    } else {
      assert lebs'[..n] == lebs[..n];
      RowUpdate(lebs[p], i, t);
    }
  }

  predicate LebTableOk(t: LebTable, range: Range) {
    && t.range == range && |t.descs| == LEB_DESC_PER_FRAGMENT && range.count <= LEB_DESC_PER_FRAGMENT
    && t.mapped == CountMapped(t.descs[..range.count])
  }

  predicate PebTableOk(t: PebTable, range: Range) {
    && t.range == range && range.count <= PEB_DESC_PER_FRAGMENT
    && |t.used| == BMAP_BITS && |t.dirty| == BMAP_BITS && |t.descs| == PEB_DESC_PER_FRAGMENT
    && forall i :: 0 <= i < range.count ==> DescFits(t.descs[i], t.used[i], t.dirty[i])
  }

  /** A used PEB is in use and has a type; a pre-erased one has the unknown type; no other PEB has a state. */
  predicate DescFits(desc: PebDesc, used: bool, dirty: bool) {
    if used then !dirty && desc.state == UsingState && 1 <= desc.kind <= 8
    else desc == PebDesc(0, if dirty then PreEraseState else UnknownState)
  }

  /** Shape of the table: one page per fragment of the geometry, each with a consistent header. */
  predicate Shaped(g: Geometry, t: Table)
    requires g.stripes > 0
  {
    && |t.lebs| == g.portions && |t.pebs| == g.portions
    && (forall p :: 0 <= p < g.portions ==> |t.lebs[p]| == g.lebPages && |t.pebs[p]| == g.stripes)
    && (forall p, m :: 0 <= p < g.portions && 0 <= m < g.lebPages ==> LebTableOk(t.lebs[p][m], g.LebFragment(p, m)))
    && (forall p, s :: 0 <= p < g.portions && 0 <= s < g.stripes ==> PebTableOk(t.pebs[p][s], g.PebFragment(p, s)))
  }

  /** The used bit of a PEB, wherever it is described. */
  ghost predicate Used(g: Geometry, t: Table, id: nat)
    requires g.stripes > 0 && Shaped(g, t)
  {
    exists p, s :: UsedAt(g, t, p, s, id)
  }

  ghost predicate UsedAt(g: Geometry, t: Table, p: int, s: int, id: nat)
    requires g.stripes > 0 && Shaped(g, t)
  {
    && 0 <= p < g.portions && 0 <= s < g.stripes
    && g.PebFragment(p, s).Covers(id) && t.pebs[p][s].used[id - g.PebFragment(p, s).start]
  }

  /** The descriptor that the table holds for a PEB, wherever it is described. */
  ghost predicate DescIs(g: Geometry, t: Table, id: nat, desc: PebDesc)
    requires g.stripes > 0 && Shaped(g, t)
  {
    exists p, s :: DescAt(g, t, p, s, id, desc)
  }

  ghost predicate DescAt(g: Geometry, t: Table, p: int, s: int, id: nat, desc: PebDesc)
    requires g.stripes > 0 && Shaped(g, t)
  {
    && 0 <= p < g.portions && 0 <= s < g.stripes
    && g.PebFragment(p, s).Covers(id) && t.pebs[p][s].descs[id - g.PebFragment(p, s).start] == desc
  }

  /** Portion, page and slot of a LEB's descriptor. */
  datatype Place = Place(portion: nat, page: nat, slot: nat)

  function PlaceOf(g: Geometry, leb: nat): (r: Place)
    requires g.Valid() && leb < g.pebsPerVolume
    ensures r.portion < g.portions && r.page < g.lebPages && r.slot < LEB_DESC_PER_FRAGMENT
    ensures g.LebFragment(r.portion, r.page).Covers(leb) && r.slot == leb - g.LebFragment(r.portion, r.page).start
  {
    hide DivCeil, Geometry.LebFragment, Geometry.Locate;
    LocateAgrees(g, leb);
    var at := g.Locate(leb);
    Place(leb / g.pebsPerPortion, at.page, at.slot)
  }

  /** What the table says about a LEB: the PEB designated by its physical index, if it has one. */
  function Lookup(g: Geometry, t: Table, leb: nat): Option<nat>
    requires g.Valid() && Shaped(g, t) && leb < g.pebsPerVolume
  {
    var at := PlaceOf(g, leb);
    var physical := t.lebs[at.portion][at.page].descs[at.slot];
    if physical == U16_MAX then None
    else Some(g.PebFragment(at.portion, physical / PEB_DESC_PER_FRAGMENT).start + physical % PEB_DESC_PER_FRAGMENT)
  }

  /** The mapping is injective and only designates used PEBs. */
  ghost predicate Consistent(g: Geometry, t: Table)
    requires g.Valid() && Shaped(g, t)
  {
    && (forall leb {:trigger Lookup(g, t, leb)} :: 0 <= leb < g.pebsPerVolume && Lookup(g, t, leb).Some? ==>
          Used(g, t, Lookup(g, t, leb).value))
    && (forall a, b {:trigger Lookup(g, t, a), Lookup(g, t, b)} ::
          0 <= a < b < g.pebsPerVolume && Lookup(g, t, a).Some? ==> Lookup(g, t, a) != Lookup(g, t, b))
  }

  /** The geometry of a table. */
  predicate Usable(g: Geometry) {
    g.Valid() && g.pebsPerVolume < TWO64
  }

  /** No PEB is marked as pre-erased yet. */
  predicate NoDirty(t: Table) {
    forall p, s, i :: 0 <= p < |t.pebs| && 0 <= s < |t.pebs[p]| && 0 <= i < |t.pebs[p][s].dirty| ==>
      !t.pebs[p][s].dirty[i]
  }

  ghost predicate Valid(g: Geometry, t: Table) {
    Usable(g) && Shaped(g, t) && NoDirty(t) && Consistent(g, t)
  }

  /** define_peb_as_used */
  function MarkUsed(t: Table, p: nat, s: nat, i: nat, kind: PebType): Table
    requires p < |t.pebs| && s < |t.pebs[p]| && i < |t.pebs[p][s].used| && i < |t.pebs[p][s].descs|
  {
    var page := t.pebs[p][s];
    var page' := page.(used := page.used[i := true], descs := page.descs[i := PebDesc(kind, UsingState)]);
    t.(pebs := t.pebs[p := t.pebs[p][s := page']])
  }

  /** define_leb_as_mapped */
  function MarkMapped(t: Table, p: nat, m: nat, slot: nat, physical: U16): Table
    requires p < |t.lebs| && m < |t.lebs[p]| && slot < |t.lebs[p][m].descs|
  {
    var page := t.lebs[p][m];
    var page' := page.(mapped := page.mapped + 1, descs := page.descs[slot := physical]);
    t.(lebs := t.lebs[p := t.lebs[p][m := page']])
  }

  /** DEFINE_PEB_INDEX_IN_PORTION */
  function PhysicalIndex(stripe: nat, item: nat): nat {
    PEB_DESC_PER_FRAGMENT * stripe + item
  }

  lemma UsedPageOk(page: PebTable, range: Range, i: nat, kind: PebType)
    requires PebTableOk(page, range) && i < range.count && !page.dirty[i]
    ensures PebTableOk(page.(used := page.used[i := true], descs := page.descs[i := PebDesc(kind, UsingState)]), range)
  {
  }

  lemma UsedStep(g: Geometry, t: Table, p: nat, s: nat, i: nat, kind: PebType)
    requires g.stripes > 0 && Shaped(g, t) && p < g.portions && s < g.stripes && i < g.PebFragment(p, s).count
    requires NoDirty(t)
    ensures Shaped(g, MarkUsed(t, p, s, i, kind))
    ensures forall id: nat ::
              Used(g, MarkUsed(t, p, s, i, kind), id) <==> Used(g, t, id) || id == g.PebFragment(p, s).start + i
  {
    hide Geometry.PebFragment, Geometry.LebFragment, LebTableOk, DescFits;
    assert PebTableOk(t.pebs[p][s], g.PebFragment(p, s));
    var t' := MarkUsed(t, p, s, i, kind);
    var peb := g.PebFragment(p, s).start + i;
    UsedPageOk(t.pebs[p][s], g.PebFragment(p, s), i, kind);
    assert Shaped(g, t');
    forall id: nat ensures Used(g, t', id) <==> Used(g, t, id) || id == peb {
      if Used(g, t', id) && id != peb {
        var p', s' :| UsedAt(g, t', p', s', id);
        assert UsedAt(g, t, p', s', id);
      }
      if Used(g, t, id) {
        var p', s' :| UsedAt(g, t, p', s', id);
        assert UsedAt(g, t', p', s', id);
      }
      if id == peb {
        assert UsedAt(g, t', p, s, id);
      }
    }
  }

  /** A PEB that is handed out is described as in use, with the type passed; no other descriptor changes. */
  lemma DescStep(g: Geometry, t: Table, p: nat, s: nat, i: nat, kind: PebType, id: nat, desc: PebDesc)
    requires Usable(g) && Shaped(g, t) && p < g.portions && s < g.stripes && i < g.PebFragment(p, s).count
    requires i < |t.pebs[p][s].used| && i < |t.pebs[p][s].descs| && Shaped(g, MarkUsed(t, p, s, i, kind))
    ensures DescIs(g, MarkUsed(t, p, s, i, kind), id, desc) <==>
              if id == g.PebFragment(p, s).start + i then desc == PebDesc(kind, UsingState)
              else DescIs(g, t, id, desc)
  {
    hide Geometry.PebFragment, Geometry.LebFragment, LebTableOk, Geometry.Valid, DescFits;
    assert PebTableOk(t.pebs[p][s], g.PebFragment(p, s));
    var t', peb := MarkUsed(t, p, s, i, kind), g.PebFragment(p, s).start + i;
    if DescIs(g, t', id, desc) {
      var p', s' :| DescAt(g, t', p', s', id, desc);
      if id == peb {
        PebFragmentsDisjoint(g, p, s, p', s', id);
      } else {
        assert DescAt(g, t, p', s', id, desc);
      }
    }
    if id == peb {
      assert DescAt(g, t', p, s, id, PebDesc(kind, UsingState));
    } else if DescIs(g, t, id, desc) {
      var p', s' :| DescAt(g, t, p', s', id, desc);
      assert DescAt(g, t', p', s', id, desc);
    }
  }

  /** A clear bit means that the PEB is used nowhere: no PEB is described twice. */
  lemma ClearBitUnused(g: Geometry, t: Table, p: nat, s: nat, i: nat)
    requires Usable(g) && Shaped(g, t) && p < g.portions && s < g.stripes && i < g.PebFragment(p, s).count
    requires !t.pebs[p][s].used[i]
    ensures !Used(g, t, g.PebFragment(p, s).start + i)
  {
    hide Geometry.PebFragment, Geometry.LebFragment, LebTableOk, Geometry.Valid;
    assert PebTableOk(t.pebs[p][s], g.PebFragment(p, s));
    var id := g.PebFragment(p, s).start + i;
    if Used(g, t, id) {
      var p', s' :| UsedAt(g, t, p', s', id);
      PebFragmentsDisjoint(g, p, s, p', s', id);
      assert false;
    }
  }

  lemma MappedPageOk(page: LebTable, range: Range, slot: nat, physical: U16)
    requires LebTableOk(page, range) && slot < range.count && page.descs[slot] == U16_MAX && physical != U16_MAX
    ensures LebTableOk(page.(mapped := page.mapped + 1, descs := page.descs[slot := physical]), range)
    ensures page.mapped < range.count
  {
    CountUpdate(page.descs[..range.count], slot, physical);
    assert page.descs[slot := physical][..range.count] == page.descs[..range.count][slot := physical];
  }

  lemma MappedShaped(g: Geometry, t: Table, leb: nat, physical: U16)
    requires g.Valid() && Shaped(g, t) && leb < g.pebsPerVolume && Lookup(g, t, leb).None? && physical != U16_MAX
    ensures var at := PlaceOf(g, leb);
            && Shaped(g, MarkMapped(t, at.portion, at.page, at.slot, physical))
            && TotalMapped(MarkMapped(t, at.portion, at.page, at.slot, physical).lebs) == TotalMapped(t.lebs) + 1
            && t.lebs[at.portion][at.page].mapped < g.LebFragment(at.portion, at.page).count
  {
    hide Geometry.LebFragment, Geometry.PebFragment, PlaceOf, PebTableOk, Geometry.Valid, CountMapped, TotalMapped;
    var at := PlaceOf(g, leb);
    var range := g.LebFragment(at.portion, at.page);
    var page := t.lebs[at.portion][at.page];
    assert LebTableOk(page, range);
    var page' := page.(mapped := page.mapped + 1, descs := page.descs[at.slot := physical]);
    MappedPageOk(page, range, at.slot, physical);
    TotalUpdate(t.lebs, at.portion, at.page, page');
  }

  /** Mapping one LEB gives it its PEB and leaves every other LEB as it was. */
  lemma LookupStep(g: Geometry, t: Table, leb: nat, stripe: nat, item: nat, other: nat)
    requires g.Valid() && Shaped(g, t) && leb < g.pebsPerVolume && other < g.pebsPerVolume
    requires item < PEB_DESC_PER_FRAGMENT && PhysicalIndex(stripe, item) < U16_MAX
    requires var at := PlaceOf(g, leb);
             Shaped(g, MarkMapped(t, at.portion, at.page, at.slot, PhysicalIndex(stripe, item)))
    ensures var at := PlaceOf(g, leb);
            Lookup(g, MarkMapped(t, at.portion, at.page, at.slot, PhysicalIndex(stripe, item)), other) ==
              if other == leb then Some(g.PebFragment(at.portion, stripe).start + item) else Lookup(g, t, other)
  {
    hide Geometry.LebFragment, Geometry.PebFragment, PlaceOf, PebTableOk, Geometry.Valid;
    var at, at' := PlaceOf(g, leb), PlaceOf(g, other);
    assert LebTableOk(t.lebs[at.portion][at.page], g.LebFragment(at.portion, at.page));
    assert LebTableOk(t.lebs[at'.portion][at'.page], g.LebFragment(at'.portion, at'.page));
    assert PhysicalIndex(stripe, item) / PEB_DESC_PER_FRAGMENT == stripe;
    assert PhysicalIndex(stripe, item) % PEB_DESC_PER_FRAGMENT == item;
  }

  /** The table after the free PEB `item` of `stripe` has been given to `leb`. */
  function Assign(g: Geometry, t: Table, leb: nat, stripe: nat, item: nat, kind: PebType): Table
    requires g.Valid() && Shaped(g, t) && leb < g.pebsPerVolume && stripe < g.stripes
    requires item < PEB_DESC_PER_FRAGMENT && PhysicalIndex(stripe, item) <= U16_MAX
  {
    var at := PlaceOf(g, leb);
    assert PebTableOk(t.pebs[at.portion][stripe], g.PebFragment(at.portion, stripe));
    assert LebTableOk(t.lebs[at.portion][at.page], g.LebFragment(at.portion, at.page));
    MarkMapped(MarkUsed(t, at.portion, stripe, item, kind), at.portion, at.page, at.slot, PhysicalIndex(stripe, item))
  }

  /** A free PEB described by `stripe` of the portion of a LEB that is not mapped, with an index that fits 16 bits. */
  ghost predicate Assignable(g: Geometry, t: Table, leb: nat, stripe: nat, item: nat) {
    Free(g, t, leb, stripe, item) && Lookup(g, t, leb).None? && PhysicalIndex(stripe, item) < U16_MAX
  }

  /** A free PEB described by `stripe` of the portion of `leb`. */
  ghost predicate Free(g: Geometry, t: Table, leb: nat, stripe: nat, item: nat) {
    && Valid(g, t) && leb < g.pebsPerVolume && stripe < g.stripes
    && (var range := g.PebFragment(PlaceOf(g, leb).portion, stripe);
        item < range.count && item < PEB_DESC_PER_FRAGMENT)
    && !t.pebs[PlaceOf(g, leb).portion][stripe].used[item]
  }

  lemma AssignShape(g: Geometry, t: Table, leb: nat, stripe: nat, item: nat, kind: PebType)
    requires Assignable(g, t, leb, stripe, item)
    ensures var t' := Assign(g, t, leb, stripe, item, kind);
            && Shaped(g, t') && NoDirty(t') && TotalMapped(t'.lebs) == TotalMapped(t.lebs) + 1
            && t.lebs[PlaceOf(g, leb).portion][PlaceOf(g, leb).page].mapped
               < g.LebFragment(PlaceOf(g, leb).portion, PlaceOf(g, leb).page).count
  {
    hide PlaceOf, LebTableOk, Consistent, Geometry.PebFragment, Geometry.LebFragment, CountMapped, TotalMapped;
    var p := PlaceOf(g, leb).portion;
    assert PebTableOk(t.pebs[p][stripe], g.PebFragment(p, stripe));
    UsedStep(g, t, p, stripe, item, kind);
    var t1 := MarkUsed(t, p, stripe, item, kind);
    assert t1.lebs == t.lebs;
    assert Lookup(g, t1, leb) == Lookup(g, t, leb);
    MappedShaped(g, t1, leb, PhysicalIndex(stripe, item));
  }

  lemma AssignUsed(g: Geometry, t: Table, leb: nat, stripe: nat, item: nat, kind: PebType, id: nat)
    requires Assignable(g, t, leb, stripe, item)
    requires Shaped(g, Assign(g, t, leb, stripe, item, kind))
    ensures var peb := g.PebFragment(PlaceOf(g, leb).portion, stripe).start + item;
            Used(g, Assign(g, t, leb, stripe, item, kind), id) <==> Used(g, t, id) || id == peb
  {
    hide PlaceOf, LebTableOk, Consistent, Geometry.PebFragment, Geometry.LebFragment, Geometry.Valid;
    var p := PlaceOf(g, leb).portion;
    assert PebTableOk(t.pebs[p][stripe], g.PebFragment(p, stripe));
    UsedStep(g, t, p, stripe, item, kind);
    var t1, t' := MarkUsed(t, p, stripe, item, kind), Assign(g, t, leb, stripe, item, kind);
    assert t'.pebs == t1.pebs;
    SameUsed(g, t1, t', id);
  }

  lemma AssignDesc(g: Geometry, t: Table, leb: nat, stripe: nat, item: nat, kind: PebType, id: nat, desc: PebDesc)
    requires Assignable(g, t, leb, stripe, item)
    requires Shaped(g, Assign(g, t, leb, stripe, item, kind))
    ensures var peb := g.PebFragment(PlaceOf(g, leb).portion, stripe).start + item;
            DescIs(g, Assign(g, t, leb, stripe, item, kind), id, desc) <==>
              if id == peb then desc == PebDesc(kind, UsingState) else DescIs(g, t, id, desc)
  {
    hide PlaceOf, LebTableOk, Consistent, Geometry.PebFragment, Geometry.LebFragment, Geometry.Valid, DescIs;
    var p := PlaceOf(g, leb).portion;
    assert PebTableOk(t.pebs[p][stripe], g.PebFragment(p, stripe));
    UsedStep(g, t, p, stripe, item, kind);
    var t1, t' := MarkUsed(t, p, stripe, item, kind), Assign(g, t, leb, stripe, item, kind);
    DescStep(g, t, p, stripe, item, kind, id, desc);
    assert t'.pebs == t1.pebs;
    SameDesc(g, t1, t', id, desc);
  }

  lemma SameDesc(g: Geometry, t: Table, t': Table, id: nat, desc: PebDesc)
    requires g.stripes > 0 && Shaped(g, t) && Shaped(g, t') && t.pebs == t'.pebs
    ensures DescIs(g, t, id, desc) <==> DescIs(g, t', id, desc)
  {
    if DescIs(g, t, id, desc) {
      var p, s :| DescAt(g, t, p, s, id, desc);
      assert DescAt(g, t', p, s, id, desc);
    }
    if DescIs(g, t', id, desc) {
      var p, s :| DescAt(g, t', p, s, id, desc);
      assert DescAt(g, t, p, s, id, desc);
    }
  }

  lemma SameUsed(g: Geometry, t: Table, t': Table, id: nat)
    requires g.stripes > 0 && Shaped(g, t) && Shaped(g, t') && t.pebs == t'.pebs
    ensures Used(g, t, id) <==> Used(g, t', id)
  {
    if Used(g, t, id) {
      var p, s :| UsedAt(g, t, p, s, id);
      assert UsedAt(g, t', p, s, id);
    }
    if Used(g, t', id) {
      var p, s :| UsedAt(g, t', p, s, id);
      assert UsedAt(g, t, p, s, id);
    }
  }

  lemma AssignLookup(g: Geometry, t: Table, leb: nat, stripe: nat, item: nat, kind: PebType, other: nat)
    requires Assignable(g, t, leb, stripe, item) && other < g.pebsPerVolume
    requires Shaped(g, Assign(g, t, leb, stripe, item, kind))
    ensures var peb := g.PebFragment(PlaceOf(g, leb).portion, stripe).start + item;
            Lookup(g, Assign(g, t, leb, stripe, item, kind), other) ==
              if other == leb then Some(peb) else Lookup(g, t, other)
  {
    hide PlaceOf, LebTableOk, Consistent, Geometry.PebFragment, Geometry.LebFragment, Geometry.Valid;
    var at := PlaceOf(g, leb);
    assert PebTableOk(t.pebs[at.portion][stripe], g.PebFragment(at.portion, stripe));
    UsedStep(g, t, at.portion, stripe, item, kind);
    var t1 := MarkUsed(t, at.portion, stripe, item, kind);
    assert t1.lebs == t.lebs;
    LookupStep(g, t1, leb, stripe, item, other);
    assert Lookup(g, t1, other) == Lookup(g, t, other);
  }

  /** The chosen PEB is the first free one of the LEB's stripe. */
  lemma AssignFirst(g: Geometry, t: Table, leb: nat, stripe: nat, item: nat)
    requires Assignable(g, t, leb, stripe, item) && stripe == StripeOf(g, leb)
    requires forall i :: 0 <= i < item ==> t.pebs[PlaceOf(g, leb).portion][stripe].used[i]
    ensures var peb := g.PebFragment(PlaceOf(g, leb).portion, stripe).start + item;
            && LebStripe(g, leb) == g.PebFragment(PlaceOf(g, leb).portion, stripe) && LebStripe(g, leb).Covers(peb)
            && InOwnStripe(g, leb, peb) && UsedBetween(g, t, LebStripe(g, leb).start, peb)
  {
    CoveredOwn(g, leb, g.PebFragment(PlaceOf(g, leb).portion, stripe).start + item);
    hide PlaceOf, StripeOf, InOwnStripe, Lookup, Used, Consistent, NoDirty, Geometry.PebFragment, Geometry.LebFragment,
      UsedBetween;
    var p := PlaceOf(g, leb).portion;
    assert PebTableOk(t.pebs[p][stripe], g.PebFragment(p, stripe));
    SetBitsUsed(g, t, p, stripe, item);
  }

  /**
   * Mapping a LEB to a free PEB: the PEB is inside the volume and was used by nobody, the used PEBs grow by
   * exactly that one, its descriptor becomes that of a PEB in use and no other descriptor changes, the LEB is
   * looked up as that PEB and every other LEB as before, one more LEB is counted, and the mapping stays injective.
   */
  lemma AssignStep(g: Geometry, t: Table, leb: nat, stripe: nat, item: nat, kind: PebType)
    requires Assignable(g, t, leb, stripe, item) && stripe == StripeOf(g, leb)
    requires forall i :: 0 <= i < item ==> t.pebs[PlaceOf(g, leb).portion][stripe].used[i]
    ensures var t' := Assign(g, t, leb, stripe, item, kind);
            var peb := g.PebFragment(PlaceOf(g, leb).portion, stripe).start + item;
            && Valid(g, t') && Mapping(g, t, t', leb, kind, peb)
  {
    hide Assign, InOwnStripe, DescIs, PlaceOf, StripeOf, LebStripe, UsedBetween, Lookup, Used, Shaped, NoDirty,
      Geometry.PebFragment, Geometry.LebFragment, TotalMapped, Range.Covers;
    AssignShape(g, t, leb, stripe, item, kind);
    var t', p := Assign(g, t, leb, stripe, item, kind), PlaceOf(g, leb).portion;
    var peb := g.PebFragment(p, stripe).start + item;
    ClearBitUnused(g, t, p, stripe, item);
    AssignFirst(g, t, leb, stripe, item);
    CoveredInPortion(g, p, stripe, peb);
    forall id: nat ensures Used(g, t', id) <==> Used(g, t, id) || id == peb {
      AssignUsed(g, t, leb, stripe, item, kind, id);
    }
    forall other: nat | other < g.pebsPerVolume
      ensures Lookup(g, t', other) == if other == leb then Some(peb) else Lookup(g, t, other)
    {
      AssignLookup(g, t, leb, stripe, item, kind, other);
    }
    forall id: nat, desc: PebDesc
      ensures DescIs(g, t', id, desc) <==>
                if id == peb then desc == PebDesc(kind, UsingState) else DescIs(g, t, id, desc)
    {
      AssignDesc(g, t, leb, stripe, item, kind, id, desc);
    }
    StaysConsistent(g, t, t', leb, peb);
  }

  ghost predicate UsedBetween(g: Geometry, t: Table, from: nat, to: nat)
    requires g.stripes > 0 && Shaped(g, t)
  {
    forall id: nat :: from <= id < to ==> Used(g, t, id)
  }

  lemma SetBitsUsed(g: Geometry, t: Table, p: nat, s: nat, n: nat)
    requires g.stripes > 0 && Shaped(g, t) && p < g.portions && s < g.stripes && n <= g.PebFragment(p, s).count
    requires n <= |t.pebs[p][s].used| && forall i :: 0 <= i < n ==> t.pebs[p][s].used[i]
    ensures UsedBetween(g, t, g.PebFragment(p, s).start, g.PebFragment(p, s).start + n)
  {
    hide Geometry.PebFragment;
    var start := g.PebFragment(p, s).start;
    forall id: nat | start <= id < start + n ensures Used(g, t, id) {
      assert UsedAt(g, t, p, s, id);
    }
  }

  /** The change that one successful map_leb2peb makes: the LEB gets the first free PEB of its stripe. */
  ghost predicate Mapping(g: Geometry, t: Table, t': Table, leb: nat, kind: PebType, peb: nat)
    requires g.Valid() && Shaped(g, t) && Shaped(g, t') && leb < g.pebsPerVolume
  {
    && peb < g.pebsPerVolume && !Used(g, t, peb)
    && InOwnStripe(g, leb, peb) && LebStripe(g, leb).Covers(peb) && UsedBetween(g, t, LebStripe(g, leb).start, peb)
    && (forall id: nat :: Used(g, t', id) <==> Used(g, t, id) || id == peb)
    && (forall other: nat :: other < g.pebsPerVolume ==>
          Lookup(g, t', other) == if other == leb then Some(peb) else Lookup(g, t, other))
    && (forall id: nat, desc: PebDesc :: DescIs(g, t', id, desc) <==>
          if id == peb then desc == PebDesc(kind, UsingState) else DescIs(g, t, id, desc))
    && TotalMapped(t'.lebs) == TotalMapped(t.lebs) + 1
  }

  lemma StaysConsistent(g: Geometry, t: Table, t': Table, leb: nat, peb: nat)
    requires g.Valid() && Shaped(g, t) && Shaped(g, t') && Consistent(g, t) && leb < g.pebsPerVolume
    requires !Used(g, t, peb)
    requires forall id: nat :: Used(g, t', id) <==> Used(g, t, id) || id == peb
    requires forall other: nat :: other < g.pebsPerVolume ==>
               Lookup(g, t', other) == if other == leb then Some(peb) else Lookup(g, t, other)
    ensures Consistent(g, t')
  {
    hide Lookup, Used, Shaped, Geometry.Valid;
  }

  predicate WordFull(used: seq<bool>, w: nat)
    requires (w + 1) * BITS_PER_LONG <= |used|
  {
    forall i :: w * BITS_PER_LONG <= i < (w + 1) * BITS_PER_LONG ==> used[i]
  }

  /** find_unused_peb: full words are skipped, then bits are tested; U16_MAX when no PEB is free. */
  method FindUnusedPeb(page: PebTable) returns (r: U16)
    requires page.range.count <= PEB_DESC_PER_FRAGMENT && |page.used| == BMAP_BITS
    ensures r == U16_MAX ==> forall i :: 0 <= i < page.range.count ==> page.used[i]
    ensures r != U16_MAX ==> r < page.range.count && !page.used[r] && forall i :: 0 <= i < r ==> page.used[i]
  {
    var count := page.range.count;
    var words := (count + BITS_PER_LONG - 1) / BITS_PER_LONG;
    var index := 0;
    while index < words
      invariant index <= words <= 8
      invariant forall i :: 0 <= i < index * BITS_PER_LONG ==> page.used[i]
    {
      if !WordFull(page.used, index) {
        break;
      }
      index := index + 1;
    }
    var peb := index * BITS_PER_LONG;
    while peb < count
      invariant peb <= BMAP_BITS
      invariant forall i :: 0 <= i < peb ==> page.used[i]
    {
      if !page.used[peb] {
        break;
      }
      peb := peb + 1;
    }
    if peb >= count {
      return U16_MAX;
    }
    return peb;
  }

  /**
   * The stripe whose PEBs a LEB may get. A segment with more LEBs than there are stripes is spread over them,
   * with at most as many LEBs for a stripe as are needed; all LEBs of a smaller segment belong to stripe 0.
   */
  ghost predicate StripeRule(g: Geometry, leb: nat, s: nat)
    requires g.pebsPerSeg > 0
  {
    if 1 < g.stripes < g.pebsPerSeg
    then exists n: nat :: LeastCount(n, g.pebsPerSeg, g.stripes) && s * n <= leb % g.pebsPerSeg < s * n + n
    else s == 0
  }

  /** get_stripe_index */
  function StripeIndex(g: Geometry, leb: nat, startLeb: nat): (r: nat)
    requires g.Valid() && startLeb <= leb && (g.stripes == 1 ==> leb - startLeb < PEB_DESC_PER_FRAGMENT)
    ensures r < g.stripes && StripeRule(g, leb, r)
  {
    var lebIndex := leb % g.pebsPerSeg;
    if g.stripes == 1 then SmallQuotient(leb - startLeb, PEB_DESC_PER_FRAGMENT)
    else if g.pebsPerSeg > g.stripes then
      StripeBelow(lebIndex, g.pebsPerSeg, g.stripes);
      lebIndex / DivCeil(g.pebsPerSeg, g.stripes)
    else SmallQuotient(lebIndex, g.pebsPerSeg)
  }

  function SmallQuotient(x: nat, p: nat): (r: nat)
    requires x < p
    ensures r == 0
  {
    ModUnique(x, p, 0, x);
    x / p
  }

  lemma StripeBelow(lebIndex: nat, pebsPerSeg: nat, stripes: nat)
    requires lebIndex < pebsPerSeg && 0 < stripes
    ensures DivCeil(pebsPerSeg, stripes) > 0 && lebIndex / DivCeil(pebsPerSeg, stripes) < stripes
    ensures var n := DivCeil(pebsPerSeg, stripes);
            LeastCount(n, pebsPerSeg, stripes) && lebIndex / n * n <= lebIndex < lebIndex / n * n + n
  {
    var n := DivCeil(pebsPerSeg, stripes);
    assert n * stripes == stripes * n;
    QuotientBelow(lebIndex, n, stripes);
    assert (n - 1) * stripes == n * stripes - stripes;
  }

  /** The rule leaves no choice. */
  lemma StripeUnique(g: Geometry, leb: nat, s: nat)
    requires g.Valid() && leb < g.pebsPerVolume
    ensures StripeRule(g, leb, s) <==> s == StripeOf(g, leb)
  {
    hide StripeOf, StripeRule, DivCeil;
    if StripeRule(g, leb, s) {
      SameStripe(g, leb, s, StripeOf(g, leb));
    }
  }

  lemma SameStripe(g: Geometry, leb: nat, s: nat, r: nat)
    requires g.pebsPerSeg > 0 && StripeRule(g, leb, s) && StripeRule(g, leb, r)
    ensures s == r
  {
    hide LeastCount;
    if 1 < g.stripes < g.pebsPerSeg {
      var x := leb % g.pebsPerSeg;
      var n: nat :| LeastCount(n, g.pebsPerSeg, g.stripes) && s * n <= x < s * n + n;
      var m: nat :| LeastCount(m, g.pebsPerSeg, g.stripes) && r * m <= x < r * m + m;
      LeastUnique(n, m, g.pebsPerSeg, g.stripes);
      ModUnique(x, n, s, x - s * n);
      ModUnique(x, n, r, x - r * n);
    }
  }

  /** The share of the LEBs of a segment that the rule gives a stripe. */
  lemma InShare(g: Geometry, leb: nat, s: nat, n: nat)
    requires 1 < g.stripes < g.pebsPerSeg && StripeRule(g, leb, s) && LeastCount(n, g.pebsPerSeg, g.stripes)
    ensures s * n <= leb % g.pebsPerSeg < s * n + n
  {
    hide LeastCount;
    var i: nat :| LeastCount(i, g.pebsPerSeg, g.stripes) && s * i <= leb % g.pebsPerSeg < s * i + i;
    LeastUnique(i, n, g.pebsPerSeg, g.stripes);
  }

  /** No stripe takes more LEBs of a segment than its share: those of one stripe are closer than `n`. */
  lemma StripeShare(g: Geometry, a: nat, b: nat, n: nat)
    requires g.Valid() && a <= b < g.pebsPerVolume && a / g.pebsPerSeg == b / g.pebsPerSeg
    requires 1 < g.stripes < g.pebsPerSeg && StripeOf(g, a) == StripeOf(g, b)
    requires LeastCount(n, g.pebsPerSeg, g.stripes)
    ensures b - a < n
  {
    hide StripeOf, StripeRule, DivCeil, LeastCount;
    InShare(g, a, StripeOf(g, a), n);
    InShare(g, b, StripeOf(g, b), n);
    assert b - a == b % g.pebsPerSeg - a % g.pebsPerSeg;
  }

  /**
   * The LEBs of the segments are spread evenly over the stripes exactly when a segment has more LEBs than
   * there are stripes, or only one: with two LEBs for three stripes both belong to stripe 0.
   */
  lemma SpreadIff(g: Geometry)
    requires g.Valid() && g.stripes > 1 && g.pebsPerSeg <= g.pebsPerVolume
    ensures (g.stripes < g.pebsPerSeg || g.pebsPerSeg == 1) <==>
            forall leb: nat, n: nat :: leb < g.pebsPerVolume && LeastCount(n, g.pebsPerSeg, g.stripes) ==>
              StripeOf(g, leb) * n <= leb % g.pebsPerSeg < StripeOf(g, leb) * n + n
  {
    hide StripeOf, DivCeil, LeastCount;
    var c := g.pebsPerSeg;
    if c <= g.stripes {
      OneEach(c, g.stripes);
      if c > 1 {
        ModUnique(1, c, 0, 1);
        assert StripeOf(g, 1) == 0;
      }
    }
    forall leb: nat, n: nat | (g.stripes < c || c == 1) && leb < g.pebsPerVolume && LeastCount(n, c, g.stripes)
      ensures StripeOf(g, leb) * n <= leb % c < StripeOf(g, leb) * n + n
    {
      if g.stripes < c {
        InShare(g, leb, StripeOf(g, leb), n);
      } else {
        LeastUnique(n, 1, c, g.stripes);
      }
    }
  }

  lemma OneEach(c: nat, stripes: nat)
    requires 0 < c <= stripes
    ensures LeastCount(1, c, stripes)
  {
  }

  /** With one stripe a portion has at most one stripe's worth of LEBs. */
  lemma SingleStripeSlot(g: Geometry, leb: nat)
    requires g.Valid() && leb < g.pebsPerVolume && g.stripes == 1
    ensures var at := PlaceOf(g, leb); leb - g.LebFragment(at.portion, at.page).start < PEB_DESC_PER_FRAGMENT
  {
    hide DivCeil;
    assert g.pebsPerPortion == g.pebsPerStripe;
    LocateIndexes(g, leb);
    assert leb % g.pebsPerPortion % LEB_DESC_PER_FRAGMENT <= leb % g.pebsPerPortion;
  }

  /** The stripe that the PEB of a LEB is taken from. */
  function StripeOf(g: Geometry, leb: nat): (r: nat)
    requires g.Valid() && leb < g.pebsPerVolume
    ensures r < g.stripes && StripeRule(g, leb, r)
  {
    var at := PlaceOf(g, leb);
    if g.stripes == 1 then
      SingleStripeSlot(g, leb);
      StripeIndex(g, leb, g.LebFragment(at.portion, at.page).start)
    else
      StripeIndex(g, leb, g.LebFragment(at.portion, at.page).start)
  }

  function LebStripe(g: Geometry, leb: nat): Range
    requires g.Valid() && leb < g.pebsPerVolume
  {
    g.PebFragment(PlaceOf(g, leb).portion, StripeOf(g, leb))
  }

  /** The PEB is one of the stripe, of the LEB's own portion, that the rule gives the LEB. */
  ghost predicate InOwnStripe(g: Geometry, leb: nat, peb: nat)
    requires 0 < g.stripes && 0 < g.pebsPerSeg && 0 < g.pebsPerPortion
  {
    exists s: nat :: s < g.stripes && StripeRule(g, leb, s) && g.PebFragment(leb / g.pebsPerPortion, s).Covers(peb)
  }

  lemma CoveredOwn(g: Geometry, leb: nat, peb: nat)
    requires g.Valid() && leb < g.pebsPerVolume && LebStripe(g, leb).Covers(peb)
    ensures InOwnStripe(g, leb, peb)
  {
    hide StripeOf, StripeRule, Geometry.PebFragment, DivCeil, Geometry.LebFragment, Geometry.Locate;
    assert PlaceOf(g, leb).portion == leb / g.pebsPerPortion;
  }

  /** The first free PEB of the stripe of a LEB has index `item` there. */
  ghost predicate FirstItem(g: Geometry, t: Table, leb: nat, item: nat)
  {
    && g.Valid() && leb < g.pebsPerVolume && Free(g, t, leb, StripeOf(g, leb), item)
    && forall i :: 0 <= i < item ==> t.pebs[PlaceOf(g, leb).portion][StripeOf(g, leb)].used[i]
  }

  /** The index of the PEB that a LEB would get does not fit 16 bits: a BUG_ON. */
  ghost predicate TooFar(g: Geometry, t: Table, leb: nat)
    requires g.Valid() && leb < g.pebsPerVolume
  {
    exists item: nat :: FirstItem(g, t, leb, item) && PhysicalIndex(StripeOf(g, leb), item) >= U16_MAX
  }

  lemma FirstItemUnique(g: Geometry, t: Table, leb: nat, i: nat, j: nat)
    requires FirstItem(g, t, leb, i) && FirstItem(g, t, leb, j)
    ensures i == j
  {
    hide PlaceOf, StripeOf, Consistent, NoDirty, Shaped, Geometry.PebFragment;
  }

  lemma NotTooFar(g: Geometry, t: Table, leb: nat, item: nat)
    requires g.Valid() && FirstItem(g, t, leb, item) && PhysicalIndex(StripeOf(g, leb), item) < U16_MAX
    ensures !TooFar(g, t, leb)
  {
    hide FirstItem;
    forall j: nat | FirstItem(g, t, leb, j) ensures j == item {
      FirstItemUnique(g, t, leb, item, j);
    }
  }

  /** The index fits for all stripes below number 137. */
  lemma NearEnough(g: Geometry, t: Table, leb: nat)
    requires g.Valid() && leb < g.pebsPerVolume && PEB_DESC_PER_FRAGMENT * (StripeOf(g, leb) + 1) <= U16_MAX
    ensures !TooFar(g, t, leb)
  {
    hide PlaceOf, StripeOf, Valid, Geometry.PebFragment;
  }

  /** All PEBs of the stripe of a LEB are in use. */
  ghost predicate NoneFree(g: Geometry, t: Table, leb: nat)
    requires g.Valid() && Shaped(g, t) && leb < g.pebsPerVolume
  {
    UsedBetween(g, t, LebStripe(g, leb).start, LebStripe(g, leb).start + LebStripe(g, leb).count)
  }

  lemma OutsideUncovered(g: Geometry, p: nat, page: nat, leb: nat)
    requires leb >= g.pebsPerVolume
    ensures !g.LebFragment(p, page).Covers(leb)
  {
  }

  /** The searching part of map_leb2peb: a free PEB in the LEB's stripe, or U16_MAX. */
  method ChoosePeb(g: Geometry, t: Table, leb: nat) returns (stripe: nat, item: U16)
    requires Valid(g, t) && leb < g.pebsPerVolume
    ensures stripe == StripeOf(g, leb)
    ensures item != U16_MAX ==> FirstItem(g, t, leb, item)
    ensures item == U16_MAX ==> NoneFree(g, t, leb) && forall i: nat :: !FirstItem(g, t, leb, i)
  {
    hide Lookup, Consistent, CountMapped, StripeIndex, PlaceOf, Geometry.LebFragment, Geometry.PebFragment, UsedBetween;
    var at := PlaceOf(g, leb);
    var lebPage := t.lebs[at.portion][at.page];
    assert LebTableOk(lebPage, g.LebFragment(at.portion, at.page));
    if g.stripes == 1 { SingleStripeSlot(g, leb); }
    stripe := StripeIndex(g, leb, lebPage.range.start);
    var pebPage := t.pebs[at.portion][stripe];
    assert PebTableOk(pebPage, g.PebFragment(at.portion, stripe));
    item := FindUnusedPeb(pebPage);
    if item == U16_MAX {
      SetBitsUsed(g, t, at.portion, stripe, pebPage.range.count);
    }
  }

  /** maptbl_prepare_leb_table and maptbl_prepare_peb_table for all portions. */
  function FreshLebTable(range: Range): LebTable {
    LebTable(range, 0, seq(LEB_DESC_PER_FRAGMENT, _ => U16_MAX))
  }

  function FreshPebTable(range: Range): PebTable {
    PebTable(range, seq(BMAP_BITS, _ => false), seq(BMAP_BITS, _ => false), seq(PEB_DESC_PER_FRAGMENT, _ => BLANK))
  }

  function FreshTable(g: Geometry): (t: Table)
    requires g.stripes > 0
    ensures |t.lebs| == |t.pebs| == g.portions
    ensures forall p :: 0 <= p < g.portions ==> |t.lebs[p]| == g.lebPages && |t.pebs[p]| == g.stripes
    ensures forall p, m :: 0 <= p < g.portions && 0 <= m < g.lebPages ==>
              t.lebs[p][m] == FreshLebTable(g.LebFragment(p, m))
    ensures forall p, s :: 0 <= p < g.portions && 0 <= s < g.stripes ==>
              t.pebs[p][s] == FreshPebTable(g.PebFragment(p, s))
  {
    Table(seq(g.portions, p requires 0 <= p < g.portions =>
                seq(g.lebPages, m requires 0 <= m < g.lebPages => FreshLebTable(g.LebFragment(p, m)))),
          seq(g.portions, p requires 0 <= p < g.portions =>
                seq(g.stripes, s requires 0 <= s < g.stripes => FreshPebTable(g.PebFragment(p, s)))))
  }

  lemma {:induction false} CountFresh(descs: seq<U16>)
    requires forall i :: 0 <= i < |descs| ==> descs[i] == U16_MAX
    ensures CountMapped(descs) == 0
  {
    if descs != [] {
      CountFresh(descs[..|descs| - 1]);
    }
  }

  lemma {:induction false} TotalFresh(lebs: seq<seq<LebTable>>)
    requires forall p, m :: 0 <= p < |lebs| && 0 <= m < |lebs[p]| ==> lebs[p][m].mapped == 0
    ensures TotalMapped(lebs) == 0
  {
    if lebs != [] {
      TotalFresh(lebs[..|lebs| - 1]);
      RowFresh(lebs[|lebs| - 1]);
    }
  }

  lemma {:induction false} RowFresh(row: seq<LebTable>)
    requires forall m :: 0 <= m < |row| ==> row[m].mapped == 0
    ensures RowMapped(row) == 0
  {
    if row != [] {
      RowFresh(row[..|row| - 1]);
    }
  }

  /** The prepared table is consistent, uses no PEB and maps no LEB. */
  lemma FreshValid(g: Geometry)
    requires Usable(g)
    ensures Valid(g, FreshTable(g)) && TotalMapped(FreshTable(g).lebs) == 0
    ensures forall id: nat :: !Used(g, FreshTable(g), id)
    ensures forall leb: nat :: leb < g.pebsPerVolume ==> Lookup(g, FreshTable(g), leb).None?
  {
    hide FreshTable, Geometry.LebFragment, Geometry.PebFragment, PlaceOf, DivCeil;
    var t := FreshTable(g);
    forall p, m | 0 <= p < g.portions && 0 <= m < g.lebPages ensures LebTableOk(t.lebs[p][m], g.LebFragment(p, m)) {
      PageSmall(g, p, m);
      CountFresh(t.lebs[p][m].descs[..g.LebFragment(p, m).count]);
    }
    forall p, s | 0 <= p < g.portions && 0 <= s < g.stripes ensures PebTableOk(t.pebs[p][s], g.PebFragment(p, s)) {
      StripeFitsPage(g, p, s);
    }
    TotalFresh(t.lebs);
  }

  lemma PageSmall(g: Geometry, p: nat, m: nat)
    ensures g.LebFragment(p, m).count <= LEB_DESC_PER_FRAGMENT
  {
  }

  class MapTbl {
    const g: Geometry
    var t: Table

    /** maptbl_mkfs_prepare */
    constructor (g: Geometry)
      requires Usable(g)
      ensures this.g == g && t == FreshTable(g) && Ok()
    {
      this.g := g;
      this.t := FreshTable(g);
      FreshValid(g);
    }

    ghost predicate Ok()
      reads this
    {
      Valid(g, t)
    }

    /**
     * map_leb2peb. `Bug` if and only if the LEB is outside the volume, or the index of the PEB it would get does
     * not fit 16 bits; `Success` with U64_MAX when the LEB's stripe has no free PEB. A LEB that is not mapped yet
     * gets the first free PEB of its stripe. One that is mapped is mapped again and counted again: the table stays
     * valid if and only if the LEB was not mapped.
     */
    method MapLeb2Peb(leb: U64, kind: PebType) returns (st: Status, peb: U64)
      requires Ok()
      modifies this`t
      ensures st == if leb < g.pebsPerVolume && !TooFar(g, old(t), leb) then Success else Bug
      ensures st == Bug ==> t == old(t)
      ensures st == Success && peb == U64_MAX ==>
                t == old(t) && NoneFree(g, t, leb)
      ensures st == Success && peb != U64_MAX ==>
                if Lookup(g, old(t), leb).None? then Ok() && Mapping(g, old(t), t, leb, kind, peb) else !Shaped(g, t)
    {
      hide Lookup, Mapping, Consistent, PlaceOf, StripeOf, Shaped, Geometry.Valid, Geometry.LebFragment,
        Geometry.PebFragment, Locate32;
      LocateCovers(g, t, leb);
      var at := Locate32(g, leb);
      if at.None? || !TableRange(g, t, at.value).Covers(leb) {
        return Bug, U64_MAX;
      }
      var stripe, item := ChoosePeb(g, t, leb);
      if item == U16_MAX {
        return Success, U64_MAX;
      }
      if PhysicalIndex(stripe, item) >= U16_MAX {
        return Bug, U64_MAX;
      }
      NotTooFar(g, t, leb, item);
      peb := AssignedPeb(g, t, leb, stripe, item);
      if Lookup(g, t, leb).None? {
        AssignStep(g, t, leb, stripe, item, kind);
      } else {
        RemapBreaks(g, t, leb, stripe, item, kind);
      }
      t := Assign(g, t, leb, stripe, item, kind);
      return Success, peb;
    }
  }

  /** The indexes that get_lebtbl_fragment computes, cut to 32 bits; `None` is one of its BUG_ONs. */
  function Locate32(g: Geometry, leb: U64): (r: Option<LebPlace>)
    requires g.Valid()
    ensures r.Some? ==>
              && r.value.fragment < g.maptblPebs && r.value.portion < g.portionsPerFragment && r.value.page < g.lebPages
              && r.value.fragment * g.portionsPerFragment + r.value.portion < g.portions
  {
    MulPositive(g.pebsPerPortion, g.portionsPerFragment);
    var perPeb := g.pebsPerPortion * g.portionsPerFragment;
    var fragment := leb / perPeb % TWO32;
    if fragment >= g.maptblPebs then None
    else
      FragmentBelow(leb, perPeb, fragment);
      var diff := leb - fragment * perPeb;
      var portion := diff / g.pebsPerPortion % TWO32;
      if portion >= g.portionsPerFragment then None
      else
        FragmentBelow(diff, g.pebsPerPortion, portion);
        var diff' := diff - portion * g.pebsPerPortion;
        var page := diff' / LEB_DESC_PER_FRAGMENT % TWO32;
        if page >= g.lebPages then None
        else
          MulStep(fragment, g.maptblPebs, g.portionsPerFragment);
          Some(LebPlace(fragment, portion, page, diff' % LEB_DESC_PER_FRAGMENT))
  }

  lemma FragmentBelow(x: nat, p: nat, q: nat)
    requires p > 0 && q == x / p % TWO32
    ensures q * p <= x
  {
    var whole := x / p;
    assert whole * p <= x;
    assert q <= whole;
    if q < whole { MulStep(q, whole, p); }
  }

  /** The header of the page of LEBs that has been found. */
  function TableRange(g: Geometry, t: Table, at: LebPlace): Range
    requires g.Valid() && Shaped(g, t) && at.page < g.lebPages
    requires at.fragment * g.portionsPerFragment + at.portion < g.portions
  {
    t.lebs[at.fragment * g.portionsPerFragment + at.portion][at.page].range
  }

  /** Inside the volume nothing is cut off. */
  lemma LocateInside(g: Geometry, leb: U64)
    requires g.Valid() && leb < g.pebsPerVolume
    ensures Locate32(g, leb) == Some(g.Locate(leb))
  {
    hide DivCeil, Geometry.LebFragment;
    LocateAgrees(g, leb);
    VolumeSmall(g);
    var per, perPeb := g.pebsPerPortion, g.pebsPerPortion * g.portionsPerFragment;
    MulPositive(per, g.portionsPerFragment);
    var at := g.Locate(leb);
    SmallIndex(leb, perPeb);
    var diff := leb - at.fragment * perPeb;
    SmallIndex(diff, per);
    SmallIndex(diff - at.portion * per, LEB_DESC_PER_FRAGMENT);
  }

  lemma SmallIndex(x: nat, p: nat)
    requires p > 0 && x < TWO32
    ensures x / p % TWO32 == x / p && x / p * p <= x
  {
    DivMonotone(x, x, 1);
    assert x / p <= x by {
      if x < x / p { MulStep(x, x / p, p); MulAtLeast(x, x / p, p); }
    }
  }

  /** The page that is found describes the LEB if and only if the LEB is inside the volume. */
  lemma LocateCovers(g: Geometry, t: Table, leb: U64)
    requires g.Valid() && Shaped(g, t)
    ensures leb < g.pebsPerVolume <==> Locate32(g, leb).Some? && TableRange(g, t, Locate32(g, leb).value).Covers(leb)
  {
    hide Geometry.LebFragment, Locate32, PebTableOk, DivCeil;
    var r := Locate32(g, leb);
    if r.Some? {
      var at := r.value;
      var portion := at.fragment * g.portionsPerFragment + at.portion;
      assert LebTableOk(t.lebs[portion][at.page], g.LebFragment(portion, at.page));
      if leb >= g.pebsPerVolume {
        OutsideUncovered(g, portion, at.page, leb);
      }
    }
    if leb < g.pebsPerVolume {
      LocateInside(g, leb);
      LocateAgrees(g, leb);
    }
  }

  lemma {:induction false} CountSame(descs: seq<U16>, i: nat, v: U16)
    requires i < |descs| && descs[i] != U16_MAX && v != U16_MAX
    ensures CountMapped(descs[i := v]) == CountMapped(descs)
  {
    var n := |descs| - 1;
    if i < n {
      CountSame(descs[..n], i, v);
      assert descs[i := v][..n] == descs[..n][i := v];
    } else {
      assert descs[i := v][..n] == descs[..n];
    }
  }

  /** A LEB that is mapped twice is counted twice. */
  lemma RemapBreaks(g: Geometry, t: Table, leb: nat, stripe: nat, item: nat, kind: PebType)
    requires Free(g, t, leb, stripe, item) && Lookup(g, t, leb).Some? && PhysicalIndex(stripe, item) < U16_MAX
    ensures !Shaped(g, Assign(g, t, leb, stripe, item, kind))
  {
    hide PlaceOf, Consistent, NoDirty, Geometry.PebFragment, Geometry.LebFragment, DivCeil;
    var at := PlaceOf(g, leb);
    var range := g.LebFragment(at.portion, at.page);
    var page, t' := t.lebs[at.portion][at.page], Assign(g, t, leb, stripe, item, kind);
    assert LebTableOk(page, range);
    var descs, physical: U16 := page.descs[..range.count], PhysicalIndex(stripe, item);
    CountSame(descs, at.slot, physical);
    var page' := t'.lebs[at.portion][at.page];
    assert page'.descs[..range.count] == descs[at.slot := physical];
    assert !LebTableOk(page', range);
  }

  /** start_peb + peb_index, which is never U64_MAX. */
  method AssignedPeb(g: Geometry, t: Table, leb: nat, stripe: nat, item: nat) returns (peb: U64)
    requires Free(g, t, leb, stripe, item)
    ensures peb == g.PebFragment(PlaceOf(g, leb).portion, stripe).start + item < U64_MAX
  {
    hide Lookup, Consistent, PlaceOf, Geometry.PebFragment, CountMapped;
    var p := PlaceOf(g, leb).portion;
    var pebPage := t.pebs[p][stripe];
    assert PebTableOk(pebPage, g.PebFragment(p, stripe));
    CoveredInPortion(g, p, stripe, pebPage.range.start + item);
    peb := pebPage.range.start + item;
  }

  /** The BUG_ON conditions of define_peb_as_used and define_leb_as_mapped do not fire. */
  lemma NoBugOn(g: Geometry, t: Table, leb: nat, stripe: nat, item: nat)
    requires Assignable(g, t, leb, stripe, item)
    ensures var at := PlaceOf(g, leb);
            && t.pebs[at.portion][stripe].descs[item] == BLANK
            && t.lebs[at.portion][at.page].mapped < t.lebs[at.portion][at.page].range.count
            && PhysicalIndex(stripe, item) < U16_MAX
  {
    hide Lookup, Consistent, PlaceOf, Geometry.PebFragment, Geometry.LebFragment, CountMapped;
    var at := PlaceOf(g, leb);
    assert PebTableOk(t.pebs[at.portion][stripe], g.PebFragment(at.portion, stripe));
    assert LebTableOk(t.lebs[at.portion][at.page], g.LebFragment(at.portion, at.page));
    AssignShape(g, t, leb, stripe, item, 1);
  }
}
