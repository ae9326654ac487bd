/** Whole runs of map_leb2peb: the mapping of all LEBs that mkfs has allocated. */
module MapTableRun {
  import opened Types
  import opened Rounding
  import opened MapTableGeometry
  import opened MapTable

  /** The LEBs to be mapped: segments leave U64_MAX in unused places. */
  function Allocated(ids: seq<U64>): (r: seq<U64>)
    ensures U64_MAX !in r
  {
    if ids == [] then []
    else
      var init, last := Allocated(ids[..|ids| - 1]), ids[|ids| - 1];
      if last == U64_MAX then init else init + [last]
  }

  /** The PEB types of the LEBs to be mapped. */
  function AllocatedKinds(ids: seq<U64>, kinds: seq<PebType>): (r: seq<PebType>)
    requires |kinds| == |ids|
    ensures |r| == |Allocated(ids)|
  {
    if ids == [] then []
    else
      var n := |ids| - 1;
      AllocatedKinds(ids[..n], kinds[..n]) + if ids[n] == U64_MAX then [] else [kinds[n]]
  }

  /**
   * `t` comes from `t0` by mapping `lebs` to `pebs`: the PEBs are pairwise distinct, inside the volume and
   * were unused, each was the first free one of its LEB's stripe, the used PEBs have grown by exactly them, the
   * lookups say so, and they are all counted.
   */
  ghost predicate Run(g: Geometry, t0: Table, t: Table, lebs: seq<nat>, pebs: seq<nat>)
  {
    && Valid(g, t0) && Valid(g, t) && |lebs| == |pebs|
    && MapsTo(g, t, lebs, pebs) && OthersKept(g, t0, t, lebs)
    && NewPebs(g, t0, pebs) && FirstFrees(g, t0, lebs, pebs)
    && (forall id: nat :: Used(g, t, id) <==> Used(g, t0, id) || id in pebs)
    && TotalMapped(t.lebs) == TotalMapped(t0.lebs) + |pebs|
  }

  ghost predicate MapsTo(g: Geometry, t: Table, lebs: seq<nat>, pebs: seq<nat>)
    requires g.Valid() && Shaped(g, t) && |lebs| == |pebs|
  {
    forall i :: 0 <= i < |lebs| ==> lebs[i] < g.pebsPerVolume && Lookup(g, t, lebs[i]) == Some(pebs[i])
  }

  ghost predicate OthersKept(g: Geometry, t0: Table, t: Table, lebs: seq<nat>)
    requires g.Valid() && Shaped(g, t0) && Shaped(g, t)
  {
    forall leb: nat :: leb < g.pebsPerVolume && leb !in lebs ==> Lookup(g, t, leb) == Lookup(g, t0, leb)
  }

  ghost predicate NewPebs(g: Geometry, t0: Table, pebs: seq<nat>)
    requires g.stripes > 0 && Shaped(g, t0)
  {
    && (forall i :: 0 <= i < |pebs| ==> pebs[i] < g.pebsPerVolume && !Used(g, t0, pebs[i]))
    && (forall i, j :: 0 <= i < j < |pebs| ==> pebs[i] != pebs[j])
  }

  ghost predicate FirstFrees(g: Geometry, t0: Table, lebs: seq<nat>, pebs: seq<nat>)
    requires g.Valid() && Shaped(g, t0) && |lebs| == |pebs| && forall i :: 0 <= i < |lebs| ==> lebs[i] < g.pebsPerVolume
  {
    forall i :: 0 <= i < |pebs| ==> FirstFree(g, t0, pebs[..i], lebs[i], pebs[i])
  }

  /** The descriptors after a run: each PEB handed out is in use with its LEB's type, the others are as before. */
  ghost predicate Typed(g: Geometry, t0: Table, t: Table, kinds: seq<PebType>, pebs: seq<nat>)
    requires g.stripes > 0 && Shaped(g, t0) && Shaped(g, t)
  {
    && |kinds| == |pebs|
    && (forall i :: 0 <= i < |pebs| ==> DescIs(g, t, pebs[i], PebDesc(kinds[i], UsingState)))
    && (forall id: nat, desc: PebDesc :: id !in pebs ==> (DescIs(g, t, id, desc) <==> DescIs(g, t0, id, desc)))
  }

  /** `peb` is the first PEB of the stripe of `leb` that is neither used in `t0` nor one of `taken`. */
  ghost predicate FirstFree(g: Geometry, t0: Table, taken: seq<nat>, leb: nat, peb: nat)
    requires g.Valid() && Shaped(g, t0) && leb < g.pebsPerVolume
  {
    && InOwnStripe(g, leb, peb) && LebStripe(g, leb).Covers(peb)
    && forall id: nat :: LebStripe(g, leb).start <= id < peb ==> Used(g, t0, id) || id in taken
  }

  lemma RunExtend(g: Geometry, t0: Table, t: Table, t': Table, lebs: seq<nat>, pebs: seq<nat>,
                  leb: nat, kind: PebType, peb: nat)
    requires Run(g, t0, t, lebs, pebs) && Valid(g, t') && leb < g.pebsPerVolume && leb !in lebs
    requires Mapping(g, t, t', leb, kind, peb)
    ensures Run(g, t0, t', lebs + [leb], pebs + [peb])
  {
    hide Lookup, Used, Shaped, Consistent, Geometry.Valid, NoDirty, TotalMapped, LebStripe, MapsTo, OthersKept,
      NewPebs, FirstFrees, UsedBetween, InOwnStripe, DescIs;
    RunBounds(g, t0, t, lebs, pebs);
    ExtendLookups(g, t0, t, t', lebs, pebs, leb, peb);
    assert forall i :: 0 <= i < |lebs + [leb]| ==> (lebs + [leb])[i] < g.pebsPerVolume;
    ExtendPebs(g, t0, t, pebs, peb);
    ExtendFirstFrees(g, t0, t, lebs, pebs, leb, peb);
  }

  lemma RunBounds(g: Geometry, t0: Table, t: Table, lebs: seq<nat>, pebs: seq<nat>)
    requires Run(g, t0, t, lebs, pebs)
    ensures g.stripes > 0 && forall i :: 0 <= i < |lebs| ==> lebs[i] < g.pebsPerVolume
  {
    hide Lookup, Used, Shaped, Consistent, TotalMapped, LebStripe, OthersKept, NewPebs, FirstFrees;
  }

  lemma ExtendLookups(g: Geometry, t0: Table, t: Table, t': Table, lebs: seq<nat>, pebs: seq<nat>, leb: nat, peb: nat)
    requires g.Valid() && Shaped(g, t0) && Shaped(g, t) && Shaped(g, t') && |lebs| == |pebs|
    requires MapsTo(g, t, lebs, pebs) && OthersKept(g, t0, t, lebs) && leb < g.pebsPerVolume && leb !in lebs
    requires forall other: nat :: other < g.pebsPerVolume ==>
               Lookup(g, t', other) == if other == leb then Some(peb) else Lookup(g, t, other)
    ensures MapsTo(g, t', lebs + [leb], pebs + [peb]) && OthersKept(g, t0, t', lebs + [leb])
  {
    hide Lookup, Used, Shaped, Geometry.Valid;
    forall i | 0 <= i < |lebs| ensures Lookup(g, t', lebs[i]) == Some(pebs[i]) {
      assert lebs[i] in lebs;
    }
  }

  lemma ExtendPebs(g: Geometry, t0: Table, t: Table, pebs: seq<nat>, peb: nat)
    requires g.stripes > 0 && Shaped(g, t0) && Shaped(g, t) && NewPebs(g, t0, pebs)
    requires peb < g.pebsPerVolume && !Used(g, t, peb)
    requires forall id: nat :: Used(g, t, id) <==> Used(g, t0, id) || id in pebs
    ensures NewPebs(g, t0, pebs + [peb])
  {
    hide Used, Shaped;
  }

  lemma ExtendFirstFrees(g: Geometry, t0: Table, t: Table, lebs: seq<nat>, pebs: seq<nat>, leb: nat, peb: nat)
    requires g.Valid() && Shaped(g, t0) && Shaped(g, t) && |lebs| == |pebs| && leb < g.pebsPerVolume
    requires forall i :: 0 <= i < |lebs| ==> lebs[i] < g.pebsPerVolume
    requires FirstFrees(g, t0, lebs, pebs) && forall id: nat :: Used(g, t, id) <==> Used(g, t0, id) || id in pebs
    requires InOwnStripe(g, leb, peb) && LebStripe(g, leb).Covers(peb)
    requires UsedBetween(g, t, LebStripe(g, leb).start, peb)
    ensures FirstFrees(g, t0, lebs + [leb], pebs + [peb])
  {
    hide Used, Shaped, LebStripe, Geometry.Valid, InOwnStripe;
    var lebs', pebs' := lebs + [leb], pebs + [peb];
    assert FirstFree(g, t0, pebs, leb, peb);
    assert pebs'[..|pebs|] == pebs;
    hide FirstFree;
    forall i | 0 <= i < |pebs| ensures FirstFree(g, t0, pebs'[..i], lebs'[i], pebs'[i]) {
      assert pebs'[..i] == pebs[..i];
    }
  }

  lemma TypedExtend(g: Geometry, t0: Table, t: Table, t': Table, kinds: seq<PebType>, pebs: seq<nat>,
                    leb: nat, kind: PebType, peb: nat)
    requires g.Valid() && Shaped(g, t0) && Shaped(g, t) && Shaped(g, t') && leb < g.pebsPerVolume
    requires Typed(g, t0, t, kinds, pebs) && peb !in pebs && Mapping(g, t, t', leb, kind, peb)
    ensures Typed(g, t0, t', kinds + [kind], pebs + [peb])
  {
    hide Lookup, Used, Shaped, DivCeil, TotalMapped, LebStripe, UsedBetween, InOwnStripe, DescIs;
    var kinds', pebs' := kinds + [kind], pebs + [peb];
    forall i | 0 <= i < |pebs'| ensures DescIs(g, t', pebs'[i], PebDesc(kinds'[i], UsingState)) {
      if i < |pebs| {
        assert pebs[i] in pebs;
      }
    }
  }

  /** A PEB that is about to be handed out is none of those handed out before. */
  lemma NotTaken(g: Geometry, t0: Table, t: Table, t': Table, lebs: seq<nat>, pebs: seq<nat>,
                 leb: nat, kind: PebType, peb: nat)
    requires Run(g, t0, t, lebs, pebs) && Valid(g, t') && leb < g.pebsPerVolume && Mapping(g, t, t', leb, kind, peb)
    ensures peb !in pebs
  {
    hide Lookup, Used, Shaped, Consistent, Geometry.Valid, NoDirty, TotalMapped, LebStripe, MapsTo, OthersKept,
      NewPebs, FirstFrees, UsedBetween, InOwnStripe, DescIs;
  }

  lemma RunUnmapped(g: Geometry, t0: Table, t: Table, lebs: seq<nat>, pebs: seq<nat>, leb: nat)
    requires Run(g, t0, t, lebs, pebs) && leb < g.pebsPerVolume && leb !in lebs && Lookup(g, t0, leb).None?
    ensures Lookup(g, t, leb).None?
  {
  }

  lemma EmptyRun(g: Geometry, t: Table, ids: seq<U64>, lebs: seq<U64>)
    requires Valid(g, t)
    ensures Run(g, t, t, lebs[..0], []) && Allocated(ids[..0]) == lebs[..0] && Typed(g, t, t, [], [])
  {
    hide Lookup, Used, Shaped, Consistent, Geometry.Valid, NoDirty, TotalMapped, DescIs;
  }

  /** map_allocated_lebs2pebs and map_segment_lebs2pebs, over the LEB ids of all segments in order. */
  method MapAllocatedLebs(m: MapTbl, ids: seq<U64>, kinds: seq<PebType>) returns (st: Status, pebs: seq<U64>)
    requires m.Ok() && |kinds| == |ids|
    requires forall i, j :: 0 <= i < j < |Allocated(ids)| ==> Allocated(ids)[i] != Allocated(ids)[j]
    requires forall leb :: leb in Allocated(ids) && leb < m.g.pebsPerVolume ==> Lookup(m.g, m.t, leb).None?
    modifies m`t
    ensures m.Ok()
    ensures |pebs| <= |Allocated(ids)| && Run(m.g, old(m.t), m.t, Allocated(ids)[..|pebs|], pebs)
    ensures Typed(m.g, old(m.t), m.t, AllocatedKinds(ids, kinds)[..|pebs|], pebs)
    ensures st == Success <==> |pebs| == |Allocated(ids)|
    ensures st == Success || st == Bug || st == Error(ERANGE)
    ensures st == Error(ERANGE) ==>
              && |pebs| < |Allocated(ids)| && Allocated(ids)[|pebs|] < m.g.pebsPerVolume
              && NoneFree(m.g, m.t, Allocated(ids)[|pebs|])
    ensures st == Bug <==>
              && |pebs| < |Allocated(ids)|
              && (Allocated(ids)[|pebs|] >= m.g.pebsPerVolume || TooFar(m.g, m.t, Allocated(ids)[|pebs|]))
  {
    hide Lookup, Used, Shaped, Consistent, Geometry.Valid, NoDirty, TotalMapped, Mapping, LebStripe, NoneFree, TooFar,
      Run, Allocated, Typed, AllocatedKinds;
    pebs := [];
    ghost var t0, lebs, kinds' := m.t, Allocated(ids), AllocatedKinds(ids, kinds);
    RunShaped(m.g, t0);
    EmptyRun(m.g, t0, ids, lebs);
    assert kinds'[..0] == [];
    var i := 0;
    while i < |ids|
      invariant i <= |ids| && m.Ok() && |pebs| <= |lebs|
      invariant Allocated(ids[..i]) == lebs[..|pebs|]
      invariant Run(m.g, t0, m.t, lebs[..|pebs|], pebs)
      invariant Shaped(m.g, m.t) && Typed(m.g, t0, m.t, kinds'[..|pebs|], pebs)
    {
      NextAllocated(ids, i, |pebs|);
      if ids[i] != U64_MAX {
        ghost var t1 := m.t;
        var peb;
        assert ids[i] in lebs;
        if ids[i] < m.g.pebsPerVolume { RunUnmapped(m.g, t0, m.t, lebs[..|pebs|], pebs, ids[i]); }
        st, peb := m.MapLeb2Peb(ids[i], kinds[i]);
        if st == Bug {
          return;
        }
        if peb == U64_MAX {
          return Error(ERANGE), pebs;
        }
        RunShaped(m.g, m.t);
        assert lebs[..|pebs|] + [ids[i]] == lebs[..|pebs| + 1];
        NotTaken(m.g, t0, t1, m.t, lebs[..|pebs|], pebs, ids[i], kinds[i], peb);
        RunExtend(m.g, t0, t1, m.t, lebs[..|pebs|], pebs, ids[i], kinds[i], peb);
        NextKind(ids, kinds, i, |pebs|);
        TypedExtend(m.g, t0, t1, m.t, kinds'[..|pebs|], pebs, ids[i], kinds[i], peb);
        pebs := pebs + [peb];
      }
      i := i + 1;
    }
    assert ids[..i] == ids;
    st := Success;
  }

  /** The next LEB to be mapped is `ids[i]`, unless that place is unused. */
  lemma NextAllocated(ids: seq<U64>, i: nat, n: nat)
    requires i < |ids| && n <= |Allocated(ids)| && Allocated(ids[..i]) == Allocated(ids)[..n]
    requires forall i, j :: 0 <= i < j < |Allocated(ids)| ==> Allocated(ids)[i] != Allocated(ids)[j]
    ensures ids[i] == U64_MAX ==> Allocated(ids[..i + 1]) == Allocated(ids)[..n]
    ensures ids[i] != U64_MAX ==>
              && n < |Allocated(ids)| && Allocated(ids)[n] == ids[i] && ids[i] !in Allocated(ids)[..n]
              && Allocated(ids[..i + 1]) == Allocated(ids)[..n + 1]
  {
    AllocatedNext(ids, i);
    hide Allocated;
    AllocatedPrefix(ids, i + 1);
    var all := Allocated(ids);
    if ids[i] != U64_MAX {
      var next := Allocated(ids[..i + 1]);
      assert next == all[..|next|] && |next| == n + 1 && next[n] == ids[i];
      assert ids[i] !in all[..n];
    }
  }

  lemma RunShaped(g: Geometry, t: Table)
    requires Valid(g, t)
    ensures g.Valid() && g.stripes > 0 && Shaped(g, t)
  {
    hide Lookup, Used, Shaped, Consistent, NoDirty, DivCeil;
  }

  lemma NextKind(ids: seq<U64>, kinds: seq<PebType>, i: nat, n: nat)
    requires |kinds| == |ids| && i < |ids| && ids[i] != U64_MAX
    requires n < |Allocated(ids)| && |Allocated(ids[..i + 1])| == n + 1
    ensures AllocatedKinds(ids, kinds)[..n + 1] == AllocatedKinds(ids, kinds)[..n] + [kinds[i]]
  {
    hide Allocated;
    KindsPrefix(ids, kinds, i + 1);
    var next, all := AllocatedKinds(ids[..i + 1], kinds[..i + 1]), AllocatedKinds(ids, kinds);
    assert next == all[..n + 1];
    assert next[n] == kinds[i];
  }

  lemma {:induction false} KindsPrefix(ids: seq<U64>, kinds: seq<PebType>, n: nat)
    requires |kinds| == |ids| && n <= |ids|
    ensures AllocatedKinds(ids[..n], kinds[..n]) <= AllocatedKinds(ids, kinds)
  {
    if n < |ids| {
      var k := |ids| - 1;
      KindsPrefix(ids[..k], kinds[..k], n);
      assert ids[..k][..n] == ids[..n] && kinds[..k][..n] == kinds[..n];
    } else {
      assert ids[..n] == ids && kinds[..n] == kinds;
    }
  }

  lemma AllocatedNext(ids: seq<U64>, i: nat)
    requires i < |ids|
    ensures Allocated(ids[..i + 1]) == Allocated(ids[..i]) + if ids[i] == U64_MAX then [] else [ids[i]]
  {
    assert ids[..i + 1][..i] == ids[..i];
  }

  lemma {:induction false} AllocatedPrefix(ids: seq<U64>, n: nat)
    requires n <= |ids|
    ensures Allocated(ids[..n]) <= Allocated(ids)
  {
    if n < |ids| {
      var init := ids[..|ids| - 1];
      AllocatedPrefix(init, n);
      assert init[..n] == ids[..n];
    } else {
      assert ids[..n] == ids;
    }
  }
}
