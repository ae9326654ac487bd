/**
 * The segments of the mapping table, written into the superblock as extents (define_maptbl_extents) and read
 * back by fsck.
 */
module MapTableExtents {
  import opened Types
  import opened Rounding

  /** SSDFS_MAPTBL_RESERVED_EXTENTS */
  const RESERVED_EXTENTS: nat := 3

  datatype ExtentType = EmptyExtent | SegExtent

  datatype Extent = Extent(start: U64, len: U32, kind: ExtentType)

  /** The segments of one extent. */
  function Segments(e: Extent): seq<nat> {
    match e.kind
    case EmptyExtent => []
    case SegExtent => seq(e.len, i => e.start + i)
  }

  /** The segments that fsck visits, extent after extent. */
  function Expand(extents: seq<Extent>): seq<nat> {
    if extents == [] then []
    else Expand(extents[..|extents| - 1]) + Segments(extents[|extents| - 1])
  }

  /** Number of maximal runs of consecutive ids. */
  function RunCount(ids: seq<nat>): nat {
    var n := |ids|;
    if n == 0 then 0
    else RunCount(ids[..n - 1]) + if n >= 2 && ids[n - 1] == ids[n - 2] + 1 then 0 else 1
  }

  /** No extent runs over the end of the 64-bit segment numbers. */
  predicate NoWrap(extents: seq<Extent>) {
    forall k :: 0 <= k < |extents| && extents[k].kind == SegExtent ==> extents[k].start + extents[k].len <= U64_MAX
  }

  /** What fsck visits, extent after extent, with its 64-bit addition: the segments of the extents, in order. */
  method VisitExtents(extents: seq<Extent>) returns (visited: seq<nat>)
    ensures NoWrap(extents) ==> visited == Expand(extents)
  {
    visited := [];
    for k := 0 to |extents|
      invariant NoWrap(extents) ==> visited == Expand(extents[..k])
    {
      assert extents[..k + 1][..k] == extents[..k];
      var e := extents[k];
      ghost var before := visited;
      if e.kind == SegExtent {
        for i := 0 to e.len
          invariant NoWrap(extents) ==> visited == before + Segments(e)[..i]
        {
          if NoWrap(extents) {
            ModUnique(e.start + i, TWO64, 0, e.start + i);
          }
          visited := visited + [(e.start + i) % TWO64];
        }
      }
      assert Segments(e)[..|Segments(e)|] == Segments(e);
    }
    assert extents[..|extents|] == extents;
  }

  lemma {:induction false} RunCountPrefix(ids: seq<nat>, n: nat)
    requires n <= |ids|
    ensures RunCount(ids[..n]) <= RunCount(ids)
  {
    if n < |ids| {
      RunCountPrefix(ids[..|ids| - 1], n);
      assert ids[..|ids| - 1][..n] == ids[..n];
    } else {
      assert ids[..n] == ids;
    }
  }

  lemma RunCountLast(ids: seq<nat>)
    requires ids != []
    ensures var n := |ids|;
            RunCount(ids) == RunCount(ids[..n - 1]) + if n >= 2 && ids[n - 1] == ids[n - 2] + 1 then 0 else 1
  {
  }

  lemma RunCountNext(ids: seq<nat>, i: nat)
    requires 0 < i < |ids|
    ensures RunCount(ids[..i + 1]) == RunCount(ids[..i]) + if ids[i] == ids[i - 1] + 1 then 0 else 1
  {
    assert ids[..i + 1][..i] == ids[..i];
  }

  lemma {:induction false} RunCountConcat(a: seq<nat>, b: seq<nat>)
    ensures RunCount(a + b) <= RunCount(a) + RunCount(b)
  {
    if b == [] {
      assert a + b == a;
    } else {
      hide RunCount;
      var init, c := b[..|b| - 1], a + b;
      RunCountConcat(a, init);
      RunCountLast(b);
      RunCountLast(c);
      assert c[..|c| - 1] == a + init && c[|c| - 1] == b[|b| - 1];
      assert |b| >= 2 ==> c[|c| - 2] == b[|b| - 2];
    }
  }

  lemma {:induction false} RunCountConsecutive(ids: seq<nat>)
    requires forall i :: 0 < i < |ids| ==> ids[i] == ids[i - 1] + 1
    ensures RunCount(ids) <= 1
  {
    if |ids| >= 2 {
      RunCountConsecutive(ids[..|ids| - 1]);
    }
  }

  /** No list of extents that names the ids in order is shorter than their number of runs. */
  lemma {:induction false} ExtentsAtLeastRuns(extents: seq<Extent>)
    ensures RunCount(Expand(extents)) <= |extents|
  {
    if extents != [] {
      var n := |extents| - 1;
      ExtentsAtLeastRuns(extents[..n]);
      RunCountConcat(Expand(extents[..n]), Segments(extents[n]));
      RunCountConsecutive(Segments(extents[n]));
    }
  }

  lemma {:induction false} ExpandEmpty(extents: seq<Extent>, n: nat)
    requires n <= |extents| && forall k :: n <= k < |extents| ==> extents[k].kind == EmptyExtent
    ensures Expand(extents) == Expand(extents[..n])
  {
    if n < |extents| {
      var init := extents[..|extents| - 1];
      ExpandEmpty(init, n);
      assert init[..n] == extents[..n];
    } else {
      assert extents[..n] == extents;
    }
  }

  /** Writing the extent behind the first `j`. */
  lemma ExpandNext(extents: seq<Extent>, j: nat, e: Extent)
    requires j < |extents|
    ensures Expand(extents[j := e][..j + 1]) == Expand(extents[..j]) + Segments(e)
  {
    assert extents[j := e][..j + 1] == extents[..j] + [e];
    assert (extents[..j] + [e])[..j] == extents[..j];
  }

  /**
   * The first `j` extents and the run of `len` ids from `segId` cover the first `i` ids; the other extents are
   * empty.
   */
  ghost predicate Encoded(extents: seq<Extent>, ids: seq<nat>, i: nat, run: Extent, j: nat) {
    && i <= |ids| && j < |extents| == RESERVED_EXTENTS && run.kind == SegExtent && run.len <= i
    && (forall k :: j <= k < |extents| ==> extents[k].kind == EmptyExtent)
    && NoWrap(extents) && (i > 0 ==> run.start + run.len <= U64_MAX)
    && ids[..i] == Expand(extents[..j]) + Segments(run)
    && if i == 0 then run.len == 0 && j == 0
       else run.len > 0 && run.start + run.len == ids[i - 1] + 1 && RunCount(ids[..i]) == j + 1
  }

  /** The next id continues the run. */
  lemma EncodedGrows(extents: seq<Extent>, ids: seq<nat>, i: nat, run: Extent, j: nat)
    requires Encoded(extents, ids, i, run, j) && 0 < i < |ids| < U32_MAX && ids[i] == run.start + run.len < U64_MAX
    ensures Encoded(extents, ids, i + 1, run.(len := run.len + 1), j)
  {
    hide Expand, RunCount, Segments, NoWrap;
    RunCountNext(ids, i);
    SegmentsGrow(run);
    var done, more := Expand(extents[..j]), Segments(run);
    assert ids[..i + 1] == ids[..i] + [ids[i]] == done + (more + [ids[i]]);
  }

  lemma SegmentsGrow(run: Extent)
    requires run.kind == SegExtent && run.len < U32_MAX
    ensures Segments(run.(len := run.len + 1)) == Segments(run) + [run.start + run.len]
  {
  }

  lemma NoSegments(e: Extent)
    requires e.len == 0
    ensures Segments(e) == []
  {
  }

  lemma NoRuns()
    ensures RunCount([]) == 0
  {
  }

  lemma OneSegment(id: U64)
    ensures Segments(Extent(id, 1, SegExtent)) == [id]
  {
  }

  /** The next id starts a new run behind the extent of the old one. */
  lemma EncodedBreaks(extents: seq<Extent>, ids: seq<nat>, i: nat, run: Extent, j: nat)
    requires Encoded(extents, ids, i, run, j) && 0 < i < |ids| && ids[i] != run.start + run.len && ids[i] < U64_MAX
    ensures if j + 1 < RESERVED_EXTENTS then Encoded(extents[j := run], ids, i + 1, Extent(ids[i], 1, SegExtent), j + 1)
            else RunCount(ids) > RESERVED_EXTENTS
  {
    hide Expand, RunCount, Segments;
    RunCountNext(ids, i);
    RunCountPrefix(ids, i + 1);
    ExpandNext(extents, j, run);
    OneSegment(ids[i]);
    assert ids[..i + 1] == ids[..i] + [ids[i]];
  }

  lemma EncodedAll(extents: seq<Extent>, ids: seq<nat>, run: Extent, j: nat)
    requires Encoded(extents, ids, |ids|, run, j)
    ensures RunCount(ids) <= RESERVED_EXTENTS
    ensures var done := if run.len != 0 then extents[j := run] else extents;
            && Expand(done) == ids && NoWrap(done)
            && forall k :: RunCount(ids) <= k < RESERVED_EXTENTS ==> done[k].kind == EmptyExtent
  {
    hide RunCount, Segments, Expand;
    var n := |ids|;
    assert ids[..n] == ids;
    if run.len != 0 {
      ExpandNext(extents, j, run);
      ExpandEmpty(extents[j := run], j + 1);
    } else {
      ExpandEmpty(extents, 0);
      NoSegments(run);
      NoRuns();
    }
  }

  /**
   * define_maptbl_extents: the extents expand to exactly the list of segments, in the fewest extents, and
   * the others are empty. The BUG_ON fires exactly when the segments form more than three runs, which no
   * three extents can describe (`ExtentsAtLeastRuns`).
   */
  method DefineExtents(ids: seq<U64>, extents: array<Extent>) returns (st: Status)
    requires |ids| < U32_MAX && extents.Length == RESERVED_EXTENTS
    requires forall i :: 0 <= i < |ids| ==> ids[i] < U64_MAX
    modifies extents
    ensures st == Success <==> RunCount(ids) <= 3
    ensures st == Success ==>
              && Expand(extents[..]) == ids && NoWrap(extents[..])
              && (forall k :: RunCount(ids) <= k < RESERVED_EXTENTS ==> extents[..][k].kind == EmptyExtent)
    ensures st == Success || st == Bug
  {
    hide Expand, RunCount, Encoded, Segments, NoWrap;
    ClearExtents(extents);
    var run := Extent(U64_MAX, 0, SegExtent);
    var i, j: nat := 0, 0;
    EncodedNothing(extents[..], ids, run);
    while i < |ids|
      invariant i <= |ids| && j < RESERVED_EXTENTS && (run.start == U64_MAX <==> i == 0)
      invariant run.len <= i && run.kind == SegExtent && (i == 0 ==> run.len == 0 && j == 0)
      invariant Encoded(extents[..], ids, i, run, j)
    {
      if run.start == U64_MAX {
        EncodedFirst(extents[..], ids, run.start);
        run := Extent(ids[i], run.len + 1, SegExtent);
      } else if run.start + run.len != ids[i] {
        EncodedBreaks(extents[..], ids, i, run, j);
        if j + 1 >= RESERVED_EXTENTS {
          return Bug;
        }
        StoreExtent(extents, j, run);
        run := Extent(ids[i], 1, SegExtent);
        j := j + 1;
      } else {
        EncodedGrows(extents[..], ids, i, run, j);
        run := run.(len := run.len + 1);
      }
      i := i + 1;
    }
    EncodedAll(extents[..], ids, run, j);
    if run.len != 0 {
      StoreExtent(extents, j, run);
    }
    return Success;
  }

  method StoreExtent(extents: array<Extent>, j: nat, e: Extent)
    requires j < extents.Length
    modifies extents
    ensures extents[..] == old(extents[..])[j := e]
  {
    extents[j] := e;
  }

  method ClearExtents(extents: array<Extent>)
    requires extents.Length == RESERVED_EXTENTS
    modifies extents
    ensures forall k :: 0 <= k < RESERVED_EXTENTS ==> extents[k].kind == EmptyExtent
  {
    for k := 0 to RESERVED_EXTENTS
      invariant forall m :: 0 <= m < k ==> extents[m].kind == EmptyExtent
    {
      extents[k] := extents[k].(kind := EmptyExtent);
    }
  }

  lemma EncodedNothing(extents: seq<Extent>, ids: seq<nat>, run: Extent)
    requires |extents| == RESERVED_EXTENTS && forall k :: 0 <= k < |extents| ==> extents[k].kind == EmptyExtent
    requires run.kind == SegExtent && run.len == 0
    ensures Encoded(extents, ids, 0, run, 0)
  {
    assert extents[..0] == [] && Segments(run) == [];
  }

  lemma EncodedFirst(extents: seq<Extent>, ids: seq<nat>, segId: U64)
    requires Encoded(extents, ids, 0, Extent(segId, 0, SegExtent), 0) && |ids| > 0 && ids[0] < U64_MAX
    ensures Encoded(extents, ids, 1, Extent(ids[0], 1, SegExtent), 0)
  {
    assert ids[..1] == [ids[0]] && ids[..1][..0] == [];
    assert Expand(extents[..0]) == [];
  }
}
