/**
 * The search for the newest superblock segment (__is_superblock_segment_found): fsck starts at one of the
 * PEBs named by the snapshot's header and follows the pointers to the next superblock segment.
 */
module SuperblockChain {
  import opened Types

  /** The superblock PEBs named by a segment header, for one copy. */
  datatype Header = Header(cur: U64, next: U64, reserved: U64)

  /** Outcome of reading a segment header at the start of a PEB. */
  datatype Search = Found(hdr: Header) | NotFound | Failure

  /** The device, as the search for a superblock segment sees it. */
  type Device = U64 -> Search

  /** A superblock segment on the chain. */
  datatype Link = Link(peb: U64, hdr: Header)

  datatype Outcome = Reached(link: Link) | Missing | Failed

  /** The first PEB that holds a superblock segment; reading must not fail before it. */
  function Select(dev: Device, pebs: seq<U64>): Outcome {
    if pebs == [] then Missing
    else
      match dev(pebs[0])
      case Found(h) => Reached(Link(pebs[0], h))
      case NotFound => Select(dev, pebs[1..])
      case Failure => Failed
  }

  /** The link reached by `k` hops, if all of them lead to a superblock segment. */
  function Walk(dev: Device, first: Link, k: nat): Option<Link> {
    if k == 0 then Some(first)
    else
      match Walk(dev, first, k - 1)
      case None => None
      case Some(link) => Hop(dev, link)
  }

  function Hop(dev: Device, link: Link): Option<Link> {
    match dev(link.hdr.next)
    case Found(h) => Some(Link(link.hdr.next, h))
    case _ => None
  }

  /** Hops that may succeed before the bound on the number of tries fires. */
  function Bound(pebsPerVolume: U64): nat {
    if pebsPerVolume == 0 then 0 else pebsPerVolume - 1
  }

  /** The newest link: the chain ends behind it. */
  ghost predicate Newest(dev: Device, first: Link, bound: nat, link: Link) {
    exists k :: 0 <= k < bound && EndsAt(dev, first, k, link)
  }

  ghost predicate EndsAt(dev: Device, first: Link, k: nat, link: Link) {
    Walk(dev, first, k) == Some(link) && Walk(dev, first, k + 1).None?
  }

  lemma {:induction false} WalkPrefix(dev: Device, first: Link, i: nat, k: nat)
    requires i <= k && Walk(dev, first, k).Some?
    ensures Walk(dev, first, i).Some?
  {
    if i < k {
      WalkPrefix(dev, first, i, k - 1);
    }
  }

  /** Every link is what the device holds in its PEB. */
  lemma {:induction false} WalkReads(dev: Device, first: Link, k: nat)
    requires dev(first.peb) == Found(first.hdr) && Walk(dev, first, k).Some?
    ensures var link := Walk(dev, first, k).value; dev(link.peb) == Found(link.hdr)
  {
    if k > 0 {
      WalkReads(dev, first, k - 1);
    }
  }

  /** A chain of superblock segments on the device, each in the PEB that the one before it names as the next. */
  predicate IsChain(dev: Device, chain: seq<Link>) {
    && (forall i :: 0 <= i < |chain| ==> dev(chain[i].peb) == Found(chain[i].hdr))
    && (forall i :: 0 < i < |chain| ==> chain[i].peb == chain[i - 1].hdr.next)
  }

  /** Hops and chains: `k` hops lead to a link exactly when a chain of `k` further links ends with it. */
  lemma {:induction false} WalkIsChain(dev: Device, first: Link, k: nat, link: Link)
    requires dev(first.peb) == Found(first.hdr)
    ensures Walk(dev, first, k) == Some(link) <==>
            exists chain: seq<Link> :: |chain| == k + 1 && chain[0] == first && chain[k] == link && IsChain(dev, chain)
  {
    if Walk(dev, first, k) == Some(link) {
      var chain := ChainOf(dev, first, k);
    }
    forall chain: seq<Link> | |chain| == k + 1 && chain[0] == first && chain[k] == link && IsChain(dev, chain)
      ensures Walk(dev, first, k) == Some(link)
    {
      ChainIsWalk(dev, chain, k);
    }
  }

  lemma {:induction false} ChainOf(dev: Device, first: Link, k: nat) returns (chain: seq<Link>)
    requires dev(first.peb) == Found(first.hdr) && Walk(dev, first, k).Some?
    ensures |chain| == k + 1 && chain[0] == first && Some(chain[k]) == Walk(dev, first, k) && IsChain(dev, chain)
  {
    if k == 0 {
      chain := [first];
    } else {
      var init := ChainOf(dev, first, k - 1);
      chain := init + [Walk(dev, first, k).value];
    }
  }

  lemma {:induction false} ChainIsWalk(dev: Device, chain: seq<Link>, k: nat)
    requires IsChain(dev, chain) && k < |chain|
    ensures Walk(dev, chain[0], k) == Some(chain[k])
  {
    if k > 0 {
      ChainIsWalk(dev, chain, k - 1);
    }
  }

  /** The link is the last one of a chain of at most `bound` links that starts at `first`. */
  ghost predicate EndOfChain(dev: Device, first: Link, bound: nat, link: Link) {
    && !dev(link.hdr.next).Found?
    && exists chain: seq<Link> :: 0 < |chain| <= bound && chain[0] == first && chain[|chain| - 1] == link
                                  && IsChain(dev, chain)
  }

  /**
   * The do-while loop. It fails exactly when the first `Bound` hops all lead to a superblock segment;
   * otherwise the link recorded is the last one before the chain ends.
   */
  method FollowChain(dev: Device, first: Link, pebsPerVolume: U64) returns (res: Outcome)
    ensures res != Missing
    ensures res == Failed <==> Walk(dev, first, Bound(pebsPerVolume)).Some?
    ensures res.Reached? ==> Newest(dev, first, Bound(pebsPerVolume), res.link) && Hop(dev, res.link).None?
  {
    var link, tries := first, 0;
    while true
      invariant tries <= Bound(pebsPerVolume) && Walk(dev, first, tries) == Some(link)
      decreases Bound(pebsPerVolume) - tries
    {
      var hop := Hop(dev, link);
      if tries + 1 >= pebsPerVolume {
        return Failed;
      }
      if hop.None? {
        assert EndsAt(dev, first, tries, link);
        if Walk(dev, first, Bound(pebsPerVolume)).Some? {
          WalkPrefix(dev, first, tries + 1, Bound(pebsPerVolume));
        }
        return Reached(link);
      }
      link, tries := hop.value, tries + 1;
    }
  }

  lemma SelectThree(dev: Device, a: U64, b: U64, c: U64)
    ensures Select(dev, [a, b, c]) ==
              if dev(a).Found? then Reached(Link(a, dev(a).hdr))
              else if dev(a).Failure? then Failed
              else if dev(b).Found? then Reached(Link(b, dev(b).hdr))
              else if dev(b).Failure? then Failed
              else if dev(c).Found? then Reached(Link(c, dev(c).hdr))
              else if dev(c).Failure? then Failed
              else Missing
  {
    assert [c][1..] == [] && [b, c][1..] == [c] && [a, b, c][1..] == [b, c];
    assert Select(dev, []) == Missing;
    var last := Select(dev, [c]);
    var middle := Select(dev, [b, c]);
  }

  /** __is_superblock_segment_found, for the snapshot's header `snapshot`. */
  method FindSuperblock(dev: Device, snapshot: Header, pebsPerVolume: U64) returns (res: Outcome)
    ensures var start := Select(dev, [snapshot.cur, snapshot.next, snapshot.reserved]);
            if start.Reached?
              then
              && res != Missing
              && (res == Failed <==> Walk(dev, start.link, Bound(pebsPerVolume)).Some?)
              && (res.Reached? ==>
                    && Newest(dev, start.link, Bound(pebsPerVolume), res.link)
                    && EndOfChain(dev, start.link, Bound(pebsPerVolume), res.link)
                    && dev(res.link.peb) == Found(res.link.hdr) && !dev(res.link.hdr.next).Found?)
              else res == start
  {
    SelectThree(dev, snapshot.cur, snapshot.next, snapshot.reserved);
    hide Select, Walk;
    var peb := snapshot.cur;
    var found := dev(peb);
    if found.Failure? {
      return Failed;
    }
    if found.NotFound? {
      peb := snapshot.next;
      found := dev(peb);
      if found.Failure? {
        return Failed;
      }
    }
    if found.NotFound? {
      peb := snapshot.reserved;
      found := dev(peb);
      if found.NotFound? {
        return Missing;
      }
      if found.Failure? {
        return Failed;
      }
    }
    var first := Link(peb, found.hdr);
    res := FollowChain(dev, first, pebsPerVolume);
    if res.Reached? {
      ghost var k :| 0 <= k < Bound(pebsPerVolume) && EndsAt(dev, first, k, res.link);
      WalkReads(dev, first, k);
      ghost var chain := ChainOf(dev, first, k);
    }
  }

  /** The chain comes back to a link that it has passed. */
  ghost predicate Cyclic(dev: Device, first: Link) {
    exists i: nat, j: nat :: i < j && Repeats(dev, first, i, j)
  }

  ghost predicate Repeats(dev: Device, first: Link, i: nat, j: nat) {
    Walk(dev, first, i).Some? && Walk(dev, first, i) == Walk(dev, first, j)
  }

  /** Walks from equal links are equal. */
  lemma {:induction false} WalkOn(dev: Device, first: Link, i: nat, j: nat, n: nat)
    requires Walk(dev, first, i) == Walk(dev, first, j)
    ensures Walk(dev, first, i + n) == Walk(dev, first, j + n)
  {
    if n > 0 {
      WalkOn(dev, first, i, j, n - 1);
    }
  }

  /** A cyclic chain never ends. */
  lemma {:induction false} CyclicNeverEnds(dev: Device, first: Link, i: nat, j: nat, k: nat)
    requires i < j && Repeats(dev, first, i, j)
    ensures Walk(dev, first, k).Some?
    decreases k
  {
    if k <= j {
      WalkPrefix(dev, first, k, j);
    } else {
      CyclicNeverEnds(dev, first, i, j, i + (k - j));
      WalkOn(dev, first, i, j, k - j);
    }
  }

  lemma {:induction false} Pigeonhole(s: seq<nat>, n: nat) returns (i: nat, j: nat)
    requires |s| > n && forall k :: 0 <= k < |s| ==> s[k] < n
    ensures i < j < |s| && s[i] == s[j]
    decreases n
  {
    var last := |s| - 1;
    if x :| 0 <= x < last && s[x] == s[last] {
      return x, last;
    }
    // The last value occurs once: rename n - 1 to it among the others.
    var t := seq(last, k requires 0 <= k < last => if s[k] == n - 1 then s[last] else s[k]);
    i, j := Pigeonhole(t, n - 1);
  }

  predicate OnDevice(dev: Device, link: Link) {
    dev(link.peb) == Found(link.hdr)
  }

  /** The `k`-th link is in PEB `peb`. */
  predicate InPeb(dev: Device, first: Link, k: nat, peb: U64) {
    Walk(dev, first, k).Some? && Walk(dev, first, k).value.peb == peb
  }

  ghost predicate Visits(dev: Device, first: Link, bound: nat, peb: U64) {
    exists k: nat :: k <= bound && InPeb(dev, first, k, peb)
  }

  /** The chain ends after it has passed every PEB of the volume. */
  ghost predicate Exhausts(dev: Device, first: Link, pebsPerVolume: U64) {
    && Walk(dev, first, Bound(pebsPerVolume)).Some? && Walk(dev, first, Bound(pebsPerVolume) + 1).None?
    && forall peb: U64 :: peb < pebsPerVolume ==> Visits(dev, first, Bound(pebsPerVolume), peb)
  }

  /** A chain with more links than there are places for them comes back to one of them. */
  lemma LongChainRepeats(dev: Device, first: Link, hops: nat, places: seq<nat>)
    requires OnDevice(dev, first) && Walk(dev, first, hops).Some? && |places| == hops + 1
    requires forall k :: 0 <= k <= hops ==> places[k] < hops
    requires forall i, j :: 0 <= i < j <= hops && places[i] == places[j] ==>
               Walk(dev, first, i).Some? && Walk(dev, first, j).Some?
               && Walk(dev, first, i).value.peb == Walk(dev, first, j).value.peb
    ensures Cyclic(dev, first)
  {
    hide Walk;
    var i, j := Pigeonhole(places, hops);
    WalkReads(dev, first, i);
    WalkReads(dev, first, j);
    assert Repeats(dev, first, i, j);
  }

  lemma Links(dev: Device, first: Link, hops: nat, pebsPerVolume: U64, k: nat)
    requires OnDevice(dev, first) && Walk(dev, first, hops).Some? && k <= hops
    requires forall peb: U64 :: dev(peb).Found? ==> peb < pebsPerVolume
    ensures Walk(dev, first, k).Some? && OnDevice(dev, Walk(dev, first, k).value)
    ensures Walk(dev, first, k).value.peb < pebsPerVolume
  {
    WalkPrefix(dev, first, k, hops);
    WalkReads(dev, first, k);
  }

  /** As many hops as the volume has PEBs are too many for a chain that ends. */
  lemma TooManyHops(dev: Device, first: Link, n: U64)
    requires OnDevice(dev, first) && Walk(dev, first, n).Some?
    requires forall peb: U64 :: dev(peb).Found? ==> peb < n
    ensures Cyclic(dev, first)
  {
    hide Walk, Cyclic, OnDevice;
    forall k | 0 <= k <= n ensures Walk(dev, first, k).Some? && Walk(dev, first, k).value.peb < n {
      Links(dev, first, n, n, k);
    }
    var s: seq<nat> := seq(n + 1, k requires 0 <= k <= n => Walk(dev, first, k).value.peb);
    LongChainRepeats(dev, first, n, s);
  }

  /** A chain of as many links as the volume has PEBs that leaves out a PEB comes back to one of its links. */
  lemma LeavesOut(dev: Device, first: Link, n: U64, missing: U64)
    requires OnDevice(dev, first) && Walk(dev, first, Bound(n)).Some? && missing < n
    requires (forall peb: U64 :: dev(peb).Found? ==> peb < n) && !Visits(dev, first, Bound(n), missing)
    ensures Cyclic(dev, first)
  {
    hide Walk, Cyclic, OnDevice;
    var bound := Bound(n);
    forall k | 0 <= k <= bound ensures Walk(dev, first, k).Some? && Walk(dev, first, k).value.peb < n
      && Walk(dev, first, k).value.peb != missing
    {
      Links(dev, first, bound, n, k);
      assert !InPeb(dev, first, k, missing);
    }
    var s: seq<nat> := seq(bound + 1, k requires 0 <= k <= bound =>
      var peb := Walk(dev, first, k).value.peb; if peb > missing then peb - 1 else peb);
    LongChainRepeats(dev, first, bound, s);
  }

  /**
   * If superblock segments are found only inside the volume, the bound on the number of tries fires exactly when
   * the chain is cyclic, or ends after it has passed every PEB of the volume.
   */
  lemma BoundFiresIff(dev: Device, first: Link, pebsPerVolume: U64)
    requires OnDevice(dev, first) && forall peb: U64 :: dev(peb).Found? ==> peb < pebsPerVolume
    ensures Walk(dev, first, Bound(pebsPerVolume)).Some? <==> Cyclic(dev, first) || Exhausts(dev, first, pebsPerVolume)
  {
    hide Walk, Visits;
    var bound := Bound(pebsPerVolume);
    if Walk(dev, first, bound).Some? && !Cyclic(dev, first) {
      if Walk(dev, first, bound + 1).Some? {
        TooManyHops(dev, first, pebsPerVolume);
      }
      forall peb: U64 | peb < pebsPerVolume ensures Visits(dev, first, bound, peb) {
        if !Visits(dev, first, bound, peb) {
          LeavesOut(dev, first, pebsPerVolume, peb);
        }
      }
    }
    if Cyclic(dev, first) {
      var i: nat, j: nat :| i < j && Repeats(dev, first, i, j);
      CyclicNeverEnds(dev, first, i, j, bound);
    }
  }

  /** PEB 0 holds the snapshot, no superblock segment: then the bound fires exactly when the chain is cyclic. */
  lemma BoundFiresIffCyclic(dev: Device, first: Link, pebsPerVolume: U64)
    requires OnDevice(dev, first) && !dev(0).Found?
    requires forall peb: U64 :: dev(peb).Found? ==> peb < pebsPerVolume
    ensures Walk(dev, first, Bound(pebsPerVolume)).Some? <==> Cyclic(dev, first)
  {
    hide Walk, Cyclic;
    BoundFiresIff(dev, first, pebsPerVolume);
    if Exhausts(dev, first, pebsPerVolume) {
      assert Visits(dev, first, Bound(pebsPerVolume), 0);
      var k: nat :| k <= Bound(pebsPerVolume) && InPeb(dev, first, k, 0);
      WalkReads(dev, first, k);
    }
  }
}
