/** Little-endian fields and the copying of bytes inside a buffer. */
module Bytes {
  import opened Types

  /** The `k` bytes of `v`, least significant first. */
  function Le(v: nat, k: nat): (r: seq<Byte>)
    ensures |r| == k
  {
    if k == 0 then [] else [v % 0x100] + Le(v / 0x100, k - 1)
  }

  /** The number read from little-endian bytes. */
  function Value(s: seq<Byte>): nat {
    if s == [] then 0 else s[0] + 0x100 * Value(s[1..])
  }

  /** Reading back `k` bytes gives the value modulo 256^k: here for the widths in use. */
  lemma {:induction false} ValueLe(v: nat, k: nat)
    requires v < Width(k)
    ensures Value(Le(v, k)) == v
  {
    if k > 0 {
      ValueLe(v / 0x100, k - 1);
      assert Le(v, k)[1..] == Le(v / 0x100, k - 1);
    }
  }

  function Width(k: nat): nat {
    if k == 0 then 1 else 0x100 * Width(k - 1)
  }

  lemma Value16(v: U16)
    ensures Value(Le(v, 2)) == v
  {
    assert Width(2) == 0x1_0000;
    ValueLe(v, 2);
  }

  lemma Value64(v: U64)
    ensures Value(Le(v, 8)) == v
  {
    assert Width(4) == 0x1_0000_0000;
    assert Width(8) == 0x1_0000_0000_0000_0000;
    ValueLe(v, 8);
  }

  /** The buffer holds `s` at `base`. */
  predicate At(b: seq<Byte>, base: nat, s: seq<Byte>) {
    base + |s| <= |b| && b[base..base + |s|] == s
  }

  lemma AtSplit(b: seq<Byte>, base: nat, s: seq<Byte>, t: seq<Byte>)
    ensures At(b, base, s + t) <==> At(b, base, s) && At(b, base + |s|, t)
  {
    var n := base + |s + t|;
    if n <= |b| {
      assert b[base..n] == b[base..base + |s|] + b[base + |s|..n];
      if At(b, base, s + t) {
        assert b[base..base + |s|] == b[base..n][..|s|] == s;
        assert b[base + |s|..n] == b[base..n][|s|..] == t;
      }
    }
  }

  lemma AtJoin(b: seq<Byte>, base: nat, s: seq<Byte>, t: seq<Byte>, u: seq<Byte>)
    requires At(b, base, s) && At(b, base + |s|, t) && At(b, base + |s| + |t|, u)
    ensures At(b, base, s + t + u)
  {
    hide At;
    AtSplit(b, base, s, t);
    AtSplit(b, base, s + t, u);
  }

  /** memmove inside a buffer. */
  function Moved(b: seq<Byte>, dst: nat, src: nat, n: nat): (r: seq<Byte>)
    requires dst + n <= |b| && src + n <= |b|
    ensures |r| == |b|
  {
    b[..dst] + b[src..src + n] + b[dst + n..]
  }

  /** `b` with the bytes from `dst` on replaced by `s`: memcpy, or a write to a device. */
  function Overlay(b: seq<Byte>, dst: nat, s: seq<Byte>): (r: seq<Byte>)
    requires dst + |s| <= |b|
    ensures |r| == |b|
  {
    b[..dst] + s + b[dst + |s|..]
  }

  /** The bytes written are there. */
  lemma OverlayAt(b: seq<Byte>, dst: nat, s: seq<Byte>)
    requires dst + |s| <= |b|
    ensures At(Overlay(b, dst, s), dst, s)
  {
  }

  /** Everything in front of, or behind, the bytes written stays. */
  lemma OverlayFrame(b: seq<Byte>, dst: nat, s: seq<Byte>, base: nat, t: seq<Byte>)
    requires dst + |s| <= |b| && At(b, base, t) && (base + |t| <= dst || dst + |s| <= base)
    ensures At(Overlay(b, dst, s), base, t)
  {
    var r := Overlay(b, dst, s);
    assert forall i :: base <= i < base + |t| ==> r[i] == b[i];
  }

  lemma MovedIsOverlay(b: seq<Byte>, dst: nat, src: nat, s: seq<Byte>)
    requires At(b, src, s) && dst + |s| <= |b|
    ensures Moved(b, dst, src, |s|) == Overlay(b, dst, s)
  {
  }

  lemma MovedFrame(b: seq<Byte>, dst: nat, src: nat, n: nat, base: nat, t: seq<Byte>)
    requires dst + n <= |b| && src + n <= |b| && At(b, base, t) && (base + |t| <= dst || dst + n <= base)
    ensures At(Moved(b, dst, src, n), base, t)
  {
    assert At(b, src, b[src..src + n]);
    MovedIsOverlay(b, dst, src, b[src..src + n]);
    OverlayFrame(b, dst, b[src..src + n], base, t);
  }

  /** Moving `t` away from `s`. */
  lemma MovedApart(b: seq<Byte>, base: nat, s: seq<Byte>, t: seq<Byte>, dst: nat, src: nat, n: nat)
    requires At(b, base, s + t) && src == base + |s| && n == |t| && src <= dst && dst + n <= |b|
    ensures At(Moved(b, dst, src, n), base, s) && At(Moved(b, dst, src, n), dst, t)
  {
    hide At, Moved, Overlay;
    AtSplit(b, base, s, t);
    MovedIsOverlay(b, dst, src, t);
    OverlayAt(b, dst, t);
    OverlayFrame(b, dst, t, base, s);
  }

  method Memmove(a: array<Byte>, dst: nat, src: nat, n: nat)
    requires dst + n <= a.Length && src + n <= a.Length
    modifies a
    ensures a[..] == Moved(old(a[..]), dst, src, n)
  {
    forall i | dst <= i < dst + n {
      a[i] := a[i - dst + src];
    }
  }

  method Memcpy(a: array<Byte>, dst: nat, s: seq<Byte>)
    requires dst + |s| <= a.Length
    modifies a
    ensures a[..] == Overlay(old(a[..]), dst, s)
  {
    forall i | dst <= i < dst + |s| {
      a[i] := s[i - dst];
    }
  }
}
