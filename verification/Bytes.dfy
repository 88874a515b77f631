/** Byte buffers and what it means to write a block into one. */
module Bytes {

  newtype byte = x: int | 0 <= x < 0x100

  /** Total read: bytes past the end count as 0; every use below is shown to be in range. */
  function At(s: seq<byte>, i: nat): byte {
    if i < |s| then s[i] else 0
  }

  /** `was` with `block` written at `base`, byte by byte. */
  function Overlay(was: seq<byte>, base: nat, block: seq<byte>): (r: seq<byte>)
    requires base + |block| <= |was|
    ensures |r| == |was|
  {
    if block == [] then was
    else
      var n := |block| - 1;
      Overlay(was, base, block[..n])[base + n := block[n]]
  }

  /** A written buffer holds the block inside its window and the old bytes outside. */
  lemma {:induction false} OverlayAt(was: seq<byte>, base: nat, block: seq<byte>, k: nat)
    requires base + |block| <= |was| && k < |was|
    ensures Overlay(was, base, block)[k]
         == if base <= k < base + |block| then block[k - base] else was[k]
    decreases |block|
  {
    if block != [] {
      OverlayAt(was, base, block[..|block| - 1], k);
    }
  }

  /** `now` is `was` with exactly `block` written at `base`. */
  ghost predicate Overlaid(now: seq<byte>, was: seq<byte>, base: nat, block: seq<byte>) {
    base + |block| <= |was| && now == Overlay(was, base, block)
  }

  lemma OverlaidByIndex(now: seq<byte>, was: seq<byte>, base: nat, block: seq<byte>)
    requires base + |block| <= |was| && |now| == |was|
    requires forall k :: 0 <= k < |was| ==>
               now[k] == if base <= k < base + |block| then block[k - base] else was[k]
    ensures Overlaid(now, was, base, block)
  {
    var r := Overlay(was, base, block);
    forall k | 0 <= k < |was|
      ensures now[k] == r[k]
    {
      OverlayAt(was, base, block, k);
    }
  }

  lemma OverlayNext(was: seq<byte>, base: nat, done: seq<byte>, a: byte, b: byte)
    requires base + |done| + 1 < |was|
    ensures Overlay(was, base, done + [a, b])
         == Overlay(was, base, done)[base + |done| := a][base + |done| + 1 := b]
  {
    assert (done + [a, b])[..|done| + 1] == done + [a];
    assert (done + [a])[..|done|] == done;
    assert Overlay(was, base, done + [a]) == Overlay(was, base, done)[base + |done| := a];
  }

  lemma {:induction false} OverlayTwice(was: seq<byte>, a: seq<byte>, b: seq<byte>)
    requires |a| + |b| <= |was|
    ensures Overlay(Overlay(was, 0, a), |a|, b) == Overlay(was, 0, a + b)
    decreases |b|
  {
    if b == [] {
      assert a + b == a;
    } else {
      OverlayTwice(was, a, b[..|b| - 1]);
      assert (a + b)[..|a + b| - 1] == a + b[..|b| - 1];
    }
  }

  method Memcpy(dst: array<byte>, to: nat, src: array<byte>, from: nat, n: nat)
    requires src != dst && to + n <= dst.Length && from + n <= src.Length
    modifies dst
    ensures Overlaid(dst[..], old(dst[..]), to, src[from..from + n])
  {
    forall k | 0 <= k < n {
      dst[to + k] := src[from + k];
    }
    OverlaidByIndex(dst[..], old(dst[..]), to, src[from..from + n]);
  }
}
