/** Bytes, and laying one sequence over part of another. */
module Bytes {

  type byte = x: nat | x < 256

  function Zeros(n: nat): (z: seq<byte>)
    ensures |z| == n && forall i :: 0 <= i < n ==> z[i] == 0
  {
    seq(n, _ => 0)
  }

  /** `whole` with `part` laid over it at `start`. */
  function Overlay<T>(whole: seq<T>, start: nat, part: seq<T>): (r: seq<T>)
    requires start + |part| <= |whole|
    ensures |r| == |whole|
  {
    whole[..start] + part + whole[start + |part|..]
  }

  /** A sequence that has the part in its range and the old elements elsewhere is the overlay. */
  lemma OverlayAt<T>(now: seq<T>, was: seq<T>, start: nat, part: seq<T>)
    requires |now| == |was| && start + |part| <= |was|
    requires forall i :: 0 <= i < start || start + |part| <= i < |was| ==> now[i] == was[i]
    requires forall j :: 0 <= j < |part| ==> now[start + j] == part[j]
    ensures now == Overlay(was, start, part)
  {
    assert now[start..start + |part|] == part;
    assert now == now[..start] + now[start..start + |part|] + now[start + |part|..];
  }

  lemma TakeMore<T>(s: seq<T>, m: nat, n: nat)
    requires m <= n <= |s|
    ensures s[..m] + s[m..n] == s[..n]
  {
  }
}
