/**
 * `write_silence` (src/util.rs): overwrite every sample of a mutable slice
 * with the sample type's equilibrium value.  The slice is the window
 * `a[lo..hi]` of an array; the equilibrium value of the sample type (a trait
 * constant in the source) is passed in as `equilibrium`.
 */
module Util {

  /** The value of `s` after its window `s[lo..hi]` has been silenced. */
  function Silenced<T>(s: seq<T>, lo: nat, hi: nat, equilibrium: T): (r: seq<T>)
    requires lo <= hi <= |s|
  {
    s[..lo] + seq(hi - lo, _ => equilibrium) + s[hi..]
  }

  /** Every sample of `s` is the equilibrium value. */
  ghost predicate AllSilent<T>(s: seq<T>, equilibrium: T)
  {
    forall i :: 0 <= i < |s| ==> s[i] == equilibrium
  }

  /**
   * Silencing keeps the length, sets exactly the window to the equilibrium
   * value and keeps every sample outside it.
   */
  lemma SilencedAt<T>(s: seq<T>, lo: nat, hi: nat, equilibrium: T)
    requires lo <= hi <= |s|
    ensures |Silenced(s, lo, hi, equilibrium)| == |s|
    ensures forall i :: lo <= i < hi ==> Silenced(s, lo, hi, equilibrium)[i] == equilibrium
    ensures forall i :: 0 <= i < |s| && !(lo <= i < hi) ==> Silenced(s, lo, hi, equilibrium)[i] == s[i]
  {
  }

  /** Silencing the same window twice is silencing it once. */
  lemma SilencedIdempotent<T>(s: seq<T>, lo: nat, hi: nat, equilibrium: T)
    requires lo <= hi <= |s|
    ensures Silenced(Silenced(s, lo, hi, equilibrium), lo, hi, equilibrium) == Silenced(s, lo, hi, equilibrium)
  {
  }

  /** Silencing an empty window changes nothing. */
  lemma SilencedEmpty<T>(s: seq<T>, k: nat, equilibrium: T)
    requires k <= |s|
    ensures Silenced(s, k, k, equilibrium) == s
  {
  }

  /** Silencing a window of an all-silent sequence keeps it all silent. */
  lemma SilencedKeepsSilence<T>(s: seq<T>, lo: nat, hi: nat, equilibrium: T)
    requires lo <= hi <= |s|
    requires AllSilent(s, equilibrium)
    ensures AllSilent(Silenced(s, lo, hi, equilibrium), equilibrium)
  {
  }

  /** Silencing a prefix that reaches the end silences everything. */
  lemma SilencedWhole<T>(s: seq<T>, equilibrium: T)
    ensures AllSilent(Silenced(s, 0, |s|, equilibrium), equilibrium)
  {
  }

  /** `write_silence(&mut a[lo..hi])`: a loop that assigns each slot of the window. */
  method WriteSilence<T>(a: array<T>, lo: nat, hi: nat, equilibrium: T)
    requires lo <= hi <= a.Length
    modifies a
    ensures a[..] == Silenced(old(a[..]), lo, hi, equilibrium)
  {
    for i := lo to hi
      invariant forall k :: lo <= k < i ==> a[k] == equilibrium
      invariant forall k :: 0 <= k < a.Length && !(lo <= k < i) ==> a[k] == old(a[k])
    {
      a[i] := equilibrium;
    }
    SilencedAt(old(a[..]), lo, hi, equilibrium);
  }
}
