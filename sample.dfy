/**
 * The canonical sample: one unsigned byte of 8-bit PCM, with its rest value
 * (silence), and the element-wise conversion that the adapters apply at the
 * boundary between the hardware's sample format and the buffer's.
 */
module Sample {

  /** Rust's `u8`. */
  newtype uint8 = x: int | 0 <= x < 0x100

  /** `u8::EQUILIBRIUM`: the midpoint of the unsigned range, i.e. silence. */
  const EQUILIBRIUM: uint8 := 0x80

  /**
   * The smaller of two counts: how many samples a transfer of at most `a`
   * from a source of `b` (or the reverse) moves.
   */
  function Min(a: nat, b: nat): (m: nat)
    ensures m <= a && m <= b
    ensures m == a || m == b
  {
    if a <= b then a else b
  }

  /** The samples of `xs`, each passed through `f`, in the same order. */
  function Transformed<S, U>(xs: seq<S>, f: S -> U): (r: seq<U>)
  {
    seq(|xs|, i requires 0 <= i < |xs| => f(xs[i]))
  }

  /** Transforming a sequence piecewise is transforming it whole. */
  lemma TransformedAppend<S, U>(xs: seq<S>, ys: seq<S>, f: S -> U)
    ensures Transformed(xs + ys, f) == Transformed(xs, f) + Transformed(ys, f)
  {
  }

  /** The identity conversion (`|sample| *sample`) leaves a sequence as it is. */
  lemma TransformedIdentity<S>(xs: seq<S>)
    ensures Transformed(xs, x => x) == xs
  {
  }
}
