/**
 * `Buffer` (src/sample_ring_buffer.rs): a fixed-capacity FIFO of byte
 * samples that never blocks and never fails.  A push onto a full buffer
 * evicts and returns the oldest sample; a pop from an empty buffer reports
 * `None`.
 *
 * The source keeps its samples in a `dasp_ring_buffer::Bounded<Vec<u8>>`.
 * Its state is written out here as the fields of `Buffer` itself: the
 * backing array `data` (allocated once, never resized), the index `start`
 * of the oldest sample and the number `len` of samples held.  The ghost
 * field `Contents` is the abstract value, oldest sample first.
 */
module SampleRingBuffer {

  import opened Wrappers
  import opened Sample

  /** The `n` most recent samples of `s` (all of `s` when it is shorter). */
  function Last(s: seq<uint8>, n: nat): (r: seq<uint8>)
    ensures |r| == if |s| <= n then |s| else n
  {
    if |s| <= n then s else s[|s| - n..]
  }

  /** `Last` keeps the newest samples of `s`, in their original order. */
  lemma LastIsNewestSuffix(s: seq<uint8>, n: nat)
    ensures forall i :: 0 <= i < |Last(s, n)| ==> Last(s, n)[i] == s[|s| - |Last(s, n)| + i]
  {
  }

  /**
   * One push, as `Bounded::push` performs it, keeps the newest `c` samples:
   * below capacity the sample is appended, at capacity the oldest one goes.
   */
  lemma {:induction false} PushKeepsNewest(s: seq<uint8>, c: nat, x: uint8)
    requires 0 < c && |s| <= c
    ensures Last(s + [x], c) == if |s| < c then s + [x] else s[1..] + [x]
  {
    if |s| == c {
      assert (s + [x])[1..] == s[1..] + [x];
    }
  }

  /** Trimming to the newest `c` samples before a push loses nothing a later trim would keep. */
  lemma {:induction false} LastSnoc(s: seq<uint8>, c: nat, x: uint8)
    requires 0 < c
    ensures Last(Last(s, c) + [x], c) == Last(s + [x], c)
  {
    if c < |s| {
      var t := s[|s| - c..];
      assert Last(t + [x], c) == t[1..] + [x];
      assert (s + [x])[|s| + 1 - c..] == t[1..] + [x];
    }
  }

  /**
   * Pushing two batches one after the other keeps the same samples as
   * pushing their concatenation: samples are retained in arrival order.
   */
  lemma {:induction false} LastAppend(s: seq<uint8>, c: nat, t: seq<uint8>)
    requires 0 < c
    ensures Last(Last(s, c) + t, c) == Last(s + t, c)
    decreases |t|
  {
    if t != [] {
      var init, x := t[..|t| - 1], t[|t| - 1];
      assert t == init + [x];
      assert Last(s, c) + t == (Last(s, c) + init) + [x];
      assert s + t == (s + init) + [x];
      LastAppend(s, c, init);
      LastSnoc(Last(s, c) + init, c, x);
      LastSnoc(s + init, c, x);
    }
  }

  /**
   * The contents after pushing the samples of `xs` one at a time onto `s`,
   * each push doing what `Bounded::push` does: the reference reading of the
   * `for` loop of pushes that `Buffer.PushAllWithTransform` implements.
   */
  function PushedEach(s: seq<uint8>, c: nat, xs: seq<uint8>): (r: seq<uint8>)
    requires 0 < c && |s| <= c
    decreases |xs|
  {
    if xs == [] then s
    else PushedEach(if |s| < c then s + [xs[0]] else s[1..] + [xs[0]], c, xs[1..])
  }

  /**
   * Pushing samples one at a time, evicting whenever full, keeps exactly the
   * newest `c` samples of everything pushed, in order.
   */
  lemma {:induction false} PushedEachKeepsNewest(s: seq<uint8>, c: nat, xs: seq<uint8>)
    requires 0 < c && |s| <= c
    ensures PushedEach(s, c, xs) == Last(s + xs, c)
    decreases |xs|
  {
    if xs == [] {
      assert s + xs == s;
    } else {
      var x, rest := xs[0], xs[1..];
      var next := if |s| < c then s + [x] else s[1..] + [x];
      assert PushedEach(s, c, xs) == PushedEach(next, c, rest);
      PushKeepsNewest(s, c, x);
      assert next == Last(s + [x], c);
      PushedEachKeepsNewest(next, c, rest);
      assert PushedEach(next, c, rest) == Last(Last(s + [x], c) + rest, c);
      LastAppend(s + [x], c, rest);
      assert (s + [x]) + rest == s + xs;
    }
  }

  /** The loop step of `push_all_with_transform`: trimming, then pushing the next converted sample. */
  lemma PushedOneMore<S>(initial: seq<uint8>, input: seq<S>, i: nat, transform: S -> uint8, c: nat)
    requires 0 < c && i < |input|
    ensures Last(Last(initial + Transformed(input[..i], transform), c) + [transform(input[i])], c)
         == Last(initial + Transformed(input[..i + 1], transform), c)
  {
    var done, x := Transformed(input[..i], transform), transform(input[i]);
    assert input[..i + 1] == input[..i] + [input[i]];
    TransformedAppend(input[..i], [input[i]], transform);
    assert Transformed([input[i]], transform) == [x];
    assert initial + Transformed(input[..i + 1], transform) == (initial + done) + [x];
    LastSnoc(initial + done, c, x);
  }

  /** The backing-array index `i` slots after `start`, wrapping around once: `i` modulo `n`. */
  function Wrap(i: nat, n: nat): (j: nat)
    requires 0 < n && i < 2 * n
    ensures j < n && (j == i || j + n == i)
  {
    if i < n then i else i - n
  }

  class Buffer {
    /** The backing storage of `Bounded`; its length is the capacity. */
    const data: array<uint8>
    /** Index in `data` of the oldest sample. */
    var start: nat
    /** Number of samples held. */
    var len: nat
    /** The samples held, oldest first. */
    ghost var Contents: seq<uint8>

    /** The capacity, fixed at construction (`size_bound`). */
    function Capacity(): nat
    {
      data.Length
    }

    ghost predicate Valid()
      reads this, data
    {
      0 < data.Length && start < data.Length && len <= data.Length &&
      |Contents| == len &&
      forall i :: 0 <= i < len ==> Contents[i] == data[Wrap(start + i, data.Length)]
    }

    /**
     * `Buffer::new(size_bound)`: the storage is filled with silence, but
     * `Bounded::from` starts with no samples held.
     */
    constructor (sizeBound: nat)
      requires 0 < sizeBound
      ensures Valid() && fresh(data)
      ensures Capacity() == sizeBound && Contents == []
      ensures forall i :: 0 <= i < data.Length ==> data[i] == EQUILIBRIUM
    {
      data := new uint8[sizeBound](_ => EQUILIBRIUM);
      start, len := 0, 0;
      Contents := [];
    }

    /** `push`: append `sample`; when full, evict and return the oldest sample. */
    method Push(sample: uint8) returns (evicted: Option<uint8>)
      requires Valid()
      modifies this, data
      ensures Valid()
      ensures |old(Contents)| < Capacity() ==> evicted == None && Contents == old(Contents) + [sample]
      ensures |old(Contents)| == Capacity() ==>
        evicted == Some(old(Contents)[0]) && Contents == old(Contents)[1..] + [sample]
      ensures Contents == Last(old(Contents) + [sample], Capacity())
    {
      PushKeepsNewest(Contents, Capacity(), sample);
      var next := Wrap(start + len, data.Length);
      if len == data.Length {
        evicted := Some(data[next]);
        data[next] := sample;
        start := Wrap(start + 1, data.Length);
        Contents := Contents[1..] + [sample];
      } else {
        evicted := None;
        data[next] := sample;
        len := len + 1;
        Contents := Contents + [sample];
      }
    }

    /** `pop`: remove and return the oldest sample, or `None` when empty. */
    method Pop() returns (sample: Option<uint8>)
      requires Valid()
      modifies this
      ensures Valid()
      ensures old(Contents) == [] ==> sample == None && unchanged(this)
      ensures old(Contents) != [] ==> sample == Some(old(Contents)[0]) && Contents == old(Contents)[1..]
    {
      if len == 0 {
        return None;
      }
      sample := Some(data[start]);
      start, len := Wrap(start + 1, data.Length), len - 1;
      Contents := Contents[1..];
    }

    /**
     * `push_all_with_transform`: push `transform(x)` for every `x` of the
     * input in order, evicting as often as needed.
     */
    method PushAllWithTransform<S>(input: seq<S>, transform: S -> uint8)
      requires Valid()
      modifies this, data
      ensures Valid()
      ensures Contents == Last(old(Contents) + Transformed(input, transform), Capacity())
    {
      ghost var initial := Contents;
      for i := 0 to |input|
        invariant Valid()
        invariant Contents == Last(initial + Transformed(input[..i], transform), Capacity())
      {
        var x := transform(input[i]);
        var _ := Push(x);
        PushedOneMore(initial, input, i, transform, Capacity());
      }
      assert input[..|input|] == input;
    }

    /** `push_all`: `push_all_with_transform` with the identity conversion. */
    method PushAll(input: seq<uint8>)
      requires Valid()
      modifies this, data
      ensures Valid()
      ensures Contents == Last(old(Contents) + input, Capacity())
    {
      PushAllWithTransform(input, x => x);
      TransformedIdentity(input);
    }

    /**
     * `pop_into_with_transform`: pop into the slots of `dst` in order,
     * stopping at the first empty pop; returns how many slots were written.
     */
    method PopIntoWithTransform<S>(dst: array<S>, transform: uint8 -> S) returns (written: nat)
      requires Valid() && dst as object != data as object
      modifies this, dst
      ensures Valid()
      ensures written == Min(dst.Length, |old(Contents)|)
      ensures forall i :: 0 <= i < written ==> dst[i] == transform(old(Contents)[i])
      ensures forall i :: written <= i < dst.Length ==> dst[i] == old(dst[i])
      ensures Contents == old(Contents)[written..]
    {
      written := 0;
      while written < dst.Length
        invariant Valid()
        invariant written <= dst.Length && written <= |old(Contents)|
        invariant Contents == old(Contents)[written..]
        invariant forall i :: 0 <= i < written ==> dst[i] == transform(old(Contents)[i])
        invariant forall i :: written <= i < dst.Length ==> dst[i] == old(dst[i])
      {
        var sample := Pop();
        match sample
        case None =>
          break;
        case Some(x) =>
          dst[written] := transform(x);
          written := written + 1;
      }
    }

    /** `pop_into`: `pop_into_with_transform` with the identity conversion. */
    method PopInto(dst: array<uint8>) returns (written: nat)
      requires Valid() && dst != data
      modifies this, dst
      ensures Valid()
      ensures written == Min(dst.Length, |old(Contents)|)
      ensures dst[..written] == old(Contents)[..written]
      ensures dst[written..] == old(dst[written..])
      ensures Contents == old(Contents)[written..]
    {
      written := PopIntoWithTransform(dst, x => x);
    }
  }

  /**
   * A client of `Buffer`: push `xs` into a fresh buffer of the given
   * capacity, then drain it.  What comes out is the newest `capacity`
   * samples of `xs`, in their original order.
   */
  method PushThenDrain(capacity: nat, xs: seq<uint8>) returns (drained: seq<uint8>)
    requires 0 < capacity
    ensures drained == Last(xs, capacity)
  {
    var b := new Buffer(capacity);
    b.PushAll(xs);
    assert [] + xs == xs;
    LastIsNewestSuffix(xs, capacity);
    var dst := new uint8[capacity](_ => EQUILIBRIUM);
    var n := b.PopInto(dst);
    drained := dst[..n];
  }

  /** Capacity 4, samples 1 to 5 pushed in order: draining yields 2, 3, 4, 5. */
  method OverflowExample() returns (drained: seq<uint8>)
    ensures drained == [2, 3, 4, 5]
  {
    drained := PushThenDrain(4, [1, 2, 3, 4, 5]);
    assert [1, 2, 3, 4, 5][1..] == [2, 3, 4, 5];
  }

  /**
   * Round trip: `push_all` of at most `capacity` samples into a fresh
   * buffer, then `pop_into` a silent destination that is long enough,
   * writes exactly those samples, reports their number and leaves the rest
   * of the destination silent.
   */
  method RoundTrip(capacity: nat, s: seq<uint8>, dstLen: nat) returns (written: nat, slots: seq<uint8>)
    requires 0 < capacity && |s| <= capacity && |s| <= dstLen
    ensures written == |s| && |slots| == dstLen
    ensures slots[..written] == s
    ensures forall i :: written <= i < dstLen ==> slots[i] == EQUILIBRIUM
  {
    var b := new Buffer(capacity);
    b.PushAll(s);
    assert [] + s == s;
    var dst := new uint8[dstLen](_ => EQUILIBRIUM);
    written := b.PopInto(dst);
    slots := dst[..];
  }
}
