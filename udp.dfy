/**
 * The network side of the relay (src/udp.rs): the bodies of the send and
 * receive threads' loops.  The socket is abstract: a datagram sent is the
 * value a send pass returns, and a receive is the `RecvOutcome` a pass is
 * given.  Whether the buffer's mutex could be locked is the flag `locked`.
 */
module Udp {

  import opened Wrappers
  import opened Sample
  import opened Util
  import opened SampleRingBuffer

  /** What `socket.recv(&mut buf)` reports: a datagram's payload, or an I/O error. */
  datatype RecvOutcome = Received(payload: seq<uint8>) | RecvError

  /** The samples of all datagrams, one after the other. */
  function Flatten(ds: seq<seq<uint8>>): (r: seq<uint8>)
  {
    if ds == [] then [] else Flatten(ds[..|ds| - 1]) + ds[|ds| - 1]
  }

  /**
   * The datagrams the send thread emits from buffer contents `s` over the
   * passes `locks`: each locked pass sends the oldest `Min(size, |s|)` samples left,
   * each pass without the lock sends nothing.
   */
  function SentDatagrams(s: seq<uint8>, locks: seq<bool>, size: nat): (r: seq<seq<uint8>>)
    decreases |locks|
  {
    if locks == [] then []
    else if locks[0] then [s[..Min(size, |s|)]] + SentDatagrams(s[Min(size, |s|)..], locks[1..], size)
    else SentDatagrams(s, locks[1..], size)
  }

  /** What is left of buffer contents `s` after the send passes `locks`. */
  function Remaining(s: seq<uint8>, locks: seq<bool>, size: nat): (r: seq<uint8>)
    decreases |locks|
  {
    if locks == [] then s
    else if locks[0] then Remaining(s[Min(size, |s|)..], locks[1..], size)
    else Remaining(s, locks[1..], size)
  }

  /** One send pass more: the schedule from pass `k` on is pass `k` followed by the rest. */
  lemma SentUnfold(s: seq<uint8>, locks: seq<bool>, k: nat, size: nat)
    requires k < |locks|
    ensures locks[k] ==>
      SentDatagrams(s, locks[k..], size) == [s[..Min(size, |s|)]] + SentDatagrams(s[Min(size, |s|)..], locks[k + 1..], size)
    ensures locks[k] ==> Remaining(s, locks[k..], size) == Remaining(s[Min(size, |s|)..], locks[k + 1..], size)
    ensures !locks[k] ==> SentDatagrams(s, locks[k..], size) == SentDatagrams(s, locks[k + 1..], size)
    ensures !locks[k] ==> Remaining(s, locks[k..], size) == Remaining(s, locks[k + 1..], size)
  {
    assert locks[k..][1..] == locks[k + 1..];
  }

  /**
   * Nothing is lost or duplicated by the send passes: the datagrams,
   * concatenated, followed by what is left, are the original contents.
   */
  lemma {:induction false} SentConserves(s: seq<uint8>, locks: seq<bool>, size: nat)
    ensures Flatten(SentDatagrams(s, locks, size)) + Remaining(s, locks, size) == s
    decreases |locks|
  {
    if locks != [] {
      if locks[0] {
        var n := Min(size, |s|);
        var rest := s[n..];
        var later, left := SentDatagrams(rest, locks[1..], size), Remaining(rest, locks[1..], size);
        calc {
          Flatten(SentDatagrams(s, locks, size)) + Remaining(s, locks, size);
          Flatten([s[..n]] + later) + left;
          { FlattenCons(s[..n], later); }
          (s[..n] + Flatten(later)) + left;
          s[..n] + (Flatten(later) + left);
          { SentConserves(rest, locks[1..], size); }
          s[..n] + rest;
          s;
        }
      } else {
        SentConserves(s, locks[1..], size);
      }
    }
  }

  /** Prepending one datagram prepends its samples. */
  lemma {:induction false} FlattenCons(d: seq<uint8>, ds: seq<seq<uint8>>)
    ensures Flatten([d] + ds) == d + Flatten(ds)
    decreases |ds|
  {
    if ds == [] {
      assert [d] + ds == [d];
      assert Flatten([d]) == Flatten([d][..0]) + d;
    } else {
      var init, last := ds[..|ds| - 1], ds[|ds| - 1];
      assert ([d] + ds)[..|ds|] == [d] + init;
      FlattenCons(d, init);
    }
  }

  /**
   * The bytes one receive pass hands to the buffer: the received datagram,
   * as far as it fits `buf`, when the pass also obtained the lock.
   */
  function Arrived(event: (RecvOutcome, bool), bufLen: nat): (r: seq<uint8>)
  {
    var (outcome, locked) := event;
    if outcome.Received? && locked then outcome.payload[..Min(|outcome.payload|, bufLen)] else []
  }

  /** The bytes the receive thread hands to its buffer over a sequence of passes, in arrival order. */
  function Delivered(events: seq<(RecvOutcome, bool)>, bufLen: nat): (r: seq<uint8>)
  {
    if events == [] then []
    else Delivered(events[..|events| - 1], bufLen) + Arrived(events[|events| - 1], bufLen)
  }

  /** The loop step of the receive thread: one more pass delivers its bytes after the earlier ones. */
  lemma RecvStep(initial: seq<uint8>, events: seq<(RecvOutcome, bool)>, k: nat, bufLen: nat, c: nat)
    requires 0 < c && k < |events|
    ensures Last(Last(initial + Delivered(events[..k], bufLen), c) + Arrived(events[k], bufLen), c)
         == Last(initial + Delivered(events[..k + 1], bufLen), c)
  {
    assert events[..k + 1][..k] == events[..k];
    var arrived := Arrived(events[k], bufLen);
    LastAppend(initial + Delivered(events[..k], bufLen), c, arrived);
    assert initial + Delivered(events[..k + 1], bufLen) == (initial + Delivered(events[..k], bufLen)) + arrived;
  }

  /**
   * One pass of the send thread's loop: with the lock, drain up to
   * `buf.Length` samples into `buf`, send the drained prefix as one datagram
   * (a failed send is only logged) and silence that prefix again.  Without
   * the lock nothing is sent and nothing changes.
   */
  method SendIteration(src: Buffer, buf: array<uint8>, locked: bool) returns (datagram: Option<seq<uint8>>)
    requires src.Valid() && buf != src.data
    modifies src, buf
    ensures src.Valid()
    ensures !locked ==> datagram == None && unchanged(src) && unchanged(buf)
    ensures locked ==>
      var n := Min(buf.Length, |old(src.Contents)|);
      datagram == Some(old(src.Contents)[..n]) &&
      src.Contents == old(src.Contents)[n..] &&
      buf[..] == Silenced(old(buf[..]), 0, n, EQUILIBRIUM)
  {
    if locked {
      var n := src.PopInto(buf);
      datagram := Some(buf[..n]);
      WriteSilence(buf, 0, n, EQUILIBRIUM);
    } else {
      datagram := None;
    }
  }

  /**
   * The send thread run for one pass per entry of `locks`, with no other
   * thread touching `src` in between.  The local array starts silent and is
   * silent again at every loop head; every sample taken from `src` leaves in
   * exactly one datagram, in order, and no datagram exceeds `udpBufSize`.
   */
  method SendLoop(src: Buffer, udpBufSize: nat, locks: seq<bool>) returns (datagrams: seq<seq<uint8>>)
    requires src.Valid() && 0 < udpBufSize
    modifies src
    ensures src.Valid()
    ensures datagrams == SentDatagrams(old(src.Contents), locks, udpBufSize)
    ensures src.Contents == Remaining(old(src.Contents), locks, udpBufSize)
    ensures Flatten(datagrams) + src.Contents == old(src.Contents)
    ensures forall k :: 0 <= k < |datagrams| ==> |datagrams[k]| <= udpBufSize
  {
    var buf := new uint8[udpBufSize](_ => EQUILIBRIUM);
    datagrams := [];
    ghost var initial := src.Contents;
    for k := 0 to |locks|
      invariant src.Valid()
      invariant AllSilent(buf[..], EQUILIBRIUM)
      invariant SentDatagrams(initial, locks, udpBufSize)
             == datagrams + SentDatagrams(src.Contents, locks[k..], udpBufSize)
      invariant Remaining(initial, locks, udpBufSize) == Remaining(src.Contents, locks[k..], udpBufSize)
    {
      ghost var before, silent := src.Contents, buf[..];
      ghost var n := Min(udpBufSize, |before|);
      var datagram := SendIteration(src, buf, locks[k]);
      SilencedKeepsSilence(silent, 0, n, EQUILIBRIUM);
      SentUnfold(before, locks, k, udpBufSize);
      if datagram.Some? {
        assert datagrams + SentDatagrams(before, locks[k..], udpBufSize)
            == (datagrams + [datagram.value]) + SentDatagrams(src.Contents, locks[k + 1..], udpBufSize);
        datagrams := datagrams + [datagram.value];
      }
    }
    assert locks[|locks|..] == [];
    SentConserves(initial, locks, udpBufSize);
    SentBounded(initial, locks, udpBufSize);
  }

  /** No datagram of the send passes exceeds `size`. */
  lemma {:induction false} SentBounded(s: seq<uint8>, locks: seq<bool>, size: nat)
    ensures forall k :: 0 <= k < |SentDatagrams(s, locks, size)| ==> |SentDatagrams(s, locks, size)[k]| <= size
    decreases |locks|
  {
    if locks != [] {
      SentBounded(if locks[0] then s[Min(size, |s|)..] else s, locks[1..], size);
    }
  }

  /**
   * The send thread against an empty buffer sends a zero-length datagram on
   * every pass that obtains the lock, and nothing once the lock fails (a
   * poisoned mutex stays poisoned, so no pass after a failure succeeds).
   */
  method SendLoopFromEmptyExample(capacity: nat) returns (datagrams: seq<seq<uint8>>)
    requires 0 < capacity
    ensures datagrams == [[], []]
  {
    var src := new Buffer(capacity);
    datagrams := SendLoop(src, 4, [true, true, false]);
  }

  /**
   * One pass of the receive thread's loop: receive into `buf` (a datagram
   * longer than `buf` is cut to its first `buf.Length` bytes); with the
   * lock, push the received prefix and silence that prefix again.  A receive error
   * changes nothing; a lock failure leaves the received bytes in `buf`.
   */
  method RecvIteration(sink: Buffer, buf: array<uint8>, outcome: RecvOutcome, locked: bool)
    requires sink.Valid() && buf != sink.data
    modifies sink, sink.data, buf
    ensures sink.Valid()
    ensures outcome.RecvError? ==> unchanged(sink, sink.data) && unchanged(buf)
    ensures outcome.Received? && locked ==>
      var n := Min(|outcome.payload|, buf.Length);
      sink.Contents == Last(old(sink.Contents) + outcome.payload[..n], sink.Capacity()) &&
      buf[..] == Silenced(old(buf[..]), 0, n, EQUILIBRIUM)
    ensures outcome.Received? && !locked ==>
      var n := Min(|outcome.payload|, buf.Length);
      unchanged(sink, sink.data) &&
      buf[..] == outcome.payload[..n] + old(buf[n..])
  {
    match outcome
    case RecvError =>
    case Received(payload) =>
      var n := Min(|payload|, buf.Length);
      forall i | 0 <= i < n {
        buf[i] := payload[i];
      }
      assert buf[..n] == payload[..n];
      if locked {
        sink.PushAll(buf[..n]);
        WriteSilence(buf, 0, n, EQUILIBRIUM);
      } else {
        assert buf[..] == buf[..n] + buf[n..];
      }
  }

  /**
   * The receive thread run for one pass per entry of `events` (what `recv`
   * reported, and whether the lock was obtained), with no other thread
   * touching `sink` in between: the buffer ends up holding the newest
   * samples of everything delivered, in arrival order.
   */
  method RecvLoop(sink: Buffer, udpBufSize: nat, events: seq<(RecvOutcome, bool)>)
    requires sink.Valid() && 0 < udpBufSize
    modifies sink, sink.data
    ensures sink.Valid()
    ensures sink.Contents == Last(old(sink.Contents) + Delivered(events, udpBufSize), sink.Capacity())
  {
    var buf := new uint8[udpBufSize](_ => EQUILIBRIUM);
    ghost var initial := sink.Contents;
    assert Delivered(events[..0], udpBufSize) == [];
    assert initial == Last(initial, sink.Capacity());
    for k := 0 to |events|
      invariant sink.Valid()
      invariant sink.Contents == Last(initial + Delivered(events[..k], udpBufSize), sink.Capacity())
    {
      var (outcome, locked) := events[k];
      ghost var before := sink.Contents;
      RecvIteration(sink, buf, outcome, locked);
      if !(outcome.Received? && locked) {
        assert before + [] == before;
      }
      assert sink.Contents == Last(before + Arrived(events[k], udpBufSize), sink.Capacity());
      RecvStep(initial, events, k, udpBufSize, sink.Capacity());
    }
    assert events[..|events|] == events;
  }

  /**
   * A send pass against an empty buffer drains nothing, yet still sends a
   * zero-length datagram.
   */
  method SendFromEmptyExample(capacity: nat, udpBufSize: nat) returns (datagram: Option<seq<uint8>>)
    requires 0 < capacity
    ensures datagram == Some([])
  {
    var src := new Buffer(capacity);
    var buf := new uint8[udpBufSize](_ => EQUILIBRIUM);
    datagram := SendIteration(src, buf, true);
  }

  /**
   * A client of the receive pass: one datagram that fits `buf` received into
   * a fresh buffer; draining the buffer afterwards yields the newest
   * `capacity` bytes of the datagram, in order.
   */
  method RecvThenDrain(capacity: nat, udpBufSize: nat, payload: seq<uint8>) returns (held: seq<uint8>)
    requires 0 < capacity && |payload| <= udpBufSize
    ensures held == Last(payload, capacity)
  {
    var sink := new Buffer(capacity);
    var buf := new uint8[udpBufSize](_ => EQUILIBRIUM);
    RecvIteration(sink, buf, Received(payload), true);
    assert [] + payload[..|payload|] == payload;
    LastIsNewestSuffix(payload, capacity);
    var out := new uint8[capacity](_ => EQUILIBRIUM);
    var n := sink.PopInto(out);
    held := out[..n];
  }

  /** A 10-byte datagram received into a buffer of capacity 5 leaves its last 5 bytes. */
  method RecvOverflowExample(payload: seq<uint8>) returns (held: seq<uint8>)
    requires |payload| == 10
    ensures held == payload[5..]
  {
    held := RecvThenDrain(5, 10, payload);
  }

  /**
   * Unlike the send loop's array, the receive loop's array is not silent
   * again after every pass: when the lock fails, the received bytes stay.
   */
  method RecvLockFailureExample() returns (local: seq<uint8>)
    ensures local == [1, 2, 3, EQUILIBRIUM]
  {
    var sink := new Buffer(4);
    var buf := new uint8[4](_ => EQUILIBRIUM);
    RecvIteration(sink, buf, Received([1, 2, 3]), false);
    local := buf[..];
  }
}
