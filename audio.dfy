/**
 * The two audio callbacks (the `data_fn` closures of src/audio.rs) that the
 * platform audio engine calls with a block of samples in the device's own
 * format `T`.  The conversions to and from the buffer's byte samples are
 * the arrows `toSample` and `fromSample`; `equilibrium` is the silence value
 * of `T`.  Whether the buffer's mutex could be locked is the flag `locked`.
 */
module Audio {

  import opened Sample
  import opened Util
  import opened SampleRingBuffer

  /**
   * The capture callback: an empty block is ignored; otherwise the whole
   * block is converted and pushed with one `push_all_with_transform`.  A
   * lock failure drops the block.
   */
  method InputCallback<T>(sink: Buffer, block: seq<T>, toSample: T -> uint8, locked: bool)
    requires sink.Valid()
    modifies sink, sink.data
    ensures sink.Valid()
    ensures (block == [] || !locked) ==> unchanged(sink, sink.data)
    ensures block != [] && locked ==>
      sink.Contents == Last(old(sink.Contents) + Transformed(block, toSample), sink.Capacity())
  {
    if block == [] {
      return;
    }
    if locked {
      sink.PushAllWithTransform(block, toSample);
    }
  }

  /**
   * The playback callback: an empty block is ignored; otherwise the block is
   * first silenced, then one `pop_into_with_transform` fills it from the
   * front.  Slots the buffer cannot fill stay silent; a lock failure leaves
   * the whole block silent.
   */
  method OutputCallback<T>(source: Buffer, block: array<T>, fromSample: uint8 -> T, equilibrium: T, locked: bool)
    requires source.Valid() && block as object != source.data as object
    modifies source, block
    ensures source.Valid()
    ensures block.Length == 0 ==> unchanged(source)
    ensures block.Length != 0 && !locked ==> unchanged(source) && AllSilent(block[..], equilibrium)
    ensures block.Length != 0 && locked ==>
      var m := Min(block.Length, |old(source.Contents)|);
      (forall i :: 0 <= i < m ==> block[i] == fromSample(old(source.Contents)[i])) &&
      (forall i :: m <= i < block.Length ==> block[i] == equilibrium) &&
      source.Contents == old(source.Contents)[m..]
  {
    if block.Length == 0 {
      return;
    }
    WriteSilence(block, 0, block.Length, equilibrium);
    SilencedWhole(old(block[..]), equilibrium);
    if locked {
      var _ := source.PopIntoWithTransform(block, fromSample);
    }
  }

  /**
   * A client of the playback callback for byte samples (conversion is the
   * identity, silence is `EQUILIBRIUM`): a buffer holding fewer samples than
   * the block gives those samples followed by silence.
   */
  method PlaybackUnderrun(capacity: nat, buffered: seq<uint8>, blockLen: nat) returns (block: seq<uint8>)
    requires 0 < capacity && |buffered| <= capacity && |buffered| <= blockLen
    ensures block == buffered + seq(blockLen - |buffered|, _ => EQUILIBRIUM)
  {
    var source := new Buffer(capacity);
    source.PushAll(buffered);
    assert [] + buffered == buffered;
    var out := new uint8[blockLen];
    OutputCallback(source, out, x => x, EQUILIBRIUM, true);
    block := out[..];
  }

  /** A 100-sample block against 30 buffered samples: the 30 samples, then 70 silent slots. */
  method UnderrunExample(buffered: seq<uint8>) returns (block: seq<uint8>)
    requires |buffered| == 30
    ensures |block| == 100 && block[..30] == buffered
    ensures forall i :: 30 <= i < 100 ==> block[i] == EQUILIBRIUM
  {
    block := PlaybackUnderrun(64, buffered, 100);
  }

  /**
   * A client of the capture callback for byte samples: a non-empty block
   * captured into a fresh buffer it fits, then drained, comes out unchanged.
   */
  method CaptureThenDrain(capacity: nat, captured: seq<uint8>) returns (drained: seq<uint8>)
    requires 0 < |captured| <= capacity
    ensures drained == captured
  {
    var sink := new Buffer(capacity);
    InputCallback(sink, captured, x => x, true);
    TransformedIdentity(captured);
    assert [] + captured == captured;
    var out := new uint8[capacity];
    var n := sink.PopInto(out);
    drained := out[..n];
  }
}
