# rust-vc audio hand-off, modelled in Dafny

This project models the part of rust-vc that moves live audio between threads. rust-vc relays
audio between two peers over UDP. The model covers four things:

- **`Buffer`**: the bounded, lossy FIFO of byte samples (`src/sample_ring_buffer.rs`). A push
  onto a full buffer evicts and returns the oldest sample. A pop from an empty buffer reports
  `None`. The bulk operations `push_all[_with_transform]` and `pop_into[_with_transform]` sit on
  top of push and pop.
- **`write_silence`** (`src/util.rs`): fills a slice with the sample type's equilibrium value.
- **One pass of each network thread** (`src/udp.rs`), with the socket abstracted. The send pass
  drains the buffer into a local array, sends the drained prefix as one datagram, then
  re-silences that prefix. The receive pass pushes the received bytes into the buffer, then
  re-silences them. Each thread's loop is also modelled over a finite schedule of passes.
- **The two audio callbacks** (`src/audio.rs`). Capture pushes a converted block. Playback
  silences the block, then fills it from the front of the buffer.

Modules follow the source files, plus two for the types they use from outside the repository:

- `Sample`: stands for the `dasp_sample::Sample` trait at `u8`: the byte sample `uint8`, the
  equilibrium value 128 and element-wise conversion.
- `Util`: `write_silence`.
- `SampleRingBuffer`: the `Buffer` class and the function `Last`. `Last(s, c)` is the newest
  `c` samples of `s`, and it specifies what a buffer of capacity `c` keeps.
- `Udp` and `Audio`: the passes, loops and callbacks.
- `Wrappers`: stands for Rust's `Option`.

The source stores samples in a `dasp_ring_buffer::Bounded<Vec<u8>>`, whose code is not part of
this model. Its documented behaviour is written out as fields of `Buffer`:

- a backing array `data`, allocated once and never resized, so the capacity cannot change;
- the index `start` of the oldest sample;
- the count `len` of samples held (the `i`-th oldest sample sits at index `(start + i) % capacity`,
  which `Wrap` computes with a single subtraction);
- a ghost `Contents`, the samples held, oldest first.

`Valid()` ties these together and bounds `len` by the capacity.

The source fills the backing storage with silence, but `Bounded::from` starts with no samples
held, so a new buffer is empty.

## Model

| member | source | states |
|---|---|---|
| `Sample.TransformedIdentity` | src/sample_ring_buffer.rs:31-33 | the identity conversion (the closure returning `*sample`) used by `push_all` and `pop_into` leaves every sequence unchanged |
| `Util.WriteSilence` | src/util.rs:4-8 | the loop turns the array into `Silenced(old, lo, hi, e)`: the slice `a[lo..hi]` is silenced and nothing else is written |
| `Util.SilencedAt` | src/util.rs:4-8 | after silencing, the length is unchanged, every slot of the slice holds the equilibrium value and every slot outside it keeps its old value |
| `Util.SilencedIdempotent` | src/util.rs:4-8 | silencing the same slice twice gives the same result as silencing it once |
| `Util.SilencedEmpty` | src/util.rs:5 | silencing an empty slice changes nothing |
| `Util.SilencedKeepsSilence` | src/udp.rs:41-45 | re-silencing part of an all-silent array leaves it all silent; the send loop's invariant rests on this |
| `Util.SilencedWhole` | src/audio.rs:97 | silencing a whole block leaves every slot silent |
| `SampleRingBuffer.LastIsNewestSuffix` | src/sample_ring_buffer.rs:35-43 | the retained samples (min(length of `s`, `c`) of them, by the contract of `Last`) are the newest samples of the input, in their original order |
| `SampleRingBuffer.PushKeepsNewest` | src/sample_ring_buffer.rs:23-25 | one push keeps the newest `c` samples: below capacity the sample is appended; at capacity the oldest sample is dropped and the new one appended |
| `SampleRingBuffer.LastSnoc` | src/sample_ring_buffer.rs:40-42 | trimming to capacity before each push keeps the same samples as trimming once at the end |
| `SampleRingBuffer.LastAppend` | src/sample_ring_buffer.rs:35-43 | pushing two batches in turn keeps the same samples as pushing their concatenation, so arrival order is preserved across calls |
| `SampleRingBuffer.PushedEachKeepsNewest` | src/sample_ring_buffer.rs:40-42 | pushing samples one at a time, each push appending below capacity and evicting the oldest at capacity, leaves exactly the newest `c` samples of everything pushed, in order |
| `SampleRingBuffer.PushedOneMore` | src/sample_ring_buffer.rs:40-42 | one more pass of the `for` loop extends the pushed prefix by the next converted sample |
| `SampleRingBuffer.Buffer.constructor` | src/sample_ring_buffer.rs:13-17 | a new buffer has capacity `size_bound` (required positive), holds no samples and has fresh, silent storage |
| `SampleRingBuffer.Buffer.Push` | src/sample_ring_buffer.rs:23-25 | not full: returns `None` and appends the sample, so the length grows by one. Full: returns the oldest sample and the contents become `old[1..] + [sample]`, so the length stays at capacity. Either way the result is `Last(old + [sample], capacity)` |
| `SampleRingBuffer.Buffer.Pop` | src/sample_ring_buffer.rs:27-29 | empty: returns `None` and the object is unchanged, so it can repeat. Otherwise: returns `Some(contents[0])` and leaves `contents[1..]` |
| `SampleRingBuffer.Buffer.PushAllWithTransform` | src/sample_ring_buffer.rs:35-43 | the contents become the newest `capacity` samples of `old + map(transform, input)`; every input element is pushed, in order |
| `SampleRingBuffer.Buffer.PushAll` | src/sample_ring_buffer.rs:31-33 | the identity-conversion case: the contents become `Last(old + input, capacity)` |
| `SampleRingBuffer.Buffer.PopIntoWithTransform` | src/sample_ring_buffer.rs:49-65 | returns `n` = min(length of `dst`, length of contents), writes `transform(contents[i])` to `dst[i]` for `i < n`, leaves `dst[n..]` untouched and removes exactly the first `n` samples |
| `SampleRingBuffer.Buffer.PopInto` | src/sample_ring_buffer.rs:45-47 | the identity-conversion case: `dst[..n]` is the oldest `n` samples, `dst[n..]` is untouched and `n` = min(length of `dst`, length of contents) |
| `SampleRingBuffer.PushThenDrain` | src/sample_ring_buffer.rs:31-47 | pushing `xs` into a fresh buffer and then draining it yields exactly the newest `capacity` samples of `xs`, in order |
| `SampleRingBuffer.OverflowExample` | src/sample_ring_buffer.rs:31-47 | capacity 4, push 1..5, drain: the result is `[2, 3, 4, 5]` |
| `SampleRingBuffer.RoundTrip` | src/sample_ring_buffer.rs:31-47 | `push_all` of at most `capacity` samples, then `pop_into` a long enough destination, writes exactly those samples, returns their count and leaves the other slots as they were |
| `Sample.Min` | src/sample_ring_buffer.rs:54-64 | the number of samples a transfer moves (a pop-into, a send pass, a receive cut to the array) is at most each bound and equals one of them |
| `Udp.SendIteration` | src/udp.rs:37-48 | with the lock, the datagram is the oldest `min(UDP_BUF_SIZE, len)` samples, and those samples leave the buffer. An empty buffer gives a zero-length datagram. The drained prefix of `buf` is silenced again, even if the send fails. Without the lock: no datagram, and neither the buffer nor `buf` changes |
| `Udp.SendLoop` | src/udp.rs:33-49 | `buf` starts silent and stays silent at every loop head. Every locked pass sends exactly one datagram holding the oldest min(`UDP_BUF_SIZE`, remaining) samples, and a pass without the lock sends nothing (`SentDatagrams`, `Remaining`). The datagrams, concatenated, are exactly the samples taken from the buffer, in order. No datagram exceeds `UDP_BUF_SIZE` |
| `Udp.SentConserves` | src/udp.rs:39-45 | over any schedule of send passes, the datagrams concatenated, followed by what is left in the buffer, are exactly the original contents: nothing lost, nothing duplicated, order kept |
| `Udp.SendLoopFromEmptyExample` | src/udp.rs:37-48 | against an empty buffer, two passes with the lock and then one without it send exactly two zero-length datagrams |
| `Udp.RecvLockFailureExample` | src/udp.rs:60-66 | a pass whose lock fails leaves the received bytes in the local array, which is then not all silent, unlike the send loop's |
| `Udp.RecvIteration` | src/udp.rs:60-69 | received and locked: the first `num_recved` bytes are pushed in arrival order and the received prefix `buf[..num_recved]` is silenced again; bytes left past it by an earlier lock failure stay. Receive error: nothing changes. Lock failure: the buffer is unchanged and the received bytes stay in `buf` |
| `Udp.RecvLoop` | src/udp.rs:56-71 | after any sequence of passes, the buffer holds the newest `capacity` bytes of all delivered datagrams, in arrival order |
| `Udp.SendFromEmptyExample` | src/udp.rs:39-45 | a send pass with the lock against an empty buffer sends one zero-length datagram |
| `Udp.RecvThenDrain` | src/udp.rs:60-64 | a datagram that fits `buf`, received into a fresh buffer, drains as its newest `capacity` bytes, in order |
| `Udp.RecvOverflowExample` | src/udp.rs:60-64 | a 10-byte datagram received into a buffer of capacity 5 leaves its last 5 bytes, in order |
| `Audio.InputCallback` | src/audio.rs:67-79 | empty block, or lock failure: the buffer is unchanged. Otherwise the converted samples of the whole block are pushed, in order: contents become `Last(old + map(toSample, block), capacity)` |
| `Audio.OutputCallback` | src/audio.rs:91-105 | empty block: the buffer is not touched. Lock failure: the block is all silence and the buffer is unchanged. Otherwise, with `m = min(L, len)`, the first `m` slots are the converted oldest samples, those samples are removed and every remaining slot is silence |
| `Audio.PlaybackUnderrun` | src/audio.rs:97-101 | for byte samples, a buffer holding fewer samples than the block gives those samples followed by silence |
| `Audio.UnderrunExample` | src/audio.rs:97-101 | a 100-sample block with 30 samples buffered gives those 30 samples, then 70 silent slots |
| `Audio.CaptureThenDrain` | src/audio.rs:67-79 | for byte samples, a non-empty block that fits a fresh buffer is captured and drains back unchanged |

## Left out

- Device and stream negotiation, including stream construction (src/audio.rs:13-60, 83, 109).
  It is carried out by cpal, a foreign library.
- The `panic!` on unsupported sample formats (src/audio.rs:33, 58).
- The `f32` sample path and `to_sample`/`from_sample`. They involve floating point inside a
  foreign library. The conversions are abstract arrows. The equilibrium value of a generic
  sample type is a parameter. For `u8` the conversion is the identity and silence is 128.
- src/main.rs: process wiring, socket bind/connect, thread spawning, the stdin wait and
  `play`/`pause`. This is all I/O and lifecycle.
- src/errors.rs: an error enum with `From` conversions. It has no logic of its own.
- `Buffer::new_handle` and the `Arc<Mutex<…>>` sharing.
  - Lock poisoning becomes a per-pass `locked` flag. A poisoned `Mutex` stays poisoned, so the
    program can only produce schedules where successes are followed by failures only. The loop
    contracts hold for any schedule, which covers these.
  - The send pass holds the lock while it calls `socket.send`, because its `MutexGuard` lives to
    the end of the `Ok` arm. The per-pass flag does not show how long the lock is held.
  - Real concurrency between the callbacks and the network threads is not modelled, nor is the
    concurrent no-corruption property.
  - `SendLoop` and `RecvLoop` assume no other thread touches the buffer between passes.
- The unbounded `loop` of each network thread. It is modelled as one pass per entry of a finite
  schedule.
- Blocking `send`/`recv`. A send pass returns the datagram it attempts. A failed send is only
  logged, so it changes nothing. `recv` is given its outcome. A datagram longer than the array
  is cut to its first `buf.len()` bytes and the rest is discarded, as `UdpSocket::recv`
  documents. A receive error is the `RecvError` outcome.
- `UDP_BUF_SIZE` and `SAMPLE_RING_BUF_SIZE` (constants.rs is not part of this model). They are
  positive parameters.
- Logging (`warn!`, `error!`).
- `SampleRingBuffer.Buffer.constructor`: requires a positive `size_bound`, so the panic that
  `Bounded::from` raises on an empty vector (`size_bound` = 0) is not modelled.
