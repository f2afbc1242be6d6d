/**
 * The audio sink (frontend_im/src/audio.rs): before handing a buffer of
 * samples to the host page, it waits until the host's queue has room for it,
 * polling the host's queue occupancy and sleeping between polls.
 */
module Audio {
  import opened Base

  const SAMPLE_RATE: u32 := 22050
  const SAMPLE_SIZE_BITS: u32 := 32
  const CHANNELS: u32 := 2
  const AUDIO_WORKLET_QUANTUM_FRAMES: u32 := 128
  /** One audio-worklet quantum, in seconds. */
  const AUDIO_WORKLET_QUANTUM_SECONDS: real := AUDIO_WORKLET_QUANTUM_FRAMES as real / SAMPLE_RATE as real
  const BYTES_PER_SAMPLE: nat := (SAMPLE_SIZE_BITS / 8) as nat
  const BYTES_PER_SECOND: nat := SAMPLE_RATE as nat * CHANNELS as nat * BYTES_PER_SAMPLE

  /**
   * The emulator core's audio buffer geometry (`AUDIO_BUFFER_SIZE` samples
   * per buffer, `AUDIO_QUEUE_LEN` buffers in flight); the core is not part of
   * this model, so they are parameters.
   */
  datatype CoreAudioConfig = CoreAudioConfig(bufferSize: nat, queueLen: nat)

  /** `MAX_JS_BUFFER_BYTES`: the bytes of a full queue of full buffers. */
  function MaxJsBufferBytes(config: CoreAudioConfig): (n: nat)
    ensures n == config.queueLen * ExpectedLen(config.bufferSize)
  {
    config.bufferSize * BYTES_PER_SAMPLE * config.queueLen
  }

  /** One 32-bit sample, as the bytes it occupies in memory. */
  type SampleBytes = s: seq<byte> | |s| == 4 witness [0, 0, 0, 0]

  /** The buffer's memory as one run of bytes, sample after sample. */
  function Flatten(samples: seq<SampleBytes>): (bytes: seq<byte>)
    ensures |bytes| == |samples| * BYTES_PER_SAMPLE
  {
    if samples == [] then [] else Flatten(samples[..|samples| - 1]) + samples[|samples| - 1]
  }

  /** `expected_len`: the byte length of a buffer of samples. */
  function ExpectedLen(sampleCount: nat): (n: nat)
    ensures n == 4 * sampleCount
  {
    sampleCount * BYTES_PER_SAMPLE
  }

  /** The bytes handed to the host are exactly the samples, each in its own four-byte slot. */
  lemma {:induction false} FlattenSlots(samples: seq<SampleBytes>, i: nat)
    requires i < |samples|
    ensures |Flatten(samples)| == ExpectedLen(|samples|)
    ensures Flatten(samples)[i * 4..i * 4 + 4] == samples[i]
  {
    var init := samples[..|samples| - 1];
    assert Flatten(samples) == Flatten(init) + samples[|samples| - 1];
    if i < |samples| - 1 {
      FlattenSlots(init, i);
      assert init[i] == samples[i];
      assert Flatten(samples)[i * 4..i * 4 + 4] == Flatten(init)[i * 4..i * 4 + 4];
    } else {
      assert |Flatten(init)| == i * 4;
    }
  }

  /** `max_fill`: how full the host's queue may be for this buffer to fit, saturating at 0. */
  function MaxFill(maxBytes: nat, expectedLen: nat): (fill: nat)
    ensures fill <= maxBytes
    ensures expectedLen <= maxBytes ==> fill + expectedLen == maxBytes
    ensures expectedLen >= maxBytes ==> fill == 0
  {
    if expectedLen >= maxBytes then 0 else maxBytes - expectedLen
  }

  /** The exit test of the wait loop: a negative reading, or room for the buffer. */
  function Admits(reading: i32, maxFill: nat): (admits: bool)
    ensures reading < 0 ==> admits
    ensures reading >= 0 ==> (admits <==> reading <= maxFill)
  {
    reading < 0 || reading as nat <= maxFill
  }

  /** `wait_bytes`: how far over `max_fill` the host's queue is. */
  function WaitBytes(reading: i32, maxFill: nat): (wait: nat)
    requires !Admits(reading, maxFill)
    ensures wait > 0 && maxFill + wait == reading as nat
  {
    reading as nat - maxFill
  }

  /**
   * How long to sleep before polling again: three quarters of the time the
   * host needs to play `waitBytes`, but at most one worklet quantum.
   */
  function SleepSeconds(waitBytes: nat): (seconds: real)
    requires waitBytes > 0
    ensures 0.0 < seconds <= AUDIO_WORKLET_QUANTUM_SECONDS
    ensures seconds <= (waitBytes as real / BYTES_PER_SECOND as real) * 0.75
    ensures seconds == AUDIO_WORKLET_QUANTUM_SECONDS || seconds == (waitBytes as real / BYTES_PER_SECOND as real) * 0.75
  {
    var estimate := (waitBytes as real / BYTES_PER_SECOND as real) * 0.75;
    if estimate < 0.0 then 0.0
    else if estimate > AUDIO_WORKLET_QUANTUM_SECONDS then AUDIO_WORKLET_QUANTUM_SECONDS
    else estimate
  }

  /** A call the sink makes to the host page. */
  datatype AudioEvent =
    | DidOpenAudio(sampleRate: u32, sampleSize: u32, channels: u32)
    | Sleep(seconds: real)
    | Enqueue(bytes: seq<byte>)

  /** Some reading of the host's queue, from the next on, lets the buffer in. */
  predicate EventuallyAdmits(readings: seq<i32>, maxFill: nat)
  {
    readings != [] && (Admits(readings[0], maxFill) || EventuallyAdmits(readings[1..], maxFill))
  }

  /** The sleeps the wait loop makes against a sequence of readings: one per reading before the first admitting one. */
  function Waits(readings: seq<i32>, maxFill: nat): (sleeps: seq<AudioEvent>)
    requires EventuallyAdmits(readings, maxFill)
    ensures |sleeps| < |readings|
    ensures Admits(readings[0], maxFill) <==> sleeps == []
  {
    if Admits(readings[0], maxFill) then []
    else [Sleep(SleepSeconds(WaitBytes(readings[0], maxFill)))] + Waits(readings[1..], maxFill)
  }

  /** Each sleep answers the reading at the same position, which did not admit the buffer. */
  predicate SleepsAnswerReadings(sleeps: seq<AudioEvent>, readings: seq<i32>, maxFill: nat)
  {
    && |sleeps| <= |readings|
    && forall k :: 0 <= k < |sleeps| ==>
      !Admits(readings[k], maxFill) && sleeps[k] == Sleep(SleepSeconds(WaitBytes(readings[k], maxFill)))
  }

  /** The wait loop sleeps once per rejected reading, for the time that reading calls for. */
  lemma {:induction false} WaitsAnswerReadings(readings: seq<i32>, maxFill: nat)
    requires EventuallyAdmits(readings, maxFill)
    ensures SleepsAnswerReadings(Waits(readings, maxFill), readings, maxFill)
  {
    if !Admits(readings[0], maxFill) {
      var tail := readings[1..];
      WaitsAnswerReadings(tail, maxFill);
      var sleeps := Waits(readings, maxFill);
      forall k | 0 <= k < |sleeps|
        ensures !Admits(readings[k], maxFill) && sleeps[k] == Sleep(SleepSeconds(WaitBytes(readings[k], maxFill)))
      {
        if k > 0 {
          assert sleeps[k] == Waits(tail, maxFill)[k - 1];
          assert readings[k] == tail[k - 1];
        }
      }
    }
  }

  /** The readings left after the wait loop has taken the admitting one. */
  function AfterWait(readings: seq<i32>, maxFill: nat): (rest: seq<i32>)
    requires EventuallyAdmits(readings, maxFill)
    ensures |rest| == |readings| - |Waits(readings, maxFill)| - 1
    ensures rest == readings[|Waits(readings, maxFill)| + 1..]
    ensures Admits(readings[|Waits(readings, maxFill)|], maxFill)
  {
    if Admits(readings[0], maxFill) then readings[1..] else AfterWait(readings[1..], maxFill)
  }

  /**
   * The host page's audio interface (`js_api::audio`, `js_api::runtime`):
   * the occupancy readings it will give, in order, and the calls it has seen.
   */
  class AudioHost {
    var readings: seq<i32>
    var events: seq<AudioEvent>

    constructor (readings: seq<i32>)
      ensures this.readings == readings && events == []
    {
      this.readings := readings;
      events := [];
    }

    method DidOpen(sampleRate: u32, sampleSize: u32, channels: u32)
      modifies this
      ensures events == old(events) + [DidOpenAudio(sampleRate, sampleSize, channels)] && readings == old(readings)
    {
      events := events + [DidOpenAudio(sampleRate, sampleSize, channels)];
    }

    method BufferSize() returns (reading: i32)
      requires readings != []
      modifies this
      ensures reading == old(readings)[0] && readings == old(readings)[1..] && events == old(events)
    {
      reading := readings[0];
      readings := readings[1..];
    }

    method SleepFor(seconds: real)
      modifies this
      ensures events == old(events) + [Sleep(seconds)] && readings == old(readings)
    {
      events := events + [Sleep(seconds)];
    }

    method EnqueueBytes(bytes: seq<byte>)
      modifies this
      ensures events == old(events) + [Enqueue(bytes)] && readings == old(readings)
    {
      events := events + [Enqueue(bytes)];
    }
  }

  /** `JsAudioSink::new`: announces the stream format to the host. */
  method NewSink(host: AudioHost)
    modifies host
    ensures host.events == old(host.events) + [DidOpenAudio(22050, 32, 2)]
    ensures host.readings == old(host.readings)
  {
    host.DidOpen(SAMPLE_RATE, SAMPLE_SIZE_BITS, CHANNELS);
  }

  /**
   * `JsAudioSink::send`: poll until a reading admits the buffer, sleeping
   * after every reading that does not, then enqueue exactly the buffer's
   * bytes. Always succeeds.
   */
  method Send(config: CoreAudioConfig, host: AudioHost, buffer: seq<SampleBytes>) returns (r: Result<(), string>)
    requires EventuallyAdmits(host.readings, MaxFill(MaxJsBufferBytes(config), ExpectedLen(|buffer|)))
    modifies host
    ensures r.Ok?
    ensures var maxFill := MaxFill(MaxJsBufferBytes(config), ExpectedLen(|buffer|));
      && host.events == old(host.events) + Waits(old(host.readings), maxFill) + [Enqueue(Flatten(buffer))]
      && host.readings == AfterWait(old(host.readings), maxFill)
  {
    var expectedLen := ExpectedLen(|buffer|);
    var maxFill := MaxFill(MaxJsBufferBytes(config), expectedLen);
    ghost var start := host.events;
    ghost var all := host.readings;
    while true
      invariant EventuallyAdmits(host.readings, maxFill)
      invariant start + Waits(all, maxFill) == host.events + Waits(host.readings, maxFill)
      invariant AfterWait(all, maxFill) == AfterWait(host.readings, maxFill)
      decreases |host.readings|
    {
      ghost var before := host.readings;
      var reading := host.BufferSize();
      if reading < 0 || reading as nat <= maxFill {
        assert Waits(before, maxFill) == [] && AfterWait(before, maxFill) == host.readings;
        break;
      }
      var waitBytes := reading as nat - maxFill;
      var seconds := SleepSeconds(waitBytes);
      host.SleepFor(seconds);
      assert Waits(before, maxFill) == [Sleep(seconds)] + Waits(host.readings, maxFill);
      assert AfterWait(before, maxFill) == AfterWait(host.readings, maxFill);
    }
    host.EnqueueBytes(Flatten(buffer));
    r := Ok(());
  }
}
