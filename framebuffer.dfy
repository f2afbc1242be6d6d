/**
 * The framebuffer sender (frontend_im/src/framebuffer.rs): drains the
 * emulator's channel of finished frames and forwards each one to the host
 * page, announcing new display geometry first whenever a frame's size
 * differs from the last size it announced.
 */
module Framebuffer {
  import opened Base

  /** One finished frame: its size and its pixel bytes. */
  datatype DisplayBuffer = DisplayBuffer(width: u16, height: u16, data: seq<byte>)

  /** A call the sender makes to the host page. */
  datatype VideoEvent =
    | DidOpen(width: u32, height: u32)
    | Blit(data: seq<byte>)

  predicate Resized(width: u16, height: u16, frame: DisplayBuffer)
  {
    frame.width != width || frame.height != height
  }

  /**
   * The host calls for sending `frames` in order, starting from remembered
   * dimensions `width` x `height`: for each frame, a geometry notice when it
   * resizes, then its blit.
   */
  function Dispatch(width: u16, height: u16, frames: seq<DisplayBuffer>): (events: seq<VideoEvent>)
    decreases |frames|
  {
    if frames == [] then []
    else
      var f := frames[0];
      (if Resized(width, height, f) then [DidOpen(f.width as u32, f.height as u32)] else [])
      + [Blit(f.data)]
      + Dispatch(f.width, f.height, frames[1..])
  }

  /** The dimensions remembered after sending `frames`: the last frame's, or the starting ones. */
  function Remembered(width: u16, height: u16, frames: seq<DisplayBuffer>): (r: (u16, u16))
    ensures frames == [] ==> r == (width, height)
    ensures frames != [] ==> r == (frames[|frames| - 1].width, frames[|frames| - 1].height)
    decreases |frames|
  {
    if frames == [] then (width, height) else Remembered(frames[0].width, frames[0].height, frames[1..])
  }

  /** The number of frames whose size differs from their predecessor's (the first compared with the start). */
  function SizeChanges(width: u16, height: u16, frames: seq<DisplayBuffer>): (n: nat)
    ensures n <= |frames|
    decreases |frames|
  {
    if frames == [] then 0
    else (if Resized(width, height, frames[0]) then 1 else 0) + SizeChanges(frames[0].width, frames[0].height, frames[1..])
  }

  /** The blitted payloads of a run of host calls, in order. */
  function Blits(events: seq<VideoEvent>): seq<seq<byte>>
  {
    if events == [] then []
    else (if events[0].Blit? then [events[0].data] else []) + Blits(events[1..])
  }

  /** The number of geometry notices in a run of host calls. */
  function Notices(events: seq<VideoEvent>): nat
  {
    if events == [] then 0 else (if events[0].DidOpen? then 1 else 0) + Notices(events[1..])
  }

  function Payloads(frames: seq<DisplayBuffer>): (p: seq<seq<byte>>)
    ensures |p| == |frames| && forall i :: 0 <= i < |frames| ==> p[i] == frames[i].data
  {
    seq(|frames|, i requires 0 <= i < |frames| => frames[i].data)
  }

  lemma {:induction false} BlitsAppend(a: seq<VideoEvent>, b: seq<VideoEvent>)
    ensures Blits(a + b) == Blits(a) + Blits(b)
  {
    if a != [] {
      assert (a + b)[0] == a[0] && (a + b)[1..] == a[1..] + b;
      BlitsAppend(a[1..], b);
    } else {
      assert a + b == b;
    }
  }

  lemma {:induction false} NoticesAppend(a: seq<VideoEvent>, b: seq<VideoEvent>)
    ensures Notices(a + b) == Notices(a) + Notices(b)
  {
    if a != [] {
      assert (a + b)[0] == a[0] && (a + b)[1..] == a[1..] + b;
      NoticesAppend(a[1..], b);
    } else {
      assert a + b == b;
    }
  }

  /** One call per frame plus one per size change, so a tick with no frames makes no calls. */
  lemma {:induction false} DispatchLength(width: u16, height: u16, frames: seq<DisplayBuffer>)
    ensures |Dispatch(width, height, frames)| == |frames| + SizeChanges(width, height, frames)
    ensures Dispatch(width, height, frames) == [] <==> frames == []
    decreases |frames|
  {
    if frames != [] {
      DispatchLength(frames[0].width, frames[0].height, frames[1..]);
    }
  }

  /** Every frame is blitted exactly once, in arrival order, and nothing else is blitted. */
  lemma {:induction false} DispatchForwardsEveryFrame(width: u16, height: u16, frames: seq<DisplayBuffer>)
    ensures Blits(Dispatch(width, height, frames)) == Payloads(frames)
    decreases |frames|
  {
    if frames != [] {
      var f := frames[0];
      var notice: seq<VideoEvent> := if Resized(width, height, f) then [DidOpen(f.width as u32, f.height as u32)] else [];
      var rest := Dispatch(f.width, f.height, frames[1..]);
      assert Blits(Dispatch(width, height, frames)) == [f.data] + Blits(rest) by {
        BlitsAppend(notice + [Blit(f.data)], rest);
        BlitsAppend(notice, [Blit(f.data)]);
        assert Blits([Blit(f.data)]) == [f.data];
      }
      assert Blits(rest) == Payloads(frames[1..]) by {
        DispatchForwardsEveryFrame(f.width, f.height, frames[1..]);
      }
      assert Payloads(frames) == [f.data] + Payloads(frames[1..]);
    }
  }

  /** One geometry notice per size change, counting from the remembered size. */
  lemma {:induction false} DispatchNoticeCount(width: u16, height: u16, frames: seq<DisplayBuffer>)
    ensures Notices(Dispatch(width, height, frames)) == SizeChanges(width, height, frames)
    decreases |frames|
  {
    if frames != [] {
      var f := frames[0];
      var notice: seq<VideoEvent> := if Resized(width, height, f) then [DidOpen(f.width as u32, f.height as u32)] else [];
      var rest := Dispatch(f.width, f.height, frames[1..]);
      assert Notices(Dispatch(width, height, frames)) == |notice| + Notices(rest) by {
        NoticesAppend(notice + [Blit(f.data)], rest);
        NoticesAppend(notice, [Blit(f.data)]);
        assert Notices([Blit(f.data)]) == 0;
      }
      assert Notices(rest) == SizeChanges(f.width, f.height, frames[1..]) by {
        DispatchNoticeCount(f.width, f.height, frames[1..]);
      }
    }
  }

  /**
   * Notices follow changes, not distinct sizes: returning to an earlier size
   * is announced again, so 640x480, 800x600, 640x480 gives three notices.
   */
  lemma RevisitedSizeNoticedAgain(a: seq<byte>, b: seq<byte>, c: seq<byte>)
    ensures Notices(Dispatch(0, 0, [DisplayBuffer(640, 480, a), DisplayBuffer(800, 600, b), DisplayBuffer(640, 480, c)])) == 3
  {
    var frames := [DisplayBuffer(640, 480, a), DisplayBuffer(800, 600, b), DisplayBuffer(640, 480, c)];
    DispatchNoticeCount(0, 0, frames);
    assert frames[1..][1..] == [frames[2]];
    assert SizeChanges(800, 600, [frames[2]]) == 1;
    assert SizeChanges(0, 0, frames) == 1 + SizeChanges(640, 480, frames[1..]);
  }

  /** Every geometry notice in a run of host calls is immediately followed by a blit. */
  predicate NoticesFollowedByBlit(events: seq<VideoEvent>)
  {
    forall i :: 0 <= i < |events| && events[i].DidOpen? ==> i + 1 < |events| && events[i + 1].Blit?
  }

  /** A geometry notice is always immediately followed by a blit (of the frame that caused it). */
  lemma {:induction false} NoticeThenBlit(width: u16, height: u16, frames: seq<DisplayBuffer>)
    ensures NoticesFollowedByBlit(Dispatch(width, height, frames))
    decreases |frames|
  {
    if frames != [] {
      var f := frames[0];
      var notice: seq<VideoEvent> := if Resized(width, height, f) then [DidOpen(f.width as u32, f.height as u32)] else [];
      var rest := Dispatch(f.width, f.height, frames[1..]);
      NoticeThenBlit(f.width, f.height, frames[1..]);
      var events := Dispatch(width, height, frames);
      assert events == notice + [Blit(f.data)] + rest;
      forall i | 0 <= i < |events| && events[i].DidOpen?
        ensures i + 1 < |events| && events[i + 1].Blit?
      {
        var k := |notice| + 1;
        assert events[|notice|] == Blit(f.data);
        if i >= k {
          assert events[i] == rest[i - k] && rest[i - k].DidOpen?;
          assert i - k + 1 < |rest| && rest[i - k + 1].Blit?;
          assert events[i + 1] == rest[i + 1 - k];
        }
      }
    }
  }

  /** Sending one frame, then the rest from that frame's size, is sending them all. */
  lemma DispatchCons(width: u16, height: u16, frame: DisplayBuffer, rest: seq<DisplayBuffer>)
    ensures Dispatch(width, height, [frame] + rest)
      == Dispatch(width, height, [frame]) + Dispatch(frame.width, frame.height, rest)
    ensures Remembered(width, height, [frame] + rest) == Remembered(frame.width, frame.height, rest)
  {
    assert ([frame] + rest)[1..] == rest && [frame][1..] == [];
  }

  /** Sending in two batches is sending all at once: the sender keeps no state but the size. */
  lemma {:induction false} DispatchSplit(width: u16, height: u16, a: seq<DisplayBuffer>, b: seq<DisplayBuffer>)
    ensures var (w, h) := Remembered(width, height, a);
      Dispatch(width, height, a + b) == Dispatch(width, height, a) + Dispatch(w, h, b)
    decreases |a|
  {
    if a != [] {
      var f, tail := a[0], a[1..];
      var first := Dispatch(width, height, [f]);
      assert Dispatch(width, height, a) == first + Dispatch(f.width, f.height, tail)
        && Remembered(width, height, a) == Remembered(f.width, f.height, tail) by {
        assert a == [f] + tail;
        DispatchCons(width, height, f, tail);
      }
      assert Dispatch(width, height, a + b) == first + Dispatch(f.width, f.height, tail + b) by {
        assert a + b == [f] + (tail + b);
        DispatchCons(width, height, f, tail + b);
      }
      var (w, h) := Remembered(f.width, f.height, tail);
      assert Dispatch(f.width, f.height, tail + b) == Dispatch(f.width, f.height, tail) + Dispatch(w, h, b) by {
        DispatchSplit(f.width, f.height, tail, b);
      }
      assert first + (Dispatch(f.width, f.height, tail) + Dispatch(w, h, b))
        == (first + Dispatch(f.width, f.height, tail)) + Dispatch(w, h, b);
    } else {
      assert a + b == b;
    }
  }

  /** Sending one more frame after a run appends that frame's calls, made from the run's remembered size. */
  lemma DispatchSnoc(width: u16, height: u16, frames: seq<DisplayBuffer>, frame: DisplayBuffer)
    ensures var (w, h) := Remembered(width, height, frames);
      Dispatch(width, height, frames + [frame]) == Dispatch(width, height, frames) + Dispatch(w, h, [frame])
    ensures Remembered(width, height, frames + [frame]) == (frame.width, frame.height)
  {
    DispatchSplit(width, height, frames, [frame]);
  }

  /** The channel from the emulator thread; `TryRecv` takes the oldest frame, if any. */
  class FrameChannel {
    var frames: seq<DisplayBuffer>

    constructor (frames: seq<DisplayBuffer>)
      ensures this.frames == frames
    {
      this.frames := frames;
    }

    method TryRecv() returns (frame: Option<DisplayBuffer>)
      modifies this
      ensures old(frames) == [] ==> frame.None? && frames == []
      ensures old(frames) != [] ==> frame == Some(old(frames)[0]) && frames == old(frames)[1..]
    {
      if frames == [] {
        return None;
      }
      frame := Some(frames[0]);
      frames := frames[1..];
    }
  }

  /** The host page's video interface (`js_api::video`), recording each call in order. */
  class VideoHost {
    var events: seq<VideoEvent>

    constructor ()
      ensures events == []
    {
      events := [];
    }

    method DidOpenVideo(width: u32, height: u32)
      modifies this
      ensures events == old(events) + [DidOpen(width, height)]
    {
      events := events + [DidOpen(width, height)];
    }

    method BlitFrame(data: seq<byte>)
      modifies this
      ensures events == old(events) + [Blit(data)]
    {
      events := events + [Blit(data)];
    }
  }

  class Sender {
    const receiver: FrameChannel
    const host: VideoHost
    var currentWidth: u16
    var currentHeight: u16

    /** `Sender::new`: nothing announced yet, so the remembered size is 0 x 0. */
    constructor (receiver: FrameChannel, host: VideoHost)
      ensures this.receiver == receiver && this.host == host
      ensures currentWidth == 0 && currentHeight == 0
    {
      this.receiver := receiver;
      this.host := host;
      currentWidth := 0;
      currentHeight := 0;
    }

    /**
     * `send_frame`: a geometry notice exactly when the frame's size differs
     * from the remembered one, always before the frame's blit; afterwards the
     * frame's size is remembered.
     */
    method SendFrame(frame: DisplayBuffer)
      modifies this, host
      ensures currentWidth == frame.width && currentHeight == frame.height
      ensures Resized(old(currentWidth), old(currentHeight), frame) ==>
        host.events == old(host.events) + [DidOpen(frame.width as u32, frame.height as u32), Blit(frame.data)]
      ensures !Resized(old(currentWidth), old(currentHeight), frame) ==>
        host.events == old(host.events) + [Blit(frame.data)]
      ensures host.events == old(host.events) + Dispatch(old(currentWidth), old(currentHeight), [frame])
    {
      var width := frame.width;
      var height := frame.height;
      if width != currentWidth || height != currentHeight {
        host.DidOpenVideo(width as u32, height as u32);
        currentWidth := width;
        currentHeight := height;
      }
      host.BlitFrame(frame.data);
    }

    /**
     * `tick`: every frame waiting in the channel is sent, oldest first; the
     * channel is left empty and the last frame's size is remembered.
     */
    method Tick()
      modifies this, host, receiver
      ensures receiver.frames == []
      ensures host.events == old(host.events) + Dispatch(old(currentWidth), old(currentHeight), old(receiver.frames))
      ensures (currentWidth, currentHeight) == Remembered(old(currentWidth), old(currentHeight), old(receiver.frames))
    {
      ghost var start := host.events;
      ghost var all := receiver.frames;
      ghost var sent: seq<DisplayBuffer> := [];
      ghost var w0, h0 := currentWidth, currentHeight;
      var next := receiver.TryRecv();
      while next.Some?
        invariant next.Some? ==> all == sent + [next.value] + receiver.frames
        invariant next.None? ==> all == sent && receiver.frames == []
        invariant host.events == start + Dispatch(w0, h0, sent)
        invariant (currentWidth, currentHeight) == Remembered(w0, h0, sent)
        decreases |receiver.frames|, next.Some?
      {
        var frame := next.value;
        DispatchSnoc(w0, h0, sent, frame);
        SendFrame(frame);
        sent := sent + [frame];
        next := receiver.TryRecv();
      }
    }
  }
}
