# Snow browser front-end: host-bridge model

This project models the host-bridge layer of the Snow emulator's browser
front-end (`frontend_im`). The bridge sits between the tick-driven emulator
core and the browser page that hosts it. The model covers these parts:

- **Input translator.** Once per tick, and only if the host's advisory lock
  was taken, it reads one snapshot of host input. It turns that snapshot
  into emulator commands: mouse first, then keyboard, then speed. Readings
  are clamped to the command's integer width, and the lock is released
  afterwards.
- **Snapshot protocol.** The page queues save and load requests in a
  JavaScript mailbox, which has a FIFO queue plus one "active" slot. The
  Rust side polls the kind and then the request id, and decodes the pair
  into a command. It later reports completion, or an error whose message
  has its NULs replaced by spaces.
- **Disk handles and disk images.** Opening a host disk checks three
  things: the name has no NUL, the host knows the disk, and its size is
  valid. A disk image also needs a size that is a whole number of 512-byte
  blocks. Every handle opened on the host is closed at most once: on the
  error path, or when it is dropped. Empty reads and writes never reach
  the host.
- **CD-ROM hotplug manager.** Every tenth tick it drains the names the
  user asked to insert onto the tail of a FIFO queue. It then flushes the
  queue against the drive-status snapshot it was handed:
  - If there is no snapshot, or the drive is not a free CD-ROM drive,
    nothing happens.
  - Otherwise the names are popped in order. Each one is opened and
    offered to the core.
- **Framebuffer sender.** It drains the channel of finished frames in
  arrival order. Before a frame's pixels it sends a geometry notice, but
  only when the frame's size differs from the last size it remembers.
- **Audio sink.** It announces the stream format. Before enqueueing a
  buffer, it polls the host's queue occupancy until the buffer fits,
  sleeping between polls for three quarters of the estimated drain time,
  capped at one worklet quantum.

The emulator core and the browser page are outside the model. They appear as
small stand-ins:

- `DiskHost.DiskHost`: the host's disks by name, its open handles, a log of
  every storage call, and the queue of requested CD-ROM names.
- `EmulatorCore.Emulator`: the core's attached drives and accepted images,
  and a record of every image offered to it, accepted or not. Whether the
  core accepts an image is left open.
- `JsInput.InputReadings`: one tick's host input readings.
- `Framebuffer.FrameChannel` and `Framebuffer.VideoHost`: the frame
  channel, and the record of video calls.
- `Audio.AudioHost`: the host's successive occupancy readings, and the
  record of audio calls.

The stand-ins' contracts are what the bridge relies on.

Behaviour of the code worth knowing, which the model keeps:

- **CD-ROM queue.**
  - A name leaves the queue when it is popped (`frontend_im/src/cdrom.rs:68`), before the image is opened.
  - A name that fails to open or to attach is not retried.
  - The status snapshot is not refreshed inside the flush loop (`frontend_im/src/cdrom.rs:62-87`). So a drive that the snapshot reports as free has every queued name offered to it in one pass (`CdromHotplug.CdromManager.FlushPending`).
- **Geometry notices.** A notice is sent for each change of size, not for each distinct size (`frontend_im/src/framebuffer.rs:31`). So returning to an earlier size is announced again (`Framebuffer.RevisitedSizeNoticedAgain`).
- **Audio wait.** The wait loop (`frontend_im/src/audio.rs:34-46`) has no bound of its own. It ends only when the host reports room, or reports an unknown (negative) occupancy. Each sleep is at most one worklet quantum.

## Model

| member | source | states |
|---|---|---|
| JsInput.AcquireLock | frontend_im/src/js_api/input.rs:17-19 | the lock is taken exactly when the host answers non-zero |
| JsInput.MouseButtonState | frontend_im/src/js_api/input.rs:27-34 | a negative reading is "no data", zero is released, positive is pressed (each direction of each case) |
| JsInput.ButtonRoundTrip | frontend_im/src/js_api/input.rs:27-34 | decoding the canonical reading of any button state gives that state back |
| JsInput.HasMousePosition | frontend_im/src/js_api/input.rs:36-38 | present exactly when the host flag is non-zero |
| JsInput.HasKeyEvent | frontend_im/src/js_api/input.rs:48-50 | present exactly when the host flag is non-zero |
| JsInput.SpeedEvent | frontend_im/src/js_api/input.rs:60-66 | None exactly when the flag is zero, otherwise the raw speed reading |
| JsInput.SpeedIgnoredWithoutFlag | frontend_im/src/js_api/input.rs:60-66 | with the flag down, the speed reading has no influence on the result |
| InputTranslator.Clamp | frontend_im/src/input.rs:100-110 | the result is in range, equals the input when the input is in range, and is the bound overshot otherwise |
| InputTranslator.ClampIsNearest | frontend_im/src/input.rs:100-110 | no value of the range is closer to the input than the clamped value |
| InputTranslator.ClampI32ToU16 | frontend_im/src/input.rs:100-102 | identity on 0..65535, 0 below, 65535 above |
| InputTranslator.ClampI32ToI16 | frontend_im/src/input.rs:104-106 | identity on the i16 range, saturating at either bound; zero and sign are preserved |
| InputTranslator.ClampI32ToU8 | frontend_im/src/input.rs:108-110 | identity on 0..255, 0 below, 255 above |
| InputTranslator.ButtonCommand | frontend_im/src/input.rs:33-39 | a button state, when present, becomes a relative update of (0, 0) carrying that state; otherwise nothing |
| InputTranslator.MotionCommand | frontend_im/src/input.rs:41-65 | no position or Disabled mode sends nothing; relative mode sends the clamped i16 delta exactly when it is not (0, 0); absolute mode sends the clamped u16 position |
| InputTranslator.HandleMouse | frontend_im/src/input.rs:32-66 | the button command comes before the motion command; at most two commands, all mouse commands |
| InputTranslator.RelativeMotionNeverZero | frontend_im/src/input.rs:43-54 | a relative motion command never carries a zero displacement or a button state |
| InputTranslator.HandleKeyboard | frontend_im/src/input.rs:68-80 | one key command exactly when a key event is present, with the u8-clamped scancode and the Universal keymap; KeyUp exactly when the state is 0 |
| InputTranslator.SpeedFromCode | frontend_im/src/input.rs:86-95 | only the codes -2, 7, -1 and 9 name a speed |
| InputTranslator.SpeedCodeRoundTrip | frontend_im/src/input.rs:86-95 | the code table is a bijection between the four codes and the four speeds |
| InputTranslator.HandleSpeed | frontend_im/src/input.rs:82-97 | a speed command exactly when a speed event is present and its code is in the table, and the command's speed has that code |
| InputTranslator.Tick | frontend_im/src/input.rs:20-30 | without the lock, no effect at all; with it, exactly the mouse, keyboard and speed handlers' commands, in that order (at most four), then exactly one release as the last effect |
| Decimal.ParseShow | frontend_im/src/js_api/exports.js:9-12 | the decimal text of a request id reads back as that id |
| Decimal.ShowInjective | frontend_im/src/js_api/exports.js:9-12 | two ids render the same text only when they are equal |
| JsExports.PathDeterminesId | frontend_im/src/js_api/exports.js:9-12 | with a fixed prefix and suffix, the path determines the id |
| JsExports.SnapshotPathsEmbedId | frontend_im/src/js_api/exports.js:9-12 | two save paths (or two load paths) are equal exactly when their ids are |
| JsExports.SaveAndLoadPathsDiffer | frontend_im/src/js_api/exports.js:9-12 | a save path never equals a load path, whatever the ids |
| JsExports.Mailbox.constructor | frontend_im/src/js_api/exports.js:14-16 | the mailbox starts with nothing queued and nothing active |
| JsExports.Mailbox.Enqueue | frontend_im/src/js_api/exports.js:17-19 | the command goes to the tail of the queue; the pending commands gain it at the end |
| JsExports.Mailbox.EnsureActive | frontend_im/src/js_api/exports.js:20-24 | the head is promoted only when nothing is active and the queue is non-empty; pending commands and their order are unchanged |
| JsExports.Mailbox.PeekKind | frontend_im/src/js_api/exports.js:25-28 | the kind of the first pending command, or 0 when there is none; nothing is consumed |
| JsExports.Mailbox.ConsumeRequestId | frontend_im/src/js_api/exports.js:29-37 | 0 when nothing is pending, otherwise the first pending command's id, and that command is removed; nothing is left active |
| JsExports.RequestSnapshotSave | frontend_im/src/js_api/exports.js:40-45 | a save request with the caller's id is appended to the pending commands |
| JsExports.RequestSnapshotLoad | frontend_im/src/js_api/exports.js:47-62 | it throws, queueing nothing, exactly when the file system is unavailable or writing the snapshot file fails; otherwise it appends a load request with the caller's id |
| JsExports.SnapshotPathForSave | frontend_im/src/js_api/exports.js:9-10 | the outgoing prefix, then the id in decimal digits that read back as the id, then `.snows` |
| JsExports.SnapshotPathForLoad | frontend_im/src/js_api/exports.js:11-12 | the incoming prefix, then the id in decimal digits that read back as the id, then `.snows` |
| JsExports.PathParts | frontend_im/src/js_api/exports.js:9-12 | prefix, decimal id and suffix form a path that splits back into the same prefix and id |
| JsExports.ConsumeCdromName | frontend_im/src/js_api/exports.js:160-164 | a missing or empty name becomes "none"; any other name is passed on unchanged |
| SnapshotControl.DecodeSnapshotCommand | frontend_im/src/js_api/control.rs:24-39 | the id is read exactly when the kind is non-zero; a command results exactly for kind 1 or 2 with a non-zero id, carrying that id, Save exactly for kind 1 |
| SnapshotControl.DecodeRoundTrip | frontend_im/src/js_api/control.rs:33-38 | every command with a non-zero id decodes back from its kind code and id |
| SnapshotControl.TakeSnapshotCommand | frontend_im/src/js_api/control.rs:24-39 | on an empty mailbox, no command; otherwise the decoded first pending command, which is consumed unless its kind is 0 |
| SnapshotControl.ServeInRequestOrder | frontend_im/src/js_api/exports.js:20-37 | a save and then a load request are served in that order, after which the mailbox yields nothing |
| SnapshotControl.CompleteSnapshotSave | frontend_im/src/js_api/control.rs:41-45 | one save-completed callback with the given id |
| SnapshotControl.CompleteSnapshotLoaded | frontend_im/src/js_api/control.rs:47-51 | one load-completed callback with the given id |
| SnapshotControl.Sanitize | frontend_im/src/js_api/control.rs:54 | same length, each NUL replaced by a space and every other character kept, no NUL left |
| SnapshotControl.CStringNew | frontend_im/src/js_api/control.rs:55 | the conversion fails exactly on an embedded NUL, and otherwise keeps the text |
| SnapshotControl.CStringContents | frontend_im/src/js_api/control.rs:55-57 | the host reads the longest NUL-free prefix: it stops exactly at the first NUL, and reads the whole text when the text has no NUL |
| SnapshotControl.CompleteSnapshotError | frontend_im/src/js_api/control.rs:53-60 | exactly one error callback, with the same id and the whole message, NULs turned to spaces |
| DiskHandles.OpenOutcome | frontend_im/src/js_api/disks.rs:19-39 | success exactly for a NUL-free name the host knows whose size is valid, with that size; a NUL gives the embedded-NUL error, an unknown name the not-found error and an invalid size the invalid-size error, each naming the disk |
| DiskHandles.Open | frontend_im/src/js_api/disks.rs:19-39 | a NUL name makes no host call; an unknown name leaves nothing open; an invalid size closes the just-opened id once; success opens exactly one fresh id, for the name, with the size read |
| DiskHandles.Drop | frontend_im/src/js_api/disks.rs:88-95 | a non-negative id is closed exactly once; a negative one makes no call |
| DiskHandles.OpenThenDrop | frontend_im/src/js_api/disks.rs:88-95 | opening and then dropping leaves the host's open handles as they were, and the close is the last call |
| DiskHandles.ReadInto | frontend_im/src/js_api/disks.rs:49-61 | an empty buffer makes no host call; otherwise one read of the buffer's length at the offset, which leaves the host's bytes in the buffer |
| DiskHandles.ReadVec | frontend_im/src/js_api/disks.rs:63-67 | exactly `length` bytes, zero wherever the host has no bytes |
| DiskHandles.ReadAll | frontend_im/src/js_api/disks.rs:69-71 | exactly `size_bytes` bytes, read from offset 0; an empty disk makes no host call |
| DiskHandles.WriteBytes | frontend_im/src/js_api/disks.rs:73-85 | no host call for empty data, otherwise one write of exactly the data at the offset |
| DiskImages.ImageOpenOutcome | frontend_im/src/disk.rs:12-23 | a handle error is passed on unchanged; otherwise failure exactly when the size is not a whole number of blocks, with the block-size error naming the disk |
| DiskImages.BlockBoundary | frontend_im/src/disk.rs:15-20 | a whole number of blocks opens; one byte short of it fails with the block-size error |
| DiskImages.Open | frontend_im/src/disk.rs:12-23 | success exactly when the disk opens as an image; the host calls on each path: none for a NUL name, only the open for an unknown name, open, size read and close for an invalid size, and a close exactly once on the block-size failure; the first call of any NUL-free name is the open of that name, and no failure leaves anything open |
| DiskImages.ByteLen | frontend_im/src/disk.rs:27-29 | the handle's size as read at open |
| DiskImages.ReadBytes | frontend_im/src/disk.rs:31-33 | delegates to the handle with the same offset and length |
| DiskImages.WriteBytes | frontend_im/src/disk.rs:35-37 | delegates to the handle with the same offset and data |
| DiskImages.MediaBytes | frontend_im/src/disk.rs:39-41 | a host-backed image has no in-memory bytes |
| DiskImages.ImagePath | frontend_im/src/disk.rs:43-45 | the name the image was opened under |
| CdromHotplug.IsCdromFree | frontend_im/src/cdrom.rs:90-96 | free exactly when the slot exists, holds a CD-ROM drive and that drive has no image; a missing or empty slot is never free |
| CdromHotplug.ConsumeCdromName | frontend_im/src/cdrom.rs:47 | takes the host's next requested name, an empty one reading as "no more"; a non-empty name arrives as read from a C string, up to its first NUL |
| CdromHotplug.ReceivedNames | frontend_im/src/cdrom.rs:47 | one received name per requested name, each cut at its first NUL |
| CdromHotplug.NulFreeNamesArriveWhole | frontend_im/src/cdrom.rs:47 | names without a NUL are received unchanged |
| CdromHotplug.NonEmptyPrefix | frontend_im/src/cdrom.rs:47-50 | a drain takes the longest run of non-empty names from the front of the host's requests |
| CdromHotplug.DrainTakesAllNonEmpty | frontend_im/src/cdrom.rs:47-50 | when every requested name is non-empty, one drain takes them all |
| CdromHotplug.PollingTicksCount | frontend_im/src/cdrom.rs:35-40 | over any run of ticks, insertions are handled once per multiple of ten reached |
| CdromHotplug.CdromManager.Init | frontend_im/src/cdrom.rs:28-32 | tick count 0, the given slot, and the queue equal to the given names in order |
| CdromHotplug.CdromManager.New | frontend_im/src/cdrom.rs:17-33 | None, with no drive attached, exactly when the slot id is at least the core's target count; otherwise one drive attached at the slot, and a manager with tick count 0 and the names queued in order |
| CdromHotplug.CdromManager.OpenAndInsert | frontend_im/src/cdrom.rs:68-86 | the disk opens exactly when it opens as an image under that name; an opened image, and only an opened one, is offered to the core in this slot under that name; the core keeps it only if it accepts, as one new image and one new open handle; otherwise nothing stays open; the host is asked to open exactly that name when it is NUL-free, and no disk otherwise |
| CdromHotplug.CdromManager.InsertOne | frontend_im/src/cdrom.rs:68-86 | the popped name is tried once, by an open and an offer to the core, and the attempt is recorded under that name; the pass's running record grows by exactly this attempt: the host opens, the images offered, the images held and the open handles each grow by what this one name produced |
| CdromHotplug.CdromManager.FlushPending | frontend_im/src/cdrom.rs:56-88 | the queue left is a suffix of the queue before; with no snapshot, or a drive that is not free, nothing changes: no host call, no offer, no new image; with a free drive every queued name is tried in FIFO order and the queue ends empty, the host is asked to open exactly the NUL-free queued names in that order, every image that opened is offered to the core in that order in this slot, and the core holds one new image per accepted offer, each opened under its attempt's name; these are the only new open handles |
| CdromHotplug.CdromManager.DrainRequests | frontend_im/src/cdrom.rs:47-50 | the drained names, each as received, are appended in arrival order after the existing queue, and exactly those requests, plus the empty one that ended the drain, are consumed |
| CdromHotplug.CdromManager.HandlePendingInsertions | frontend_im/src/cdrom.rs:42-54 | drain, then flush the combined queue against the snapshot: with no free drive the received names are queued and nothing is opened or offered; with a free drive the host is asked to open exactly the NUL-free names of the old queue followed by the received ones, in order, and every image that opened is offered to the core in this slot, in order |
| CdromHotplug.CdromManager.Tick | frontend_im/src/cdrom.rs:35-40 | the tick count goes up by one; insertions are handled exactly when the new count is a multiple of 10, with the outcomes of handling them (the host opens and the offers to the core above), and otherwise nothing else changes; every image the core was offered or gained is one opened under an attempt's name, in this slot |
| CdromHotplug.CdromManager.RunTicks | frontend_im/src/cdrom.rs:35-40 | over a run of ticks, the queue is looked at on exactly the ticks `PollingTicks` counts, once per multiple of ten reached |
| Framebuffer.DispatchLength | frontend_im/src/framebuffer.rs:21-38 | one blit per frame plus one notice per size change, and no host call exactly when there are no frames |
| Framebuffer.Remembered | frontend_im/src/framebuffer.rs:33-34 | after sending frames, the last frame's size is remembered (the starting size if there were none) |
| Framebuffer.DispatchForwardsEveryFrame | frontend_im/src/framebuffer.rs:21-25 | every frame's pixels are blitted exactly once, in arrival order, and nothing else is blitted |
| Framebuffer.DispatchNoticeCount | frontend_im/src/framebuffer.rs:27-35 | the number of geometry notices equals the number of frames whose size differs from their predecessor's, starting from the remembered size |
| Framebuffer.RevisitedSizeNoticedAgain | frontend_im/src/framebuffer.rs:31-32 | returning to an earlier size is announced again |
| Framebuffer.NoticeThenBlit | frontend_im/src/framebuffer.rs:31-38 | every geometry notice is immediately followed by a blit |
| Framebuffer.DispatchSplit | frontend_im/src/framebuffer.rs:21-25 | sending frames in two batches gives the same host calls as sending them at once |
| Framebuffer.Sender.constructor | frontend_im/src/framebuffer.rs:13-19 | the remembered size starts at 0 x 0 |
| Framebuffer.Sender.SendFrame | frontend_im/src/framebuffer.rs:27-39 | a notice of the frame's size exactly when it differs from the remembered one, before the frame's blit; afterwards the frame's size is remembered |
| Framebuffer.Sender.Tick | frontend_im/src/framebuffer.rs:21-25 | the channel is left empty and the host receives the dispatch of every waiting frame, in order |
| Audio.MaxJsBufferBytes | frontend_im/src/audio.rs:19 | the byte length of a full queue of full buffers |
| Audio.FlattenSlots | frontend_im/src/audio.rs:48-50 | the enqueued bytes are `expected_len` long, and each sample sits in its own four-byte slot |
| Audio.ExpectedLen | frontend_im/src/audio.rs:32 | four bytes per sample |
| Audio.Admits | frontend_im/src/audio.rs:36 | a negative reading always admits the buffer; any other admits it exactly when it is at most `max_fill` |
| Audio.MaxFill | frontend_im/src/audio.rs:33 | the headroom left for the buffer, saturating at 0 |
| Audio.WaitBytes | frontend_im/src/audio.rs:42 | a reading that does not admit the buffer exceeds `max_fill` by a strictly positive amount |
| Audio.SleepSeconds | frontend_im/src/audio.rs:43-45 | positive, at most one worklet quantum, and at most three quarters of the estimated drain time, being one of the two |
| Audio.Waits | frontend_im/src/audio.rs:34-46 | no sleep exactly when the first reading admits the buffer, and fewer sleeps than readings |
| Audio.WaitsAnswerReadings | frontend_im/src/audio.rs:34-46 | each sleep answers a reading that did not admit the buffer, for the time that reading calls for |
| Audio.AfterWait | frontend_im/src/audio.rs:34-46 | the loop stops at the first admitting reading (a negative one or one within `max_fill`) and takes no reading after it |
| Audio.NewSink | frontend_im/src/audio.rs:24-27 | announces 22050 Hz, 32-bit, 2 channels |
| Audio.Send | frontend_im/src/audio.rs:31-52 | returns Ok, after one sleep per rejected reading and then exactly one enqueue of the buffer's bytes |

## Left out

- `frontend_im/src/main.rs`: argument parsing, ROM loading, logger setup and the process tick loop. This is plumbing around the emulator core.
- `frontend_im/src/floppy.rs`: an open and a read of the whole disk, which the disk handles cover, passed to an external image loader (the `snow_floppy` crate), which is not part of this model.
- Pure forwarding to the host: `frontend_im/src/exports.js`, `js_api/runtime.rs`, `js_api/audio.rs` and `js_api/video.rs`. Each is a host call here.
- The Rust wrapper around `js_consume_cdrom_name` (`js_api::disks::consume_cdrom_name`) is not part of this model. It is taken to return None for a null pointer and otherwise the C string up to its first NUL, which is what `CdromHotplug.ConsumeCdromName` models. The video and audio wrappers skip empty buffers and saturate the length at `u32::MAX`; the model records every blit and enqueue instead.
- Floating point:
  - The sleep estimate uses exact real arithmetic instead of `f64`.
  - The host's size reading is `Option<nat>`, where None stands for a non-finite or negative size.
  - The `f64` offset and length conversions are not modelled.
- The page's storage and messaging (`postMessage`, the Emscripten `FS`, `workerApi`) are host I/O. The snapshot file written by a load request is not modelled, and neither is what the host does with written bytes.
- Logging in all files. The log lines only report outcomes that the model already records.
- Emulator core:
  - What `attach_cdrom` and `insert_cdrom_image_at` do inside the core, the contents of `EmulatorStatus` and the command channel are outside the model. The stand-in only records each offered image and whether it was kept.
  - Whether the core accepts an image is arbitrary.
  - Target types other than hard disk and CD-ROM are merged into one.
  - A failed command send is ignored, as in the source.
- Constants of the core: `DISK_BLOCKSIZE` is fixed at the SCSI block size of 512, `ScsiController::MAX_TARGETS` is a field of the emulator stand-in, and `AUDIO_BUFFER_SIZE` / `AUDIO_QUEUE_LEN` are parameters.
- The audio buffer's in-memory reinterpretation as bytes is modelled as a sequence of four-byte samples laid end to end.
- Audio.Send: the wait loop can run forever if the host never reports room. The model requires a finite script of readings in which some reading admits the buffer.
- CdromHotplug.CdromManager.Tick: the `u64` tick counter is unbounded here, so its wrap-around after 2^64 ticks is not modelled.
- Host disk ids are unbounded integers, not `i32`. The host stand-in hands out fresh ids in increasing order.
- A non-integer request id from JavaScript is outside the model: ids are `u32` values.
- Threads are outside the model. The audio sink runs on the core's audio thread; everything else runs in one tick loop.
