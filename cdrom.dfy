/**
 * The CD-ROM hotplug manager (frontend_im/src/cdrom.rs): a tick-counted state
 * machine around a FIFO queue of image names for one SCSI slot. Every tenth
 * tick it drains the host's insertion requests onto the tail of the queue and
 * then flushes the queue against the drive-status snapshot it was given.
 */
module CdromHotplug {
  import opened Base
  import opened DiskHost
  import opened DiskHandles
  import opened DiskImages
  import opened EmulatorCore
  import JsExports
  import SnapshotControl

  const CDROM_POLL_INTERVAL_TICKS: nat := 10

  /**
   * One name taken off the queue and what became of it: the three outcomes
   * the manager logs (opened and loaded, opened but refused by the core, not
   * opened).
   */
  datatype Attempt = Attempt(name: string, wasOpened: bool, wasAttached: bool)

  /**
   * `is_cdrom_free`: the slot exists, holds a CD-ROM drive, and the drive is
   * empty. A missing slot, an empty slot, another target type or a loaded
   * drive is never free.
   */
  function IsCdromFree(status: EmulatorStatus, scsiId: nat): (free: bool)
    ensures scsiId >= |status.scsi| ==> !free
    ensures scsiId < |status.scsi| && status.scsi[scsiId].None? ==> !free
    ensures scsiId < |status.scsi| && status.scsi[scsiId].Some? ==>
      (free <==> status.scsi[scsiId].value.targetType == Cdrom && status.scsi[scsiId].value.image.None?)
  {
    && scsiId < |status.scsi|
    && status.scsi[scsiId].Some?
    && status.scsi[scsiId].value.targetType == Cdrom
    && status.scsi[scsiId].value.image.None?
  }

  /**
   * The names one drain takes from the host's requests: the longest prefix of
   * non-empty names (an empty name reads as "no more" and ends the drain).
   */
  function NonEmptyPrefix(names: seq<string>): (p: seq<string>)
    ensures |p| <= |names| && p == names[..|p|]
    ensures forall i :: 0 <= i < |p| ==> p[i] != []
    ensures |p| < |names| ==> names[|p|] == []
  {
    if names == [] || names[0] == [] then [] else [names[0]] + NonEmptyPrefix(names[1..])
  }

  /** How many host requests one drain consumes: the prefix and the empty name that ended it, if any. */
  function DrainedCount(names: seq<string>): (n: nat)
    ensures n <= |names|
  {
    if |NonEmptyPrefix(names)| < |names| then |NonEmptyPrefix(names)| + 1 else |names|
  }

  /**
   * What a drain meets after taking `t` names: another name exactly while
   * the non-empty prefix goes on, and once it ends, the requests it has
   * consumed are the prefix and the empty name that ended it, if any.
   */
  lemma DrainAt(requests: seq<string>, t: nat)
    requires t <= |NonEmptyPrefix(requests)|
    ensures t < |NonEmptyPrefix(requests)| <==> t < |requests| && requests[t] != []
    ensures t < |NonEmptyPrefix(requests)| ==> NonEmptyPrefix(requests)[t] == requests[t]
    ensures t == |NonEmptyPrefix(requests)| ==> DrainedCount(requests) == if t < |requests| then t + 1 else t
  {
  }

  /** When the host only ever asks for real names, one drain takes all of them. */
  lemma DrainTakesAllNonEmpty(names: seq<string>)
    requires forall i :: 0 <= i < |names| ==> names[i] != []
    ensures NonEmptyPrefix(names) == names && DrainedCount(names) == |names|
  {
  }

  /** How many of the ticks numbered from + 1 .. from + n handle insertions. */
  function PollingTicks(from: nat, n: nat): nat
  {
    if n == 0 then 0
    else PollingTicks(from, n - 1) + (if (from + n) % CDROM_POLL_INTERVAL_TICKS == 0 then 1 else 0)
  }

  /** Over any run of ticks, insertions are handled exactly once per ten-tick boundary crossed. */
  lemma {:induction false} PollingTicksCount(from: nat, n: nat)
    ensures PollingTicks(from, n) == (from + n) / 10 - from / 10
  {
    if n > 0 {
      PollingTicksCount(from, n - 1);
      var m := from + n;
      assert (m / 10) * 10 + m % 10 == m;
      assert ((m - 1) / 10) * 10 + (m - 1) % 10 == m - 1;
      if m % 10 == 0 {
        assert (m - 1) % 10 == 9;
        assert m / 10 == (m - 1) / 10 + 1;
      } else {
        assert (m - 1) % 10 == m % 10 - 1;
        assert m / 10 == (m - 1) / 10;
      }
    }
  }

  /** The names of the attempts whose image the core accepted, in order. */
  function AttachedNames(attempts: seq<Attempt>): (names: seq<string>)
    ensures |names| <= |attempts|
  {
    if attempts == [] then []
    else
      var last := attempts[|attempts| - 1];
      AttachedNames(attempts[..|attempts| - 1]) + (if last.wasAttached then [last.name] else [])
  }

  /** The names of the attempts whose image opened (and so was offered to the core), in order. */
  function OpenedNames(attempts: seq<Attempt>): (names: seq<string>)
    ensures |names| <= |attempts|
  {
    if attempts == [] then []
    else
      var last := attempts[|attempts| - 1];
      OpenedNames(attempts[..|attempts| - 1]) + (if last.wasOpened then [last.name] else [])
  }

  /** The names without a NUL, in order: the ones for which a disk open reaches the host. */
  function NulFreeNames(names: seq<string>): (r: seq<string>)
    ensures |r| <= |names|
  {
    if names == [] then []
    else
      var last := names[|names| - 1];
      NulFreeNames(names[..|names| - 1]) + (if NUL in last then [] else [last])
  }

  /** The names of the disks the host was asked to open, in call order. */
  ghost function OpenCalls(calls: seq<DiskCall>): seq<string>
  {
    if calls == [] then []
    else
      var last := calls[|calls| - 1];
      OpenCalls(calls[..|calls| - 1]) + (if last.OpenCall? then [last.name] else [])
  }

  lemma {:induction false} OpenCallsAppend(a: seq<DiskCall>, b: seq<DiskCall>)
    ensures OpenCalls(a + b) == OpenCalls(a) + OpenCalls(b)
    decreases |b|
  {
    if b == [] {
      assert a + b == a;
    } else {
      assert (a + b)[..|a + b| - 1] == a + b[..|b| - 1];
      OpenCallsAppend(a, b[..|b| - 1]);
    }
  }

  /** The open calls of the host calls a single attempt on `name` makes. */
  lemma OpenCallsOfAttempt(name: string, rest: seq<DiskCall>)
    requires forall i :: 0 <= i < |rest| ==> !rest[i].OpenCall?
    ensures OpenCalls([OpenCall(name)] + rest) == [name]
    ensures OpenCalls(rest) == []
  {
    OpenCallsAppend([OpenCall(name)], rest);
    assert [OpenCall(name)][..0] == [];
    OpenCallsNone(rest);
  }

  /** Host calls that extend `c0` by one open of `name` and no other open. */
  lemma OneOpenCall(c0: seq<DiskCall>, c: seq<DiskCall>, name: string, rest: seq<DiskCall>)
    requires c == c0 + [OpenCall(name)] + rest
    requires forall i :: 0 <= i < |rest| ==> !rest[i].OpenCall?
    ensures c0 <= c && OpenCalls(c[|c0|..]) == [name]
  {
    assert c[|c0|..] == [OpenCall(name)] + rest;
    OpenCallsOfAttempt(name, rest);
  }

  lemma {:induction false} OpenCallsNone(calls: seq<DiskCall>)
    requires forall i :: 0 <= i < |calls| ==> !calls[i].OpenCall?
    ensures OpenCalls(calls) == []
    decreases |calls|
  {
    if calls != [] {
      OpenCallsNone(calls[..|calls| - 1]);
    }
  }

  /**
   * What `consume_cdrom_name` hands to Rust for a non-empty requested name:
   * the name crosses as a C string, so Rust reads it up to its first NUL.
   */
  function ReceivedNames(names: seq<string>): (r: seq<string>)
    ensures |r| == |names| && forall i :: 0 <= i < |names| ==> r[i] == SnapshotControl.CStringContents(names[i])
  {
    seq(|names|, i requires 0 <= i < |names| => SnapshotControl.CStringContents(names[i]))
  }

  /** Receiving one more name appends its C-string contents. */
  lemma ReceivedSnoc(names: seq<string>, t: nat)
    requires t < |names|
    ensures ReceivedNames(names[..t + 1]) == ReceivedNames(names[..t]) + [SnapshotControl.CStringContents(names[t])]
  {
  }

  /** Names without a NUL arrive whole. */
  lemma NulFreeNamesArriveWhole(names: seq<string>)
    requires forall i :: 0 <= i < |names| ==> NUL !in names[i]
    ensures ReceivedNames(names) == names
  {
  }

  /** The ids of the disk handles held by a run of inserted images. */
  ghost function ImageIds(images: seq<(nat, JsDiskImage)>): set<int>
  {
    if images == [] then {} else ImageIds(images[..|images| - 1]) + {images[|images| - 1].1.handle.diskId}
  }

  /**
   * `tries` records one attempt per name of `names`, in order: each was
   * opened exactly when the host's disk of that name opens as an image, and
   * only an opened image can have been attached.
   */
  ghost predicate Tried(tries: seq<Attempt>, names: seq<string>, catalog: map<string, HostDisk>)
  {
    && |tries| == |names|
    && forall i :: 0 <= i < |tries| ==>
      && tries[i].name == names[i]
      && tries[i].wasOpened == OpensAsImage(catalog, names[i])
      && (tries[i].wasAttached ==> tries[i].wasOpened)
  }

  /**
   * The images a run of attempts left with the core: one per attached
   * attempt, in order, each opened under that attempt's name and placed in
   * the manager's slot.
   */
  ghost predicate Loaded(added: seq<(nat, JsDiskImage)>, tries: seq<Attempt>, scsiId: nat)
  {
    Placed(added, AttachedNames(tries), scsiId)
  }

  /**
   * The images a run of attempts handed to the core, accepted or not: one per
   * opened attempt, in order, each opened under that attempt's name and
   * offered for the manager's slot.
   */
  ghost predicate Offered(offered: seq<(nat, JsDiskImage)>, tries: seq<Attempt>, scsiId: nat)
  {
    Placed(offered, OpenedNames(tries), scsiId)
  }

  /** `images[j]` is an image opened under `names[j]`, going to slot `scsiId`. */
  ghost predicate Placed(images: seq<(nat, JsDiskImage)>, names: seq<string>, scsiId: nat)
  {
    && |images| == |names|
    && forall j :: 0 <= j < |images| ==> images[j].0 == scsiId && images[j].1.handle.name == names[j]
  }

  /** The images one attempt hands to the core: its own image exactly when it opened. */
  lemma OfferedByAttempt(o0: seq<(nat, JsDiskImage)>, o: seq<(nat, JsDiskImage)>, a: Attempt, image: JsDiskImage, scsiId: nat)
    requires a.wasOpened ==> o == o0 + [(scsiId, image)] && image.handle.name == a.name
    requires !a.wasOpened ==> o == o0
    ensures o0 <= o && Offered(o[|o0|..], [a], scsiId)
  {
    assert [a][..0] == [];
    if a.wasOpened {
      assert o[|o0|..] == [(scsiId, image)];
    } else {
      assert o[|o0|..] == [];
    }
  }

  lemma OfferedAppend(offered: seq<(nat, JsDiskImage)>, tries: seq<Attempt>, scsiId: nat,
                      more: seq<(nat, JsDiskImage)>, a: Attempt)
    requires Offered(offered, tries, scsiId) && Offered(more, [a], scsiId)
    ensures Offered(offered + more, tries + [a], scsiId)
  {
    assert (tries + [a])[..|tries|] == tries;
    assert [a][..0] == [];
  }

  lemma LoadedAppend(added: seq<(nat, JsDiskImage)>, tries: seq<Attempt>, scsiId: nat, a: Attempt, image: JsDiskImage)
    requires Loaded(added, tries, scsiId)
    requires a.wasAttached ==> image.handle.name == a.name
    ensures a.wasAttached ==> Loaded(added + [(scsiId, image)], tries + [a], scsiId)
    ensures !a.wasAttached ==> Loaded(added, tries + [a], scsiId)
  {
    assert (tries + [a])[..|tries|] == tries;
  }

  /** One pass of the flush loop extends the record of open calls by that pass's own. */
  lemma OpenCallsStep(c0: seq<DiskCall>, c1: seq<DiskCall>, c2: seq<DiskCall>, done: seq<string>, name: string)
    requires c0 <= c1 && c1 <= c2 && OpenCalls(c1[|c0|..]) == NulFreeNames(done)
    requires OpenCalls(c2[|c1|..]) == if NUL in name then [] else [name]
    ensures c0 <= c2 && OpenCalls(c2[|c0|..]) == NulFreeNames(done + [name])
  {
    var x, y := c1[|c0|..], c2[|c1|..];
    assert c2[|c0|..] == x + y;
    OpenCallsAppend(x, y);
    assert (done + [name])[..|done|] == done;
  }

  /** One pass of the flush loop extends the record of offered images by that pass's own. */
  lemma OfferedStep(o0: seq<(nat, JsDiskImage)>, o1: seq<(nat, JsDiskImage)>, o2: seq<(nat, JsDiskImage)>,
                    tries: seq<Attempt>, a: Attempt, scsiId: nat)
    requires o0 <= o1 && o1 <= o2 && Offered(o1[|o0|..], tries, scsiId) && Offered(o2[|o1|..], [a], scsiId)
    ensures o0 <= o2 && Offered(o2[|o0|..], tries + [a], scsiId)
  {
    var x, y := o1[|o0|..], o2[|o1|..];
    assert o2[|o0|..] == x + y;
    OfferedAppend(x, tries, scsiId, y, a);
  }

  lemma ImageIdsAppend(added: seq<(nat, JsDiskImage)>, x: (nat, JsDiskImage))
    ensures ImageIds(added + [x]) == ImageIds(added) + {x.1.handle.diskId}
  {
    assert (added + [x])[..|added|] == added;
  }

  lemma TriedAppend(tries: seq<Attempt>, names: seq<string>, catalog: map<string, HostDisk>, a: Attempt)
    requires Tried(tries, names, catalog)
    requires a.wasOpened == OpensAsImage(catalog, a.name) && (a.wasAttached ==> a.wasOpened)
    ensures Tried(tries + [a], names + [a.name], catalog)
  {
  }

  /**
   * The parts of the state a flush pass changes: the attempt log, the core's
   * images, the host's open ids and calls, and the images offered to the core.
   */
  datatype Trace = Trace(attempts: seq<Attempt>, images: seq<(nat, JsDiskImage)>, keys: set<int>,
                         calls: seq<DiskCall>, offered: seq<(nat, JsDiskImage)>)

  /**
   * What a flush pass has done between `start` and `now`: the names `done`
   * were tried as `tries`; the host was asked to open exactly the NUL-free
   * ones, in order; every image that opened was offered to the core; and the
   * core now holds `added` on top of what it held, whose handles are exactly
   * the ones the pass left open.
   */
  ghost predicate Advanced(start: Trace, now: Trace, catalog: map<string, HostDisk>, scsiId: nat,
                           done: seq<string>, tries: seq<Attempt>, added: seq<(nat, JsDiskImage)>)
  {
    && now.attempts == start.attempts + tries && Tried(tries, done, catalog)
    && now.images == start.images + added && Loaded(added, tries, scsiId)
    && now.keys == start.keys + ImageIds(added)
    && start.calls <= now.calls && OpenCalls(now.calls[|start.calls|..]) == NulFreeNames(done)
    && start.offered <= now.offered && Offered(now.offered[|start.offered|..], tries, scsiId)
  }

  /** A finished pass, read off the state: what it added to each record is exactly its own. */
  lemma AdvancedParts(start: Trace, now: Trace, catalog: map<string, HostDisk>, scsiId: nat,
                      done: seq<string>, tries: seq<Attempt>, added: seq<(nat, JsDiskImage)>)
    requires Advanced(start, now, catalog, scsiId, done, tries, added)
    ensures start.attempts <= now.attempts && now.attempts[|start.attempts|..] == tries
    ensures start.images <= now.images && now.images[|start.images|..] == added
    ensures Tried(now.attempts[|start.attempts|..], done, catalog)
    ensures Loaded(now.images[|start.images|..], now.attempts[|start.attempts|..], scsiId)
    ensures Offered(now.offered[|start.offered|..], now.attempts[|start.attempts|..], scsiId)
    ensures now.keys == start.keys + ImageIds(now.images[|start.images|..])
    ensures done == [] ==> now.attempts == start.attempts && now.images == start.images && now.offered == start.offered
  {
    if done == [] {
      assert now.offered[|start.offered|..] == [];
    }
  }

  /** One attempt, with the effects it had between `mid` and `now`, extends a flush pass's record by itself. */
  lemma AdvanceStep(start: Trace, mid: Trace, now: Trace, catalog: map<string, HostDisk>, scsiId: nat,
                    done: seq<string>, tries: seq<Attempt>, added: seq<(nat, JsDiskImage)>, a: Attempt, image: JsDiskImage)
    requires Advanced(start, mid, catalog, scsiId, done, tries, added)
    requires image.handle.name == a.name
    requires a.wasOpened == OpensAsImage(catalog, a.name) && (a.wasAttached ==> a.wasOpened)
    requires now.attempts == mid.attempts + [a]
    requires a.wasAttached ==> now.images == mid.images + [(scsiId, image)] && now.keys == mid.keys + {image.handle.diskId}
    requires !a.wasAttached ==> now.images == mid.images && now.keys == mid.keys
    requires a.wasOpened ==> now.offered == mid.offered + [(scsiId, image)]
    requires !a.wasOpened ==> now.offered == mid.offered
    requires mid.calls <= now.calls && OpenCalls(now.calls[|mid.calls|..]) == if NUL in a.name then [] else [a.name]
    ensures Advanced(start, now, catalog, scsiId, done + [a.name], tries + [a],
                     if a.wasAttached then added + [(scsiId, image)] else added)
  {
    var tries', added' := tries + [a], if a.wasAttached then added + [(scsiId, image)] else added;
    assert now.attempts == start.attempts + tries';
    assert now.images == start.images + added';
    assert Tried(tries', done + [a.name], catalog) by {
      TriedAppend(tries, done, catalog, a);
    }
    assert Loaded(added', tries', scsiId) by {
      LoadedAppend(added, tries, scsiId, a, image);
    }
    assert now.keys == start.keys + ImageIds(added') by {
      if a.wasAttached {
        ImageIdsAppend(added, (scsiId, image));
      }
    }
    assert start.calls <= now.calls && OpenCalls(now.calls[|start.calls|..]) == NulFreeNames(done + [a.name]) by {
      OpenCallsStep(start.calls, mid.calls, now.calls, done, a.name);
    }
    assert start.offered <= now.offered && Offered(now.offered[|start.offered|..], tries', scsiId) by {
      OfferedByAttempt(mid.offered, now.offered, a, image, scsiId);
      OfferedStep(start.offered, mid.offered, now.offered, tries, a, scsiId);
    }
  }

  /**
   * `js_api::disks::consume_cdrom_name`: the next requested name, None for
   * "no more" (no request, or an empty one). A name crosses as a C string,
   * so Rust receives it up to its first NUL.
   */
  method ConsumeCdromName(host: DiskHost) returns (name: Option<string>)
    modifies host
    ensures host.openIds == old(host.openIds) && host.nextId == old(host.nextId) && host.calls == old(host.calls)
    ensures old(host.cdromRequests) == [] ==> name.None? && host.cdromRequests == []
    ensures old(host.cdromRequests) != [] ==>
      && host.cdromRequests == old(host.cdromRequests)[1..]
      && (old(host.cdromRequests)[0] == [] ==> name.None?)
      && (old(host.cdromRequests)[0] != [] ==>
            name == Some(SnapshotControl.CStringContents(old(host.cdromRequests)[0])))
  {
    var raw := host.NextCdromRequest();
    var pointer := JsExports.ConsumeCdromName(raw);
    name := match pointer
      case None => None
      case Some(n) => Some(SnapshotControl.CStringContents(n));
  }

  class CdromManager {
    var tickCount: nat
    const cdromId: nat
    /** Names waiting for the drive, oldest first. */
    var pending: seq<string>
    /** Every name taken off the queue so far, with its outcome, in order. */
    ghost var attempts: seq<Attempt>

    constructor Init(scsiId: nat, names: seq<string>)
      ensures tickCount == 0 && cdromId == scsiId && pending == names && attempts == []
    {
      tickCount := 0;
      cdromId := scsiId;
      pending := names;
      attempts := [];
    }

    /**
     * `CdromManager::new`: no manager, and no drive attached, for an id
     * beyond the controller's targets; otherwise a drive is attached at the
     * id and the queue starts as the given names, in order.
     */
    static method New(emulator: Emulator, scsiId: nat, names: seq<string>) returns (m: Option<CdromManager>)
      modifies emulator
      ensures scsiId >= emulator.maxTargets ==> m.None? && emulator.cdromDrives == old(emulator.cdromDrives)
      ensures scsiId < emulator.maxTargets ==>
        && m.Some? && fresh(m.value)
        && m.value.tickCount == 0 && m.value.cdromId == scsiId
        && m.value.pending == names && m.value.attempts == []
        && emulator.cdromDrives == old(emulator.cdromDrives) + [scsiId]
      ensures emulator.insertedImages == old(emulator.insertedImages)
    {
      if scsiId >= emulator.maxTargets {
        return None;
      }
      emulator.AttachCdrom(scsiId);
      var manager := new CdromManager.Init(scsiId, names);
      m := Some(manager);
    }

    /** The parts of the state a flush pass changes, as they are now. */
    ghost function Observed(emulator: Emulator, host: DiskHost): Trace
      reads this, emulator, host
    {
      Trace(attempts, emulator.insertedImages, host.openIds.Keys, host.calls, emulator.offered)
    }

    /**
     * The body of `flush_pending`'s loop for one popped name: open the image
     * and, if it opened, hand it to the core. An image that cannot be opened
     * leaves nothing open; one the core refuses is closed again; one it
     * accepts stays open, held by the core.
     */
    method OpenAndInsert(emulator: Emulator, host: DiskHost, name: string)
      returns (isOpen: bool, isAccepted: bool, ghost image: JsDiskImage)
      requires host.Valid()
      modifies emulator, host
      ensures host.Valid() && host.cdromRequests == old(host.cdromRequests)
      ensures emulator.cdromDrives == old(emulator.cdromDrives)
      ensures isOpen <==> OpensAsImage(host.catalog, name)
      ensures isAccepted ==> isOpen
      ensures image.handle.name == name
      ensures isOpen ==> emulator.offered == old(emulator.offered) + [(cdromId, image)]
      ensures !isOpen ==> emulator.offered == old(emulator.offered)
      ensures isAccepted ==>
        && emulator.insertedImages == old(emulator.insertedImages) + [(cdromId, image)]
        && image.handle.diskId !in old(host.openIds)
        && host.openIds == old(host.openIds)[image.handle.diskId := name]
        && host.openIds.Keys == old(host.openIds).Keys + {image.handle.diskId}
      ensures !isAccepted ==> emulator.insertedImages == old(emulator.insertedImages) && host.openIds == old(host.openIds)
      ensures old(host.calls) <= host.calls
      ensures NUL !in name ==> |host.calls| > |old(host.calls)| && host.calls[|old(host.calls)|] == OpenCall(name)
      ensures OpenCalls(host.calls[|old(host.calls)|..]) == if NUL in name then [] else [name]
    {
      ghost var calls0, nextId0 := host.calls, host.nextId;
      var result := DiskImages.Open(host, name);
      match result {
        case Ok(disk) =>
          isOpen := true;
          image := disk;
          isAccepted := emulator.InsertCdromImageAt(disk, cdromId, host);
          ghost var id := disk.handle.diskId;
          if isAccepted {
            OneOpenCall(calls0, host.calls, name, [SizeCall(id)]);
          } else {
            assert old(host.openIds)[id := name] - {id} == old(host.openIds);
            OneOpenCall(calls0, host.calls, name, [SizeCall(id), CloseCall(id)]);
          }
        case Err(_) =>
          isOpen, isAccepted := false, false;
          image := JsDiskImage(DiskHandle(-1, 0, name));
          if NUL in name {
            assert host.calls[|calls0|..] == [];
          } else if name !in host.catalog {
            OneOpenCall(calls0, host.calls, name, []);
          } else {
            OneOpenCall(calls0, host.calls, name, [SizeCall(nextId0), CloseCall(nextId0)]);
          }
      }
    }

    /**
     * One pass of the loop of `flush_pending` after the free-drive check,
     * with its outcome added to the attempt log: the pass tries exactly the
     * popped name, and the flush's running record stays true.
     */
    method InsertOne(emulator: Emulator, host: DiskHost, name: string,
                     ghost start: Trace, ghost done: seq<string>, ghost tries: seq<Attempt>, ghost added: seq<(nat, JsDiskImage)>)
      returns (ghost attempt: Attempt, ghost image: JsDiskImage)
      requires host.Valid() && Advanced(start, Observed(emulator, host), host.catalog, cdromId, done, tries, added)
      modifies this, emulator, host
      ensures host.Valid() && host.cdromRequests == old(host.cdromRequests)
      ensures tickCount == old(tickCount) && pending == old(pending) && emulator.cdromDrives == old(emulator.cdromDrives)
      ensures attempts == old(attempts) + [attempt] && attempt.name == name && image.handle.name == name
      ensures Advanced(start, Observed(emulator, host), host.catalog, cdromId, done + [name], tries + [attempt],
                       if attempt.wasAttached then added + [(cdromId, image)] else added)
    {
      ghost var mid := Observed(emulator, host);
      var isOpen: bool;
      var isAccepted: bool;
      isOpen, isAccepted, image := OpenAndInsert(emulator, host, name);
      attempt := Attempt(name, isOpen, isAccepted);
      attempts := attempts + [attempt];
      AdvanceStep(start, mid, Observed(emulator, host), host.catalog, cdromId, done, tries, added, attempt, image);
    }

    /**
     * `flush_pending`. The status snapshot is fixed for the whole pass: with
     * no snapshot, or a slot that is not a free CD-ROM drive, nothing happens;
     * with a free one, every queued name is taken in order and tried, and a
     * failure to open or attach only moves on to the next name. Every handle
     * opened in the pass ends up either held by the core or closed.
     */
    method FlushPending(emulator: Emulator, host: DiskHost, status: Option<EmulatorStatus>)
      requires host.Valid()
      modifies this, emulator, host
      ensures host.Valid() && host.cdromRequests == old(host.cdromRequests)
      ensures tickCount == old(tickCount) && emulator.cdromDrives == old(emulator.cdromDrives)
      ensures old(attempts) <= attempts && old(emulator.insertedImages) <= emulator.insertedImages
      ensures |pending| <= |old(pending)| && pending == old(pending)[|old(pending)| - |pending|..]
      ensures old(host.calls) <= host.calls && old(emulator.offered) <= emulator.offered
      ensures status.None? || !IsCdromFree(status.value, cdromId) ==>
        && pending == old(pending) && attempts == old(attempts)
        && emulator.insertedImages == old(emulator.insertedImages) && emulator.offered == old(emulator.offered)
        && host.openIds == old(host.openIds) && host.calls == old(host.calls)
      ensures status.Some? && IsCdromFree(status.value, cdromId) ==>
        && pending == [] && Tried(attempts[|old(attempts)|..], old(pending), host.catalog)
        && OpenCalls(host.calls[|old(host.calls)|..]) == NulFreeNames(old(pending))
      ensures Offered(emulator.offered[|old(emulator.offered)|..], attempts[|old(attempts)|..], cdromId)
      ensures Loaded(emulator.insertedImages[|old(emulator.insertedImages)|..], attempts[|old(attempts)|..], cdromId)
      ensures host.openIds.Keys ==
        old(host.openIds).Keys + ImageIds(emulator.insertedImages[|old(emulator.insertedImages)|..])
    {
      if status.None? {
        return;
      }
      var snapshot := status.value;
      ghost var start := Observed(emulator, host);
      ghost var done: seq<string> := [];
      ghost var tries: seq<Attempt> := [];
      ghost var added: seq<(nat, JsDiskImage)> := [];
      while pending != []
        invariant host.Valid() && host.cdromRequests == old(host.cdromRequests)
        invariant tickCount == old(tickCount) && emulator.cdromDrives == old(emulator.cdromDrives)
        invariant old(pending) == done + pending
        invariant done != [] ==> IsCdromFree(snapshot, cdromId)
        invariant done == [] ==> host.calls == old(host.calls) && host.openIds == old(host.openIds)
        invariant Advanced(start, Observed(emulator, host), host.catalog, cdromId, done, tries, added)
        decreases |pending|
      {
        if !IsCdromFree(snapshot, cdromId) {
          break;
        }
        var name := pending[0];
        assert done + pending == (done + [name]) + pending[1..];
        pending := pending[1..];
        ghost var attempt, image := InsertOne(emulator, host, name, start, done, tries, added);
        tries := tries + [attempt];
        added := if attempt.wasAttached then added + [(cdromId, image)] else added;
        done := done + [name];
      }
      if pending == [] {
        assert done == old(pending);
      }
      AdvancedParts(start, Observed(emulator, host), host.catalog, cdromId, done, tries, added);
    }

    /**
     * The drain loop of `handle_pending_insertions`: take the host's requests,
     * oldest first, onto the tail of the queue until the host has no name to
     * give.
     */
    method DrainRequests(host: DiskHost)
      modifies this, host
      ensures pending == old(pending) + ReceivedNames(NonEmptyPrefix(old(host.cdromRequests)))
      ensures host.cdromRequests == old(host.cdromRequests)[DrainedCount(old(host.cdromRequests))..]
      ensures host.openIds == old(host.openIds) && host.nextId == old(host.nextId) && host.calls == old(host.calls)
      ensures attempts == old(attempts) && tickCount == old(tickCount)
    {
      ghost var requests := host.cdromRequests;
      ghost var prefix := NonEmptyPrefix(requests);
      ghost var t := 0;
      var received := [];
      DrainAt(requests, 0);
      var next := ConsumeCdromName(host);
      while next.Some?
        modifies host
        invariant host.openIds == old(host.openIds) && host.nextId == old(host.nextId) && host.calls == old(host.calls)
        invariant 0 <= t <= |prefix| && received == ReceivedNames(prefix[..t])
        invariant next.Some? ==>
          t < |prefix| && next.value == SnapshotControl.CStringContents(prefix[t]) && host.cdromRequests == requests[t + 1..]
        invariant next.None? ==> t == |prefix| && host.cdromRequests == requests[DrainedCount(requests)..]
        decreases |host.cdromRequests|, next.Some?
      {
        ReceivedSnoc(prefix, t);
        received := received + [next.value];
        t := t + 1;
        ghost var rest := host.cdromRequests;
        assert rest == requests[t..];
        next := ConsumeCdromName(host);
        assert rest != [] ==> rest[0] == requests[t] && rest[1..] == requests[t + 1..];
        DrainAt(requests, t);
      }
      assert prefix[..t] == prefix;
      pending := pending + received;
    }

    /**
     * `handle_pending_insertions`: drain the host's requests onto the tail of
     * the queue, in arrival order, then flush if anything is queued.
     */
    method HandlePendingInsertions(emulator: Emulator, host: DiskHost, status: Option<EmulatorStatus>)
      requires host.Valid()
      modifies this, emulator, host
      ensures host.Valid() && tickCount == old(tickCount) && emulator.cdromDrives == old(emulator.cdromDrives)
      ensures host.cdromRequests == old(host.cdromRequests)[DrainedCount(old(host.cdromRequests))..]
      ensures old(attempts) <= attempts && old(emulator.insertedImages) <= emulator.insertedImages
      ensures old(host.calls) <= host.calls && old(emulator.offered) <= emulator.offered
      ensures status.None? || !IsCdromFree(status.value, cdromId) ==>
        && pending == old(pending) + ReceivedNames(NonEmptyPrefix(old(host.cdromRequests))) && attempts == old(attempts)
        && emulator.insertedImages == old(emulator.insertedImages) && emulator.offered == old(emulator.offered)
        && host.openIds == old(host.openIds) && host.calls == old(host.calls)
      ensures status.Some? && IsCdromFree(status.value, cdromId) ==>
        && pending == []
        && Tried(attempts[|old(attempts)|..], old(pending) + ReceivedNames(NonEmptyPrefix(old(host.cdromRequests))), host.catalog)
        && OpenCalls(host.calls[|old(host.calls)|..])
           == NulFreeNames(old(pending) + ReceivedNames(NonEmptyPrefix(old(host.cdromRequests))))
      ensures Offered(emulator.offered[|old(emulator.offered)|..], attempts[|old(attempts)|..], cdromId)
      ensures Loaded(emulator.insertedImages[|old(emulator.insertedImages)|..], attempts[|old(attempts)|..], cdromId)
      ensures host.openIds.Keys ==
        old(host.openIds).Keys + ImageIds(emulator.insertedImages[|old(emulator.insertedImages)|..])
    {
      DrainRequests(host);
      if pending != [] {
        FlushPending(emulator, host, status);
      } else {
        assert attempts[|old(attempts)|..] == [] && emulator.insertedImages[|old(emulator.insertedImages)|..] == [];
        assert emulator.offered[|old(emulator.offered)|..] == [] && host.calls[|old(host.calls)|..] == [];
      }
    }

    /** `tick`: count the tick; handle insertions on every tenth. */
    method Tick(emulator: Emulator, host: DiskHost, status: Option<EmulatorStatus>) returns (ghost polled: bool)
      requires host.Valid()
      modifies this, emulator, host
      ensures tickCount == old(tickCount) + 1 && host.Valid() && old(attempts) <= attempts
      ensures polled <==> tickCount % CDROM_POLL_INTERVAL_TICKS == 0
      ensures old(host.calls) <= host.calls && old(emulator.offered) <= emulator.offered
      ensures tickCount % CDROM_POLL_INTERVAL_TICKS != 0 ==>
        && pending == old(pending) && attempts == old(attempts)
        && unchanged(emulator) && unchanged(host)
      ensures tickCount % CDROM_POLL_INTERVAL_TICKS == 0 ==>
        && host.cdromRequests == old(host.cdromRequests)[DrainedCount(old(host.cdromRequests))..]
        && (status.None? || !IsCdromFree(status.value, cdromId) ==>
              && pending == old(pending) + ReceivedNames(NonEmptyPrefix(old(host.cdromRequests))) && attempts == old(attempts)
              && emulator.offered == old(emulator.offered) && host.calls == old(host.calls))
        && (status.Some? && IsCdromFree(status.value, cdromId) ==>
              && pending == []
              && Tried(attempts[|old(attempts)|..], old(pending) + ReceivedNames(NonEmptyPrefix(old(host.cdromRequests))), host.catalog)
              && OpenCalls(host.calls[|old(host.calls)|..])
                 == NulFreeNames(old(pending) + ReceivedNames(NonEmptyPrefix(old(host.cdromRequests)))))
      ensures old(emulator.insertedImages) <= emulator.insertedImages
      ensures Offered(emulator.offered[|old(emulator.offered)|..], attempts[|old(attempts)|..], cdromId)
      ensures Loaded(emulator.insertedImages[|old(emulator.insertedImages)|..], attempts[|old(attempts)|..], cdromId)
      ensures host.openIds.Keys ==
        old(host.openIds).Keys + ImageIds(emulator.insertedImages[|old(emulator.insertedImages)|..])
    {
      tickCount := tickCount + 1;
      polled := tickCount % CDROM_POLL_INTERVAL_TICKS == 0;
      if tickCount % CDROM_POLL_INTERVAL_TICKS == 0 {
        HandlePendingInsertions(emulator, host, status);
      } else {
        assert emulator.insertedImages[|old(emulator.insertedImages)|..] == [];
        assert emulator.offered[|old(emulator.offered)|..] == [];
      }
    }

    /**
     * One `tick` per emulated frame, `statuses[k]` being the status the
     * emulator reports on frame k: the manager looks at the queue on exactly
     * the ticks `PollingTicks` counts, once every ten frames.
     */
    method RunTicks(emulator: Emulator, host: DiskHost, statuses: seq<Option<EmulatorStatus>>) returns (ghost polls: nat)
      requires host.Valid()
      modifies this, emulator, host
      ensures tickCount == old(tickCount) + |statuses| && host.Valid() && old(attempts) <= attempts
      ensures polls == PollingTicks(old(tickCount), |statuses|)
      ensures polls == (old(tickCount) + |statuses|) / CDROM_POLL_INTERVAL_TICKS - old(tickCount) / CDROM_POLL_INTERVAL_TICKS
    {
      polls := 0;
      var k := 0;
      while k < |statuses|
        invariant k <= |statuses| && host.Valid() && old(attempts) <= attempts
        invariant tickCount == old(tickCount) + k
        invariant polls == PollingTicks(old(tickCount), k)
      {
        ghost var polled := Tick(emulator, host, statuses[k]);
        polls := polls + if polled then 1 else 0;
        k := k + 1;
      }
      PollingTicksCount(old(tickCount), |statuses|);
    }
  }
}
