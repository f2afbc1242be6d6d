/**
 * The host's storage, as the bridge sees it through `js_disk_open`,
 * `js_disk_close`, `js_disk_size`, `js_disk_read`, `js_disk_write` and
 * `js_consume_cdrom_name`. The host itself is not part of this model: this
 * class is an in-memory stand-in whose contracts are what the bridge relies
 * on. It keeps a log of every storage call so that the bridge's contracts
 * can say which calls it makes, and it refuses (by precondition) to close a
 * handle that is not open, so that every bridge method that verifies against
 * it closes each handle at most once.
 */
module DiskHost {
  import opened Base

  /** A disk the host can open by name: its size reading (None when non-finite or negative) and its bytes. */
  datatype HostDisk = HostDisk(size: Option<nat>, contents: seq<byte>)

  /** One call across the storage boundary. */
  datatype DiskCall =
    | OpenCall(name: string)
    | CloseCall(id: int)
    | SizeCall(id: int)
    | ReadCall(id: int, offset: nat, length: nat)
    | WriteCall(id: int, offset: nat, data: seq<byte>)

  /**
   * What the host leaves in a buffer after a read at `offset`: the disk's
   * bytes where they exist, the buffer's previous bytes past the end.
   */
  function HostFill(contents: seq<byte>, offset: nat, buf: seq<byte>): (r: seq<byte>)
    ensures |r| == |buf|
    ensures forall i :: 0 <= i < |buf| ==>
      r[i] == if offset + i < |contents| then contents[offset + i] else buf[i]
  {
    seq(|buf|, i requires 0 <= i < |buf| =>
      if offset + i < |contents| then contents[offset + i] else buf[i])
  }

  class DiskHost {
    /** The disks the host can open, by name. */
    const catalog: map<string, HostDisk>
    /** Open handles: id to disk name. */
    var openIds: map<int, string>
    var nextId: nat
    /** Every storage call made so far, oldest first. */
    var calls: seq<DiskCall>
    /** CD-ROM names the user asked to insert and the bridge has not consumed, oldest first. */
    var cdromRequests: seq<string>

    ghost predicate Valid()
      reads this
    {
      forall id :: id in openIds ==> 0 <= id < nextId && openIds[id] in catalog
    }

    constructor (catalog: map<string, HostDisk>, cdromRequests: seq<string>)
      ensures Valid()
      ensures this.catalog == catalog && this.cdromRequests == cdromRequests
      ensures openIds == map[] && calls == []
    {
      this.catalog := catalog;
      this.cdromRequests := cdromRequests;
      openIds := map[];
      nextId := 0;
      calls := [];
    }

    /** A fresh non-negative id for a known name, -1 otherwise. */
    method Open(name: string) returns (id: int)
      requires Valid()
      modifies this
      ensures Valid()
      ensures calls == old(calls) + [OpenCall(name)] && cdromRequests == old(cdromRequests)
      ensures name !in catalog ==> id == -1 && openIds == old(openIds) && nextId == old(nextId)
      ensures name in catalog ==>
        && id == old(nextId) && id !in old(openIds)
        && openIds == old(openIds)[id := name] && nextId == old(nextId) + 1
    {
      calls := calls + [OpenCall(name)];
      if name !in catalog {
        return -1;
      }
      id := nextId;
      openIds := openIds[id := name];
      nextId := nextId + 1;
    }

    method Close(id: int)
      requires Valid() && id in openIds
      modifies this
      ensures Valid()
      ensures openIds == old(openIds) - {id} && nextId == old(nextId)
      ensures calls == old(calls) + [CloseCall(id)] && cdromRequests == old(cdromRequests)
    {
      openIds := openIds - {id};
      calls := calls + [CloseCall(id)];
    }

    method Size(id: int) returns (size: Option<nat>)
      requires Valid() && id in openIds
      modifies this
      ensures openIds == old(openIds) && nextId == old(nextId) && Valid()
      ensures size == catalog[openIds[id]].size
      ensures calls == old(calls) + [SizeCall(id)] && cdromRequests == old(cdromRequests)
    {
      size := catalog[openIds[id]].size;
      calls := calls + [SizeCall(id)];
    }

    method Read(id: int, offset: nat, buf: array<byte>)
      requires Valid() && id in openIds
      modifies this, buf
      ensures openIds == old(openIds) && nextId == old(nextId) && Valid()
      ensures buf[..] == HostFill(catalog[openIds[id]].contents, offset, old(buf[..]))
      ensures calls == old(calls) + [ReadCall(id, offset, buf.Length)] && cdromRequests == old(cdromRequests)
    {
      var contents := catalog[openIds[id]].contents;
      forall i | 0 <= i < buf.Length && offset + i < |contents| {
        buf[i] := contents[offset + i];
      }
      calls := calls + [ReadCall(id, offset, buf.Length)];
    }

    /** Writes are recorded; what the host does with the bytes is not part of this model. */
    method Write(id: int, offset: nat, data: seq<byte>)
      requires Valid() && id in openIds
      modifies this
      ensures openIds == old(openIds) && nextId == old(nextId) && Valid()
      ensures calls == old(calls) + [WriteCall(id, offset, data)] && cdromRequests == old(cdromRequests)
    {
      calls := calls + [WriteCall(id, offset, data)];
    }

    /** The next requested CD-ROM name, oldest first; None once there are none. */
    method NextCdromRequest() returns (name: Option<string>)
      modifies this
      ensures old(cdromRequests) == [] ==> name.None? && cdromRequests == []
      ensures old(cdromRequests) != [] ==>
        name == Some(old(cdromRequests)[0]) && cdromRequests == old(cdromRequests)[1..]
      ensures openIds == old(openIds) && nextId == old(nextId) && calls == old(calls)
    {
      if cdromRequests == [] {
        return None;
      }
      name := Some(cdromRequests[0]);
      cdromRequests := cdromRequests[1..];
    }
  }
}
