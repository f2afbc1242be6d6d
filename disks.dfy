/**
 * Storage handles (frontend_im/src/js_api/disks.rs): a handle names one open
 * host-side disk; its id, size and name are fixed at open time. Opening
 * validates the name and the host's size reading, closing again on the
 * error path; dropping a handle closes it. Reads and writes of nothing are
 * not forwarded to the host.
 */
module DiskHandles {
  import opened Base
  import opened DiskHost

  /** `DiskHandle`: immutable after open, so a value. */
  datatype DiskHandle = DiskHandle(diskId: int, sizeBytes: nat, name: string)

  const NUL_NAME_ERROR: string := "Disk name contains an embedded null byte"

  function NotFoundError(name: string): string {
    "Disk not found: " + name
  }

  function InvalidSizeError(name: string): string {
    "Invalid disk size for " + name
  }

  /**
   * What `DiskHandle::open` yields for a name, given what the host holds:
   * the size on success, otherwise the error message.
   */
  function OpenOutcome(catalog: map<string, HostDisk>, name: string): (r: Result<nat, string>)
    ensures r.Ok? <==> NUL !in name && name in catalog && catalog[name].size.Some?
    ensures r.Ok? ==> r.value == catalog[name].size.value
    ensures NUL in name ==> r == Err(NUL_NAME_ERROR)
    ensures NUL !in name && name !in catalog ==> r == Err(NotFoundError(name))
    ensures NUL !in name && name in catalog && catalog[name].size.None? ==> r == Err(InvalidSizeError(name))
  {
    if NUL in name then Err(NUL_NAME_ERROR)
    else if name !in catalog then Err(NotFoundError(name))
    else match catalog[name].size
      case None => Err(InvalidSizeError(name))
      case Some(size) => Ok(size)
  }

  /** The handle is open on the host, on the disk of its name, with the size read at open. */
  ghost predicate IsOpenIn(h: DiskHandle, host: DiskHost)
    reads host
  {
    && h.diskId in host.openIds
    && host.openIds[h.diskId] == h.name
    && h.name in host.catalog
    && host.catalog[h.name].size == Some(h.sizeBytes)
  }

  /**
   * `DiskHandle::open`. A name with a NUL never reaches the host; an unknown
   * name leaves nothing open; an invalid size closes the just-opened id once.
   * On success exactly one new handle is open, under a fresh id.
   */
  method Open(host: DiskHost, name: string) returns (r: Result<DiskHandle, string>)
    requires host.Valid()
    modifies host
    ensures host.Valid() && host.cdromRequests == old(host.cdromRequests)
    ensures host.nextId == old(host.nextId) + (if NUL !in name && name in host.catalog then 1 else 0)
    ensures r.Ok? <==> OpenOutcome(host.catalog, name).Ok?
    ensures r.Err? ==> r.error == OpenOutcome(host.catalog, name).error
    ensures r.Err? ==> host.openIds == old(host.openIds)
    ensures r.Ok? ==>
      && r.value.name == name && r.value.sizeBytes == OpenOutcome(host.catalog, name).value
      && r.value.diskId == old(host.nextId) && r.value.diskId !in old(host.openIds)
      && host.openIds == old(host.openIds)[r.value.diskId := name]
      && IsOpenIn(r.value, host)
    ensures NUL in name ==> host.calls == old(host.calls)
    ensures NUL !in name && name !in host.catalog ==> host.calls == old(host.calls) + [OpenCall(name)]
    ensures NUL !in name && name in host.catalog && host.catalog[name].size.None? ==>
      host.calls == old(host.calls) + [OpenCall(name), SizeCall(old(host.nextId)), CloseCall(old(host.nextId))]
    ensures r.Ok? ==> host.calls == old(host.calls) + [OpenCall(name), SizeCall(r.value.diskId)]
  {
    if NUL in name {
      return Err(NUL_NAME_ERROR);
    }
    var diskId := host.Open(name);
    if diskId < 0 {
      return Err(NotFoundError(name));
    }
    var size := host.Size(diskId);
    if size.None? {
      host.Close(diskId);
      return Err(InvalidSizeError(name));
    }
    r := Ok(DiskHandle(diskId, size.value, name));
  }

  /** `Drop`: a handle with a non-negative id is closed, once. */
  method Drop(h: DiskHandle, host: DiskHost)
    requires host.Valid()
    requires h.diskId >= 0 ==> h.diskId in host.openIds
    modifies host
    ensures host.Valid() && host.nextId == old(host.nextId) && host.cdromRequests == old(host.cdromRequests)
    ensures h.diskId >= 0 ==>
      host.openIds == old(host.openIds) - {h.diskId} && host.calls == old(host.calls) + [CloseCall(h.diskId)]
    ensures h.diskId < 0 ==> host.openIds == old(host.openIds) && host.calls == old(host.calls)
  {
    if h.diskId >= 0 {
      host.Close(h.diskId);
    }
  }

  /** `read_into`: an empty buffer makes no host call; otherwise one read of the buffer's length. */
  method ReadInto(h: DiskHandle, host: DiskHost, offset: nat, buf: array<byte>)
    requires host.Valid() && IsOpenIn(h, host)
    modifies host, buf
    ensures host.Valid() && host.openIds == old(host.openIds) && host.nextId == old(host.nextId)
    ensures host.cdromRequests == old(host.cdromRequests)
    ensures buf.Length == 0 ==> host.calls == old(host.calls)
    ensures buf.Length > 0 ==> host.calls == old(host.calls) + [ReadCall(h.diskId, offset, buf.Length)]
    ensures buf[..] == HostFill(host.catalog[h.name].contents, offset, old(buf[..]))
  {
    if buf.Length == 0 {
      return;
    }
    host.Read(h.diskId, offset, buf);
  }

  function Zeros(n: nat): (z: seq<byte>)
    ensures |z| == n && forall i :: 0 <= i < n ==> z[i] == 0
  {
    seq(n, _ => 0)
  }

  /**
   * `read_vec`: exactly `length` bytes, zero-initialised before the host
   * fills them (so zero wherever the host has no bytes).
   */
  method ReadVec(h: DiskHandle, host: DiskHost, offset: nat, length: nat) returns (data: seq<byte>)
    requires host.Valid() && IsOpenIn(h, host)
    modifies host
    ensures host.Valid() && host.openIds == old(host.openIds) && host.nextId == old(host.nextId)
    ensures host.cdromRequests == old(host.cdromRequests)
    ensures |data| == length
    ensures data == HostFill(host.catalog[h.name].contents, offset, Zeros(length))
    ensures length == 0 ==> host.calls == old(host.calls)
    ensures length > 0 ==> host.calls == old(host.calls) + [ReadCall(h.diskId, offset, length)]
  {
    var buffer := new byte[length](_ => 0);
    assert buffer[..] == Zeros(length);
    ReadInto(h, host, offset, buffer);
    data := buffer[..];
  }

  /** `read_all`: the range [0, size_bytes). */
  method ReadAll(h: DiskHandle, host: DiskHost) returns (data: seq<byte>)
    requires host.Valid() && IsOpenIn(h, host)
    modifies host
    ensures host.Valid() && host.openIds == old(host.openIds) && host.nextId == old(host.nextId)
    ensures host.cdromRequests == old(host.cdromRequests)
    ensures |data| == h.sizeBytes
    ensures data == HostFill(host.catalog[h.name].contents, 0, Zeros(h.sizeBytes))
    ensures h.sizeBytes == 0 ==> host.calls == old(host.calls)
    ensures h.sizeBytes > 0 ==> host.calls == old(host.calls) + [ReadCall(h.diskId, 0, h.sizeBytes)]
  {
    data := ReadVec(h, host, 0, h.sizeBytes);
  }

  /** `write_bytes`: nothing to write makes no host call. */
  method WriteBytes(h: DiskHandle, host: DiskHost, offset: nat, data: seq<byte>)
    requires host.Valid() && IsOpenIn(h, host)
    modifies host
    ensures host.Valid() && host.openIds == old(host.openIds) && host.nextId == old(host.nextId)
    ensures host.cdromRequests == old(host.cdromRequests)
    ensures data == [] ==> host.calls == old(host.calls)
    ensures data != [] ==> host.calls == old(host.calls) + [WriteCall(h.diskId, offset, data)]
  {
    if |data| == 0 {
      return;
    }
    host.Write(h.diskId, offset, data);
  }

  /** Opening and then dropping a handle leaves the host's open handles as they were. */
  method OpenThenDrop(host: DiskHost, name: string) returns (r: Result<DiskHandle, string>)
    requires host.Valid()
    modifies host
    ensures host.Valid() && host.openIds == old(host.openIds)
    ensures r.Ok? ==> |host.calls| == |old(host.calls)| + 3 && host.calls[|host.calls| - 1] == CloseCall(r.value.diskId)
  {
    r := Open(host, name);
    if r.Ok? {
      Drop(r.value, host);
      assert old(host.openIds)[r.value.diskId := name] - {r.value.diskId} == old(host.openIds);
    }
  }
}
