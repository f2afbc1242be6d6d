/**
 * Fixed-disk and CD-ROM images backed by a host handle
 * (frontend_im/src/disk.rs): opening adds the block-size check to the
 * handle's own validation; the image operations delegate to the handle.
 */
module DiskImages {
  import opened Base
  import opened DiskHost
  import opened DiskHandles
  import Decimal

  /**
   * The SCSI block size of the emulator core (`DISK_BLOCKSIZE`); the core is
   * not part of this model, and no property below depends on the value beyond
   * its being positive.
   */
  const DISK_BLOCKSIZE: nat := 512

  datatype JsDiskImage = JsDiskImage(handle: DiskHandle)

  function NotBlockMultipleError(name: string): string {
    "Cannot load disk image " + name + ": not multiple of " + Decimal.Show(DISK_BLOCKSIZE)
  }

  /** The host holds a disk of this name whose size reading is a whole number of blocks. */
  predicate OpensAsImage(catalog: map<string, HostDisk>, name: string)
  {
    && NUL !in name && name in catalog
    && catalog[name].size.Some? && catalog[name].size.value % DISK_BLOCKSIZE == 0
  }

  /**
   * What `JsDiskImage::open` yields: any handle error unchanged, else a
   * failure exactly when the size is not a whole number of blocks.
   */
  function ImageOpenOutcome(catalog: map<string, HostDisk>, name: string): (r: Result<nat, string>)
    ensures OpenOutcome(catalog, name).Err? ==> r == OpenOutcome(catalog, name)
    ensures OpenOutcome(catalog, name).Ok? ==>
      (r.Ok? <==> OpenOutcome(catalog, name).value % DISK_BLOCKSIZE == 0)
    ensures r.Ok? ==> r == OpenOutcome(catalog, name)
    ensures r.Ok? <==> OpensAsImage(catalog, name)
    ensures OpenOutcome(catalog, name).Ok? && r.Err? ==> r == Err(NotBlockMultipleError(name))
  {
    match OpenOutcome(catalog, name)
    case Err(e) => Err(e)
    case Ok(size) => if size % DISK_BLOCKSIZE != 0 then Err(NotBlockMultipleError(name)) else Ok(size)
  }

  /** A whole number of blocks opens; one byte short of it does not. */
  lemma BlockBoundary(catalog: map<string, HostDisk>, name: string, blocks: nat)
    requires NUL !in name && name in catalog && blocks > 0
    ensures catalog[name].size == Some(blocks * DISK_BLOCKSIZE) ==> ImageOpenOutcome(catalog, name).Ok?
    ensures catalog[name].size == Some(blocks * DISK_BLOCKSIZE - 1) ==>
      ImageOpenOutcome(catalog, name) == Err(NotBlockMultipleError(name))
  {
    var short := blocks * DISK_BLOCKSIZE - 1;
    assert short == (blocks - 1) * DISK_BLOCKSIZE + (DISK_BLOCKSIZE - 1);
    assert short % DISK_BLOCKSIZE == DISK_BLOCKSIZE - 1;
  }

  /**
   * `JsDiskImage::open`. On the block-size failure the handle is dropped,
   * which closes it exactly once; nothing is left open on any failure.
   */
  method Open(host: DiskHost, name: string) returns (r: Result<JsDiskImage, string>)
    requires host.Valid()
    modifies host
    ensures host.Valid() && host.cdromRequests == old(host.cdromRequests)
    ensures old(host.nextId) <= host.nextId
    ensures r.Ok? ==> r.value.handle.diskId == old(host.nextId) && host.nextId == old(host.nextId) + 1
    ensures r.Ok? <==> ImageOpenOutcome(host.catalog, name).Ok?
    ensures r.Ok? <==> OpensAsImage(host.catalog, name)
    ensures r.Err? ==> r.error == ImageOpenOutcome(host.catalog, name).error
    ensures r.Err? ==> host.openIds == old(host.openIds)
    ensures r.Ok? ==>
      && r.value.handle.name == name && r.value.handle.diskId !in old(host.openIds)
      && host.openIds == old(host.openIds)[r.value.handle.diskId := name]
      && IsOpenIn(r.value.handle, host)
    ensures r.Ok? ==> host.calls == old(host.calls) + [OpenCall(name), SizeCall(r.value.handle.diskId)]
    ensures OpenOutcome(host.catalog, name).Ok? && r.Err? ==>
      host.calls == old(host.calls) + [OpenCall(name), SizeCall(old(host.nextId)), CloseCall(old(host.nextId))]
    ensures NUL in name ==> host.calls == old(host.calls)
    ensures NUL !in name && name !in host.catalog ==> host.calls == old(host.calls) + [OpenCall(name)]
    ensures NUL !in name && name in host.catalog && host.catalog[name].size.None? ==>
      host.calls == old(host.calls) + [OpenCall(name), SizeCall(old(host.nextId)), CloseCall(old(host.nextId))]
    ensures NUL !in name ==> |host.calls| > |old(host.calls)| && host.calls[|old(host.calls)|] == OpenCall(name)
    ensures old(host.calls) <= host.calls
  {
    var handle := DiskHandles.Open(host, name);
    if handle.Err? {
      return Err(handle.error);
    }
    var h := handle.value;
    if h.sizeBytes % DISK_BLOCKSIZE != 0 {
      Drop(h, host);
      assert old(host.openIds)[h.diskId := name] - {h.diskId} == old(host.openIds);
      return Err(NotBlockMultipleError(name));
    }
    r := Ok(JsDiskImage(h));
  }

  // `DiskImage` delegations.

  function ByteLen(image: JsDiskImage): (n: nat)
    ensures n == image.handle.sizeBytes
  {
    image.handle.sizeBytes
  }

  /** `media_bytes`: a host-backed image has no in-memory bytes. */
  function MediaBytes(image: JsDiskImage): (bytes: Option<seq<byte>>)
    ensures bytes.None?
  {
    None
  }

  /** `image_path`: the name the image was opened under. */
  function ImagePath(image: JsDiskImage): (path: Option<string>)
    ensures path == Some(image.handle.name)
  {
    Some(image.handle.name)
  }

  method ReadBytes(image: JsDiskImage, host: DiskHost, offset: nat, length: nat) returns (data: seq<byte>)
    requires host.Valid() && IsOpenIn(image.handle, host)
    modifies host
    ensures host.Valid() && host.openIds == old(host.openIds) && host.nextId == old(host.nextId)
    ensures host.cdromRequests == old(host.cdromRequests)
    ensures data == HostFill(host.catalog[image.handle.name].contents, offset, Zeros(length))
    ensures length == 0 ==> host.calls == old(host.calls)
    ensures length > 0 ==> host.calls == old(host.calls) + [ReadCall(image.handle.diskId, offset, length)]
  {
    data := ReadVec(image.handle, host, offset, length);
  }

  method WriteBytes(image: JsDiskImage, host: DiskHost, offset: nat, data: seq<byte>)
    requires host.Valid() && IsOpenIn(image.handle, host)
    modifies host
    ensures host.Valid() && host.openIds == old(host.openIds) && host.nextId == old(host.nextId)
    ensures host.cdromRequests == old(host.cdromRequests)
    ensures data == [] ==> host.calls == old(host.calls)
    ensures data != [] ==> host.calls == old(host.calls) + [WriteCall(image.handle.diskId, offset, data)]
  {
    DiskHandles.WriteBytes(image.handle, host, offset, data);
  }
}
