/**
 * The parts of the emulator core that the CD-ROM hotplug manager uses. The
 * core is not part of this model: its status snapshot is plain data, and
 * attaching a drive or inserting an image are operations whose outcome the
 * core decides (here: arbitrarily) and which are recorded in order.
 */
module EmulatorCore {
  import opened Base
  import opened DiskHost
  import opened DiskHandles
  import opened DiskImages

  /** Kinds of SCSI target; the core's other kinds are folded into `OtherTarget`. */
  datatype ScsiTargetType = HardDisk | Cdrom | OtherTarget

  datatype ScsiTargetStatus = ScsiTargetStatus(targetType: ScsiTargetType, image: Option<string>)

  /** A point-in-time view of every SCSI slot; a slot may be empty (None). */
  datatype EmulatorStatus = EmulatorStatus(scsi: seq<Option<ScsiTargetStatus>>)

  class Emulator {
    /** `ScsiController::MAX_TARGETS`. */
    const maxTargets: nat
    /** SCSI ids at which a CD-ROM drive was attached, in order. */
    var cdromDrives: seq<nat>
    /** Images the core accepted, with the SCSI id they went to, in order. */
    var insertedImages: seq<(nat, JsDiskImage)>
    /** Every image handed to `insert_cdrom_image_at`, accepted or not, with its SCSI id, in order. */
    ghost var offered: seq<(nat, JsDiskImage)>

    constructor (maxTargets: nat)
      ensures this.maxTargets == maxTargets && cdromDrives == [] && insertedImages == [] && offered == []
    {
      this.maxTargets := maxTargets;
      cdromDrives := [];
      insertedImages := [];
      offered := [];
    }

    method AttachCdrom(scsiId: nat)
      modifies this
      ensures cdromDrives == old(cdromDrives) + [scsiId] && insertedImages == old(insertedImages)
      ensures offered == old(offered)
    {
      cdromDrives := cdromDrives + [scsiId];
    }

    /**
     * `insert_cdrom_image_at`: the core takes ownership of the image. If it
     * accepts, it keeps the image (its handle stays open); if it refuses, the
     * image is dropped, which closes its handle.
     */
    method InsertCdromImageAt(image: JsDiskImage, scsiId: nat, host: DiskHost) returns (ok: bool)
      requires host.Valid() && IsOpenIn(image.handle, host)
      modifies this, host
      ensures cdromDrives == old(cdromDrives) && offered == old(offered) + [(scsiId, image)]
      ensures host.Valid() && host.nextId == old(host.nextId) && host.cdromRequests == old(host.cdromRequests)
      ensures ok ==> insertedImages == old(insertedImages) + [(scsiId, image)]
      ensures ok ==> host.openIds == old(host.openIds) && host.calls == old(host.calls)
      ensures !ok ==> insertedImages == old(insertedImages)
      ensures !ok ==>
        host.openIds == old(host.openIds) - {image.handle.diskId}
        && host.calls == old(host.calls) + [CloseCall(image.handle.diskId)]
    {
      offered := offered + [(scsiId, image)];
      ok :| true;
      if ok {
        insertedImages := insertedImages + [(scsiId, image)];
      } else {
        Drop(image.handle, host);
      }
    }
  }
}
