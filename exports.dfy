/**
 * The JavaScript side of the bridge that holds logic of its own
 * (frontend_im/src/js_api/exports.js): the snapshot mailbox that the host's
 * save/load requests go into and that the Rust side polls, the snapshot file
 * paths, and the empty-name check on CD-ROM insertion requests.
 */
module JsExports {
  import opened Base
  import Decimal

  const SNAPSHOT_NONE: i32 := 0
  const SNAPSHOT_SAVE: i32 := 1
  const SNAPSHOT_LOAD: i32 := 2

  /** A queued request: its kind code and the caller's request id. */
  datatype MailboxCommand = MailboxCommand(kind: i32, requestId: u32)

  // ---------------------------------------------------------------------------
  // Snapshot paths

  const SAVE_PATH_PREFIX: string := "/tmp/outgoing-vm-snapshot-"
  const LOAD_PATH_PREFIX: string := "/tmp/incoming-vm-snapshot-"
  const SNAPSHOT_SUFFIX: string := ".snows"

  /** `path` is `prefix`, then the decimal digits of `requestId`, then the snapshot suffix. */
  predicate IsSnapshotPath(path: string, prefix: string, requestId: u32)
  {
    && |prefix| + |SNAPSHOT_SUFFIX| < |path|
    && path[..|prefix|] == prefix
    && path[|path| - |SNAPSHOT_SUFFIX|..] == SNAPSHOT_SUFFIX
    && var digits := path[|prefix|..|path| - |SNAPSHOT_SUFFIX|];
       && (forall i :: 0 <= i < |digits| ==> Decimal.IsDigit(digits[i]))
       && Decimal.Parse(digits) == requestId
  }

  lemma PathParts(prefix: string, requestId: u32)
    ensures IsSnapshotPath(prefix + Decimal.Show(requestId) + SNAPSHOT_SUFFIX, prefix, requestId)
  {
    var path := prefix + Decimal.Show(requestId) + SNAPSHOT_SUFFIX;
    assert path[|prefix|..|path| - |SNAPSHOT_SUFFIX|] == Decimal.Show(requestId);
    Decimal.ParseShow(requestId);
  }

  /** `snapshotPathForSave`: the outgoing snapshot file for a request. */
  function SnapshotPathForSave(requestId: u32): (path: string)
    ensures IsSnapshotPath(path, SAVE_PATH_PREFIX, requestId)
  {
    PathParts(SAVE_PATH_PREFIX, requestId);
    SAVE_PATH_PREFIX + Decimal.Show(requestId) + SNAPSHOT_SUFFIX
  }

  /** `snapshotPathForLoad`: the incoming snapshot file for a request. */
  function SnapshotPathForLoad(requestId: u32): (path: string)
    ensures IsSnapshotPath(path, LOAD_PATH_PREFIX, requestId)
  {
    PathParts(LOAD_PATH_PREFIX, requestId);
    LOAD_PATH_PREFIX + Decimal.Show(requestId) + SNAPSHOT_SUFFIX
  }

  /** The id is recoverable from the middle of a path built from a prefix and the suffix. */
  lemma PathDeterminesId(prefix: string, a: u32, b: u32)
    requires prefix + Decimal.Show(a) + SNAPSHOT_SUFFIX == prefix + Decimal.Show(b) + SNAPSHOT_SUFFIX
    ensures a == b
  {
    var pa := prefix + Decimal.Show(a) + SNAPSHOT_SUFFIX;
    var pb := prefix + Decimal.Show(b) + SNAPSHOT_SUFFIX;
    assert |Decimal.Show(a)| == |Decimal.Show(b)|;
    assert Decimal.Show(a) == pa[|prefix|..|pa| - |SNAPSHOT_SUFFIX|];
    assert Decimal.Show(b) == pb[|prefix|..|pb| - |SNAPSHOT_SUFFIX|];
    Decimal.ShowInjective(a, b);
  }

  /** Each path embeds its request id: two requests share a path only if they share an id. */
  lemma SnapshotPathsEmbedId(a: u32, b: u32)
    ensures SnapshotPathForSave(a) == SnapshotPathForSave(b) <==> a == b
    ensures SnapshotPathForLoad(a) == SnapshotPathForLoad(b) <==> a == b
  {
    if SnapshotPathForSave(a) == SnapshotPathForSave(b) {
      PathDeterminesId(SAVE_PATH_PREFIX, a, b);
    }
    if SnapshotPathForLoad(a) == SnapshotPathForLoad(b) {
      PathDeterminesId(LOAD_PATH_PREFIX, a, b);
    }
  }

  /** A save path is never a load path, whatever the two ids. */
  lemma SaveAndLoadPathsDiffer(a: u32, b: u32)
    ensures SnapshotPathForSave(a) != SnapshotPathForLoad(b)
  {
    assert SnapshotPathForSave(a)[5] == 'o';
    assert SnapshotPathForLoad(b)[5] == 'i';
  }

  // ---------------------------------------------------------------------------
  // The mailbox

  /**
   * `snapshotMailbox`: a FIFO queue plus an `active` slot holding the command
   * whose kind has been reported but whose id has not been consumed yet.
   */
  class Mailbox {
    var queue: seq<MailboxCommand>
    var active: Option<MailboxCommand>

    /** Every command not yet consumed, the active one first. */
    ghost function Pending(): seq<MailboxCommand>
      reads this
    {
      (if active.Some? then [active.value] else []) + queue
    }

    constructor ()
      ensures queue == [] && active == None
      ensures Pending() == []
    {
      queue := [];
      active := None;
    }

    method Enqueue(command: MailboxCommand)
      modifies this
      ensures queue == old(queue) + [command] && active == old(active)
      ensures Pending() == old(Pending()) + [command]
    {
      queue := queue + [command];
    }

    /** Promote the queue head, but only when nothing is active. */
    method EnsureActive()
      modifies this
      ensures Pending() == old(Pending())
      ensures old(active).Some? || old(queue) == [] ==> queue == old(queue) && active == old(active)
      ensures old(active).None? && old(queue) != [] ==>
        active == Some(old(queue)[0]) && queue == old(queue)[1..]
      ensures active.None? <==> Pending() == []
    {
      if active.None? && |queue| > 0 {
        active := Some(queue[0]);
        queue := queue[1..];
      }
    }

    /** The kind of the next command, or SNAPSHOT_NONE; consumes nothing. */
    method PeekKind() returns (kind: i32)
      modifies this
      ensures Pending() == old(Pending())
      ensures kind == if Pending() == [] then SNAPSHOT_NONE else Pending()[0].kind
    {
      EnsureActive();
      kind := match active
        case Some(c) => c.kind
        case None => SNAPSHOT_NONE;
    }

    /** The id of the next command, which is thereby consumed; 0 when nothing is pending. */
    method ConsumeRequestId() returns (requestId: u32)
      modifies this
      ensures old(Pending()) == [] ==> requestId == 0 && Pending() == []
      ensures old(Pending()) != [] ==>
        requestId == old(Pending())[0].requestId && Pending() == old(Pending())[1..]
      ensures active.None?
    {
      EnsureActive();
      if active.None? {
        return 0;
      }
      requestId := active.value.requestId;
      active := None;
    }
  }

  /** `__snowRequestVMSnapshotSave`: queue a save request. */
  method RequestSnapshotSave(mailbox: Mailbox, requestId: u32)
    modifies mailbox
    ensures mailbox.Pending() == old(mailbox.Pending()) + [MailboxCommand(SNAPSHOT_SAVE, requestId)]
  {
    mailbox.Enqueue(MailboxCommand(SNAPSHOT_SAVE, requestId));
  }

  /**
   * `__snowRequestVMSnapshotLoad`: throws, queueing nothing, when the file
   * system is unavailable or writing the snapshot file fails (`writeOk` is
   * the outcome of that write, whose contents are not modelled); otherwise
   * queues a load request.
   */
  method RequestSnapshotLoad(mailbox: Mailbox, requestId: u32, fsAvailable: bool, writeOk: bool) returns (thrown: bool)
    modifies mailbox
    ensures thrown <==> !fsAvailable || !writeOk
    ensures thrown ==> mailbox.Pending() == old(mailbox.Pending())
    ensures !thrown ==> mailbox.Pending() == old(mailbox.Pending()) + [MailboxCommand(SNAPSHOT_LOAD, requestId)]
  {
    if !fsAvailable {
      return true;
    }
    if !writeOk {
      return true;
    }
    mailbox.Enqueue(MailboxCommand(SNAPSHOT_LOAD, requestId));
    thrown := false;
  }

  // ---------------------------------------------------------------------------
  // CD-ROM insertion names

  /**
   * `js_consume_cdrom_name`: the host's next requested name is passed on,
   * except that a missing or empty name is returned as a null C string (None).
   */
  function ConsumeCdromName(hostName: Option<string>): (name: Option<string>)
    ensures name.Some? <==> hostName.Some? && hostName.value != []
    ensures name.Some? ==> name.value == hostName.value
  {
    match hostName
    case None => None
    case Some(n) => if |n| == 0 then None else Some(n)
  }
}
