/**
 * The Rust side of the snapshot protocol (frontend_im/src/js_api/control.rs):
 * polling the host mailbox for a save/load command and forwarding the
 * completion or error notice, correlated by the request id.
 */
module SnapshotControl {
  import opened Base
  import opened JsExports

  datatype SnapshotCommandKind = Save | Load

  datatype SnapshotCommand = SnapshotCommand(kind: SnapshotCommandKind, requestId: u32)

  /** The outcome of decoding one poll, and whether the request id had to be taken. */
  datatype Decoded = Decoded(command: Option<SnapshotCommand>, idTaken: bool)

  /**
   * `take_snapshot_command` on the two host readings. The id is taken only
   * when the kind is non-zero; a zero id, or a kind other than 1 and 2, gives
   * no command.
   */
  function DecodeSnapshotCommand(kind: i32, requestId: u32): (d: Decoded)
    ensures d.idTaken <==> kind != SNAPSHOT_NONE
    ensures d.command.Some? <==> (kind == SNAPSHOT_SAVE || kind == SNAPSHOT_LOAD) && requestId != 0
    ensures d.command.Some? ==> d.command.value.requestId == requestId
    ensures d.command.Some? ==> (d.command.value.kind == Save <==> kind == SNAPSHOT_SAVE)
  {
    if kind == 0 then Decoded(None, false)
    else if requestId == 0 then Decoded(None, true)
    else
      match kind
      case 1 => Decoded(Some(SnapshotCommand(Save, requestId)), true)
      case 2 => Decoded(Some(SnapshotCommand(Load, requestId)), true)
      case _ => Decoded(None, true)
  }

  /** The mailbox kind code of each command kind. */
  function KindCode(kind: SnapshotCommandKind): i32 {
    match kind
    case Save => SNAPSHOT_SAVE
    case Load => SNAPSHOT_LOAD
  }

  /** Every command with a non-zero id survives the trip through the two readings. */
  lemma DecodeRoundTrip(c: SnapshotCommand)
    requires c.requestId != 0
    ensures DecodeSnapshotCommand(KindCode(c.kind), c.requestId) == Decoded(Some(c), true)
  {
  }

  /**
   * `take_snapshot_command` against the mailbox: peek at the kind, and only if
   * it is non-zero consume the id. A pending command is either left alone
   * (kind 0) or consumed, whether or not it decodes to a command.
   */
  method TakeSnapshotCommand(mailbox: Mailbox) returns (command: Option<SnapshotCommand>)
    modifies mailbox
    ensures old(mailbox.Pending()) == [] ==> command.None? && mailbox.Pending() == []
    ensures old(mailbox.Pending()) != [] ==>
      var head := old(mailbox.Pending())[0];
      && command == DecodeSnapshotCommand(head.kind, head.requestId).command
      && mailbox.Pending() == if head.kind == SNAPSHOT_NONE then old(mailbox.Pending())
                              else old(mailbox.Pending())[1..]
  {
    var kind := mailbox.PeekKind();
    if kind == 0 {
      return None;
    }
    var requestId := mailbox.ConsumeRequestId();
    command := DecodeSnapshotCommand(kind, requestId).command;
  }

  /**
   * Two requests, one save and one load, are served in the order they were
   * made, after which the mailbox reports nothing.
   */
  method ServeInRequestOrder(mailbox: Mailbox, saveId: u32, loadId: u32)
    returns (first: Option<SnapshotCommand>, second: Option<SnapshotCommand>, third: Option<SnapshotCommand>)
    requires mailbox.Pending() == []
    requires saveId != 0 && loadId != 0
    modifies mailbox
    ensures first == Some(SnapshotCommand(Save, saveId))
    ensures second == Some(SnapshotCommand(Load, loadId))
    ensures third.None? && mailbox.Pending() == []
  {
    RequestSnapshotSave(mailbox, saveId);
    var _ := RequestSnapshotLoad(mailbox, loadId, true, true);
    first := TakeSnapshotCommand(mailbox);
    second := TakeSnapshotCommand(mailbox);
    third := TakeSnapshotCommand(mailbox);
  }

  // ---------------------------------------------------------------------------
  // Completion notices

  /** What the host receives through its three completion callbacks. */
  datatype Completion =
    | SaveCompleted(requestId: u32)
    | LoadCompleted(requestId: u32)
    | ErrorNotice(requestId: u32, message: string)

  function CompleteSnapshotSave(requestId: u32): (calls: seq<Completion>)
    ensures |calls| == 1 && calls[0].SaveCompleted? && calls[0].requestId == requestId
  {
    [SaveCompleted(requestId)]
  }

  function CompleteSnapshotLoaded(requestId: u32): (calls: seq<Completion>)
    ensures |calls| == 1 && calls[0].LoadCompleted? && calls[0].requestId == requestId
  {
    [LoadCompleted(requestId)]
  }

  /** `message.replace('\0', " ")`: every NUL becomes a space, nothing else moves. */
  function Sanitize(message: string): (s: string)
    ensures |s| == |message|
    ensures forall i :: 0 <= i < |s| ==> s[i] == (if message[i] == NUL then ' ' else message[i])
    ensures NUL !in s
  {
    if message == [] then []
    else [if message[0] == NUL then ' ' else message[0]] + Sanitize(message[1..])
  }

  /** `CString::new`: fails exactly on an embedded NUL. */
  function CStringNew(s: string): (c: Option<string>)
    ensures c.Some? <==> NUL !in s
    ensures c.Some? ==> c.value == s
  {
    if NUL in s then None else Some(s)
  }

  /** What the host reads from a C string: everything before the first NUL. */
  function CStringContents(s: string): (t: string)
    ensures |t| <= |s| && t == s[..|t|]
    ensures NUL !in t
    ensures NUL !in s ==> t == s
    ensures |t| < |s| ==> s[|t|] == NUL
  {
    if s == [] || s[0] == NUL then [] else [s[0]] + CStringContents(s[1..])
  }

  /**
   * `complete_snapshot_error`: after sanitising, the conversion to a C string
   * cannot fail, so the error callback fires exactly once, with the same id and
   * the whole message (NULs turned to spaces) as the host reads it.
   */
  function CompleteSnapshotError(requestId: u32, message: string): (calls: seq<Completion>)
    ensures |calls| == 1 && calls[0].ErrorNotice? && calls[0].requestId == requestId
    ensures |calls[0].message| == |message|
    ensures forall i :: 0 <= i < |message| ==>
      calls[0].message[i] == (if message[i] == NUL then ' ' else message[i])
  {
    match CStringNew(Sanitize(message))
    case Some(c) => [ErrorNotice(requestId, CStringContents(c))]
    case None => []
  }
}
