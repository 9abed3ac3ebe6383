/**
 The drag/drop state machine of the file-drop directive. Each host-event
 handler is a pure step from the file state and the event to the new file
 state, the outbound effects in order, whether the event's default action
 and propagation were suppressed, and whether the handler ended by throwing.
 */
module FileDrop {
  import opened Dom
  import opened FileStates
  import opened Notifications

  /** What reading the transfer object off an event yields: a value, or a thrown TypeError. */
  datatype Extraction = Value(value: TransferValue) | TypeError

  /** The result of one handler invocation. */
  datatype Step = Step(after: FileState, out: seq<Output>, suppressed: bool, fault: bool)

  /** The three host events the directive listens to. */
  datatype Signal = DragOver(event: DragEvent) | DragLeave(event: DragEvent) | Drop(event: DragEvent)

  /**
   The transfer object of an event: the event's own `dataTransfer` when it is
   truthy, otherwise the wrapped event's; reading through a missing wrapper
   throws.
   */
  function GetDataTransferObject(event: DragEvent): (r: Extraction)
    ensures event.dataTransfer.Truthy() ==> r == Value(event.dataTransfer)
    ensures !event.dataTransfer.Truthy() && event.originalEvent.Some? ==>
              r == Value(event.originalEvent.value.dataTransfer)
    ensures r.TypeError? <==> !event.dataTransfer.Truthy() && event.originalEvent.None?
  {
    if event.dataTransfer.Truthy() then Value(event.dataTransfer)
    else if event.originalEvent.Some? then Value(event.originalEvent.value.dataTransfer)
    else TypeError
  }

  /**
   The wrapped event is consulted only when the direct transfer is falsy:
   events that agree on a truthy direct transfer extract the same whatever
   their wrappers, and events whose direct transfers are both falsy extract
   the same when their wrappers agree.
   */
  lemma ExtractionPreference(e1: DragEvent, e2: DragEvent)
    ensures e1.dataTransfer.Truthy() && e1.dataTransfer == e2.dataTransfer ==>
              GetDataTransferObject(e1) == GetDataTransferObject(e2)
    ensures !e1.dataTransfer.Truthy() && !e2.dataTransfer.Truthy() && e1.originalEvent == e2.originalEvent ==>
              GetDataTransferObject(e1) == GetDataTransferObject(e2)
  {
  }

  /** Calls `preventDefault` and `stopPropagation`; nothing else changes. */
  function PreventAndStopEventPropagation(r: Step): (r': Step)
    ensures r'.suppressed
    ensures r'.after == r.after && r'.out == r.out && r'.fault == r.fault
  {
    r.(suppressed := true)
  }

  /** The notice a drop ends with, given the file state holding the re-captured transfer. */
  function Verdict(q: Queries, captured: FileState): (n: Notice)
    ensures n.IsOutcome()
    ensures n.FileDropped? <==> q.isFileValid(captured) == RejectionReasons.None
    ensures n.FileDropped? ==> n.accepted.file == q.getFileData(captured)
    ensures n.FileRejected? ==> n.rejected.file == q.getFileData(captured)
    ensures n.FileRejected? ==> n.rejected.rejectionReason == q.isFileValid(captured)
    ensures n.FileRejected? ==> n.rejected.rejectionReason != RejectionReasons.None
  {
    var fileData := q.getFileData(captured);
    var rejectionReason := q.isFileValid(captured);
    if rejectionReason == RejectionReasons.None then FileDropped(AcceptedFile(fileData))
    else FileRejected(RejectedFile(fileData, rejectionReason))
  }

  /**
   `dragover`: when idle, capture the event's transfer and announce the
   hover; an event with no transfer (`null`) is ignored without suppression.
   When already hovering, only suppress.
   */
  function OnDragOver(fs: FileState, event: DragEvent): (r: Step)
    ensures r.after.config == fs.config
    ensures r.out == Announce(ClientNotices(r.out))
    // already hovering: no re-capture, no second HoverStart
    ensures fs.Hovering() ==> r.after == fs && r.out == [] && r.suppressed && !r.fault
    // idle, transfer obtained: capture it and announce the hover once
    ensures fs.Idle() && GetDataTransferObject(event).Value? && GetDataTransferObject(event).value != Null ==>
              r.after.currentFile == GetDataTransferObject(event).value && r.after.Hovering()
              && ClientNotices(r.out) == [HoverStart] && r.suppressed && !r.fault
    // idle, no transfer: ignored, and the early return skips suppression
    ensures fs.Idle() && GetDataTransferObject(event) == Value(Null) ==>
              r.after == fs && r.out == [] && !r.suppressed && !r.fault
    // idle, reading the wrapped event throws before anything changes
    ensures fs.Idle() && GetDataTransferObject(event).TypeError? ==>
              r.after == fs && r.out == [] && !r.suppressed && r.fault
    // HoverStart is emitted exactly on the idle-to-hovering transition
    ensures ClientNotices(r.out) == (if fs.Idle() && r.after.Hovering() then [HoverStart] else [])
  {
    if fs.currentFile == Null then
      match GetDataTransferObject(event)
      case TypeError => Step(fs, [], false, true)
      case Value(transfer) =>
        var captured := fs.(currentFile := transfer);
        if transfer == Null then Step(captured, [], false, false)
        else
          ClientNoticesOfAnnounce([HoverStart]);
          PreventAndStopEventPropagation(Step(captured, Announce([HoverStart]), false, false))
    else
      PreventAndStopEventPropagation(Step(fs, [], false, false))
  }

  /**
   `dragleave`: when hovering, forget the transfer; a leave reported from the
   directive's own element then returns silently without suppression,
   any other leave announces the end of the hover. When idle, only suppress.
   */
  function OnDragLeave(fs: FileState, event: DragEvent): (r: Step)
    ensures r.after.Idle() && r.after.config == fs.config && !r.fault
    ensures r.out == Announce(ClientNotices(r.out))
    ensures fs.Idle() ==> r.after == fs && r.out == [] && r.suppressed
    ensures fs.Hovering() && event.currentTargetIsElement ==> r.out == [] && !r.suppressed
    ensures fs.Hovering() && !event.currentTargetIsElement ==> ClientNotices(r.out) == [HoverEnd] && r.suppressed
  {
    if fs.currentFile != Null then
      var released := fs.(currentFile := Null);
      if event.currentTargetIsElement then Step(released, [], false, false)
      else
        ClientNoticesOfAnnounce([HoverEnd]);
        PreventAndStopEventPropagation(Step(released, Announce([HoverEnd]), false, false))
    else
      PreventAndStopEventPropagation(Step(fs, [], false, false))
  }

  /**
   `drop`: when hovering, announce the end of the hover, re-capture the
   transfer from the drop event, ask the file service for the file and its
   verdict, announce the verdict and forget the transfer. When idle, only
   suppress.
   */
  function OnDrop(q: Queries, fs: FileState, event: DragEvent): (r: Step)
    ensures r.after.config == fs.config
    ensures r.out == Announce(ClientNotices(r.out))
    ensures fs.Idle() ==> r.after == fs && r.out == [] && r.suppressed && !r.fault
    // hovering: HoverEnd first, then exactly one verdict on the re-captured transfer
    ensures fs.Hovering() && GetDataTransferObject(event).Value? ==>
              r.after.Idle() && r.suppressed && !r.fault
              && ClientNotices(r.out) == [HoverEnd, Verdict(q, fs.(currentFile := GetDataTransferObject(event).value))]
    // hovering, re-capture throws: HoverEnd is already out, the slot is not reset
    ensures fs.Hovering() && GetDataTransferObject(event).TypeError? ==>
              r.after == fs && ClientNotices(r.out) == [HoverEnd] && !r.suppressed && r.fault
  {
    if fs.currentFile != Null then
      var ended := Announce([HoverEnd]);
      ClientNoticesOfAnnounce([HoverEnd]);
      match GetDataTransferObject(event)
      case TypeError => Step(fs, ended, false, true)
      case Value(transfer) =>
        var captured := fs.(currentFile := transfer);
        var verdict := Verdict(q, captured);
        AnnounceAppend([HoverEnd], [verdict]);
        ClientNoticesOfAnnounce([HoverEnd, verdict]);
        PreventAndStopEventPropagation(Step(captured.(currentFile := Null), Announce([HoverEnd, verdict]), false, false))
    else
      PreventAndStopEventPropagation(Step(fs, [], false, false))
  }

  /** Dispatches a host event to its handler. */
  function Handle(q: Queries, fs: FileState, s: Signal): (r: Step)
    ensures r.after.config == fs.config
    ensures Mirrored(r.out)
    // HoverStart only on an idle-to-hovering transition, and always on one
    ensures HoverStart in ClientNotices(r.out) <==> fs.Idle() && r.after.Hovering()
    // HoverEnd only while hovering; without a fault it ends the hover
    ensures HoverEnd in ClientNotices(r.out) ==> fs.Hovering()
    ensures HoverEnd in ClientNotices(r.out) && !r.fault ==> r.after.Idle()
    // a fault leaves the slot as it was
    ensures r.fault ==> r.after == fs
  {
    match s
    case DragOver(event) => OnDragOver(fs, event)
    case DragLeave(event) => OnDragLeave(fs, event)
    case Drop(event) => OnDrop(q, fs, event)
  }

  /** The result of a drop does not depend on the transfer captured at dragover. */
  lemma DropIgnoresEarlierCapture(q: Queries, fs1: FileState, fs2: FileState, event: DragEvent)
    requires fs1.Hovering() && fs2.Hovering() && fs1.config == fs2.config
    requires GetDataTransferObject(event).Value?
    ensures OnDrop(q, fs1, event) == OnDrop(q, fs2, event)
  {
  }
}
