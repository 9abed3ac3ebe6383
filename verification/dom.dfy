/**
 The browser-side values the directive reads: the transfer object carried by a
 drag event, the dropped file handle, and the drag event itself in the two
 shapes the directive accepts (a native event, or a wrapper whose
 `originalEvent` holds the native one).
 */
module Dom {
  import opened Values

  /** Opaque handle to a browser `DataTransfer` object. */
  datatype Transfer = Transfer(id: nat)

  /** Opaque handle to a browser `File` object. */
  datatype FileRef = FileRef(id: nat)

  /**
   A JavaScript slot that should hold a `DataTransfer`: it may hold `null`,
   `undefined`, or an object. The directive distinguishes `null` from
   `undefined` (it compares with `===`), so the model does too.
   */
  datatype TransferValue = Null | Undefined | Obj(transfer: Transfer) {

    /** JavaScript truthiness: only an object is truthy. */
    predicate Truthy() {
      Obj?
    }
  }

  /** The wrapped native event reachable as `event.originalEvent`. */
  datatype WrappedEvent = WrappedEvent(dataTransfer: TransferValue)

  /**
   A drag event as the handlers see it. `currentTargetIsElement` is the
   outcome of the environment-dependent identity test between the event's
   current target and the directive's own element.
   */
  datatype DragEvent = DragEvent(
    dataTransfer: TransferValue,
    originalEvent: Option<WrappedEvent>,
    currentTargetIsElement: bool)
}
