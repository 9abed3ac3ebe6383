# ng2-file-drop: the drag/drop state machine of `FileDropDirective`

This project models in Dafny the core of the `ng2FileDrop` Angular directive.
The core is the state machine that tracks a file being dragged over an
element and reports the drop. The directive's only state is its file
service's `currentFile` slot. The slot holds either `null` (idle) or the
drag's transfer object (hovering). Three host-event handlers drive it:
`onDragOver`, `onDragLeave` and `onDrop`.

Each handler is a pure function here. It takes the file state and a drag
event. It returns a `Step` with four parts:

- the new file state;
- the outbound effects in order: client notices (HoverStart, HoverEnd,
  FileDropped, FileRejected), each followed by the matching call on the
  drop-zone style sink;
- whether `preventDefault`/`stopPropagation` ran;
- whether the handler ended by throwing.

`DragTrace.Run` folds the handlers over a sequence of events. The trace
lemmas are stated over such runs.

Modules:

- `Values`: `Option`.
- `Dom`: transfer and file handles, the `null`/`undefined`/object slot, and
  the drag event in its direct and wrapped (`originalEvent`) shapes.
- `FileStates`: the configuration, the `currentFile` slot, and the file
  service's queries (`getFileData`, `isFileValid`). The queries are
  uninterpreted functions of the file state.
- `Notifications`: client notices, style-sink calls, and their mirroring.
- `FileDrop`: the three handlers, `getDataTransferObject` and
  `preventAndStopEventPropagation`.
- `DragTrace`: runs, the hover protocol as an automaton over client
  notices, and scenarios.

The model follows the code as written:

- The hover is started by `dragover`, which fires repeatedly; there is no
  `dragenter` handler.
- A `dragleave` while hovering whose current target is the directive's own
  element returns early. It clears the slot but emits nothing, and it does not
  suppress the event.
- The slot tests are strict (`=== null`, `!== null`). An `undefined`
  transfer therefore counts as hovering: it triggers HoverStart
  (`DragTrace.UndefinedTransferStartsHover`). A later drop takes the
  hovering branch: it emits HoverEnd and a verdict on the transfer
  re-captured from the drop event.
- At drop time the code does not check that a transfer or a file is present.
  It hands whatever it re-captured to `getFileData` and `isFileValid`, and
  the verdict comes from those.
- Reading `event.originalEvent.dataTransfer` when the direct `dataTransfer`
  is falsy and there is no wrapped event throws a `TypeError`. In `onDrop`
  this happens after HoverEnd is emitted and before the slot is reset. The
  directive then stays hovering, and a later leave emits a second HoverEnd
  (`DragTrace.ThrowingDropRepeatsHoverEnd`).
- Because of the silent self-leave, a later dragover can emit a second
  HoverStart without an intervening HoverEnd
  (`DragTrace.SilentLeaveRepeatsHoverStart`). The hover protocol is
  therefore proved in two strengths:
  - lenient: for every run from idle (as after `FileStates.Init`) in which
    no handler throws. HoverEnds never outnumber HoverStarts in any prefix.
  - strict: for every run from idle (as after `FileStates.Init`) in which,
    in addition, no leave is silent. HoverStarts and HoverEnds alternate,
    and the final balance is one exactly when the directive is still
    hovering.
- Separately, over every run, from any state and whether or not a handler
  throws, every verdict comes straight after a HoverEnd
  (`DragTrace.VerdictFollowsHoverEnd`).

## Model

| member | source | states |
|---|---|---|
| `FileDrop.GetDataTransferObject` | development/src/ng2-file-drop/directives/file-drop.directive.ts:149-151 | The event's own `dataTransfer` is used whenever it is truthy. When it is falsy and a wrapped event is present, the wrapped event's `dataTransfer` is used. A `TypeError` is raised exactly when the direct one is falsy and there is no wrapped event. |
| `FileDrop.ExtractionPreference` | development/src/ng2-file-drop/directives/file-drop.directive.ts:149-151 | The wrapped event is consulted only when the direct transfer is falsy. Events that agree on a truthy direct transfer extract the same value whatever their wrappers. Events whose direct transfers are both falsy extract the same value when their wrappers agree. |
| `FileDrop.PreventAndStopEventPropagation` | development/src/ng2-file-drop/directives/file-drop.directive.ts:141-144 | The event is marked suppressed and nothing else about the step changes. |
| `FileDrop.OnDragOver` | development/src/ng2-file-drop/directives/file-drop.directive.ts:56-75 | Hovering: nothing changes and the event is only suppressed. Idle with a transfer: the transfer is captured, HoverStart is emitted once to the client and mirrored to the style sink, and the event is suppressed. Idle with a `null` transfer: nothing changes and suppression is skipped. Idle with a throwing read: nothing changes and there is no suppression. HoverStart is emitted exactly on the idle-to-hovering transition. |
| `FileDrop.OnDragLeave` | development/src/ng2-file-drop/directives/file-drop.directive.ts:80-99 | The handler always ends idle and never throws. Idle: nothing is emitted and the event is suppressed. Hovering with a leave from the element itself: nothing is emitted and suppression is skipped. Any other hovering leave: HoverEnd is emitted and mirrored, and the event is suppressed. |
| `FileDrop.OnDrop` | development/src/ng2-file-drop/directives/file-drop.directive.ts:104-136 | Idle: nothing is emitted and the event is suppressed. Hovering: HoverEnd comes first, then exactly one verdict computed on the state holding the re-captured transfer. The handler ends idle and suppresses. If the re-capture throws, only HoverEnd is out, the slot is unchanged, and there is no suppression. |
| `FileDrop.Verdict` | development/src/ng2-file-drop/directives/file-drop.directive.ts:117-128 | The verdict is FileDropped exactly when `isFileValid` gives `None`. Otherwise it is FileRejected carrying that non-`None` reason. Both carry `getFileData`'s file. |
| `FileDrop.Handle` | development/src/ng2-file-drop/directives/file-drop.directive.ts:56-136 | For any event: the configuration is untouched and the output is mirrored. HoverStart occurs exactly on an idle-to-hovering transition. HoverEnd occurs only while hovering, and without a fault it ends the hover. A fault leaves the state as it was. |
| `FileDrop.DropIgnoresEarlierCapture` | development/src/ng2-file-drop/directives/file-drop.directive.ts:114-121 | When the re-capture does not throw, a drop's outcome does not depend on the transfer captured at dragover, only on the one re-captured from the drop event. |
| `FileStates.Init` | development/src/ng2-file-drop/directives/file-drop.directive.ts:46-51 | Initialisation stores both inputs and leaves the directive idle. |
| `Notifications.ClientNoticesOfAnnounce` | development/src/ng2-file-drop/directives/file-drop.directive.ts:68-70 | Every handler builds its output with `Announce`: each notice is emitted to the client and then mirrored to the style sink, as at lines 69-70, 93-94, 111-112 and 123-127. The client receives exactly the announced notices, in order. |
| `Notifications.StyleCallsOfAnnounce` | development/src/ng2-file-drop/directives/file-drop.directive.ts:108-128 | The style sink receives, in the same order, the call matching each notice sent to the client. |
| `DragTrace.Run` | development/src/ng2-file-drop/directives/file-drop.directive.ts:56-136 | Over any sequence of events, the configuration never changes and every client notice is mirrored to the style sink. |
| `DragTrace.StepNesting` | development/src/ng2-file-drop/directives/file-drop.directive.ts:56-136 | One handler call that does not throw keeps the protocol automaton agreeing with the slot: open while hovering, and, when strict, open only while hovering. |
| `DragTrace.RunNesting` | development/src/ng2-file-drop/directives/file-drop.directive.ts:56-136 | The same agreement holds across any run in which no handler throws. The strict form also requires that no leave is silent. |
| `DragTrace.StepShape` | development/src/ng2-file-drop/directives/file-drop.directive.ts:56-136 | Whatever the state, and whether or not it throws, one handler's client notices are nothing, a HoverStart, a HoverEnd, or a HoverEnd followed by one verdict. |
| `DragTrace.VerdictFollowsHoverEnd` | development/src/ng2-file-drop/directives/file-drop.directive.ts:108-128 | Over any sequence of events, from any state and with or without faults, every FileDropped/FileRejected comes immediately after a HoverEnd. |
| `DragTrace.CleanRunProtocol` | development/src/ng2-file-drop/directives/file-drop.directive.ts:56-136 | From idle, in any run in which no handler throws: the notices follow the lenient protocol, in every prefix HoverEnds never outnumber HoverStarts, and every FileDropped/FileRejected comes immediately after a HoverEnd. |
| `DragTrace.AnnouncedRunProtocol` | development/src/ng2-file-drop/directives/file-drop.directive.ts:56-136 | Add the condition that no leave is silent. Then in every prefix HoverStarts lead HoverEnds by zero or one, and the final lead is one exactly when the directive is still hovering. |
| `DragTrace.IdleIgnoresLeaveAndDrop` | development/src/ng2-file-drop/directives/file-drop.directive.ts:80-136 | While idle, any sequence of leaves and drops changes nothing and emits nothing, and each of them is suppressed. |
| `DragTrace.EnterLeaveDropScenario` | development/src/ng2-file-drop/directives/file-drop.directive.ts:56-136 | Dragover with a transfer, then leave, then drop: the client sees exactly HoverStart then HoverEnd, the style sink sees the two matching calls, and the run ends idle. |
| `DragTrace.RepeatedDragOverScenario` | development/src/ng2-file-drop/directives/file-drop.directive.ts:59-74 | A second dragover while hovering, carrying a different transfer, emits no second HoverStart, and the slot still holds the first transfer. |
| `DragTrace.SilentLeaveRepeatsHoverStart` | development/src/ng2-file-drop/directives/file-drop.directive.ts:84-90 | A leave from the element itself ends the hover silently, so the next dragover emits a second HoverStart. This breaks the strict protocol but not the lenient one. |
| `DragTrace.UndefinedTransferStartsHover` | development/src/ng2-file-drop/directives/file-drop.directive.ts:60-70 | A wrapped event whose inner `dataTransfer` is `undefined` passes the `=== null` test. HoverStart is emitted and the slot holds `undefined`, which counts as hovering. |
| `DragTrace.ThrowingDropRepeatsHoverEnd` | development/src/ng2-file-drop/directives/file-drop.directive.ts:108-116 | A drop whose re-capture throws emits HoverEnd but stays hovering. A later leave then emits HoverEnd again, which breaks even the lenient protocol. |

## Left out

- Angular plumbing is not modelled: the `@Directive`, `@HostListener`, `@Input` and `@Output` decorators and `EventEmitter`. An emission is an appended `Client` output; the event binding is the `Signal` datatype.
- `DropZoneStyle` and `Renderer` are not modelled as DOM changes. Each style-sink call is recorded as a `Style` output tag only. The construction of `DropZoneStyle` in `ngOnInit` is left out for the same reason.
- The file service's internals (`setExpectedFileProperties`, `isFileValid`, `getFileData`) are not part of this model. The two queries are the uninterpreted functions of `FileStates.Queries`, over the configuration and the current slot. They are total, so an exception raised inside them is not modelled. No extension or size rule is assumed.
- `FileStates.RejectionReasons`: the enumeration's source, `../properties/rejection-reasons`, is not shown. The model defines it with three assumed constructor names (`None`, `UnsupportedType`, `ExceedsMaxSize`). The directive only distinguishes `None` from the rest, so only that distinction matters.
- `FileStates.Init`: the file service's initial slot value is not part of this model. It is taken to be `null` (idle).
- The identity test `event.currentTarget === element[0]` at line 88 is not evaluated. It compares against index 0 of an `ElementRef`, so its outcome depends on the environment and on that object's shape. It is the free event field `currentTargetIsElement`.
- The browser effects of `preventDefault` and `stopPropagation` are not modelled. They are the boolean `suppressed` of a step.
- An exception is the `fault` flag of a step. The model covers only the `TypeError` from reading through an `originalEvent` that is missing or `null`. A run continues with the next event after a fault, as the browser's event loop does.
- `Config.maximumSizeBytes` is a JavaScript number, modelled as an unbounded integer. The configuration is only passed through to the file service.
