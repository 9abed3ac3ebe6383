/**
 Runs of the directive over sequences of host events, and the protocol the
 client sees: hovers open with HoverStart and close with HoverEnd, never
 nested, and a drop verdict comes only straight after the HoverEnd of its
 drop.
 */
module DragTrace {
  import Values
  import opened Dom
  import opened FileStates
  import opened Notifications
  import opened FileDrop

  /**
   The outcome of handling a sequence of events. `clean`: no handler threw.
   `announced`: every hover that a leave ended was ended with a HoverEnd,
   i.e. no leave took the silent early return for the directive's own element.
   */
  datatype Trace = Trace(after: FileState, out: seq<Output>, clean: bool, announced: bool)

  /** A leave that ends a hover without announcing it. */
  predicate SilentLeave(fs: FileState, s: Signal) {
    fs.Hovering() && s.DragLeave? && s.event.currentTargetIsElement
  }

  /** Handles the events one after another; a handler that throws does not stop later events. */
  function Run(q: Queries, fs: FileState, signals: seq<Signal>): (t: Trace)
    ensures t.after.config == fs.config
    ensures Mirrored(t.out)
    ensures signals == [] ==> t == Trace(fs, [], true, true)
    decreases |signals|
  {
    if signals == [] then Trace(fs, [], true, true)
    else
      var r := Handle(q, fs, signals[0]);
      var rest := Run(q, r.after, signals[1..]);
      MirroredAppend(r.out, rest.out);
      Trace(rest.after, r.out + rest.out, !r.fault && rest.clean, !SilentLeave(fs, signals[0]) && rest.announced)
  }

  /** Running one event and then the rest. */
  lemma RunCons(q: Queries, fs: FileState, s: Signal, rest: seq<Signal>)
    ensures var r := Handle(q, fs, s);
            var t := Run(q, r.after, rest);
            Run(q, fs, [s] + rest) == Trace(t.after, r.out + t.out, !r.fault && t.clean, !SilentLeave(fs, s) && t.announced)
  {
  }

  /** Running two events. */
  lemma RunTwo(q: Queries, fs: FileState, a: Signal, b: Signal)
    ensures var r1 := Handle(q, fs, a);
            var r2 := Handle(q, r1.after, b);
            Run(q, fs, [a, b]) == Trace(r2.after, r1.out + r2.out, !r1.fault && !r2.fault,
                                        !SilentLeave(fs, a) && !SilentLeave(r1.after, b))
  {
  }

  /** Running three events. */
  lemma RunThree(q: Queries, fs: FileState, a: Signal, b: Signal, c: Signal)
    ensures var r1 := Handle(q, fs, a);
            var r2 := Handle(q, r1.after, b);
            var r3 := Handle(q, r2.after, c);
            Run(q, fs, [a, b, c]) == Trace(r3.after, r1.out + (r2.out + r3.out), !r1.fault && !r2.fault && !r3.fault,
                                           !SilentLeave(fs, a) && !SilentLeave(r1.after, b) && !SilentLeave(r2.after, c))
  {
    RunTwo(q, Handle(q, fs, a).after, b, c);
    RunCons(q, fs, a, [b, c]);
    assert [a] + [b, c] == [a, b, c];
  }

  // ---------------------------------------------------------------------
  // The hover protocol as an automaton over client notices

  /**
   Closed: no hover open. Open: a HoverStart is unmatched. JustEnded: the
   last notice was a HoverEnd, so a verdict may follow. Broken: absorbing
   error state.
   */
  datatype Bracket = Closed | Open | JustEnded | Broken

  /**
   One notice. In the `lenient` protocol a HoverStart may also follow an
   unmatched HoverStart, because a hover can end without being announced.
   */
  function Accept(b: Bracket, n: Notice, lenient: bool): (b': Bracket) {
    match n
    case HoverStart => if b == Closed || b == JustEnded || (lenient && b == Open) then Open else Broken
    case HoverEnd => if b == Open then JustEnded else Broken
    case _ => if b == JustEnded then Closed else Broken
  }

  function Scan(ns: seq<Notice>, b: Bracket, lenient: bool): (b': Bracket)
    decreases |ns|
  {
    if ns == [] then b else Scan(ns[1..], Accept(b, ns[0], lenient), lenient)
  }

  /** The notices obey the hover protocol when started from a closed bracket. */
  predicate WellNested(ns: seq<Notice>, lenient: bool) {
    Scan(ns, Closed, lenient) != Broken
  }

  /**
   The bracket tracks the directive's slot: open while hovering, and in the
   strict protocol open only while hovering.
   */
  predicate Agrees(b: Bracket, fs: FileState, lenient: bool) {
    b != Broken && (fs.Hovering() ==> b == Open) && (!lenient ==> (b == Open ==> fs.Hovering()))
  }

  lemma {:induction false} ScanBroken(ns: seq<Notice>, lenient: bool)
    ensures Scan(ns, Broken, lenient) == Broken
    decreases |ns|
  {
    if ns != [] {
      ScanBroken(ns[1..], lenient);
    }
  }

  lemma {:induction false} ScanAppend(a: seq<Notice>, c: seq<Notice>, b: Bracket, lenient: bool)
    ensures Scan(a + c, b, lenient) == Scan(c, Scan(a, b, lenient), lenient)
    decreases |a|
  {
    if a == [] {
      assert a + c == c;
    } else {
      assert (a + c)[0] == a[0];
      assert (a + c)[1..] == a[1..] + c;
      ScanAppend(a[1..], c, Accept(b, a[0], lenient), lenient);
    }
  }

  /** A prefix of a protocol-respecting sequence respects the protocol. */
  lemma ScanPrefix(ns: seq<Notice>, k: nat, b: Bracket, lenient: bool)
    requires k <= |ns| && Scan(ns, b, lenient) != Broken
    ensures Scan(ns[..k], b, lenient) != Broken
  {
    assert ns == ns[..k] + ns[k..];
    ScanAppend(ns[..k], ns[k..], b, lenient);
    if Scan(ns[..k], b, lenient) == Broken {
      ScanBroken(ns[k..], lenient);
    }
  }

  /**
   One handler invocation that does not throw keeps the client's notices in
   the lenient protocol, and in the strict one unless it is a silent leave.
   */
  lemma StepNesting(q: Queries, fs: FileState, s: Signal, b: Bracket, lenient: bool)
    requires Agrees(b, fs, lenient) && !Handle(q, fs, s).fault
    requires !lenient ==> !SilentLeave(fs, s)
    ensures Agrees(Scan(ClientNotices(Handle(q, fs, s).out), b, lenient), Handle(q, fs, s).after, lenient)
  {
    var r := Handle(q, fs, s);
    match s
    case DragOver(event) =>
      if fs.Idle() && r.after.Hovering() {
        assert ClientNotices(r.out) == [HoverStart];
      }
    case DragLeave(event) =>
    case Drop(event) =>
      if fs.Hovering() {
        var v := Verdict(q, fs.(currentFile := GetDataTransferObject(event).value));
        assert ClientNotices(r.out) == [HoverEnd, v];
        assert [HoverEnd, v][1..] == [v] && [v][1..] == [];
        assert Scan([v], JustEnded, lenient) == Closed;
        assert r.after.Idle();
      }
  }

  /** Invariant of every run in which no handler throws: the bracket keeps agreeing with the slot. */
  lemma {:induction false} RunNesting(q: Queries, fs: FileState, signals: seq<Signal>, b: Bracket, lenient: bool)
    requires Agrees(b, fs, lenient) && Run(q, fs, signals).clean
    requires !lenient ==> Run(q, fs, signals).announced
    ensures Agrees(Scan(ClientNotices(Run(q, fs, signals).out), b, lenient), Run(q, fs, signals).after, lenient)
    decreases |signals|
  {
    if signals != [] {
      var r := Handle(q, fs, signals[0]);
      var rest := Run(q, r.after, signals[1..]);
      StepNesting(q, fs, signals[0], b, lenient);
      var b' := Scan(ClientNotices(r.out), b, lenient);
      RunNesting(q, r.after, signals[1..], b', lenient);
      ClientNoticesAppend(r.out, rest.out);
      ScanAppend(ClientNotices(r.out), ClientNotices(rest.out), b, lenient);
    }
  }

  // ---------------------------------------------------------------------
  // What the protocol means in elementary terms

  function Opened(b: Bracket): (k: int) {
    if b == Open then 1 else 0
  }

  /** In the strict protocol, HoverStarts minus HoverEnds is exactly the change in openness. */
  lemma {:induction false} ScanBalance(ns: seq<Notice>, b: Bracket)
    requires b != Broken && Scan(ns, b, false) != Broken
    ensures Count(ns, HoverStart) - Count(ns, HoverEnd) == Opened(Scan(ns, b, false)) - Opened(b)
    decreases |ns|
  {
    if ns != [] {
      if Accept(b, ns[0], false) == Broken {
        ScanBroken(ns[1..], false);
      }
      ScanBalance(ns[1..], Accept(b, ns[0], false));
    }
  }

  /** In the lenient protocol, HoverStarts minus HoverEnds is at least the change in openness. */
  lemma {:induction false} ScanLenientBalance(ns: seq<Notice>, b: Bracket)
    requires b != Broken && Scan(ns, b, true) != Broken
    ensures Count(ns, HoverStart) - Count(ns, HoverEnd) >= Opened(Scan(ns, b, true)) - Opened(b)
    decreases |ns|
  {
    if ns != [] {
      if Accept(b, ns[0], true) == Broken {
        ScanBroken(ns[1..], true);
      }
      ScanLenientBalance(ns[1..], Accept(b, ns[0], true));
    }
  }

  /** Every verdict in the sequence comes straight after a HoverEnd. */
  predicate VerdictsFollowEnds(ns: seq<Notice>) {
    forall i :: 0 <= i < |ns| && ns[i].IsOutcome() ==> 0 < i && ns[i - 1] == HoverEnd
  }

  lemma VerdictsFollowEndsAppend(a: seq<Notice>, c: seq<Notice>)
    requires VerdictsFollowEnds(a) && VerdictsFollowEnds(c)
    ensures VerdictsFollowEnds(a + c)
  {
  }

  /**
   The client notices of one handler invocation, whatever the state and
   whether or not it throws: nothing, a HoverStart, a HoverEnd, or a HoverEnd
   followed by a verdict.
   */
  lemma StepShape(q: Queries, fs: FileState, s: Signal)
    ensures var ns := ClientNotices(Handle(q, fs, s).out);
            ns == [] || ns == [HoverStart] || ns == [HoverEnd]
            || (|ns| == 2 && ns[0] == HoverEnd && ns[1].IsOutcome())
    ensures VerdictsFollowEnds(ClientNotices(Handle(q, fs, s).out))
  {
  }

  /** Over any sequence of events from any state, every verdict comes straight after a HoverEnd. */
  lemma {:induction false} VerdictFollowsHoverEnd(q: Queries, fs: FileState, signals: seq<Signal>)
    ensures VerdictsFollowEnds(ClientNotices(Run(q, fs, signals).out))
    decreases |signals|
  {
    if signals != [] {
      var r := Handle(q, fs, signals[0]);
      var rest := Run(q, r.after, signals[1..]);
      StepShape(q, fs, signals[0]);
      VerdictFollowsHoverEnd(q, r.after, signals[1..]);
      ClientNoticesAppend(r.out, rest.out);
      VerdictsFollowEndsAppend(ClientNotices(r.out), ClientNotices(rest.out));
    }
  }

  /**
   From idle, in any run in which no handler throws: the client's notices
   follow the lenient protocol; in every prefix the HoverEnds never
   outnumber the HoverStarts; and every verdict comes straight after a
   HoverEnd.
   */
  lemma CleanRunProtocol(q: Queries, fs: FileState, signals: seq<Signal>)
    requires fs.Idle() && Run(q, fs, signals).clean
    ensures WellNested(ClientNotices(Run(q, fs, signals).out), true)
    ensures var ns := ClientNotices(Run(q, fs, signals).out);
            forall k :: 0 <= k <= |ns| ==> Count(ns[..k], HoverEnd) <= Count(ns[..k], HoverStart)
    ensures var ns := ClientNotices(Run(q, fs, signals).out);
            forall i :: 0 <= i < |ns| && ns[i].IsOutcome() ==> 0 < i && ns[i - 1] == HoverEnd
  {
    var ns := ClientNotices(Run(q, fs, signals).out);
    RunNesting(q, fs, signals, Closed, true);
    VerdictFollowsHoverEnd(q, fs, signals);
    forall k | 0 <= k <= |ns|
      ensures Count(ns[..k], HoverEnd) <= Count(ns[..k], HoverStart)
    {
      ScanPrefix(ns, k, Closed, true);
      ScanLenientBalance(ns[..k], Closed);
    }
  }

  /**
   From idle, in any run in which no handler throws and no leave is silent:
   the client's notices follow the strict protocol; in every prefix the
   HoverStarts lead the HoverEnds by zero or one; and the lead at the end is
   one exactly when the directive is still hovering.
   */
  lemma AnnouncedRunProtocol(q: Queries, fs: FileState, signals: seq<Signal>)
    requires fs.Idle() && Run(q, fs, signals).clean && Run(q, fs, signals).announced
    ensures WellNested(ClientNotices(Run(q, fs, signals).out), false)
    ensures var ns := ClientNotices(Run(q, fs, signals).out);
            forall k :: 0 <= k <= |ns| ==>
              Count(ns[..k], HoverEnd) <= Count(ns[..k], HoverStart) <= Count(ns[..k], HoverEnd) + 1
    ensures var ns := ClientNotices(Run(q, fs, signals).out);
            Count(ns, HoverStart) - Count(ns, HoverEnd) == if Run(q, fs, signals).after.Hovering() then 1 else 0
  {
    var ns := ClientNotices(Run(q, fs, signals).out);
    RunNesting(q, fs, signals, Closed, false);
    ScanBalance(ns, Closed);
    forall k | 0 <= k <= |ns|
      ensures Count(ns[..k], HoverEnd) <= Count(ns[..k], HoverStart) <= Count(ns[..k], HoverEnd) + 1
    {
      ScanPrefix(ns, k, Closed, false);
      ScanBalance(ns[..k], Closed);
    }
  }

  // ---------------------------------------------------------------------
  // Idle absorbs leaves and drops

  predicate LeaveOrDrop(s: Signal) {
    s.DragLeave? || s.Drop?
  }

  /** While idle, leaves and drops change nothing and emit nothing, and each is suppressed. */
  lemma {:induction false} IdleIgnoresLeaveAndDrop(q: Queries, fs: FileState, signals: seq<Signal>)
    requires fs.Idle()
    requires forall i :: 0 <= i < |signals| ==> LeaveOrDrop(signals[i])
    ensures Run(q, fs, signals) == Trace(fs, [], true, true)
    ensures forall i :: 0 <= i < |signals| ==> Handle(q, fs, signals[i]).suppressed
    decreases |signals|
  {
    if signals != [] {
      assert LeaveOrDrop(signals[0]);
      IdleIgnoresLeaveAndDrop(q, fs, signals[1..]);
      forall i | 0 <= i < |signals|
        ensures Handle(q, fs, signals[i]).suppressed
      {
        assert LeaveOrDrop(signals[i]);
      }
    }
  }

  // ---------------------------------------------------------------------
  // Scenarios

  const transfer := Transfer(1)

  /** A native event carrying a transfer, left from a child of the element. */
  const carrying := DragEvent(Obj(transfer), Values.None, false)

  /** A native event carrying a different transfer. */
  const carryingOther := DragEvent(Obj(Transfer(2)), Values.None, false)

  /** A leave reported with the directive's own element as current target. */
  const leavingSelf := DragEvent(Obj(transfer), Values.None, true)

  /** An event with no transfer and no wrapped event to fall back to. */
  const bare := DragEvent(Null, Values.None, false)

  /** Entering, leaving, then dropping with no second entry: one HoverStart, one HoverEnd, no verdict. */
  lemma EnterLeaveDropScenario(q: Queries, config: Config)
    ensures var t := Run(q, FileState(config, Null), [DragOver(carrying), DragLeave(carrying), Drop(carrying)]);
            ClientNotices(t.out) == [HoverStart, HoverEnd]
            && StyleCalls(t.out) == [OnHoverStart, OnHoverEnd]
            && t.after.Idle() && t.clean
  {
    var fs := FileState(config, Null);
    RunThree(q, fs, DragOver(carrying), DragLeave(carrying), Drop(carrying));
    var r1 := OnDragOver(fs, carrying);
    var r2 := OnDragLeave(r1.after, carrying);
    var r3 := OnDrop(q, r2.after, carrying);
    assert r1.out == Announce([HoverStart]) && r2.out == Announce([HoverEnd]);
    assert r3 == Step(fs, [], true, false);
    assert r1.out + (r2.out + r3.out) == r1.out + r2.out;
    AnnounceAppend([HoverStart], [HoverEnd]);
    assert [HoverStart] + [HoverEnd] == [HoverStart, HoverEnd];
    ClientNoticesOfAnnounce([HoverStart, HoverEnd]);
    StyleCallsOfAnnounce([HoverStart, HoverEnd]);
  }

  /**
   A second dragover while hovering, carrying a different transfer, neither
   announces the hover again nor replaces the transfer captured first.
   */
  lemma RepeatedDragOverScenario(q: Queries, config: Config)
    ensures var t := Run(q, FileState(config, Null), [DragOver(carrying), DragOver(carryingOther)]);
            ClientNotices(t.out) == [HoverStart] && t.after.currentFile == Obj(transfer)
  {
  }

  /**
   A leave reported from the directive's own element ends the hover without
   a HoverEnd, so the next dragover announces a second HoverStart: the strict
   protocol holds only for runs without such a leave.
   */
  lemma SilentLeaveRepeatsHoverStart(q: Queries, config: Config)
    ensures var t := Run(q, FileState(config, Null), [DragOver(carrying), DragLeave(leavingSelf), DragOver(carrying)]);
            t.clean && !t.announced && ClientNotices(t.out) == [HoverStart, HoverStart]
            && !WellNested(ClientNotices(t.out), false) && WellNested(ClientNotices(t.out), true)
  {
    var fs := FileState(config, Null);
    RunThree(q, fs, DragOver(carrying), DragLeave(leavingSelf), DragOver(carrying));
    SilentLeaveSteps(q, config);
    var r1 := Handle(q, fs, DragOver(carrying));
    assert r1.out + ([] + r1.out) == r1.out + r1.out;
    ClientNoticesAppend(r1.out, r1.out);
    assert [HoverStart] + [HoverStart] == [HoverStart, HoverStart];
    TwoStartsNesting();
  }

  /** The two steps before the second dragover: a hover starts, then ends silently back at the initial state. */
  lemma SilentLeaveSteps(q: Queries, config: Config)
    ensures var fs := FileState(config, Null);
            var r1 := Handle(q, fs, DragOver(carrying));
            var r2 := Handle(q, r1.after, DragLeave(leavingSelf));
            !r1.fault && ClientNotices(r1.out) == [HoverStart] && !SilentLeave(fs, DragOver(carrying))
            && SilentLeave(r1.after, DragLeave(leavingSelf)) && r2 == Step(fs, [], false, false)
  {
  }

  /** Two HoverStarts in a row break the strict protocol but not the lenient one. */
  lemma TwoStartsNesting()
    ensures !WellNested([HoverStart, HoverStart], false) && WellNested([HoverStart, HoverStart], true)
  {
  }

  /**
   A wrapped event whose inner `dataTransfer` is `undefined` slips past the
   directive's `=== null` test: the hover is announced and the slot holds
   `undefined`, which every handler then treats as hovering.
   */
  lemma UndefinedTransferStartsHover(config: Config)
    ensures var r := OnDragOver(FileState(config, Null), DragEvent(Null, Values.Some(WrappedEvent(Undefined)), false));
            r.after.currentFile == Undefined && r.after.Hovering()
            && ClientNotices(r.out) == [HoverStart] && r.suppressed
  {
  }

  /**
   A drop whose re-capture throws has already announced HoverEnd but leaves
   the slot set, so a later leave announces HoverEnd a second time: the
   protocols hold only for runs in which no handler throws.
   */
  lemma ThrowingDropRepeatsHoverEnd(q: Queries, config: Config)
    ensures var t := Run(q, FileState(config, Null), [DragOver(carrying), Drop(bare), DragLeave(carrying)]);
            !t.clean && ClientNotices(t.out) == [HoverStart, HoverEnd, HoverEnd]
            && !WellNested(ClientNotices(t.out), true) && t.after.Idle()
  {
    var fs := FileState(config, Null);
    RunThree(q, fs, DragOver(carrying), Drop(bare), DragLeave(carrying));
    var r1 := OnDragOver(fs, carrying);
    var r2 := OnDrop(q, r1.after, bare);
    var r3 := OnDragLeave(r2.after, carrying);
    assert r2.after == r1.after && r2.fault && ClientNotices(r2.out) == [HoverEnd];
    assert ClientNotices(r1.out) == [HoverStart] && ClientNotices(r3.out) == [HoverEnd];
    ClientNoticesAppend(r2.out, r3.out);
    ClientNoticesAppend(r1.out, r2.out + r3.out);
    assert [HoverStart] + ([HoverEnd] + [HoverEnd]) == [HoverStart, HoverEnd, HoverEnd];
    EndAfterEndBreaks();
  }

  /** A HoverEnd straight after a HoverEnd breaks even the lenient protocol. */
  lemma EndAfterEndBreaks()
    ensures !WellNested([HoverStart, HoverEnd, HoverEnd], true)
  {
  }
}
