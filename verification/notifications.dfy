/**
 What the directive sends out: notices to its client through the four
 output emitters, and the matching calls on the drop-zone style sink.
 */
module Notifications {
  import opened Dom
  import opened FileStates

  datatype AcceptedFile = AcceptedFile(file: FileRef)

  datatype RejectedFile = RejectedFile(file: FileRef, rejectionReason: RejectionReasons)

  /** A notice on one of the client-facing emitters. */
  datatype Notice =
    | HoverStart
    | HoverEnd
    | FileDropped(accepted: AcceptedFile)
    | FileRejected(rejected: RejectedFile)
  {
    /** The verdict of a drop, accepted or rejected. */
    predicate IsOutcome() {
      FileDropped? || FileRejected?
    }
  }

  /** A call on the drop-zone style sink; these carry no payload. */
  datatype StyleCall = OnHoverStart | OnHoverEnd | OnFileAccepted | OnFileRejected

  /** One outbound effect, in the order the directive performs them. */
  datatype Output = Client(notice: Notice) | Style(call: StyleCall)

  /** The style-sink call that accompanies each client notice. */
  function StyleOf(n: Notice): (call: StyleCall) {
    match n
    case HoverStart => OnHoverStart
    case HoverEnd => OnHoverEnd
    case FileDropped(_) => OnFileAccepted
    case FileRejected(_) => OnFileRejected
  }

  /** Each notice emitted to the client and then mirrored to the style sink. */
  function Announce(ns: seq<Notice>): (out: seq<Output>)
    ensures |out| == 2 * |ns|
  {
    if ns == [] then [] else [Client(ns[0]), Style(StyleOf(ns[0]))] + Announce(ns[1..])
  }

  /** The notices the client saw, in order. */
  function ClientNotices(out: seq<Output>): (ns: seq<Notice>) {
    if out == [] then []
    else if out[0].Client? then [out[0].notice] + ClientNotices(out[1..])
    else ClientNotices(out[1..])
  }

  /** The calls the style sink saw, in order. */
  function StyleCalls(out: seq<Output>): (calls: seq<StyleCall>) {
    if out == [] then []
    else if out[0].Style? then [out[0].call] + StyleCalls(out[1..])
    else StyleCalls(out[1..])
  }

  /** Every client notice is immediately followed by its style call, and nothing else is emitted. */
  predicate Mirrored(out: seq<Output>) {
    out == Announce(ClientNotices(out))
  }

  /** How many times notice `n` occurs. */
  function Count(ns: seq<Notice>, n: Notice): (k: nat) {
    if ns == [] then 0
    else (if ns[0] == n then 1 else 0) + Count(ns[1..], n)
  }

  lemma {:induction false} AnnounceAppend(a: seq<Notice>, b: seq<Notice>)
    ensures Announce(a + b) == Announce(a) + Announce(b)
  {
    if a == [] {
      assert a + b == b;
    } else {
      assert (a + b)[1..] == a[1..] + b;
      AnnounceAppend(a[1..], b);
    }
  }

  lemma {:induction false} ClientNoticesAppend(a: seq<Output>, b: seq<Output>)
    ensures ClientNotices(a + b) == ClientNotices(a) + ClientNotices(b)
  {
    if a == [] {
      assert a + b == b;
    } else {
      assert (a + b)[1..] == a[1..] + b;
      ClientNoticesAppend(a[1..], b);
    }
  }

  /** The style-sink calls matching a sequence of notices, in order. */
  function StylesOf(ns: seq<Notice>): (calls: seq<StyleCall>)
    ensures |calls| == |ns|
  {
    if ns == [] then [] else [StyleOf(ns[0])] + StylesOf(ns[1..])
  }

  /** The client receives exactly the announced notices, in order. */
  lemma {:induction false} ClientNoticesOfAnnounce(ns: seq<Notice>)
    ensures ClientNotices(Announce(ns)) == ns
  {
    if ns != [] {
      ClientNoticesOfAnnounce(ns[1..]);
      var rest := Announce(ns[1..]);
      assert Announce(ns) == [Client(ns[0])] + ([Style(StyleOf(ns[0]))] + rest);
      assert ([Style(StyleOf(ns[0]))] + rest)[1..] == rest;
      assert ns == [ns[0]] + ns[1..];
    }
  }

  /** The style sink receives the call matching each announced notice, in the same order. */
  lemma {:induction false} StyleCallsOfAnnounce(ns: seq<Notice>)
    ensures StyleCalls(Announce(ns)) == StylesOf(ns)
  {
    if ns != [] {
      StyleCallsOfAnnounce(ns[1..]);
      var rest := Announce(ns[1..]);
      assert Announce(ns) == [Client(ns[0])] + ([Style(StyleOf(ns[0]))] + rest);
      assert ([Style(StyleOf(ns[0]))] + rest)[1..] == rest;
    }
  }

  /** Mirrored output is closed under concatenation. */
  lemma MirroredAppend(a: seq<Output>, b: seq<Output>)
    requires Mirrored(a) && Mirrored(b)
    ensures Mirrored(a + b)
  {
    ClientNoticesAppend(a, b);
    AnnounceAppend(ClientNotices(a), ClientNotices(b));
  }
}
