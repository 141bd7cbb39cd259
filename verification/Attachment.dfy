/** One consumer's attachment (src/observer.rs): what it records when it reads a published
    state, and the single decision every received delivery passes through. */
module Attachments {
  import opened Prelude
  import opened Book
  import opened Published

  datatype RecvError = StreamLost(reason: ContinuityReason, missed: nat) | Closed

  datatype OverrunVerdict = Harmless | Overtaken

  datatype Attachment = Attachment(
    resumeAfter: nat,
    boundary: Cursor,
    cursor: Cursor,
    continuous: bool,
    pending: Option<nat>,
    lost: Option<RecvError>,
    closed: bool)

  /** `attachment_cursor`. */
  function AttachmentCursor(p: PublishedBook): Cursor {
    match p.continuity
    case Intact(epoch, nextPosition) => Cursor(epoch, nextPosition)
    case Lost(epoch, _) => Cursor(epoch, 0)
  }

  /** The attachment a fresh read of `p` starts. */
  function AttachTo(p: PublishedBook): Attachment {
    Attachment(p.revision, AttachmentCursor(p), AttachmentCursor(p), true, None, None, false)
  }

  function SaturatingAdd(a: nat, b: nat): nat {
    if a + b > U64_MAX then U64_MAX else a + b
  }

  /** `overran`: consecutive overruns accumulate into one unresolved span. */
  function Overran(a: Attachment, missed: nat): Attachment {
    a.(pending := Some(SaturatingAdd(if a.pending.Some? then a.pending.value else 0, missed)))
  }

  /** `classify_overrun`. */
  function ClassifyOverrun(boundary: Cursor, resumed: Option<Cursor>): OverrunVerdict {
    if resumed.Some? && resumed.value.epoch == boundary.epoch && resumed.value.position <= boundary.position
    then Harmless else Overtaken
  }

  /** `redundant`: a mutation by its revision, a resolution by its position. */
  predicate Redundant(a: Attachment, d: Delivery) {
    match d
    case Mutated(revision, _, _) => revision <= a.resumeAfter
    case Resolved(_, cursor, _) => Precedes(cursor, a.boundary)
  }

  function Fail(a: Attachment, error: RecvError): Attachment {
    a.(lost := Some(error), continuous := false)
  }

  /** `resolve`: the attachment after judging its pending span, and the loss if any. */
  function ResolvePending(a: Attachment, resumed: Option<Cursor>): (Attachment, Option<RecvError>) {
    if a.pending.None? then (a, None)
    else
      var judged := a.(pending := None);
      match ClassifyOverrun(a.boundary, resumed)
      case Harmless => (judged, None)
      case Overtaken =>
        var error := StreamLost(Overrun, a.pending.value);
        (Fail(judged, error), Some(error))
  }

  datatype Answer = Passed | Admitted(delivery: Delivery) | Refused(error: RecvError)

  /** `admit`: redundant, fenced by an epoch change, or the consumer's next delivery. */
  function Receive(a: Attachment, d: Delivery): (Attachment, Answer) {
    if Redundant(a, d) then (a.(pending := None), Passed)
    else if d.cursor.epoch != a.boundary.epoch then
      var error := StreamLost(RecoveryBase, if a.pending.Some? then a.pending.value else 0);
      (Fail(a.(pending := None), error), Refused(error))
    else
      var (resolved, loss) := ResolvePending(a, Some(d.cursor));
      if loss.Some? then (resolved, Refused(loss.value))
      else (resolved.(cursor := d.cursor), Admitted(d))
  }

  /** `closed`: the writer is gone and the ring drained. */
  function Close(a: Attachment): (Attachment, RecvError) {
    var (resolved, loss) := ResolvePending(a, None);
    if loss.Some? then (resolved, loss.value) else (resolved.(closed := true), Closed)
  }

  /** An overrun is harmless exactly when the ring resumes in the boundary's epoch and
      everything of that epoch before where it resumes lies before the boundary. */
  lemma {:induction false} HarmlessMeansContained(boundary: Cursor, resumed: Option<Cursor>)
    ensures ClassifyOverrun(boundary, resumed) == Harmless <==>
      && resumed.Some? && resumed.value.epoch == boundary.epoch
      && forall c: Cursor :: c.epoch == boundary.epoch && Precedes(c, resumed.value) ==> Precedes(c, boundary)
  {
    if resumed.Some? && resumed.value.epoch == boundary.epoch && boundary.position < resumed.value.position {
      assert Precedes(boundary, resumed.value) && !Precedes(boundary, boundary);
    }
  }

  /** A stream that ends with a span unresolved is a loss of that many; one that ends with
      none is closed, and nothing else about the attachment changes. */
  lemma {:induction false} CloseIsExact(a: Attachment)
    ensures Close(a)
         == match a.pending
            case Some(missed) =>
              var loss := StreamLost(Overrun, missed);
              (a.(pending := None, lost := Some(loss), continuous := false), loss)
            case None => (a.(closed := true), Closed)
  {
    HarmlessMeansContained(a.boundary, None);
  }

  /** `reattach`, once the state has been read. */
  function Reattached(a: Attachment, p: PublishedBook): Attachment {
    AttachTo(p).(closed := a.closed)
  }

  datatype ConsumerState =
    | Detached
    | Rebased(cursor: Cursor)
    | Overrunning(cursor: Cursor)
    | Attached(cursor: Cursor, continuous: bool)

  /** `BookObserver::state`. */
  function ConsumerStateOf(a: Attachment): ConsumerState {
    if a.closed then Detached
    else if a.lost.Some? && a.lost.value.StreamLost? && a.lost.value.reason == RecoveryBase then Rebased(a.cursor)
    else if a.lost.Some? then Overrunning(a.cursor)
    else Attached(a.cursor, a.continuous)
  }

  // ---------------------------------------------------------------------------------
  // The receiving object
  // ---------------------------------------------------------------------------------

  /** What the ring answers one receive: the environment's side of the channel. */
  datatype RingAnswer = Delivered(delivery: Delivery) | Lagged(missed: nat) | NothingNew | WriterGone

  datatype Taken = Taken(attachment: Attachment, result: Result<Option<Delivery>, RecvError>, used: nat)

  /** What draining the answers comes to; an exhausted list means nothing new. */
  function Drain(a: Attachment, answers: seq<RingAnswer>): Taken
    decreases |answers|
  {
    if answers == [] then Taken(a, Success(None), 0)
    else
      match answers[0]
      case NothingNew => Taken(a, Success(None), 1)
      case WriterGone => Taken(Close(a).0, Failure(Close(a).1), 1)
      case Lagged(missed) =>
        var rest := Drain(Overran(a, missed), answers[1..]);
        rest.(used := rest.used + 1)
      case Delivered(d) =>
        match Receive(a, d).1
        case Admitted(_) => Taken(Receive(a, d).0, Success(Some(d)), 1)
        case Refused(error) => Taken(Receive(a, d).0, Failure(error), 1)
        case Passed =>
          var rest := Drain(Receive(a, d).0, answers[1..]);
          rest.(used := rest.used + 1)
  }

  class BookObserver {
    var resumeAfter: nat
    var boundary: Cursor
    var cursor: Cursor
    var continuous: bool
    var pending: Option<nat>
    var lost: Option<RecvError>
    var closed: bool

    ghost function State(): Attachment
      reads this
    {
      Attachment(resumeAfter, boundary, cursor, continuous, pending, lost, closed)
    }

    /** `BookWriter::attach`, given the state it read. */
    constructor (published: PublishedBook)
      ensures State() == AttachTo(published)
    {
      resumeAfter := published.revision;
      boundary := AttachmentCursor(published);
      cursor := AttachmentCursor(published);
      continuous := true;
      pending := None;
      lost := None;
      closed := false;
    }

    method Reattach(published: PublishedBook)
      modifies this
      ensures State() == Reattached(old(State()), published)
      ensures lost == None && pending == None && continuous
    {
      resumeAfter := published.revision;
      boundary := AttachmentCursor(published);
      cursor := boundary;
      continuous := true;
      pending := None;
      lost := None;
    }

    method FailWith(error: RecvError)
      modifies this`lost, this`continuous
      ensures State() == Fail(old(State()), error)
    {
      lost := Some(error);
      continuous := false;
    }

    method Resolve(resumed: Option<Cursor>) returns (loss: Option<RecvError>)
      modifies this`lost, this`continuous, this`pending
      ensures (State(), loss) == ResolvePending(old(State()), resumed)
    {
      if pending == None {
        return None;
      }
      var missed := pending.value;
      pending := None;
      if ClassifyOverrun(boundary, resumed) == Harmless {
        return None;
      }
      FailWith(StreamLost(Overrun, missed));
      return lost;
    }

    method AdmitDelivery(d: Delivery) returns (answer: Answer)
      modifies this
      ensures (State(), answer) == Receive(old(State()), d)
    {
      var redundant :=
        match d
        case Mutated(revision, _, _) => revision <= resumeAfter
        case Resolved(_, at, _) => Precedes(at, boundary);
      if redundant {
        pending := None;
        return Passed;
      }
      if d.cursor.epoch != boundary.epoch {
        var missed := if pending.Some? then pending.value else 0;
        pending := None;
        FailWith(StreamLost(RecoveryBase, missed));
        return Refused(lost.value);
      }
      var loss := Resolve(Some(d.cursor));
      if loss.Some? {
        return Refused(loss.value);
      }
      cursor := d.cursor;
      return Admitted(d);
    }

    /** `try_recv`: a standing loss is repeated without touching the ring; otherwise ring
        answers are taken until one decides. */
    method TryRecv(answers: seq<RingAnswer>) returns (r: Result<Option<Delivery>, RecvError>, used: nat)
      modifies this
      ensures old(lost).Some? ==> r == Failure(old(lost).value) && State() == old(State()) && used == 0
      ensures old(lost).None? ==>
        var taken := Drain(old(State()), answers);
        State() == taken.attachment && r == taken.result && used == taken.used
    {
      used := 0;
      if lost.Some? {
        return Failure(lost.value), 0;
      }
      while used < |answers|
        invariant used <= |answers|
        invariant lost == None
        invariant var rest := Drain(State(), answers[used..]);
                  Drain(old(State()), answers) == rest.(used := rest.used + used)
      {
        var remaining := answers[used..];
        assert remaining[1..] == answers[used + 1..];
        used := used + 1;
        match remaining[0]
        case NothingNew =>
          return Success(None), used;
        case WriterGone =>
          var loss := Resolve(None);
          if loss.Some? {
            return Failure(loss.value), used;
          }
          closed := true;
          return Failure(Closed), used;
        case Lagged(missed) =>
          pending := Some(SaturatingAdd(if pending.Some? then pending.value else 0, missed));
        case Delivered(d) =>
          var answer := AdmitDelivery(d);
          if answer.Admitted? {
            return Success(Some(d)), used;
          }
          if answer.Refused? {
            return Failure(answer.error), used;
          }
      }
      return Success(None), used;
    }
  }
}
