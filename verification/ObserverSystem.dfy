/** The writer, the bounded drop-oldest ring, the latest-state cell and one consumer, as
    interleaved small steps (src/observer.rs).  The ring and the cell are the
    environment: first in first out, any capacity of at least one, and a receiver that
    fell behind is told how many deliveries it lost and moves to the oldest retained. */
module ObserverSystem {
  import opened Prelude
  import opened Book
  import opened BookCommits
  import opened BookRuns
  import opened Published
  import opened Attachments

  /** Idle between operations; Committed once the book moved but nothing is visible yet;
      Sending once the state is published and deliveries remain to be sent. */
  datatype Phase = Idle | Committed | Sending

  /** A published state, with the length of the delivery log when its book was cut. */
  datatype Base = Base(published: PublishedBook, at: nat)

  /** `resubscribed` marks a reattach that has taken its new ring position and not yet
      read the state.  `base`, `admitted` and `dropped` are the history of the current
      attachment: what it read, what it was handed, which log entries the ring lost. */
  datatype Consumer = Consumer(
    resubscribed: bool,
    next: nat,
    attachment: Attachment,
    base: Base,
    admitted: seq<Delivery>,
    dropped: set<nat>)

  datatype System = System(
    capacity: nat,
    book: BookState,
    phase: Phase,
    log: seq<Delivery>,
    sent: nat,
    published: Base,
    writerGone: bool,
    consumer: Consumer)

  datatype Action = Operate(input: Input) | PublishState | SendNext | DropWriter | TakeNext | Resubscribe | ReadState

  ghost predicate IsAction(action: Action) {
    action.Operate? ==> IsInput(action.input)
  }

  // ---------------------------------------------------------------------------------
  // Steps; a step that is not enabled leaves the system alone
  // ---------------------------------------------------------------------------------

  function Oldest(s: System): nat {
    if s.sent > s.capacity then s.sent - s.capacity else 0
  }

  ghost function Range(low: nat, high: nat): (r: set<nat>)
    ensures forall i :: i in r <==> low <= i < high
  {
    if high <= low then {} else Range(low, high - 1) + {high - 1}
  }

  ghost function Current(s: System): Base {
    Base(View(s.book), |s.log|)
  }

  /** One input to the book; a refused input or a repeated report publishes nothing. */
  ghost function Operated(s: System, input: Input): System {
    var e := Step(s.book, input);
    if s.writerGone || s.phase != Idle || e.book == s.book then s
    else s.(book := e.book, log := s.log + e.deliveries, phase := Committed)
  }

  ghost function Publicized(s: System): System {
    if s.phase != Committed then s
    else s.(published := Current(s), phase := if s.sent == |s.log| then Idle else Sending)
  }

  function SentOne(s: System): System {
    if s.phase != Sending then s
    else s.(sent := s.sent + 1, phase := if s.sent + 1 == |s.log| then Idle else Sending)
  }

  /** One ring answer taken by the consumer: lagged, delivered, closed, or nothing. */
  ghost function Took(s: System): Consumer {
    var c := s.consumer;
    if c.resubscribed || c.attachment.lost.Some? then c
    else if c.next < Oldest(s) then
      c.(next := Oldest(s),
         attachment := Overran(c.attachment, Oldest(s) - c.next),
         dropped := c.dropped + Range(c.next, Oldest(s)))
    else if c.next < s.sent && c.next < |s.log| then
      var (attachment, answer) := Receive(c.attachment, s.log[c.next]);
      c.(next := c.next + 1,
         attachment := attachment,
         admitted := if answer.Admitted? then c.admitted + [s.log[c.next]] else c.admitted)
    else if s.writerGone then c.(attachment := Close(c.attachment).0)
    else c
  }

  /** The second half of `reattach`: everything restarts from the state just read. */
  function Reread(s: System): Consumer {
    var c := s.consumer;
    if !c.resubscribed then c
    else Consumer(false, c.next, Reattached(c.attachment, s.published.published), s.published, [], {})
  }

  ghost function Apply(s: System, action: Action): System {
    match action
    case Operate(input) => Operated(s, input)
    case PublishState => Publicized(s)
    case SendNext => SentOne(s)
    case DropWriter => if s.phase == Idle then s.(writerGone := true) else s
    case TakeNext => s.(consumer := Took(s))
    case Resubscribe => s.(consumer := s.consumer.(resubscribed := true, next := s.sent))
    case ReadState => s.(consumer := Reread(s))
  }

  /** A writer over any book, with a consumer attached to its first published state. */
  ghost predicate Init(s: System) {
    && BookInv(s.book)
    && 1 <= s.capacity
    && s.phase == Idle && s.log == [] && s.sent == 0 && !s.writerGone
    && s.published == Current(s)
    && s.consumer == Consumer(false, 0, AttachTo(s.published.published), s.published, [], {})
  }

  ghost function Exec(s: System, actions: seq<Action>): System {
    if actions == [] then s
    else Apply(Exec(s, actions[..|actions| - 1]), actions[|actions| - 1])
  }

  ghost predicate AllActions(actions: seq<Action>) {
    forall k :: 0 <= k < |actions| ==> IsAction(actions[k])
  }

  // ---------------------------------------------------------------------------------
  // What the log says relative to a published state
  // ---------------------------------------------------------------------------------

  ghost predicate Behind(d: Delivery, revision: nat, continuity: Continuity) {
    && d.revision <= revision
    && d.cursor.epoch <= continuity.epoch
    && (continuity.Intact? ==> Precedes(d.cursor, Cursor(continuity.epoch, continuity.nextPosition)))
  }

  /** Everything in the log lies behind the book. */
  ghost predicate LogInv(log: seq<Delivery>, book: BookState) {
    forall i :: 0 <= i < |log| ==> Behind(log[i], book.revision, book.continuity)
  }

  /** `d` is the `k`-th delivery after the state `p` was cut. */
  ghost predicate Ahead(d: Delivery, p: PublishedBook, k: nat) {
    && (d.Mutated? ==> p.revision < d.revision)
    && (|| p.continuity.epoch < d.cursor.epoch
        || (p.continuity.Intact? && d.cursor == Cursor(p.continuity.epoch, p.continuity.nextPosition + k)))
  }

  /** The book's own position, seen from a state published earlier. */
  ghost predicate Reaches(p: PublishedBook, book: BookState, k: nat) {
    && p.revision <= book.revision
    && p.continuity.epoch <= book.continuity.epoch
    && (p.continuity.epoch == book.continuity.epoch && book.continuity.Intact? ==>
          p.continuity.Intact? && book.continuity.nextPosition == p.continuity.nextPosition + k)
  }

  ghost predicate BaseStream(base: Base, log: seq<Delivery>, book: BookState) {
    && base.at <= |log|
    && (forall i :: 0 <= i < base.at ==> Behind(log[i], base.published.revision, base.published.continuity))
    && (forall i :: base.at <= i < |log| ==> Ahead(log[i], base.published, i - base.at))
    && (forall i :: 0 <= i < |log| ==> log[i].cursor.epoch <= book.continuity.epoch)
    && Reaches(base.published, book, |log| - base.at)
  }

  /** Within the base's epoch, replaying everything since agrees with the book. */
  ghost predicate BaseReplays(base: Base, log: seq<Delivery>, book: BookState)
    requires base.at <= |log|
  {
    base.published.provenance.Some? ==>
      && book.provenance.Some?
      && (base.published.continuity.epoch == book.continuity.epoch ==>
            && SameDepth(Replay(LevelMap(base.published.levels), log[base.at..]), book.levels)
            && (!book.deltaRail ==> Replay(LevelMap(base.published.levels), log[base.at..]) == book.levels))
  }

  ghost predicate BaseInv(base: Base, log: seq<Delivery>, book: BookState) {
    BaseStream(base, log, book) && BaseReplays(base, log, book)
  }

  lemma {:induction false} LogGrows(log: seq<Delivery>, b: BookState, e: Effect)
    requires LogInv(log, b) && StreamStep(b, e)
    ensures LogInv(log + e.deliveries, e.book)
  {
    var all := log + e.deliveries;
    forall i | 0 <= i < |all|
      ensures Behind(all[i], e.book.revision, e.book.continuity)
    {
      if i < |log| {
        assert all[i] == log[i] && Behind(log[i], b.revision, b.continuity);
      } else {
        assert all[i] == e.deliveries[i - |log|];
      }
    }
  }

  lemma {:induction false} BaseStreamGrows(base: Base, log: seq<Delivery>, b: BookState, e: Effect)
    requires BaseStream(base, log, b) && StreamStep(b, e)
    ensures BaseStream(base, log + e.deliveries, e.book)
  {
    var all := log + e.deliveries;
    assert forall i :: 0 <= i < |log| ==> all[i] == log[i];
    forall i | |log| <= i < |all|
      ensures Ahead(all[i], base.published, i - base.at)
      ensures all[i].cursor.epoch <= e.book.continuity.epoch
    {
      assert all[i] == e.deliveries[i - |log|];
    }
  }

  lemma {:induction false} BaseReplayGrows(base: Base, log: seq<Delivery>, b: BookState, e: Effect)
    requires BaseInv(base, log, b) && StreamStep(b, e) && ReplayStep(b, e)
    ensures BaseReplays(base, log + e.deliveries, e.book)
  {
    var p := base.published;
    if p.provenance.Some? && p.continuity.epoch == e.book.continuity.epoch {
      assert b.continuity.epoch == e.book.continuity.epoch;
      assert (log + e.deliveries)[base.at..] == log[base.at..] + e.deliveries;
      ReplayExtends(LevelMap(p.levels), log[base.at..], b, e);
    }
  }

  /** The state cut from the book right now is a base for everything to come. */
  lemma {:induction false} FreshBase(s: System)
    requires LogInv(s.log, s.book)
    ensures BaseInv(Current(s), s.log, s.book)
  {
    PublishedLevelsRestore(s.book.levels);
    assert s.log[|s.log|..] == [];
    assert forall i :: 0 <= i < |s.log| ==> Behind(s.log[i], s.book.revision, s.book.continuity);
  }

  // ---------------------------------------------------------------------------------
  // The consumer, relative to its base
  // ---------------------------------------------------------------------------------

  /** An attachment to an intact stream has been handed, in order and from its boundary
      on, a contiguous piece of the log; a standing loss has a cause. */
  ghost predicate IntactConsumer(c: Consumer, log: seq<Delivery>) {
    var a, k := c.base.at, |c.admitted|;
    && a + k <= |log|
    && c.admitted == log[a..a + k]
    && (0 < k ==> a + k <= c.next)
    && (forall i :: a <= i < a + k ==> log[i].cursor.epoch == c.base.published.continuity.epoch)
    && c.attachment.cursor == (if k == 0 then c.attachment.boundary else c.admitted[k - 1].cursor)
    && (c.attachment.lost.None? && c.attachment.pending.None? ==>
          && a + k == (if a < c.next then c.next else a)
          && forall m :: m in c.dropped ==> m < a)
    && (c.attachment.lost.None? && c.attachment.pending.Some? ==>
          && a + k <= (if a < c.next then c.next else a)
          && 0 < c.next && c.next - 1 in c.dropped)
    && LossHasCause(c, log)
  }

  ghost predicate LossHasCause(c: Consumer, log: seq<Delivery>) {
    match c.attachment.lost
    case None => true
    case Some(Closed) => false
    case Some(StreamLost(reason, _)) =>
      || (reason == Overrun && exists m :: m in c.dropped && c.base.at <= m)
      || (reason == RecoveryBase &&
            exists i :: c.base.at <= i < |log| && c.base.published.continuity.epoch < log[i].cursor.epoch)
  }

  /** The standing loss is an overrun. */
  predicate OverrunStands(c: Consumer) {
    c.attachment.lost.Some? && c.attachment.lost.value.StreamLost? && c.attachment.lost.value.reason == Overrun
  }

  /** An attachment to a lost stream is handed only resolutions its state already
      contained, and whatever it calls an overrun only dropped such deliveries. */
  ghost predicate LostConsumer(c: Consumer, log: seq<Delivery>) {
    && (forall d :: d in c.admitted ==> d.Resolved? && Contained(c.base, log, d))
    && (OverrunStands(c) ==> forall m :: m in c.dropped ==> m < c.base.at)
  }

  /** The delivery is one of those put on the stream before the base was cut. */
  ghost predicate Contained(base: Base, log: seq<Delivery>, d: Delivery) {
    exists i :: 0 <= i < base.at && i < |log| && log[i] == d
  }

  ghost predicate AttachedInv(c: Consumer, log: seq<Delivery>, sent: nat, book: BookState) {
    && BaseInv(c.base, log, book)
    && c.attachment.resumeAfter == c.base.published.revision
    && c.attachment.boundary == AttachmentCursor(c.base.published)
    && (c.attachment.continuous <==> c.attachment.lost.None?)
    && (c.attachment.pending.Some? ==> c.attachment.lost.None? && c.next < sent)
    && (forall m :: m in c.dropped ==> m < c.next)
    && (if c.base.published.continuity.Intact? then IntactConsumer(c, log) else LostConsumer(c, log))
  }

  ghost predicate WriterInv(s: System) {
    && BookInv(s.book) && 1 <= s.capacity
    && LogInv(s.log, s.book)
    && s.sent <= |s.log|
    && BaseInv(s.published, s.log, s.book)
    && s.sent <= s.published.at
    && (s.phase == Idle ==> s.sent == |s.log|)
    && (s.phase == Sending ==> s.sent < |s.log|)
    && (s.phase != Committed ==> s.published == Current(s))
  }

  ghost predicate Inv(s: System) {
    && WriterInv(s)
    && s.consumer.next <= s.sent
    && (if s.consumer.resubscribed then s.consumer.next <= s.published.at
        else AttachedInv(s.consumer, s.log, s.sent, s.book))
  }

  // ---------------------------------------------------------------------------------
  // Every step keeps the invariant
  // ---------------------------------------------------------------------------------

  lemma {:induction false} AttachedGrows(c: Consumer, log: seq<Delivery>, sent: nat, b: BookState, e: Effect)
    requires AttachedInv(c, log, sent, b) && StreamStep(b, e) && ReplayStep(b, e)
    ensures AttachedInv(c, log + e.deliveries, sent, e.book)
  {
    BaseStreamGrows(c.base, log, b, e);
    BaseReplayGrows(c.base, log, b, e);
    if c.base.published.continuity.Intact? {
      IntactGrows(c, log, log + e.deliveries);
    } else {
      LostGrows(c, log, log + e.deliveries);
    }
  }

  lemma {:induction false} LostGrows(c: Consumer, log: seq<Delivery>, longer: seq<Delivery>)
    requires LostConsumer(c, log) && log <= longer
    ensures LostConsumer(c, longer)
  {
    forall d | d in c.admitted
      ensures Contained(c.base, longer, d)
    {
      var i :| 0 <= i < c.base.at && i < |log| && log[i] == d;
      assert longer[i] == d;
    }
  }

  lemma {:induction false} IntactGrows(c: Consumer, log: seq<Delivery>, longer: seq<Delivery>)
    requires IntactConsumer(c, log) && log <= longer
    ensures IntactConsumer(c, longer)
  {
    var a, k := c.base.at, |c.admitted|;
    assert longer[a..a + k] == log[a..a + k];
    assert forall i :: 0 <= i < |log| ==> longer[i] == log[i];
    CauseGrows(c, log, longer);
  }

  lemma {:induction false} CauseGrows(c: Consumer, log: seq<Delivery>, longer: seq<Delivery>)
    requires LossHasCause(c, log) && log <= longer
    ensures LossHasCause(c, longer)
  {
    var lost := c.attachment.lost;
    if lost.Some? && lost.value.StreamLost? && lost.value.reason == RecoveryBase {
      var i :| c.base.at <= i < |log| && c.base.published.continuity.epoch < log[i].cursor.epoch;
      assert longer[i] == log[i];
    }
  }

  lemma {:induction false} OperateKeeps(s: System, input: Input)
    requires Inv(s) && IsInput(input)
    ensures Inv(Operated(s, input))
  {
    var e := Step(s.book, input);
    StepKeeps(s.book, input);
    LogGrows(s.log, s.book, e);
    BaseStreamGrows(s.published, s.log, s.book, e);
    BaseReplayGrows(s.published, s.log, s.book, e);
    if !s.consumer.resubscribed {
      AttachedGrows(s.consumer, s.log, s.sent, s.book, e);
    }
  }

  lemma {:induction false} PublishKeeps(s: System)
    requires Inv(s)
    ensures Inv(Publicized(s))
  {
    FreshBase(s);
  }

  lemma {:induction false} SendKeeps(s: System)
    requires Inv(s)
    ensures Inv(SentOne(s))
  {
  }

  // ---- taking from the ring ----

  lemma {:induction false} LagKeeps(s: System)
    requires Inv(s)
    requires !s.consumer.resubscribed && s.consumer.attachment.lost.None? && s.consumer.next < Oldest(s)
    ensures Inv(s.(consumer := Took(s)))
  {
    var c, d := s.consumer, Took(s);
    assert d.next - 1 in d.dropped;
  }

  /** A delivery from before the base is recognised as already contained. */
  lemma {:induction false} EarlierIsRedundant(c: Consumer, log: seq<Delivery>, i: nat)
    requires c.base.published.continuity.Intact? && i < |log|
    requires Behind(log[i], c.base.published.revision, c.base.published.continuity)
    requires c.attachment.resumeAfter == c.base.published.revision
    requires c.attachment.boundary == AttachmentCursor(c.base.published)
    ensures Receive(c.attachment, log[i]) == (c.attachment.(pending := None), Passed)
  {
  }

  /** A delivery from after the base is never taken for an earlier one. */
  lemma {:induction false} LaterIsNotRedundant(a: Attachment, d: Delivery, p: PublishedBook, k: nat)
    requires Ahead(d, p, k)
    requires a.resumeAfter == p.revision && a.boundary == AttachmentCursor(p)
    ensures !Redundant(a, d)
  {
  }

  lemma {:induction false} IntactTakeEarlier(s: System)
    requires Inv(s) && !s.consumer.resubscribed && s.consumer.attachment.lost.None?
    requires s.consumer.base.published.continuity.Intact?
    requires Oldest(s) <= s.consumer.next < s.sent && s.consumer.next < s.consumer.base.at
    ensures AttachedInv(Took(s), s.log, s.sent, s.book)
  {
    EarlierIsRedundant(s.consumer, s.log, s.consumer.next);
  }

  /** The verdict on the `k`-th delivery after an intact base: fenced in a later epoch,
      lost when an overrun is pending and it is not the very first, admitted otherwise. */
  lemma {:induction false} LaterVerdict(a: Attachment, d: Delivery, p: PublishedBook, k: nat)
    requires Ahead(d, p, k) && p.continuity.Intact? && a.lost.None?
    requires a.resumeAfter == p.revision && a.boundary == AttachmentCursor(p)
    ensures var (after, answer) := Receive(a, d);
            if p.continuity.epoch < d.cursor.epoch then
              && answer.Refused? && after.lost == Some(answer.error)
              && answer.error.StreamLost? && answer.error.reason == RecoveryBase
              && after == a.(pending := None, lost := after.lost, continuous := false)
            else if a.pending.Some? && 0 < k then
              && answer.Refused? && after.lost == Some(answer.error)
              && answer.error.StreamLost? && answer.error.reason == Overrun
              && after == a.(pending := None, lost := after.lost, continuous := false)
            else
              answer == Admitted(d) && after == a.(pending := None, cursor := d.cursor)
  {
    LaterIsNotRedundant(a, d, p, k);
  }

  lemma {:induction false} AdmitNext(c: Consumer, log: seq<Delivery>)
    requires IntactConsumer(c, log) && c.attachment.lost.None? && c.base.at <= c.next < |log|
    requires forall m :: m in c.dropped ==> m < c.next
    requires log[c.next].cursor.epoch == c.base.published.continuity.epoch
    requires c.attachment.pending.None? || c.next == c.base.at
    ensures var d := log[c.next];
            IntactConsumer(Admitting(c, d), log)
  {
    assert log[c.base.at..c.next + 1] == log[c.base.at..c.next] + [log[c.next]];
  }

  lemma {:induction false} RefuseNext(c: Consumer, log: seq<Delivery>, error: RecvError)
    requires IntactConsumer(c, log) && c.attachment.lost.None? && c.base.at <= c.next < |log|
    requires error.StreamLost?
    requires || (error.reason == RecoveryBase && c.base.published.continuity.epoch < log[c.next].cursor.epoch)
             || (error.reason == Overrun && c.attachment.pending.Some? && c.base.at < c.next)
    ensures IntactConsumer(Refusing(c, error), log)
  {
    if error.reason == Overrun {
      assert c.next - 1 in c.dropped && c.base.at <= c.next - 1;
    }
  }

  /** The consumer after a delivery was admitted, and after one was refused. */
  ghost function Admitting(c: Consumer, d: Delivery): Consumer {
    c.(next := c.next + 1, attachment := c.attachment.(pending := None, cursor := d.cursor),
       admitted := c.admitted + [d])
  }

  ghost function Refusing(c: Consumer, error: RecvError): Consumer {
    c.(next := c.next + 1, attachment := c.attachment.(pending := None, lost := Some(error), continuous := false))
  }

  /** What the step does with the `k`-th delivery after an intact base. */
  lemma {:induction false} TookLater(s: System)
    requires !s.consumer.resubscribed && s.consumer.attachment.lost.None?
    requires Oldest(s) <= s.consumer.next < s.sent <= |s.log| && s.consumer.base.at <= s.consumer.next
    requires var c := s.consumer;
             && c.base.published.continuity.Intact?
             && c.attachment.resumeAfter == c.base.published.revision
             && c.attachment.boundary == AttachmentCursor(c.base.published)
             && Ahead(s.log[c.next], c.base.published, c.next - c.base.at)
    ensures var c, d := s.consumer, s.log[s.consumer.next];
            var answer := Receive(c.attachment, d).1;
            if || c.base.published.continuity.epoch < d.cursor.epoch
               || (c.attachment.pending.Some? && c.base.at < c.next) then
              && answer.Refused? && answer.error.StreamLost? && Took(s) == Refusing(c, answer.error)
              && answer.error.reason
                 == (if c.base.published.continuity.epoch < d.cursor.epoch then RecoveryBase else Overrun)
            else
              Took(s) == Admitting(c, d)
  {
    var c := s.consumer;
    LaterVerdict(c.attachment, s.log[c.next], c.base.published, c.next - c.base.at);
  }

  lemma {:induction false} IntactTakeLater(s: System)
    requires Inv(s) && !s.consumer.resubscribed && s.consumer.attachment.lost.None?
    requires s.consumer.base.published.continuity.Intact?
    requires Oldest(s) <= s.consumer.next < s.sent && s.consumer.base.at <= s.consumer.next
    ensures AttachedInv(Took(s), s.log, s.sent, s.book)
  {
    var c := s.consumer;
    var d := s.log[c.next];
    assert Ahead(d, c.base.published, c.next - c.base.at);
    TookLater(s);
    if c.base.published.continuity.epoch < d.cursor.epoch || (c.attachment.pending.Some? && c.base.at < c.next) {
      RefusedInv(c, s.log, s.sent, s.book, Receive(c.attachment, d).1.error);
    } else {
      AdmittedInv(c, s.log, s.sent, s.book);
    }
  }

  lemma {:induction false} AdmittedInv(c: Consumer, log: seq<Delivery>, sent: nat, book: BookState)
    requires AttachedInv(c, log, sent, book) && c.attachment.lost.None?
    requires c.base.published.continuity.Intact? && c.base.at <= c.next < sent <= |log|
    requires log[c.next].cursor.epoch == c.base.published.continuity.epoch
    requires c.attachment.pending.None? || c.next == c.base.at
    ensures AttachedInv(Admitting(c, log[c.next]), log, sent, book)
  {
    AdmitNext(c, log);
  }

  lemma {:induction false} RefusedInv(c: Consumer, log: seq<Delivery>, sent: nat, book: BookState, error: RecvError)
    requires AttachedInv(c, log, sent, book) && c.attachment.lost.None?
    requires c.base.published.continuity.Intact? && c.base.at <= c.next < sent <= |log|
    requires error.StreamLost?
    requires || (error.reason == RecoveryBase && c.base.published.continuity.epoch < log[c.next].cursor.epoch)
             || (error.reason == Overrun && c.attachment.pending.Some? && c.base.at < c.next)
    ensures AttachedInv(Refusing(c, error), log, sent, book)
  {
    RefuseNext(c, log, error);
  }

  lemma {:induction false} LostTake(s: System)
    requires Inv(s) && !s.consumer.resubscribed && s.consumer.attachment.lost.None?
    requires s.consumer.base.published.continuity.Lost?
    requires Oldest(s) <= s.consumer.next < s.sent
    ensures AttachedInv(Took(s), s.log, s.sent, s.book)
  {
    var c := s.consumer;
    if c.base.at <= c.next {
      LaterIsNotRedundant(c.attachment, s.log[c.next], c.base.published, c.next - c.base.at);
    } else {
      assert Behind(s.log[c.next], c.base.published.revision, c.base.published.continuity);
    }
  }

  lemma {:induction false} TakeKeeps(s: System)
    requires Inv(s)
    ensures Inv(s.(consumer := Took(s)))
  {
    var c := s.consumer;
    if !c.resubscribed && c.attachment.lost.None? {
      if c.next < Oldest(s) {
        LagKeeps(s);
      } else if c.next < s.sent {
        if c.base.published.continuity.Lost? {
          LostTake(s);
        } else if c.next < c.base.at {
          IntactTakeEarlier(s);
        } else {
          IntactTakeLater(s);
        }
      }
    }
  }

  lemma {:induction false} ReadKeeps(s: System)
    requires Inv(s)
    ensures Inv(s.(consumer := Reread(s)))
  {
    if s.consumer.resubscribed {
      assert s.log[s.published.at..s.published.at] == [];
    }
  }

  lemma {:induction false} ApplyKeeps(s: System, action: Action)
    requires Inv(s) && IsAction(action)
    ensures Inv(Apply(s, action))
  {
    match action
    case Operate(input) => OperateKeeps(s, input);
    case PublishState => PublishKeeps(s);
    case SendNext => SendKeeps(s);
    case DropWriter =>
    case TakeNext => TakeKeeps(s);
    case Resubscribe =>
    case ReadState => ReadKeeps(s);
  }

  lemma {:induction false} InitInv(s: System)
    requires Init(s)
    ensures Inv(s)
  {
    FreshBase(s);
    assert s.log[0..0] == [];
  }

  lemma {:induction false} ExecInv(s: System, actions: seq<Action>)
    requires Init(s) && AllActions(actions)
    ensures Inv(Exec(s, actions))
    decreases |actions|
  {
    if actions == [] {
      InitInv(s);
    } else {
      ExecInv(s, actions[..|actions| - 1]);
      ApplyKeeps(Exec(s, actions[..|actions| - 1]), actions[|actions| - 1]);
    }
  }

  // ---------------------------------------------------------------------------------
  // Runs put together
  // ---------------------------------------------------------------------------------

  lemma {:induction false} ExecOneMore(s: System, actions: seq<Action>, action: Action)
    ensures Exec(s, actions + [action]) == Apply(Exec(s, actions), action)
  {
    var all := actions + [action];
    assert all[..|all| - 1] == actions && all[|all| - 1] == action;
  }

  lemma {:induction false} ExecConcat(s: System, first: seq<Action>, second: seq<Action>)
    ensures Exec(s, first + second) == Exec(Exec(s, first), second)
    decreases |second|
  {
    if second == [] {
      assert first + second == first;
    } else {
      var earlier, last := second[..|second| - 1], second[|second| - 1];
      ExecConcat(s, first, earlier);
      assert first + second == (first + earlier) + [last] && second == earlier + [last];
      ExecOneMore(s, first + earlier, last);
      ExecOneMore(Exec(s, first), earlier, last);
    }
  }
}
