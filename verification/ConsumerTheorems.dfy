/** What a consumer can rely on, in every interleaving of writer, ring and consumer steps
    (src/observer.rs). */
module ConsumerTheorems {
  import opened Book
  import opened BookCommits
  import opened BookRuns
  import opened ExactReplay
  import opened Published
  import opened Attachments
  import opened ObserverSystem

  ghost predicate AttachedIntact(s: System) {
    !s.consumer.resubscribed && s.consumer.base.published.continuity.Intact?
  }

  /** Nothing is left in the ring and the writer is between operations. */
  ghost predicate Drained(s: System) {
    s.phase == Idle && s.consumer.next == s.sent
  }

  // ---------------------------------------------------------------------------------
  // Gapless, exactly once
  // ---------------------------------------------------------------------------------

  /** From an intact attachment at `(e, p)` the deliveries handed over are the log from
      the boundary on and carry exactly the cursors `(e, p)`, `(e, p + 1)`, and so on. */
  lemma {:induction false} GaplessExactlyOnce(start: System, actions: seq<Action>)
    requires Init(start) && AllActions(actions)
    ensures var s := Exec(start, actions);
            AttachedIntact(s) ==>
              var c, boundary := s.consumer, AttachmentCursor(s.consumer.base.published);
              && c.base.at + |c.admitted| <= |s.log|
              && c.admitted == s.log[c.base.at..c.base.at + |c.admitted|]
              && (forall k :: 0 <= k < |c.admitted| ==>
                    c.admitted[k].cursor == Cursor(boundary.epoch, boundary.position + k))
  {
    ExecInv(start, actions);
    var s := Exec(start, actions);
    if AttachedIntact(s) {
      GaplessCursors(s.consumer, s.log, s.book);
    }
  }

  lemma {:induction false} GaplessCursors(c: Consumer, log: seq<Delivery>, book: BookState)
    requires c.base.published.continuity.Intact? && BaseStream(c.base, log, book) && IntactConsumer(c, log)
    ensures var boundary := AttachmentCursor(c.base.published);
            forall k :: 0 <= k < |c.admitted| ==>
              c.admitted[k].cursor == Cursor(boundary.epoch, boundary.position + k)
  {
    forall k | 0 <= k < |c.admitted|
      ensures c.admitted[k].cursor
           == Cursor(c.base.published.continuity.epoch, c.base.published.continuity.nextPosition + k)
    {
      assert c.admitted[k] == log[c.base.at + k];
      assert Ahead(log[c.base.at + k], c.base.published, c.base.at + k - c.base.at);
    }
  }

  /** Drained without a loss, nothing at or past the boundary is missing. */
  lemma {:induction false} DrainedIsComplete(start: System, actions: seq<Action>)
    requires Init(start) && AllActions(actions)
    ensures var s := Exec(start, actions);
            AttachedIntact(s) && Drained(s) && s.consumer.attachment.lost.None? ==>
              s.consumer.base.at <= |s.log| && s.consumer.admitted == s.log[s.consumer.base.at..]
  {
    ExecInv(start, actions);
    var s := Exec(start, actions);
    if AttachedIntact(s) && Drained(s) && s.consumer.attachment.lost.None? {
      assert s.consumer.base.at + |s.consumer.admitted| == |s.log|;
    }
  }

  lemma {:induction false} LossStands(s: System, action: Action)
    requires action != ReadState && s.consumer.attachment.lost.Some?
    ensures var c := Apply(s, action).consumer;
            c.attachment == s.consumer.attachment && c.admitted == s.consumer.admitted && c.base == s.consumer.base
  {
  }

  /** A loss stands, and nothing more is handed over, through any run in which the state
      is not read again. */
  lemma {:induction false} LossIsSticky(s: System, actions: seq<Action>)
    requires s.consumer.attachment.lost.Some?
    requires forall k :: 0 <= k < |actions| ==> actions[k] != ReadState
    ensures var c := Exec(s, actions).consumer;
            c.attachment == s.consumer.attachment && c.admitted == s.consumer.admitted && c.base == s.consumer.base
    decreases |actions|
  {
    if actions != [] {
      var earlier, last := actions[..|actions| - 1], actions[|actions| - 1];
      LossIsSticky(s, earlier);
      LossStands(Exec(s, earlier), last);
    }
  }

  /** In every reachable state a consumer that reports itself attached is continuous, and
      a close never finds an overrun still unresolved. */
  lemma {:induction false} AttachedIsContinuous(start: System, actions: seq<Action>)
    requires Init(start) && AllActions(actions)
    ensures var s := Exec(start, actions);
            !s.consumer.resubscribed ==>
              var a := s.consumer.attachment;
              && (ConsumerStateOf(a).Attached? ==> a.continuous && a.lost.None?)
              && (s.consumer.next == s.sent ==> a.pending.None? && (a.lost.None? ==> Close(a).1 == Closed))
  {
    ExecInv(start, actions);
  }

  /** What a consumer reports of itself, in every reachable state of an intact attachment:
      stopped by a rebase, stopped by an overrun, or attached, and where: at the last
      delivery handed over, or at its boundary before the first. */
  lemma {:induction false} ReportedStateIsExact(start: System, actions: seq<Action>)
    requires Init(start) && AllActions(actions)
    ensures var s := Exec(start, actions);
            AttachedIntact(s) && !s.consumer.attachment.closed ==>
              var c := s.consumer;
              var at := if c.admitted == [] then AttachmentCursor(c.base.published)
                        else c.admitted[|c.admitted| - 1].cursor;
              ConsumerStateOf(c.attachment)
              == match c.attachment.lost
                 case None => Attached(at, true)
                 case Some(loss) =>
                   if loss.StreamLost? && loss.reason == RecoveryBase then Rebased(at) else Overrunning(at)
  {
    ExecInv(start, actions);
  }

  lemma {:induction false} ClosedNeedsAGoneWriter(start: System, actions: seq<Action>)
    requires Init(start)
    ensures var s := Exec(start, actions);
            s.consumer.attachment.closed ==> s.writerGone
    decreases |actions|
  {
    if actions != [] {
      var earlier, last := actions[..|actions| - 1], actions[|actions| - 1];
      ClosedNeedsAGoneWriter(start, earlier);
      ClosedStep(Exec(start, earlier), last);
    }
  }

  lemma {:induction false} ClosedStep(s: System, action: Action)
    requires s.consumer.attachment.closed ==> s.writerGone
    ensures var t := Apply(s, action);
            t.consumer.attachment.closed ==> t.writerGone
  {
  }

  /** Detached is terminal, through any run, a reattach included. */
  lemma {:induction false} DetachedIsForever(s: System, actions: seq<Action>)
    requires ConsumerStateOf(s.consumer.attachment) == Detached
    ensures ConsumerStateOf(Exec(s, actions).consumer.attachment) == Detached
    decreases |actions|
  {
    if actions != [] {
      DetachedIsForever(s, actions[..|actions| - 1]);
      DetachedStays(Exec(s, actions[..|actions| - 1]), actions[|actions| - 1]);
    }
  }

  lemma {:induction false} DetachedStays(s: System, action: Action)
    requires s.consumer.attachment.closed
    ensures Apply(s, action).consumer.attachment.closed
  {
  }

  /** Detached means the writer is gone, in every reachable state; and once it is gone, a
      lossless consumer that has drained the ring is detached by its next receive. */
  lemma {:induction false} DetachedIsExact(start: System, actions: seq<Action>)
    requires Init(start) && AllActions(actions)
    ensures var s := Exec(start, actions);
            && (ConsumerStateOf(s.consumer.attachment) == Detached ==> s.writerGone)
            && (&& s.writerGone && s.consumer.next == s.sent && !s.consumer.resubscribed
                && s.consumer.attachment.lost.None?
                ==> ConsumerStateOf(Apply(s, TakeNext).consumer.attachment) == Detached)
  {
    ClosedNeedsAGoneWriter(start, actions);
    ExecInv(start, actions);
  }

  // ---------------------------------------------------------------------------------
  // Overruns
  // ---------------------------------------------------------------------------------

  /** The ring dropped something this attachment's state did not contain. */
  ghost predicate NeededWasDropped(c: Consumer) {
    exists m :: m in c.dropped && c.base.at <= m
  }

  /** The ring dropped a delivery at or past the attachment's boundary cursor. */
  ghost predicate PastBoundaryWasDropped(c: Consumer, log: seq<Delivery>) {
    exists m :: m in c.dropped && m < |log| && !Precedes(log[m].cursor, c.attachment.boundary)
  }

  lemma {:induction false} BoundaryAt(base: Base, log: seq<Delivery>, book: BookState, m: nat)
    requires BaseStream(base, log, book) && base.published.continuity.Intact? && m < |log|
    ensures base.at <= m <==> !Precedes(log[m].cursor, AttachmentCursor(base.published))
  {
    if base.at <= m {
      assert Ahead(log[m], base.published, m - base.at);
    } else {
      assert Behind(log[m], base.published.revision, base.published.continuity);
    }
  }

  /** On an intact attachment the boundary cursor is exactly the cut: a delivery was put on
      the stream after the state read was cut if and only if its cursor does not precede
      the boundary. */
  lemma {:induction false} BoundaryIsTheCut(start: System, actions: seq<Action>, m: nat)
    requires Init(start) && AllActions(actions)
    ensures var s := Exec(start, actions);
            AttachedIntact(s) && m < |s.log| ==>
              (s.consumer.base.at <= m <==> !Precedes(s.log[m].cursor, s.consumer.attachment.boundary))
  {
    ExecInv(start, actions);
    var s := Exec(start, actions);
    if AttachedIntact(s) && m < |s.log| {
      BoundaryAt(s.consumer.base, s.log, s.book, m);
    }
  }

  lemma {:induction false} NeededIsPastBoundary(s: System)
    requires Inv(s) && AttachedIntact(s)
    ensures NeededWasDropped(s.consumer) <==> PastBoundaryWasDropped(s.consumer, s.log)
  {
    var c := s.consumer;
    if NeededWasDropped(c) {
      var m :| m in c.dropped && c.base.at <= m;
      BoundaryAt(c.base, s.log, s.book, m);
    }
    if PastBoundaryWasDropped(c, s.log) {
      var m :| m in c.dropped && m < |s.log| && !Precedes(s.log[m].cursor, c.attachment.boundary);
      BoundaryAt(c.base, s.log, s.book, m);
    }
  }

  lemma {:induction false} TakeVerdict(s: System)
    requires Inv(s) && AttachedIntact(s) && s.consumer.attachment.lost.None?
    requires Oldest(s) <= s.consumer.next < s.sent
    requires s.log[s.consumer.next].cursor.epoch <= s.consumer.attachment.boundary.epoch
    ensures Took(s).attachment.lost.Some? <==> NeededWasDropped(s.consumer)
  {
    var c := s.consumer;
    var d := s.log[c.next];
    if c.next < c.base.at {
      EarlierIsRedundant(c, s.log, c.next);
    } else {
      LaterVerdict(c.attachment, d, c.base.published, c.next - c.base.at);
      if c.attachment.pending.Some? && c.base.at < c.next {
        assert c.next - 1 in c.dropped && c.base.at <= c.next - 1;
      }
    }
  }

  /** The verdict is exact: when the ring resumes in the attachment's own epoch, whatever
      overruns accumulated or were cleared on the way, a loss is raised if and only if
      some dropped delivery was at or past the boundary. */
  lemma {:induction false} OverrunVerdictIsExact(start: System, actions: seq<Action>)
    requires Init(start) && AllActions(actions)
    ensures var s := Exec(start, actions);
            && AttachedIntact(s) && s.consumer.attachment.lost.None?
            && Oldest(s) <= s.consumer.next < s.sent <= |s.log|
            && s.log[s.consumer.next].cursor.epoch <= s.consumer.attachment.boundary.epoch
            ==> (Apply(s, TakeNext).consumer.attachment.lost.Some? <==> PastBoundaryWasDropped(s.consumer, s.log))
  {
    ExecInv(start, actions);
    var s := Exec(start, actions);
    if && AttachedIntact(s) && s.consumer.attachment.lost.None?
       && Oldest(s) <= s.consumer.next < s.sent <= |s.log|
       && s.log[s.consumer.next].cursor.epoch <= s.consumer.attachment.boundary.epoch
    {
      TakeVerdict(s);
      NeededIsPastBoundary(s);
    }
  }

  /** No spurious loss: a standing loss of an intact attachment is an overrun that really
      dropped something needed, or a stream that really moved to a later epoch. */
  lemma {:induction false} LossIsNeverSpurious(start: System, actions: seq<Action>)
    requires Init(start) && AllActions(actions)
    ensures var s := Exec(start, actions);
            AttachedIntact(s) && s.consumer.attachment.lost.Some? ==>
              var loss := s.consumer.attachment.lost.value;
              && loss.StreamLost?
              && (loss.reason == Overrun ==>
                    NeededWasDropped(s.consumer) && PastBoundaryWasDropped(s.consumer, s.log))
              && (loss.reason == RecoveryBase ==>
                    s.consumer.attachment.boundary.epoch < s.book.continuity.epoch)
              && (loss.reason == Overrun || loss.reason == RecoveryBase)
  {
    ExecInv(start, actions);
    if AttachedIntact(Exec(start, actions)) {
      NeededIsPastBoundary(Exec(start, actions));
    }
  }

  /** A resolution of the attachment's own epoch that is not the epoch's first. */
  ghost predicate LaterResolution(a: Attachment, d: Delivery) {
    d.Resolved? && d.cursor.epoch == a.boundary.epoch && d.cursor.position > 0
  }

  lemma {:induction false} LostTakeVerdict(s: System)
    requires Inv(s) && !s.consumer.resubscribed && s.consumer.base.published.continuity.Lost?
    requires s.consumer.attachment.lost.None? && Oldest(s) <= s.consumer.next < s.sent
    ensures OverrunStands(Took(s)) <==>
      s.consumer.attachment.pending.Some? && LaterResolution(s.consumer.attachment, s.log[s.consumer.next])
    ensures OverrunStands(Took(s)) ==> !NeededWasDropped(Took(s))
  {
    var c := s.consumer;
    if c.base.at <= c.next {
      LaterIsNotRedundant(c.attachment, s.log[c.next], c.base.published, c.next - c.base.at);
      assert Ahead(s.log[c.next], c.base.published, c.next - c.base.at);
    } else {
      assert Behind(s.log[c.next], c.base.published.revision, c.base.published.continuity);
    }
  }

  /** That guarantee needs the intact stream.  Attached to a lost one, whose boundary is
      position 0 of its epoch, the next delivery taken raises an overrun exactly when a
      span is pending and the ring resumes on a resolution of that epoch other than its
      first; and then nothing the attachment needed was dropped. */
  lemma {:induction false} LostAttachmentVerdict(start: System, actions: seq<Action>)
    requires Init(start) && AllActions(actions)
    ensures var s := Exec(start, actions);
            var c := s.consumer;
            && !c.resubscribed && c.base.published.continuity.Lost? && c.attachment.lost.None?
            && Oldest(s) <= c.next < s.sent <= |s.log|
            ==> var after := Apply(s, TakeNext).consumer;
                && (OverrunStands(after) <==>
                      c.attachment.pending.Some? && LaterResolution(c.attachment, s.log[c.next]))
                && (OverrunStands(after) ==> !NeededWasDropped(after))
  {
    ExecInv(start, actions);
    var s := Exec(start, actions);
    var c := s.consumer;
    if && !c.resubscribed && c.base.published.continuity.Lost? && c.attachment.lost.None?
       && Oldest(s) <= c.next < s.sent <= |s.log|
    {
      LostTakeVerdict(s);
    }
  }

  /** So every overrun that stands on an attachment to a lost stream is spurious. */
  lemma {:induction false} LostOverrunIsSpurious(start: System, actions: seq<Action>)
    requires Init(start) && AllActions(actions)
    ensures var c := Exec(start, actions).consumer;
            !c.resubscribed && c.base.published.continuity.Lost? && OverrunStands(c) ==> !NeededWasDropped(c)
  {
    ExecInv(start, actions);
  }

  /** And everything such an attachment is ever handed is a resolution that the state it
      read already contained: the boundary cannot tell those apart. */
  lemma {:induction false} LostAttachmentRepeats(start: System, actions: seq<Action>)
    requires Init(start) && AllActions(actions)
    ensures var s := Exec(start, actions);
            !s.consumer.resubscribed && s.consumer.base.published.continuity.Lost? ==>
              forall d :: d in s.consumer.admitted ==> d.Resolved? && Contained(s.consumer.base, s.log, d)
  {
    ExecInv(start, actions);
  }

  // ---------------------------------------------------------------------------------
  // Replay refinement
  // ---------------------------------------------------------------------------------

  lemma {:induction false} ResolutionsReplayToNothing(m: Levels, deliveries: seq<Delivery>)
    requires forall d :: d in deliveries ==> d.Resolved?
    ensures Replay(m, deliveries) == m
    decreases |deliveries|
  {
    if deliveries != [] {
      ResolutionsReplayToNothing(m, deliveries[..|deliveries| - 1]);
      assert deliveries[|deliveries| - 1] in deliveries;
    }
  }

  /** A lost stream allocates nothing more in its epoch. */
  lemma {:induction false} LostBaseMovesOn(s: System)
    requires Inv(s) && !s.consumer.resubscribed && s.consumer.base.published.continuity.Lost?
    ensures s.consumer.base.at < |s.log| ==> s.consumer.attachment.boundary.epoch < s.book.continuity.epoch
  {
    var c := s.consumer;
    if c.base.at < |s.log| {
      assert Ahead(s.log[c.base.at], c.base.published, c.base.at - c.base.at);
    }
  }

  /** What the consumer has replayed, on the levels it attached to. */
  ghost function Replayed(s: System): Levels {
    Replay(LevelMap(s.consumer.base.published.levels), s.consumer.admitted)
  }

  lemma {:induction false} ReplayedAll(s: System)
    requires Inv(s) && !s.consumer.resubscribed && s.consumer.attachment.lost.None? && Drained(s)
    requires s.book.continuity.epoch == s.consumer.attachment.boundary.epoch
    ensures s.consumer.base.at <= |s.log|
    ensures Replayed(s) == Replay(LevelMap(s.consumer.base.published.levels), s.log[s.consumer.base.at..])
  {
    var c := s.consumer;
    if c.base.published.continuity.Intact? {
      assert c.admitted == s.log[c.base.at..];
    } else {
      LostBaseMovesOn(s);
      assert s.log[c.base.at..] == [];
      ResolutionsReplayToNothing(LevelMap(c.base.published.levels), c.admitted);
    }
  }

  // ---- exactness ----

  /** Within the base's epoch, replaying everything since gives the book's map itself. */
  ghost predicate ExactBase(base: Base, log: seq<Delivery>, book: BookState)
    requires base.at <= |log|
  {
    base.published.provenance.Some? && base.published.continuity.epoch == book.continuity.epoch ==>
      Replay(LevelMap(base.published.levels), log[base.at..]) == book.levels
  }

  /** Every base cut at revision `r` or later is exact. */
  ghost predicate ExactSince(s: System, r: nat)
    requires Inv(s)
  {
    && (r <= s.published.published.revision ==> ExactBase(s.published, s.log, s.book))
    && (!s.consumer.resubscribed && r <= s.consumer.base.published.revision ==>
          ExactBase(s.consumer.base, s.log, s.book))
  }

  ghost predicate MayOperate(s: System) {
    s.phase == Idle && !s.writerGone
  }

  /** Every checkpoint committed on the delta rail over a book of revision `r` or later
      restates the map the book held, zero-quantity levels included. */
  ghost predicate RestateSince(start: System, actions: seq<Action>, r: nat) {
    actions != [] ==>
      var earlier, last := actions[..|actions| - 1], actions[|actions| - 1];
      && RestateSince(start, earlier, r)
      && (last.Operate? && MayOperate(Exec(start, earlier)) && r <= Exec(start, earlier).book.revision ==>
            Restates(Exec(start, earlier).book, last.input))
  }

  lemma {:induction false} ExactGrows(base: Base, log: seq<Delivery>, b: BookState, i: Input)
    requires BaseInv(base, log, b) && ExactBase(base, log, b) && BookInv(b) && IsInput(i) && Restates(b, i)
    ensures ExactBase(base, log + Step(b, i).deliveries, Step(b, i).book)
  {
    var e, p := Step(b, i), base.published;
    if p.provenance.Some? && p.continuity.epoch == e.book.continuity.epoch {
      StepKeeps(b, i);
      StepReplaysExactly(b, i);
      ReplayGoesOn(LevelMap(p.levels), log, base.at, e.deliveries);
    }
  }

  lemma {:induction false} ReplayGoesOn(m: Levels, log: seq<Delivery>, at: nat, more: seq<Delivery>)
    requires at <= |log|
    ensures Replay(m, (log + more)[at..]) == Replay(Replay(m, log[at..]), more)
  {
    assert (log + more)[at..] == log[at..] + more;
    ReplayConcat(m, log[at..], more);
  }

  lemma {:induction false} OperateKeepsExact(s: System, input: Input, r: nat)
    requires Inv(s) && IsInput(input) && ExactSince(s, r)
    requires MayOperate(s) && r <= s.book.revision ==> Restates(s.book, input)
    ensures Inv(Operated(s, input)) && ExactSince(Operated(s, input), r)
  {
    OperateKeeps(s, input);
    if MayOperate(s) && r <= s.published.published.revision {
      ExactGrows(s.published, s.log, s.book, input);
    }
    if MayOperate(s) && !s.consumer.resubscribed && r <= s.consumer.base.published.revision {
      ExactGrows(s.consumer.base, s.log, s.book, input);
    }
  }

  lemma {:induction false} FreshIsExact(s: System)
    ensures ExactBase(Current(s), s.log, s.book)
  {
    PublishedLevelsRestore(s.book.levels);
    assert s.log[|s.log|..] == [];
  }

  lemma {:induction false} ApplyKeepsExact(s: System, action: Action, r: nat)
    requires Inv(s) && IsAction(action) && ExactSince(s, r)
    requires action.Operate? && MayOperate(s) && r <= s.book.revision ==> Restates(s.book, action.input)
    ensures Inv(Apply(s, action)) && ExactSince(Apply(s, action), r)
  {
    ApplyKeeps(s, action);
    if action.Operate? {
      OperateKeepsExact(s, action.input, r);
    } else if action.PublishState? {
      FreshIsExact(s);
    }
  }

  lemma {:induction false} ExecExact(start: System, actions: seq<Action>, r: nat)
    requires Init(start) && AllActions(actions) && RestateSince(start, actions, r)
    ensures Inv(Exec(start, actions)) && ExactSince(Exec(start, actions), r)
    decreases |actions|
  {
    if actions == [] {
      InitInv(start);
      FreshIsExact(start);
    } else {
      var earlier, last := actions[..|actions| - 1], actions[|actions| - 1];
      ExecExact(start, earlier, r);
      ApplyKeepsExact(Exec(start, earlier), last, r);
    }
  }

  /** Replay refinement.  In every interleaving, a consumer attached to an established
      base that reports no loss and has drained the ring while the writer is between
      operations, with the book still in its epoch, holds the book: the same depth at the
      same coordinates always, and the very same map when no delta was ever accepted or
      every checkpoint since the attachment's state restated the map held. */
  lemma {:induction false} ReplayRefinement(start: System, actions: seq<Action>)
    requires Init(start) && AllActions(actions)
    ensures var s := Exec(start, actions);
            && !s.consumer.resubscribed && s.consumer.base.published.provenance.Some?
            && s.consumer.attachment.lost.None? && Drained(s)
            && s.book.continuity.epoch == s.consumer.attachment.boundary.epoch
            ==> && SameDepth(Replayed(s), s.book.levels)
                && (!s.book.deltaRail ==> Replayed(s) == s.book.levels)
                && (RestateSince(start, actions, s.consumer.base.published.revision) ==>
                      Replayed(s) == s.book.levels)
  {
    ExecInv(start, actions);
    var s := Exec(start, actions);
    if && !s.consumer.resubscribed && s.consumer.base.published.provenance.Some?
       && s.consumer.attachment.lost.None? && Drained(s)
       && s.book.continuity.epoch == s.consumer.attachment.boundary.epoch
    {
      ReplayedAll(s);
      if RestateSince(start, actions, s.consumer.base.published.revision) {
        ExecExact(start, actions, s.consumer.base.published.revision);
      }
    }
  }
}
