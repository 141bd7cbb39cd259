/** Runs of a consumer put together from single steps: a whole receive, and a run in which
    an attachment to a lost stream reports a loss of nothing (src/observer.rs). */
module ConsumerRuns {
  import opened Prelude
  import opened Observation
  import opened Book
  import opened Published
  import opened Attachments
  import opened ObserverSystem
  import opened ConsumerTheorems

  // ---------------------------------------------------------------------------------
  // A receive is its steps
  // ---------------------------------------------------------------------------------

  function Delivers(log: seq<Delivery>, from: nat, to: nat): seq<RingAnswer>
    requires from <= to <= |log|
  {
    seq(to - from, i requires 0 <= i < to - from => Delivered(log[from + i]))
  }

  /** What the ring would answer the consumer, one receive after the other, while nothing
      else moves: how much it lost, every delivery retained, then that there is no more. */
  function Answers(s: System): seq<RingAnswer>
    requires s.consumer.next <= s.sent <= |s.log| && 1 <= s.capacity
  {
    var end := [if s.writerGone then WriterGone else NothingNew];
    if s.consumer.next < Oldest(s) then
      [Lagged(Oldest(s) - s.consumer.next)] + (Delivers(s.log, Oldest(s), s.sent) + end)
    else Delivers(s.log, s.consumer.next, s.sent) + end
  }

  ghost function Takes(n: nat): seq<Action> {
    seq(n, _ => TakeNext)
  }

  /** Nothing stands in the way of receiving. */
  ghost predicate Receiving(s: System) {
    && s.consumer.next <= s.sent <= |s.log| && 1 <= s.capacity
    && !s.consumer.resubscribed && s.consumer.attachment.lost.None?
  }

  lemma {:induction false} TakeFirst(s: System, n: nat)
    requires n > 0
    ensures Exec(s, Takes(n)) == Exec(Apply(s, TakeNext), Takes(n - 1))
  {
    assert Takes(n) == [TakeNext] + Takes(n - 1);
    assert [] + [TakeNext] == [TakeNext];
    ExecOneMore(s, [], TakeNext);
    ExecConcat(s, [TakeNext], Takes(n - 1));
  }

  lemma {:induction false} DeliversFirst(log: seq<Delivery>, from: nat, to: nat, end: seq<RingAnswer>)
    requires from < to <= |log|
    ensures (Delivers(log, from, to) + end)[0] == Delivered(log[from])
    ensures (Delivers(log, from, to) + end)[1..] == Delivers(log, from + 1, to) + end
  {
    assert Delivers(log, from, to)[1..] == Delivers(log, from + 1, to);
    assert (Delivers(log, from, to) + end)[1..] == Delivers(log, from, to)[1..] + end;
  }

  /** After a lag, or a delivery that leaves no loss, the ring goes on with the rest. */
  lemma {:induction false} AnswersGoOn(s: System)
    requires Receiving(s) && s.consumer.next < s.sent
    ensures var t := Apply(s, TakeNext);
            && t.consumer.next <= t.sent <= |t.log|
            && Answers(s) != [] && Answers(t) == Answers(s)[1..]
    ensures Answers(s)[0] == if s.consumer.next < Oldest(s) then Lagged(Oldest(s) - s.consumer.next)
                             else Delivered(s.log[s.consumer.next])
  {
    var end := [if s.writerGone then WriterGone else NothingNew];
    if s.consumer.next < Oldest(s) {
      var rest := Delivers(s.log, Oldest(s), s.sent) + end;
      assert ([Lagged(Oldest(s) - s.consumer.next)] + rest)[1..] == rest;
    } else {
      DeliversFirst(s.log, s.consumer.next, s.sent, end);
    }
  }

  lemma {:induction false} AnswersEnd(s: System)
    requires Receiving(s) && s.consumer.next == s.sent
    ensures Answers(s) == [if s.writerGone then WriterGone else NothingNew]
  {
    assert Delivers(s.log, s.sent, s.sent) == [];
  }

  /** What a finished receive leaves of the consumer. */
  ghost predicate Received(s: System, t: System, taken: Taken) {
    && t.consumer.attachment == taken.attachment
    && t.consumer.base == s.consumer.base && !t.consumer.resubscribed
    && t == s.(consumer := t.consumer)
    && t.consumer.admitted == s.consumer.admitted
       + (if taken.result.Success? && taken.result.value.Some? then [taken.result.value.value] else [])
  }

  lemma {:induction false} LastTake(s: System)
    requires Receiving(s) && s.consumer.next == s.sent
    ensures Received(s, Apply(s, TakeNext), Drain(s.consumer.attachment, Answers(s)))
    ensures Drain(s.consumer.attachment, Answers(s)).used == 1
  {
    AnswersEnd(s);
    assert s.consumer.admitted + [] == s.consumer.admitted;
  }

  lemma {:induction false} DecidingTake(s: System)
    requires Receiving(s) && Oldest(s) <= s.consumer.next < s.sent
    requires !Receive(s.consumer.attachment, s.log[s.consumer.next]).1.Passed?
    ensures Received(s, Apply(s, TakeNext), Drain(s.consumer.attachment, Answers(s)))
    ensures Drain(s.consumer.attachment, Answers(s)).used == 1
  {
    AnswersGoOn(s);
    var d := s.log[s.consumer.next];
    assert Receive(s.consumer.attachment, d).1.Admitted? ==> Receive(s.consumer.attachment, d).1 == Admitted(d);
    assert s.consumer.admitted + [] == s.consumer.admitted;
  }

  /** What one passed answer contributes to draining. */
  function AfterPassing(a: Attachment, answer: RingAnswer): Attachment {
    match answer
    case Lagged(missed) => Overran(a, missed)
    case Delivered(d) => Receive(a, d).0
    case _ => a
  }

  predicate Passes(a: Attachment, answer: RingAnswer) {
    answer.Lagged? || (answer.Delivered? && Receive(a, answer.delivery).1.Passed?)
  }

  lemma {:induction false} DrainGoesOn(a: Attachment, answers: seq<RingAnswer>)
    requires answers != [] && Passes(a, answers[0])
    ensures var rest := Drain(AfterPassing(a, answers[0]), answers[1..]);
            Drain(a, answers) == rest.(used := rest.used + 1)
  {
  }

  lemma {:induction false} PassedIsUnharmed(a: Attachment, d: Delivery)
    requires Receive(a, d).1.Passed?
    ensures Receive(a, d).0 == a.(pending := None)
  {
  }

  /** The step itself, on a lag or a redundant delivery. */
  lemma {:induction false} StepPasses(s: System)
    requires Receiving(s) && s.consumer.next < s.sent
    requires s.consumer.next < Oldest(s) || Receive(s.consumer.attachment, s.log[s.consumer.next]).1.Passed?
    ensures var t, answer := Apply(s, TakeNext), if s.consumer.next < Oldest(s)
                             then Lagged(Oldest(s) - s.consumer.next) else Delivered(s.log[s.consumer.next]);
            && Receiving(t) && t == s.(consumer := t.consumer)
            && t.consumer.base == s.consumer.base && t.consumer.admitted == s.consumer.admitted
            && s.consumer.next < t.consumer.next
            && Passes(s.consumer.attachment, answer)
            && t.consumer.attachment == AfterPassing(s.consumer.attachment, answer)
  {
    if Oldest(s) <= s.consumer.next {
      PassedIsUnharmed(s.consumer.attachment, s.log[s.consumer.next]);
    }
  }

  /** A lag or a redundant delivery: the receive goes on from the next state. */
  lemma {:induction false} PassingTake(s: System)
    requires Receiving(s) && s.consumer.next < s.sent
    requires s.consumer.next < Oldest(s) || Receive(s.consumer.attachment, s.log[s.consumer.next]).1.Passed?
    ensures var t := Apply(s, TakeNext);
            && Receiving(t) && t == s.(consumer := t.consumer)
            && t.consumer.base == s.consumer.base && t.consumer.admitted == s.consumer.admitted
            && s.consumer.next < t.consumer.next
            && (var rest := Drain(t.consumer.attachment, Answers(t));
                Drain(s.consumer.attachment, Answers(s)) == rest.(used := rest.used + 1))
  {
    StepPasses(s);
    AnswersGoOn(s);
    DrainGoesOn(s.consumer.attachment, Answers(s));
  }

  /** A receive is its steps: as many uninterrupted ring answers as draining uses leave the
      attachment that draining leaves, hand over the delivery it returns, and move nothing
      but the consumer. */
  lemma {:induction false} ReceiveIsItsSteps(s: System)
    requires Receiving(s)
    ensures var taken := Drain(s.consumer.attachment, Answers(s));
            Received(s, Exec(s, Takes(taken.used)), taken)
    decreases s.sent - s.consumer.next
  {
    var taken := Drain(s.consumer.attachment, Answers(s));
    var t := Apply(s, TakeNext);
    if s.consumer.next == s.sent {
      LastTake(s);
      TakeFirst(s, 1);
    } else if Oldest(s) <= s.consumer.next && !Receive(s.consumer.attachment, s.log[s.consumer.next]).1.Passed? {
      DecidingTake(s);
      TakeFirst(s, 1);
    } else {
      PassingTake(s);
      ReceiveIsItsSteps(t);
      TakeFirst(s, taken.used);
      var rest := Drain(t.consumer.attachment, Answers(t));
      ReceivedThrough(s, t, Exec(t, Takes(rest.used)), rest, taken);
    }
  }

  lemma {:induction false} ReceivedThrough(s: System, t: System, u: System, rest: Taken, taken: Taken)
    requires t == s.(consumer := t.consumer) && t.consumer.base == s.consumer.base
    requires t.consumer.admitted == s.consumer.admitted
    requires taken == rest.(used := rest.used + 1) && Received(t, u, rest)
    ensures Received(s, u, taken)
  {
  }

  // ---------------------------------------------------------------------------------
  // A loss of nothing
  // ---------------------------------------------------------------------------------

  /** A new book's writer over a ring of one, with its first consumer. */
  ghost function Beginning(market: MarketRef): System {
    var base := Base(View(NewBook(market)), 0);
    System(1, NewBook(market), Idle, [], 0, base, false, Consumer(false, 0, AttachTo(base.published), base, [], {}))
  }

  /** One resolution committed, published and sent. */
  function Resolves(resolution: string): seq<Action> {
    [Operate(Resolve(resolution)), PublishState, SendNext]
  }

  lemma {:induction false} ExecTwo(s: System, a: Action, b: Action)
    ensures Exec(s, [a, b]) == Apply(Apply(s, a), b)
  {
    ExecOneMore(s, [], a);
    ExecOneMore(s, [a], b);
    assert [] + [a] == [a] && [a] + [b] == [a, b];
  }

  lemma {:induction false} ExecThree(s: System, a: Action, b: Action, c: Action)
    ensures Exec(s, [a, b, c]) == Apply(Apply(Apply(s, a), b), c)
  {
    ExecTwo(s, a, b);
    ExecOneMore(s, [a, b], c);
    assert [a, b] + [c] == [a, b, c];
  }

  lemma {:induction false} ResolvesOne(s: System, resolution: string)
    requires s.phase == Idle && !s.writerGone && s.sent == |s.log|
    requires s.book.continuity.Intact? && s.book.continuity.nextPosition < U64_MAX
    ensures var at := s.book.continuity.nextPosition;
            var d := Resolved(s.book.revision, Cursor(s.book.continuity.epoch, at), resolution);
            var book := s.book.(continuity := Intact(s.book.continuity.epoch, at + 1));
            Exec(s, Resolves(resolution))
            == s.(book := book, log := s.log + [d], sent := s.sent + 1,
                  published := Base(View(book), |s.log| + 1))
  {
    ExecThree(s, Operate(Resolve(resolution)), PublishState, SendNext);
  }

  lemma {:induction false} LosesStream(s: System)
    requires s.phase == Idle && !s.writerGone && s.sent == |s.log| && s.book.continuity.Intact? && s.book.revision == 0
    ensures var book := s.book.(continuity := Lost(s.book.continuity.epoch, Gap), authority := Stale(AuthorityGap),
                                revision := 1);
            Exec(s, [Operate(ReportLoss(Gap, AuthorityGap)), PublishState])
            == s.(book := book, published := Base(View(book), |s.log|))
  {
    ExecTwo(s, Operate(ReportLoss(Gap, AuthorityGap)), PublishState);
    assert s.log + [] == s.log;
  }

  /** The consumer's part: reads the lost state, is told of the one it dropped, resumes on
      the second resolution. */
  lemma {:induction false} BlamesOverrun(s: System)
    requires s.capacity == 1 && s.sent == 2 && |s.log| == 2 && s.published.at == 2
    requires s.consumer.resubscribed && s.consumer.next == 0
    requires s.published.published.continuity == Lost(0, Gap)
    requires s.log[1].Resolved? && s.log[1].cursor == Cursor(0, 1)
    ensures var c := Exec(s, [ReadState, TakeNext, TakeNext]).consumer;
            && !c.resubscribed && c.base == s.published && OverrunStands(c)
            && c.dropped == Range(0, 1)
  {
    ExecThree(s, ReadState, TakeNext, TakeNext);
    var reread := Apply(s, ReadState);
    var lagged := Apply(reread, TakeNext);
    assert {} + Range(0, 1) == Range(0, 1);
    assert lagged.consumer == reread.consumer.(next := 1, attachment := Overran(reread.consumer.attachment, 1),
                                               dropped := Range(0, 1));
  }

  /** A reattach that takes its ring position, then two resolutions over a ring of one,
      then a loss of the stream, then the state read: the next resolution is called an
      overrun although the state contains everything ever dropped. */
  lemma {:induction false} SpuriousOverrun(market: MarketRef) returns (actions: seq<Action>)
    ensures Init(Beginning(market)) && AllActions(actions)
    ensures var c := Exec(Beginning(market), actions).consumer;
            && !c.resubscribed && c.base.published.continuity.Lost?
            && OverrunStands(c) && c.dropped != {} && !NeededWasDropped(c)
  {
    var s0 := Beginning(market);
    var lose := [Operate(ReportLoss(Gap, AuthorityGap)), PublishState];
    var receive := [ReadState, TakeNext, TakeNext];
    var resolved := ResolvesTwice(market);
    var s := Exec(s0, resolved);
    LosesStream(s);
    BlamesOverrun(Exec(s, lose));
    actions := resolved + lose + receive;
    ExecConcat(s0, resolved, lose);
    ExecConcat(s0, resolved + lose, receive);
    assert 0 in Range(0, 1);
  }

  /** A new ring position taken, then two resolutions sent past it. */
  lemma {:induction false} ResolvesTwice(market: MarketRef) returns (actions: seq<Action>)
    ensures AllActions(actions)
    ensures var s := Exec(Beginning(market), actions);
            && s.capacity == 1 && s.phase == Idle && !s.writerGone && s.sent == |s.log| == 2
            && s.consumer.resubscribed && s.consumer.next == 0
            && s.book.continuity == Intact(0, 2) && s.book.revision == 0
            && s.log[1].Resolved? && s.log[1].cursor == Cursor(0, 1)
  {
    var s0 := Beginning(market);
    var first := ResolvesOnce(market);
    ResolvesOne(Exec(s0, first), "b");
    actions := first + Resolves("b");
    ExecConcat(s0, first, Resolves("b"));
  }

  // ---------------------------------------------------------------------------------
  // A delivery of something already contained
  // ---------------------------------------------------------------------------------

  lemma {:induction false} TakesContained(s: System)
    requires s.capacity == 1 && s.sent == |s.log| == 1 && s.published.at == 1
    requires s.consumer.resubscribed && s.consumer.next == 0
    requires s.published.published.continuity == Lost(0, Gap)
    requires s.log[0].Resolved? && s.log[0].cursor == Cursor(0, 0)
    ensures var c := Exec(s, [ReadState, TakeNext]).consumer;
            && !c.resubscribed && c.base == s.published && c.attachment.lost.None? && c.admitted == [s.log[0]]
            && Exec(s, [ReadState, TakeNext]) == s.(consumer := c)
  {
    ExecTwo(s, ReadState, TakeNext);
  }

  /** A reattach that takes its ring position, one resolution, a loss of the stream, then
      the state read: the consumer is handed the resolution its state already contains. */
  lemma {:induction false} ContainedIsHandedOver(market: MarketRef) returns (actions: seq<Action>)
    ensures Init(Beginning(market)) && AllActions(actions)
    ensures var s := Exec(Beginning(market), actions);
            && !s.consumer.resubscribed && s.consumer.base.published.continuity.Lost?
            && s.consumer.attachment.lost.None?
            && s.consumer.base.at == |s.log| == 1 && s.consumer.admitted == s.log
  {
    var s0 := Beginning(market);
    var lose := [Operate(ReportLoss(Gap, AuthorityGap)), PublishState];
    var receive := [ReadState, TakeNext];
    var resolved := ResolvesOnce(market);
    var s := Exec(s0, resolved);
    LosesStream(s);
    TakesContained(Exec(s, lose));
    actions := resolved + lose + receive;
    ExecConcat(s0, resolved, lose);
    ExecConcat(s0, resolved + lose, receive);
  }

  /** A new ring position taken, then one resolution sent past it. */
  lemma {:induction false} ResolvesOnce(market: MarketRef) returns (actions: seq<Action>)
    ensures AllActions(actions)
    ensures var s := Exec(Beginning(market), actions);
            && s.capacity == 1 && s.phase == Idle && !s.writerGone && s.sent == |s.log| == 1
            && s.consumer.resubscribed && s.consumer.next == 0
            && s.book.continuity == Intact(0, 1) && s.book.revision == 0
            && s.log[0].Resolved? && s.log[0].cursor == Cursor(0, 0)
  {
    var s0 := Beginning(market);
    ExecOneMore(s0, [], Resubscribe);
    assert [] + [Resubscribe] == [Resubscribe];
    ResolvesOne(Exec(s0, [Resubscribe]), "a");
    actions := [Resubscribe] + Resolves("a");
    ExecConcat(s0, [Resubscribe], Resolves("a"));
  }
}
