/** How many deliveries a loss says were missed (src/observer.rs), in every interleaving. */
module MissedCounts {
  import opened Prelude
  import opened Book
  import opened Attachments
  import opened ObserverSystem

  /** A 64-bit count of `n` things. */
  function Saturated(n: nat): nat {
    if n > U64_MAX then U64_MAX else n
  }

  /** The ring dropped every delivery from `from` up to `to`, and not the one before: the
      unbroken run of drops that ends at `to`. */
  ghost predicate DroppedRun(dropped: set<nat>, from: nat, to: nat) {
    && from <= to
    && (forall m :: from <= m < to ==> m in dropped)
    && (from == 0 || from - 1 !in dropped)
  }

  /** The run that ends at a place is one only. */
  lemma {:induction false} RunIsUnique(dropped: set<nat>, from: nat, other: nat, to: nat)
    requires DroppedRun(dropped, from, to) && DroppedRun(dropped, other, to)
    ensures from == other
  {
    assert from < other ==> other - 1 in dropped;
    assert other < from ==> from - 1 in dropped;
  }

  /** A pending span counts the unbroken run of drops that ends where the consumer is. */
  ghost predicate PendingCounts(c: Consumer, from: nat) {
    from < c.next && DroppedRun(c.dropped, from, c.next) && c.attachment.pending == Some(Saturated(c.next - from))
  }

  /** A loss raised on the delivery just taken counts the run of drops right before it. */
  ghost predicate LossCounts(c: Consumer, from: nat) {
    && c.attachment.lost.Some? && c.attachment.lost.value.StreamLost?
    && 0 < c.next && DroppedRun(c.dropped, from, c.next - 1)
    && c.attachment.lost.value.missed == Saturated(c.next - 1 - from)
    && (c.attachment.lost.value.reason == Overrun ==> from < c.next - 1)
  }

  ghost predicate CountInv(c: Consumer) {
    && (c.attachment.lost.None? && c.attachment.pending.Some? ==> exists from :: PendingCounts(c, from))
    && (c.attachment.lost.None? && c.attachment.pending.None? ==> c.next == 0 || c.next - 1 !in c.dropped)
    && (c.attachment.lost.Some? && c.attachment.lost.value.StreamLost? ==> exists from :: LossCounts(c, from))
  }

  /** The run of drops that ends at the consumer, and the span that counts it. */
  ghost predicate SpanCounts(c: Consumer, from: nat) {
    && DroppedRun(c.dropped, from, c.next)
    && c.attachment.pending == if from < c.next then Some(Saturated(c.next - from)) else None
  }

  lemma {:induction false} RunBehind(c: Consumer) returns (from: nat)
    requires CountInv(c) && c.attachment.lost.None?
    ensures SpanCounts(c, from)
  {
    if c.attachment.pending.Some? {
      from :| PendingCounts(c, from);
    } else {
      from := c.next;
    }
  }

  lemma {:induction false} Accumulates(a: nat, b: nat)
    ensures SaturatingAdd(Saturated(a), b) == Saturated(a + b)
  {
  }

  lemma {:induction false} LagCounts(s: System)
    requires CountInv(s.consumer) && !s.consumer.resubscribed && s.consumer.attachment.lost.None?
    requires s.consumer.next < Oldest(s) && (forall m :: m in s.consumer.dropped ==> m < s.consumer.next)
    ensures CountInv(Took(s))
  {
    var c, d := s.consumer, Took(s);
    var from := RunBehind(c);
    Accumulates(c.next - from, Oldest(s) - c.next);
    assert forall m :: from <= m < d.next ==> m in d.dropped;
    assert PendingCounts(d, from);
  }

  /** What receiving a delivery does to the count. */
  lemma {:induction false} ReceiveCounts(a: Attachment, d: Delivery)
    requires a.lost.None?
    ensures var (after, answer) := Receive(a, d);
            && after.pending.None?
            && (answer.Refused? <==> after.lost.Some?)
            && (answer.Refused? ==>
                  && after.lost.value == answer.error && answer.error.StreamLost?
                  && answer.error.missed == (if a.pending.Some? then a.pending.value else 0)
                  && (answer.error.reason == Overrun ==> a.pending.Some?))
  {
  }

  lemma {:induction false} DeliveryCounts(s: System)
    requires CountInv(s.consumer) && !s.consumer.resubscribed && s.consumer.attachment.lost.None?
    requires Oldest(s) <= s.consumer.next < s.sent <= |s.log|
    requires forall m :: m in s.consumer.dropped ==> m < s.consumer.next
    ensures CountInv(Took(s))
  {
    var c, d := s.consumer, Took(s);
    var from := RunBehind(c);
    ReceiveCounts(c.attachment, s.log[c.next]);
    if d.attachment.lost.Some? {
      assert LossCounts(d, from);
    }
  }

  lemma {:induction false} TakeCounts(s: System)
    requires Inv(s) && !s.consumer.resubscribed && CountInv(s.consumer)
    ensures CountInv(Took(s))
  {
    var c := s.consumer;
    if c.attachment.lost.None? {
      if c.next < Oldest(s) {
        LagCounts(s);
      } else if c.next < s.sent {
        DeliveryCounts(s);
      }
    }
  }

  lemma {:induction false} ExecCounts(start: System, actions: seq<Action>)
    requires Init(start) && AllActions(actions)
    ensures var s := Exec(start, actions);
            Inv(s) && (!s.consumer.resubscribed ==> CountInv(s.consumer))
    decreases |actions|
  {
    ExecInv(start, actions);
    if actions != [] {
      var earlier, last := actions[..|actions| - 1], actions[|actions| - 1];
      ExecCounts(start, earlier);
      StepCountsOn(Exec(start, earlier), last);
    }
  }

  lemma {:induction false} StepCountsOn(s: System, action: Action)
    requires Inv(s) && (!s.consumer.resubscribed ==> CountInv(s.consumer))
    ensures var t := Apply(s, action);
            !t.consumer.resubscribed ==> CountInv(t.consumer)
  {
    if action == TakeNext {
      if !s.consumer.resubscribed {
        TakeCounts(s);
      }
    } else if action == ReadState {
      assert s.consumer.resubscribed ==> Reread(s).dropped == {};
    } else {
      OthersLeaveConsumer(s, action);
    }
  }

  lemma {:induction false} OthersLeaveConsumer(s: System, action: Action)
    requires action != TakeNext && action != ReadState
    ensures action == Resubscribe ==> Apply(s, action).consumer.resubscribed
    ensures action != Resubscribe ==> Apply(s, action).consumer == s.consumer
  {
  }

  /** In every interleaving an unresolved span counts exactly the deliveries the ring
      dropped since the last one it handed over, saturated at 64 bits, and there is none
      when it dropped none. */
  lemma {:induction false} PendingIsExact(start: System, actions: seq<Action>)
    requires Init(start) && AllActions(actions)
    ensures var c := Exec(start, actions).consumer;
            !c.resubscribed && c.attachment.lost.None? ==> exists from :: SpanCounts(c, from)
  {
    ExecCounts(start, actions);
    var c := Exec(start, actions).consumer;
    if !c.resubscribed && c.attachment.lost.None? {
      var from := RunBehind(c);
    }
  }

  /** In every interleaving a standing loss reports exactly the deliveries dropped right
      before the one it was raised on: at least one for an overrun, none for a rebase that
      found no span pending. */
  lemma {:induction false} MissedIsExact(start: System, actions: seq<Action>)
    requires Init(start) && AllActions(actions)
    ensures var c := Exec(start, actions).consumer;
            !c.resubscribed && c.attachment.lost.Some? && c.attachment.lost.value.StreamLost? ==>
              exists from :: LossCounts(c, from)
  {
    ExecCounts(start, actions);
  }
}
