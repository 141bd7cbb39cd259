/** The one writer of a book and its consumer surface (src/observer.rs): state is
    published before the deliveries of the same commit are sent. */
module BookWriters {
  import opened Prelude
  import opened Observation
  import opened Book
  import opened Published
  import opened OrderBooks
  import opened ObserverSystem

  /** What the caller of a quiet operation is told: whether anything changed, or the
      book's own refusal. */
  function Reported(outcome: Result<Option<BookState>, BookError>): Result<bool, BookError> {
    match outcome
    case Success(change) => Success(change.Some?)
    case Failure(error) => Failure(error)
  }

  class BookWriter {
    const book: OrderBook
    /** The latest-state cell. */
    var state: PublishedBook
    /** Everything handed to the ring, oldest first. */
    var outbox: seq<Delivery>

    /** Between operations the cell holds the book's own view. */
    ghost predicate Valid()
      reads this, book
    {
      state == View(book.State())
    }

    constructor (book: OrderBook)
      ensures Valid() && this.book == book && outbox == []
    {
      this.book := book;
      var view := book.Publish();
      state := view;
      outbox := [];
    }

    method PublishThenSend(commit: Commit)
      modifies this
      ensures Valid() && outbox == old(outbox) + Deliveries(commit.revision, commit.records)
    {
      state := book.Publish();
      for i := 0 to |commit.records|
        invariant state == View(book.State())
        invariant outbox == old(outbox) + Deliveries(commit.revision, commit.records)[..i]
      {
        var record := commit.records[i];
        outbox := outbox + [Mutated(commit.revision, record.cursor, record.mutation)];
      }
      ghost var all := Deliveries(commit.revision, commit.records);
      assert all[..|all|] == all;
    }

    method ApplySnapshot(c: Candidate) returns (r: Result<Commit, BookError>)
      requires Valid()
      modifies this, book
      ensures Valid()
      ensures var e := Step(old(book.State()), Input.ApplySnapshot(c));
              book.State() == e.book && outbox == old(outbox) + e.deliveries
      ensures match SnapshotOutcome(old(book.State()), c)
              case Success(accepted) => r == Success(accepted.commit)
              case Failure(error) => r == Failure(error)
    {
      r := book.ApplySnapshot(c);
      if r.Success? {
        PublishThenSend(r.value);
      }
    }

    method ApplySourceDelta(c: Candidate) returns (r: Result<Commit, BookError>)
      requires Valid()
      modifies this, book
      ensures Valid()
      ensures var e := Step(old(book.State()), ApplyDelta(c));
              book.State() == e.book && outbox == old(outbox) + e.deliveries
      ensures match DeltaOutcome(old(book.State()), c)
              case Success(accepted) => r == Success(accepted.commit)
              case Failure(error) => r == Failure(error)
    {
      r := book.ApplySourceDelta(c);
      if r.Success? {
        PublishThenSend(r.value);
      }
    }

    method PublishResolution(resolution: string) returns (r: Result<Delivery, BookError>)
      requires Valid()
      modifies this, book
      ensures Valid()
      ensures var e := Step(old(book.State()), Resolve(resolution));
              && book.State() == e.book
              && outbox == old(outbox) + e.deliveries
              && match StreamEventOutcome(old(book.State()))
                 case Success(_) => r.Success? && e.deliveries == [r.value]
                 case Failure(error) => r == Failure(error) && e.deliveries == []
    {
      var cursor := book.NoteStreamEvent();
      if cursor.Failure? {
        return Failure(cursor.error);
      }
      var delivery := Resolved(book.revision, cursor.value, resolution);
      state := book.Publish();
      outbox := outbox + [delivery];
      return Success(delivery);
    }

    method UnsubscribeBook() returns (r: Result<bool, BookError>)
      requires Valid()
      modifies this, book
      ensures Valid() && outbox == old(outbox)
      ensures book.State() == Step(old(book.State()), Unsubscribe).book
      ensures r == Reported(UnsubscribeOutcome(old(book.State())))
    {
      r := book.Unsubscribe();
      if r.Success? && r.value {
        state := book.Publish();
      }
    }

    method ReportContinuityLoss(continuity: ContinuityReason, authority: AuthorityReason)
      returns (r: Result<bool, BookError>)
      requires Valid()
      modifies this, book
      ensures Valid() && outbox == old(outbox)
      ensures book.State() == Step(old(book.State()), ReportLoss(continuity, authority)).book
      ensures r == Reported(LossOutcome(old(book.State()), continuity, authority))
    {
      r := book.ReportContinuityLoss(continuity, authority);
      if r.Success? && r.value {
        state := book.Publish();
      }
    }
  }

  // ---------------------------------------------------------------------------------
  // A whole operation is its small steps
  // ---------------------------------------------------------------------------------

  ghost function Sends(n: nat): seq<Action> {
    seq(n, _ => SendNext)
  }

  lemma {:induction false} ExecSends(s: System, n: nat)
    requires s.sent + n <= |s.log|
    requires s.phase == (if s.sent == |s.log| then Idle else Sending)
    ensures Exec(s, Sends(n))
         == s.(sent := s.sent + n, phase := if s.sent + n == |s.log| then Idle else Sending)
    decreases n
  {
    if n != 0 {
      ExecSends(s, n - 1);
      assert Sends(n)[..n - 1] == Sends(n - 1);
    }
  }

  /** Run without interruption from an idle writer, the steps of one operation leave
      exactly what the writer's method leaves: the new book, its view published, every
      delivery sent, the writer idle again. */
  lemma {:induction false} OperationIsItsSteps(s: System, input: Input)
    requires Inv(s) && s.phase == Idle && !s.writerGone && IsInput(input)
    requires Step(s.book, input).book != s.book
    ensures var e := Step(s.book, input);
            var log := s.log + e.deliveries;
            Exec(s, [Operate(input), PublishState] + Sends(|e.deliveries|))
            == s.(book := e.book, log := log, sent := |log|, published := Base(View(e.book), |log|))
  {
    var e := Step(s.book, input);
    var begin := [Operate(input), PublishState];
    ExecConcat(s, begin, Sends(|e.deliveries|));
    assert begin[..1] == [Operate(input)];
    assert [Operate(input)][..0] == [];
    assert Exec(s, []) == s;
    assert Exec(s, [Operate(input)]) == Operated(s, input);
    assert Exec(s, begin) == Publicized(Operated(s, input));
    ExecSends(Exec(s, begin), |e.deliveries|);
  }
}
