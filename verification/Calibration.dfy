/** The calibration seqlock (examples/bench_consumer.ts): a keeper publishes an offset, a
    rate and a generation between two bumps of a version counter; a reader copies them
    lock-free and keeps the copy only if the version did not move.  All accesses are
    sequentially consistent atomics, so every interleaving of single accesses is a run. */
module Calibrations {

  const TWO_32: nat := 0x1_0000_0000
  const TWO_31: nat := 0x8000_0000

  datatype Calibration = Calibration(offset: int, rate: int, generation: int)

  /** What an `Int32Array` cell holds after a number is stored into it. */
  function ToInt32(n: nat): int {
    if n % TWO_32 < TWO_31 then n % TWO_32 else n % TWO_32 - TWO_32
  }

  /** The keeper's place between `calibrate`'s shared accesses. */
  datatype KeeperAt = Resting | Bumped | OffsetStored | RateStored | DerivationsStored | GenerationStored

  /** The reader's place inside `readCalibration`, with what it has loaded.  `since` is
      how many bumps had happened when its first load of the version was made. */
  datatype ReaderAt =
    | Opening
    | LoadOffset(since: nat)
    | LoadRate(since: nat, offset: int)
    | LoadGeneration(since: nat, offset: int, rate: int)
    | Closing(since: nat, offset: int, rate: int, generation: int)

  /** A value returned, with the bump counts at its first and last load of the version. */
  datatype Return = Return(value: Calibration, since: nat, closed: nat)

  /** `bumps` counts version increments without wrapping; the cell holds it modulo 2^32.
      `history` lists every calibration whose publication has begun, after the initial
      cell contents. */
  datatype Shared = Shared(
    bumps: nat,
    offset: int,
    rate: int,
    generation: int,
    keeper: KeeperAt,
    reader: ReaderAt,
    history: seq<Calibration>,
    returned: seq<Return>)

  function Version(bumps: nat): int {
    ToInt32(bumps)
  }

  datatype Action = Begin(offset: int, rate: int) | Keep | Read

  // ---------------------------------------------------------------------------------
  // Steps
  // ---------------------------------------------------------------------------------

  /** The first bump of a publication; its generation is one more than the last. */
  function Begun(s: Shared, offset: int, rate: int): Shared {
    if s.keeper != Resting then s
    else s.(bumps := s.bumps + 1, keeper := Bumped,
            history := s.history + [Calibration(offset, rate, ToInt32(|s.history|))])
  }

  /** The keeper's next store, or its closing bump. */
  function Kept(s: Shared): Shared
    requires s.history != []
  {
    var latest := s.history[|s.history| - 1];
    match s.keeper
    case Resting => s
    case Bumped => s.(offset := latest.offset, keeper := OffsetStored)
    case OffsetStored => s.(rate := latest.rate, keeper := RateStored)
    case RateStored => s.(keeper := DerivationsStored)  // stores a cell the reader never loads
    case DerivationsStored => s.(generation := latest.generation, keeper := GenerationStored)
    case GenerationStored => s.(bumps := s.bumps + 1, keeper := Resting)
  }

  /** The reader's next load; an odd version, or one that moved, starts over. */
  function ReadOne(s: Shared): Shared {
    match s.reader
    case Opening => if Version(s.bumps) % 2 == 1 then s else s.(reader := LoadOffset(s.bumps))
    case LoadOffset(since) => s.(reader := LoadRate(since, s.offset))
    case LoadRate(since, offset) => s.(reader := LoadGeneration(since, offset, s.rate))
    case LoadGeneration(since, offset, rate) => s.(reader := Closing(since, offset, rate, s.generation))
    case Closing(since, offset, rate, generation) =>
      if Version(s.bumps) != Version(since) then s.(reader := Opening)
      else s.(reader := Opening,
              returned := s.returned + [Return(Calibration(offset, rate, generation), since, s.bumps)])
  }

  function Apply(s: Shared, action: Action): Shared
    requires s.history != []
  {
    match action
    case Begin(offset, rate) => Begun(s, offset, rate)
    case Keep => Kept(s)
    case Read => ReadOne(s)
  }

  /** A zeroed buffer, the keeper about to start, the reader about to read. */
  const START := Shared(0, 0, 0, 0, Resting, Opening, [Calibration(0, 0, 0)], [])

  function Exec(actions: seq<Action>): (s: Shared)
    ensures s.history != []
  {
    if actions == [] then START
    else Apply(Exec(actions[..|actions| - 1]), actions[|actions| - 1])
  }

  // ---------------------------------------------------------------------------------
  // Invariant
  // ---------------------------------------------------------------------------------

  /** At rest the cells are the latest calibration whole, and bumps are even. */
  ghost predicate KeeperInv(s: Shared) {
    && s.history != []
    && (forall k :: 0 <= k < |s.history| ==> s.history[k].generation == ToInt32(k))
    && (if s.keeper == Resting then
          && s.bumps == 2 * (|s.history| - 1)
          && Calibration(s.offset, s.rate, s.generation) == s.history[|s.history| - 1]
        else s.bumps == 2 * (|s.history| - 1) - 1)
    && (s.keeper == GenerationStored ==>
          Calibration(s.offset, s.rate, s.generation) == s.history[|s.history| - 1])
    && (s.keeper in {OffsetStored, RateStored, DerivationsStored} ==> s.offset == s.history[|s.history| - 1].offset)
    && (s.keeper in {RateStored, DerivationsStored} ==> s.rate == s.history[|s.history| - 1].rate)
  }

  /** As long as no bump has happened since the read began, what it loaded is current. */
  ghost predicate ReaderInv(s: Shared) {
    s.reader != Opening ==>
      && s.reader.since % 2 == 0
      && s.reader.since <= s.bumps
      && (s.reader.since == s.bumps ==>
            && (!s.reader.LoadOffset? ==> s.reader.offset == s.offset)
            && (s.reader.LoadGeneration? || s.reader.Closing? ==> s.reader.rate == s.rate)
            && (s.reader.Closing? ==> s.reader.generation == s.generation))
  }

  /** The read was not lapped by a full turn of the version counter. */
  ghost predicate NotLapped(r: Return) {
    r.closed - r.since < TWO_32
  }

  ghost predicate ReturnInv(r: Return, history: seq<Calibration>, bumps: nat) {
    && r.since <= r.closed <= bumps
    && (NotLapped(r) ==> r.since == r.closed && r.since / 2 < |history| && r.value == history[r.since / 2])
  }

  ghost predicate ReturnsInv(s: Shared) {
    && (forall i :: 0 <= i < |s.returned| ==> ReturnInv(s.returned[i], s.history, s.bumps))
    && (forall i, j :: 0 <= i < j < |s.returned| ==> s.returned[i].closed <= s.returned[j].since)
    && (s.reader != Opening ==> forall i :: 0 <= i < |s.returned| ==> s.returned[i].closed <= s.reader.since)
  }

  ghost predicate Inv(s: Shared) {
    KeeperInv(s) && ReaderInv(s) && ReturnsInv(s)
  }

  lemma {:induction false} VersionParity(bumps: nat)
    ensures Version(bumps) % 2 == bumps % 2
  {
  }

  /** Two bump counts less than a full turn apart share a version only if they are one. */
  lemma {:induction false} VersionTells(since: nat, bumps: nat)
    requires since <= bumps < since + TWO_32
    requires Version(since) == Version(bumps)
    ensures since == bumps
  {
  }

  lemma {:induction false} BeginKeeps(s: Shared, offset: int, rate: int)
    requires Inv(s)
    ensures Inv(Begun(s, offset, rate))
  {
    var t := Begun(s, offset, rate);
    forall i | 0 <= i < |s.returned|
      ensures ReturnInv(t.returned[i], t.history, t.bumps)
    {
      assert ReturnInv(s.returned[i], s.history, s.bumps);
    }
  }

  lemma {:induction false} KeepKeeps(s: Shared)
    requires Inv(s)
    ensures Inv(Kept(s))
  {
    var t := Kept(s);
    forall i | 0 <= i < |s.returned|
      ensures ReturnInv(t.returned[i], t.history, t.bumps)
    {
      assert ReturnInv(s.returned[i], s.history, s.bumps);
    }
  }

  lemma {:induction false} CloseReturns(s: Shared)
    requires Inv(s) && s.reader.Closing? && Version(s.bumps) == Version(s.reader.since)
    ensures ReturnInv(
              Return(Calibration(s.reader.offset, s.reader.rate, s.reader.generation), s.reader.since, s.bumps),
              s.history, s.bumps)
  {
    if s.bumps < s.reader.since + TWO_32 {
      VersionTells(s.reader.since, s.bumps);
    }
  }

  lemma {:induction false} ReadKeeps(s: Shared)
    requires Inv(s)
    ensures Inv(ReadOne(s))
  {
    if s.reader == Opening {
      VersionParity(s.bumps);
      assert forall i :: 0 <= i < |s.returned| ==> ReturnInv(s.returned[i], s.history, s.bumps);
    }
    if s.reader.Closing? && Version(s.bumps) == Version(s.reader.since) {
      CloseReturns(s);
    }
  }

  lemma {:induction false} ExecInv(actions: seq<Action>)
    ensures Inv(Exec(actions))
    decreases |actions|
  {
    if actions != [] {
      var prefix, last := actions[..|actions| - 1], actions[|actions| - 1];
      ExecInv(prefix);
      match last
      case Begin(offset, rate) => BeginKeeps(Exec(prefix), offset, rate);
      case Keep => KeepKeeps(Exec(prefix));
      case Read => ReadKeeps(Exec(prefix));
    }
  }

  // ---------------------------------------------------------------------------------
  // What the keeper was told
  // ---------------------------------------------------------------------------------

  /** How many accesses of the publication under way are still to come. */
  function Remaining(actions: seq<Action>): nat {
    if actions == [] then 0
    else
      var before, last := Remaining(actions[..|actions| - 1]), actions[|actions| - 1];
      if last.Begin? && before == 0 then 5
      else if last.Keep? && before > 0 then before - 1
      else before
  }

  /** Which actions began a publication: those that found the last one finished. */
  function Beginnings(actions: seq<Action>): (index: seq<nat>)
    ensures forall k :: 0 <= k < |index| ==> index[k] < |actions| && actions[index[k]].Begin?
    ensures forall k, l :: 0 <= k < l < |index| ==> index[k] < index[l]
  {
    if actions == [] then []
    else
      var n := |actions| - 1;
      var earlier := Beginnings(actions[..n]);
      assert forall k :: 0 <= k < |earlier| ==> actions[..n][earlier[k]] == actions[earlier[k]];
      if actions[n].Begin? && Remaining(actions[..n]) == 0 then earlier + [n] else earlier
  }

  function StoresLeft(k: KeeperAt): nat {
    match k
    case Resting => 0
    case Bumped => 5
    case OffsetStored => 4
    case RateStored => 3
    case DerivationsStored => 2
    case GenerationStored => 1
  }

  lemma {:induction false} KeeperIsAt(actions: seq<Action>)
    ensures StoresLeft(Exec(actions).keeper) == Remaining(actions)
    decreases |actions|
  {
    if actions != [] {
      KeeperIsAt(actions[..|actions| - 1]);
    }
  }

  /** The `k`-th calibration: the initial contents, then what the `k`-th publication was
      begun with, under generation `k` as a 32-bit cell holds it. */
  ghost predicate Told(actions: seq<Action>, c: Calibration, k: nat) {
    if k == 0 then c == Calibration(0, 0, 0)
    else
      && k <= |Beginnings(actions)|
      && c.offset == actions[Beginnings(actions)[k - 1]].offset
      && c.rate == actions[Beginnings(actions)[k - 1]].rate
      && c.generation == ToInt32(k)
  }

  lemma {:induction false} ToldStays(actions: seq<Action>, c: Calibration, k: nat)
    requires actions != [] && Told(actions[..|actions| - 1], c, k)
    ensures Told(actions, c, k)
  {
    var n := |actions| - 1;
    if k > 0 {
      var i := Beginnings(actions[..n])[k - 1];
      assert Beginnings(actions)[k - 1] == i;
      assert actions[..n][i] == actions[i];
    }
  }

  /** One more action either begins a publication, which is recorded, or records nothing. */
  lemma {:induction false} HistoryStep(actions: seq<Action>)
    requires actions != []
    ensures var n := |actions| - 1;
            var before := Exec(actions[..n]).history;
            if actions[n].Begin? && Remaining(actions[..n]) == 0 then
              && Beginnings(actions) == Beginnings(actions[..n]) + [n]
              && Exec(actions).history
                 == before + [Calibration(actions[n].offset, actions[n].rate, ToInt32(|before|))]
            else
              Beginnings(actions) == Beginnings(actions[..n]) && Exec(actions).history == before
  {
    KeeperIsAt(actions[..|actions| - 1]);
  }

  /** Over any run the published calibrations are, in order, what the publications were
      begun with. */
  lemma {:induction false} HistoryIsTold(actions: seq<Action>)
    ensures |Exec(actions).history| == |Beginnings(actions)| + 1
    ensures forall k :: 0 <= k < |Exec(actions).history| ==> Told(actions, Exec(actions).history[k], k)
    decreases |actions|
  {
    if actions != [] {
      var n := |actions| - 1;
      var before, after := Exec(actions[..n]).history, Exec(actions).history;
      HistoryIsTold(actions[..n]);
      HistoryStep(actions);
      forall k | 0 <= k < |after|
        ensures Told(actions, after[k], k)
      {
        if k < |before| {
          ToldStays(actions, before[k], k);
        }
      }
    }
  }

  // ---------------------------------------------------------------------------------
  // No torn calibration
  // ---------------------------------------------------------------------------------

  /** In every interleaving, a read not lapped by the version counter returns, whole, the
      calibration that stood when it began: the initial one, or the offset and the rate
      that one publication was begun with, under its generation. */
  lemma {:induction false} NoTornCalibration(actions: seq<Action>, i: nat)
    requires i < |Exec(actions).returned|
    requires NotLapped(Exec(actions).returned[i])
    ensures var r := Exec(actions).returned[i];
            r.since / 2 <= |Beginnings(actions)| && Told(actions, r.value, r.since / 2)
  {
    ExecInv(actions);
    HistoryIsTold(actions);
    assert ReturnInv(Exec(actions).returned[i], Exec(actions).history, Exec(actions).bumps);
  }

  /** Successive reads never go back to an earlier publication. */
  lemma {:induction false} ReadsNeverGoBack(actions: seq<Action>, i: nat, j: nat)
    requires i <= j < |Exec(actions).returned|
    requires NotLapped(Exec(actions).returned[i]) && NotLapped(Exec(actions).returned[j])
    ensures var s := Exec(actions);
            var k, l := s.returned[i].since / 2, s.returned[j].since / 2;
            && k <= l < |s.history|
            && s.returned[i].value == s.history[k] && s.history[k].generation == ToInt32(k)
            && s.returned[j].value == s.history[l] && s.history[l].generation == ToInt32(l)
  {
    ExecInv(actions);
    var s := Exec(actions);
    assert ReturnInv(s.returned[i], s.history, s.bumps);
    assert ReturnInv(s.returned[j], s.history, s.bumps);
    assert i < j ==> s.returned[i].closed <= s.returned[j].since;
    Halves(s.returned[i].since, s.returned[j].since);
  }

  /** While fewer than 2^31 calibrations have begun no read can be lapped, every read is
      whole, and successive reads never go back a generation. */
  lemma {:induction false} GenerationsNeverDecrease(actions: seq<Action>, i: nat, j: nat)
    requires i <= j < |Exec(actions).returned|
    requires |Exec(actions).history| <= TWO_31
    ensures var s := Exec(actions);
            && NotLapped(s.returned[i])
            && s.returned[i].value in s.history && s.returned[j].value in s.history
            && s.returned[i].value.generation <= s.returned[j].value.generation
  {
    ExecInv(actions);
    var s := Exec(actions);
    assert ReturnInv(s.returned[i], s.history, s.bumps);
    assert ReturnInv(s.returned[j], s.history, s.bumps);
    ReadsNeverGoBack(actions, i, j);
    SmallToInt32(s.returned[i].since / 2);
    SmallToInt32(s.returned[j].since / 2);
  }

  lemma {:induction false} Halves(a: nat, b: nat)
    requires a <= b
    ensures a / 2 <= b / 2
  {
  }

  lemma {:induction false} SmallToInt32(n: nat)
    ensures n < TWO_31 ==> ToInt32(n) == n
  {
  }

  /** How often the 32-bit generation cell has come round at the `n`-th publication. */
  function Turns(n: nat): nat {
    (n + TWO_31) / TWO_32
  }

  lemma {:induction false} Divided(x: int, q: int, r: int)
    requires x == TWO_32 * q + r && 0 <= r < TWO_32
    ensures x / TWO_32 == q && x % TWO_32 == r
  {
  }

  /** Quotient and remainder of the count half a turn on. */
  lemma {:induction false} HalfATurnOn(n: nat)
    ensures var q, r := n / TWO_32, n % TWO_32;
            Turns(n) == (if r < TWO_31 then q else q + 1) && Phase(n) == (if r < TWO_31 then r + TWO_31 else r - TWO_31)
  {
    var q, r := n / TWO_32, n % TWO_32;
    assert n == TWO_32 * q + r;
    if r < TWO_31 {
      Divided(n + TWO_31, q, r + TWO_31);
    } else {
      Divided(n + TWO_31, q + 1, r - TWO_31);
    }
  }

  lemma {:induction false} ToInt32Unwinds(n: nat)
    ensures ToInt32(n) == n - TWO_32 * Turns(n)
  {
    HalfATurnOn(n);
    assert n == TWO_32 * (n / TWO_32) + n % TWO_32;
  }

  lemma {:induction false} TurnsGrow(k: nat, l: nat)
    requires k <= l
    ensures Turns(k) <= Turns(l)
  {
  }

  /** How far into its turn the generation cell is at the `n`-th publication. */
  function Phase(n: nat): nat {
    (n + TWO_31) % TWO_32
  }

  lemma {:induction false} ToInt32IsPhase(n: nat)
    ensures ToInt32(n) == Phase(n) - TWO_31
  {
    HalfATurnOn(n);
  }

  /** Beyond that, exactly when the numbers still ascend between two unlapped reads: when
      the later publication is no earlier in its turn of the generation cell; with fewer
      than 2^32 publications from one to the other, when the cell did not come round. */
  lemma {:induction false} GenerationOrderIsExact(actions: seq<Action>, i: nat, j: nat)
    requires i <= j < |Exec(actions).returned|
    requires NotLapped(Exec(actions).returned[i]) && NotLapped(Exec(actions).returned[j])
    ensures var s := Exec(actions);
            var k, l := s.returned[i].since / 2, s.returned[j].since / 2;
            var ascends := s.returned[i].value.generation <= s.returned[j].value.generation;
            && (ascends <==> Phase(k) <= Phase(l))
            && (l - k < TWO_32 ==> (ascends <==> Turns(k) == Turns(l)))
  {
    ReadsNeverGoBack(actions, i, j);
    var k, l := Exec(actions).returned[i].since / 2, Exec(actions).returned[j].since / 2;
    ToInt32Unwinds(k);
    ToInt32Unwinds(l);
    TurnsGrow(k, l);
    ToInt32IsPhase(k);
    ToInt32IsPhase(l);
  }

  // ---------------------------------------------------------------------------------
  // Why lapping is excluded
  // ---------------------------------------------------------------------------------

  lemma {:induction false} ExecOneMore(actions: seq<Action>, action: Action)
    ensures Exec(actions + [action]) == Apply(Exec(actions), action)
  {
    var all := actions + [action];
    assert all[..|all| - 1] == actions;
  }

  /** One whole publication appended to a run. */
  function Round(actions: seq<Action>): seq<Action> {
    actions + [Begin(1, 1)] + [Keep] + [Keep] + [Keep] + [Keep] + [Keep]
  }

  function Rounds(actions: seq<Action>, n: nat): seq<Action> {
    if n == 0 then actions else Round(Rounds(actions, n - 1))
  }

  lemma {:induction false} RoundPublishes(actions: seq<Action>)
    requires Exec(actions).keeper == Resting
    ensures var s := Exec(actions);
            var generation := ToInt32(|s.history|);
            Exec(Round(actions))
            == s.(bumps := s.bumps + 2, offset := 1, rate := 1, generation := generation,
                  history := s.history + [Calibration(1, 1, generation)])
  {
    var a1 := actions + [Begin(1, 1)];
    var a2 := a1 + [Keep];
    var a3 := a2 + [Keep];
    var a4 := a3 + [Keep];
    var a5 := a4 + [Keep];
    ExecOneMore(actions, Begin(1, 1));
    ExecOneMore(a1, Keep);
    ExecOneMore(a2, Keep);
    ExecOneMore(a3, Keep);
    ExecOneMore(a4, Keep);
    ExecOneMore(a5, Keep);
    FiveStores(Begun(Exec(actions), 1, 1));
  }

  /** The five accesses that follow the first bump. */
  lemma {:induction false} FiveStores(s: Shared)
    requires s.keeper == Bumped && s.history != []
    ensures var latest := s.history[|s.history| - 1];
            Kept(Kept(Kept(Kept(Kept(s)))))
            == s.(bumps := s.bumps + 1, offset := latest.offset, rate := latest.rate,
                  generation := latest.generation, keeper := Resting)
  {
    var latest := s.history[|s.history| - 1];
    assert Kept(Kept(s)) == s.(offset := latest.offset, rate := latest.rate, keeper := RateStored);
    assert Kept(Kept(Kept(Kept(s))))
        == s.(offset := latest.offset, rate := latest.rate, generation := latest.generation,
              keeper := GenerationStored);
  }

  lemma {:induction false} RoundsPublish(actions: seq<Action>, n: nat)
    requires Exec(actions).keeper == Resting && Exec(actions).bumps == 0 && |Exec(actions).history| == 1
    ensures var s, t := Exec(actions), Exec(Rounds(actions, n));
            && t.keeper == Resting && t.reader == s.reader && t.returned == s.returned
            && t.bumps == 2 * n && |t.history| == n + 1
            && t.history[0] == s.history[0]
            && (forall k :: 1 <= k < |t.history| ==> t.history[k].offset == 1)
            && (0 < n ==> t.rate == 1)
    decreases n
  {
    if n != 0 {
      RoundsPublish(actions, n - 1);
      RoundPublishes(Rounds(actions, n - 1));
    }
  }

  /** A read stopped after its first two loads, before anything was published. */
  lemma {:induction false} HalfARead() returns (actions: seq<Action>)
    ensures Exec(actions) == START.(reader := LoadRate(0, 0))
  {
    ExecOneMore([], Read);
    ExecOneMore([Read], Read);
    assert [] + [Read] == [Read];
    actions := [Read] + [Read];
  }

  /** The same read finished over a version cell that has come round once. */
  lemma {:induction false} RestOfARead(before: seq<Action>) returns (actions: seq<Action>)
    requires var s := Exec(before);
             s.reader == LoadRate(0, 0) && s.bumps == TWO_32 && s.rate == 1 && s.returned == []
    ensures var s := Exec(actions);
            && s.history == Exec(before).history
            && s.returned == [Return(Calibration(0, 1, Exec(before).generation), 0, TWO_32)]
  {
    var a1 := before + [Read];
    var a2 := a1 + [Read];
    actions := a2 + [Read];
    ExecOneMore(before, Read);
    ExecOneMore(a1, Read);
    ExecOneMore(a2, Read);
  }

  /** A read lapped by exactly one turn of the version counter can be torn: an old offset
      with a new rate, a calibration nobody published. */
  lemma {:induction false} LappedReadCanTear() returns (actions: seq<Action>)
    ensures var s := Exec(actions);
            && |s.returned| == 1
            && s.returned[0].closed - s.returned[0].since == TWO_32
            && s.returned[0].value !in s.history
  {
    var half := HalfARead();
    RoundsPublish(half, TWO_31);
    actions := RestOfARead(Rounds(half, TWO_31));
  }

  lemma {:induction false} FiveLoads(s: Shared)
    requires s.reader == Opening && s.bumps % 2 == 0
    ensures ReadOne(ReadOne(ReadOne(ReadOne(ReadOne(s)))))
         == s.(returned := s.returned + [Return(Calibration(s.offset, s.rate, s.generation), s.bumps, s.bumps)])
  {
    VersionParity(s.bumps);
    assert ReadOne(ReadOne(s)) == s.(reader := LoadRate(s.bumps, s.offset));
    assert ReadOne(ReadOne(ReadOne(ReadOne(s)))) == s.(reader := Closing(s.bumps, s.offset, s.rate, s.generation));
  }

  /** One undisturbed read of a resting calibration. */
  lemma {:induction false} WholeRead(before: seq<Action>) returns (actions: seq<Action>)
    requires Exec(before).reader == Opening && Exec(before).bumps % 2 == 0
    ensures var s := Exec(before);
            Exec(actions)
            == s.(returned := s.returned + [Return(Calibration(s.offset, s.rate, s.generation), s.bumps, s.bumps)])
  {
    FiveLoads(Exec(before));
    var a1 := ReadMore(before);
    var a2 := ReadMore(a1);
    var a3 := ReadMore(a2);
    var a4 := ReadMore(a3);
    actions := ReadMore(a4);
  }

  lemma {:induction false} ReadMore(before: seq<Action>) returns (actions: seq<Action>)
    ensures Exec(actions) == ReadOne(Exec(before))
  {
    ExecOneMore(before, Read);
    actions := before + [Read];
  }

  /** The generation cell wraps too: after 2^31 publications a whole, unlapped read
      returns a smaller generation than an earlier one did. */
  lemma {:induction false} WrappedGenerationGoesBack() returns (actions: seq<Action>)
    ensures var s := Exec(actions);
            && |s.returned| == 2 && NotLapped(s.returned[0]) && NotLapped(s.returned[1])
            && s.returned[0].value.generation > s.returned[1].value.generation
  {
    var first := WholeRead([]);
    RoundsPublish(first, TWO_31);
    var later := Rounds(first, TWO_31);
    ExecInv(later);
    actions := WholeRead(later);
  }
}
