/** A signal sender and a signal receiver that alternate through two mutexes, each unlocked by the
    thread that did not lock it, with a main thread that locks both first and unlocks one last. */
module SignalTurns {

  datatype Thread = Main | Sender | Receiver

  datatype MainPc =
    LockMutex | LockMutex1 | CreateSender | CreateReceiver | JoinReceiver | UnlockLast | JoinSender | MainDone

  datatype SenderPc =
    | SenderNotStarted
    | LockFirst      // first lock of mutex
    | Send           // the send section: signal the receiver
    | UnlockMutex1
    | LockAgain      // lock mutex at the end of the round
    | TestAlive      // while the receiver is alive
    | SenderDone

  datatype ReceiverPc =
    | ReceiverNotStarted
    | TestBound      // iteration < bound ?
    | Read           // the read section: wait for a signal, for at most two seconds
    | UnlockMutex
    | WaitMutex1     // lock mutex1 at the end of the round
    | ReceiverDone

  /** `pending`: a signal is pending for the receiver. The sender sends two kinds; the receiver blocks one,
      which stays pending until a read takes it, and the other is handled at once. `sendRounds` and
      `readRounds` count the rounds each side has completed. */
  datatype State = State(
    main: MainPc, sender: SenderPc, receiver: ReceiverPc,
    mutex: bool, mutex1: bool, pending: bool, iteration: nat, sendRounds: nat, readRounds: nat)

  const START := State(LockMutex, SenderNotStarted, ReceiverNotStarted, false, false, false, 0, 0, 0)

  predicate Enabled(s: State, t: Thread) {
    match t
    case Main =>
      (match s.main
       case LockMutex => !s.mutex
       case LockMutex1 => !s.mutex1
       case JoinReceiver => s.receiver == ReceiverDone
       case JoinSender => s.sender == SenderDone
       case MainDone => false
       case _ => true)
    case Sender =>
      s.sender !in {SenderNotStarted, SenderDone} && (s.sender in {LockFirst, LockAgain} ==> !s.mutex)
    case Receiver =>
      s.receiver !in {ReceiverNotStarted, ReceiverDone} && (s.receiver == WaitMutex1 ==> !s.mutex1)
  }

  /** One step; `arrived` says whether the receiver sees a pending signal before its wait times out. */
  function Next(bound: nat, s: State, t: Thread, arrived: bool): State
    requires Enabled(s, t)
  {
    match t
    case Main =>
      (match s.main
       case LockMutex => s.(main := LockMutex1, mutex := true)
       case LockMutex1 => s.(main := CreateSender, mutex1 := true)
       case CreateSender => s.(main := CreateReceiver, sender := LockFirst)
       case CreateReceiver => s.(main := JoinReceiver, receiver := TestBound)
       case JoinReceiver => s.(main := UnlockLast)
       case UnlockLast => s.(main := JoinSender, mutex := false)
       case JoinSender => s.(main := MainDone)
       case MainDone => s)
    case Sender =>
      (match s.sender
       case LockFirst => s.(sender := Send, mutex := true)
       case Send => s.(sender := UnlockMutex1, pending := true)
       case UnlockMutex1 => s.(sender := LockAgain, mutex1 := false, sendRounds := s.sendRounds + 1)
       case LockAgain => s.(sender := TestAlive, mutex := true)
       case TestAlive => s.(sender := if s.receiver != ReceiverDone then Send else SenderDone)
       case _ => s)
    case Receiver =>
      (match s.receiver
       case TestBound => s.(receiver := if s.iteration < bound then Read else ReceiverDone)
       case Read =>
         if arrived && s.pending then s.(receiver := UnlockMutex, pending := false, iteration := s.iteration + 1)
         else s.(receiver := UnlockMutex)
       case UnlockMutex => s.(receiver := WaitMutex1, mutex := false, readRounds := s.readRounds + 1)
       case WaitMutex1 => s.(receiver := TestBound, mutex1 := true)
       case _ => s)
  }

  datatype Choice = Choice(thread: Thread, arrived: bool)

  predicate Runs(bound: nat, s: State, run: seq<Choice>)
    decreases |run|
  {
    run == [] || (Enabled(s, run[0].thread) && Runs(bound, Next(bound, s, run[0].thread, run[0].arrived), run[1..]))
  }

  function End(bound: nat, s: State, run: seq<Choice>): State
    requires Runs(bound, s, run)
    decreases |run|
  {
    if run == [] then s else End(bound, Next(bound, s, run[0].thread, run[0].arrived), run[1..])
  }

  ghost predicate Reachable(bound: nat, s: State) {
    exists run :: Runs(bound, START, run) && End(bound, START, run) == s
  }

  // ----- Whose turn it is -----

  predicate ReceiverTurn(s: State) {
    && s.mutex && s.mutex1 && s.receiver != WaitMutex1 && s.sendRounds == s.readRounds
    && s.sender == if s.sendRounds > 0 then LockAgain
                   else if s.main == CreateSender then SenderNotStarted
                   else LockFirst
  }

  predicate TurnToSender(s: State) {
    !s.mutex && s.mutex1 && s.receiver == WaitMutex1 && s.readRounds == s.sendRounds + 1
    && s.sender == if s.sendRounds > 0 then LockAgain else LockFirst
  }

  predicate SenderTurn(s: State) {
    && s.mutex && s.mutex1 && s.receiver == WaitMutex1 && s.readRounds == s.sendRounds + 1
    && s.sender in {Send, UnlockMutex1, TestAlive}
  }

  predicate TurnToReceiver(s: State) {
    s.mutex && !s.mutex1 && s.receiver == WaitMutex1 && s.sendRounds == s.readRounds > 0 && s.sender == LockAgain
  }

  predicate Closing(s: State) {
    && s.mutex1 && s.receiver == ReceiverDone && s.sendRounds == s.readRounds > 0
    && if s.mutex then s.sender in {TestAlive, SenderDone} else s.sender == LockAgain
  }

  predicate Inv(bound: nat, s: State) {
    && s.iteration <= bound
    && (s.receiver == Read ==> s.iteration < bound)
    && (s.receiver == ReceiverDone ==> s.iteration == bound && s.readRounds > 0)
    && s.iteration + (if s.pending then 1 else 0) <= s.sendRounds + (if s.sender == UnlockMutex1 then 1 else 0)
    && (s.sender == UnlockMutex1 || TurnToReceiver(s) ==> s.pending)
    && (s.receiver in {TestBound, Read} && s.readRounds > 0 ==> s.pending)
    && match s.main
       case LockMutex => s == START
       case LockMutex1 => s == START.(main := LockMutex1, mutex := true)
       case CreateSender | CreateReceiver =>
         ReceiverTurn(s) && s.receiver == ReceiverNotStarted && s.sendRounds == 0 && s.iteration == 0
       case JoinReceiver =>
         s.receiver != ReceiverNotStarted && (ReceiverTurn(s) || TurnToSender(s) || SenderTurn(s) || TurnToReceiver(s))
       case UnlockLast => s.receiver == ReceiverDone && ReceiverTurn(s)
       case JoinSender => Closing(s)
       case MainDone => Closing(s) && s.sender == SenderDone
  }

  lemma StepKeepsInv(bound: nat, s: State, t: Thread, arrived: bool)
    requires bound >= 1 && Inv(bound, s) && Enabled(s, t)
    ensures Inv(bound, Next(bound, s, t, arrived))
  {
  }

  lemma {:induction false} InvAlongRun(bound: nat, s: State, run: seq<Choice>)
    requires bound >= 1 && Inv(bound, s) && Runs(bound, s, run)
    ensures Inv(bound, End(bound, s, run))
    decreases |run|
  {
    if run != [] {
      StepKeepsInv(bound, s, run[0].thread, run[0].arrived);
      InvAlongRun(bound, Next(bound, s, run[0].thread, run[0].arrived), run[1..]);
    }
  }

  /** On every run the rounds alternate, the read and send sections exclude each other, no mutex is
      unlocked while free, main's last unlock included, and at the end all rounds are matched. */
  lemma RoundsAlternate(bound: nat, s: State)
    requires bound >= 1 && Reachable(bound, s)
    ensures s.sendRounds <= s.readRounds <= s.sendRounds + 1
    ensures !(s.sender in {Send, UnlockMutex1} && s.receiver in {TestBound, Read, UnlockMutex})
    ensures s.receiver == UnlockMutex || s.main == UnlockLast ==> s.mutex
    ensures s.sender == UnlockMutex1 ==> s.mutex1
    ensures s.sender == Send ==> s.receiver == WaitMutex1
    ensures s.iteration <= s.sendRounds + if s.sender == UnlockMutex1 then 1 else 0
    ensures s.main == MainDone ==>
              && s.iteration == bound && s.sendRounds == s.readRounds >= bound
              && s.sender == SenderDone && s.receiver == ReceiverDone
  {
    var run :| Runs(bound, START, run) && End(bound, START, run) == s;
    InvAlongRun(bound, START, run);
  }

  // ----- Progress -----

  function Pick(s: State): Thread {
    if Enabled(s, Receiver) then Receiver else if Enabled(s, Sender) then Sender else Main
  }

  function SenderRank(pc: SenderPc): nat {
    match pc
    case LockFirst => 8 case LockAgain => 9 case TestAlive => 8 case Send => 7 case UnlockMutex1 => 6
    case SenderNotStarted => 5 case SenderDone => 0
  }

  function MainRank(pc: MainPc): nat {
    match pc
    case LockMutex => 7 case LockMutex1 => 6 case CreateSender => 5 case CreateReceiver => 4
    case JoinReceiver => 3 case UnlockLast => 2 case JoinSender => 1 case MainDone => 0
  }

  /** Steps left in the current round, plus the main thread's own. */
  function Rank(s: State): nat {
    100 * MainRank(s.main) +
    (match s.receiver
     case ReceiverNotStarted => 60
     case Read => 7
     case UnlockMutex => 50
     case WaitMutex1 => if s.mutex1 then 10 + SenderRank(s.sender) else 9
     case TestBound => 8
     case ReceiverDone => match s.sender case LockAgain => 3 case TestAlive => 2 case _ => 0)
  }

  /** Each signal that is read is worth a whole round, and so is the first read, before any signal. */
  function Measure(bound: nat, s: State): int {
    2000 * (bound - s.iteration)
    + (if s.readRounds == 0 && s.receiver in {ReceiverNotStarted, TestBound, Read} then 1000 else 0)
    + Rank(s)
  }

  lemma PickIsEnabled(bound: nat, s: State)
    requires bound >= 1 && Inv(bound, s) && s.main != MainDone
    ensures Enabled(s, Pick(s))
  {
  }

  lemma PickedReceiverStep(bound: nat, s: State)
    requires bound >= 1 && Inv(bound, s) && Enabled(s, Receiver)
    ensures Measure(bound, Next(bound, s, Receiver, true)) < Measure(bound, s)
  {
  }

  lemma PickedSenderStep(bound: nat, s: State)
    requires bound >= 1 && Inv(bound, s) && Enabled(s, Sender) && !Enabled(s, Receiver)
    ensures Measure(bound, Next(bound, s, Sender, true)) < Measure(bound, s)
  {
  }

  lemma PickedMainStep(bound: nat, s: State)
    requires bound >= 1 && Inv(bound, s) && Enabled(s, Main) && !Enabled(s, Receiver) && !Enabled(s, Sender)
    ensures Measure(bound, Next(bound, s, Main, true)) < Measure(bound, s)
  {
  }

  lemma PickedStep(bound: nat, s: State)
    requires bound >= 1 && Inv(bound, s) && s.main != MainDone
    ensures Enabled(s, Pick(s)) && Inv(bound, Next(bound, s, Pick(s), true))
    ensures 0 <= Measure(bound, Next(bound, s, Pick(s), true)) < Measure(bound, s)
  {
    PickIsEnabled(bound, s);
    StepKeepsInv(bound, s, Pick(s), true);
    match Pick(s)
    case Receiver => PickedReceiverStep(bound, s);
    case Sender => PickedSenderStep(bound, s);
    case Main => PickedMainStep(bound, s);
  }

  lemma CanFinish(bound: nat, s: State) returns (run: seq<Choice>)
    requires bound >= 1 && Inv(bound, s)
    ensures Runs(bound, s, run) && End(bound, s, run).main == MainDone && End(bound, s, run).sendRounds >= bound
    decreases Measure(bound, s)
  {
    if s.main == MainDone {
      return [];
    }
    PickedStep(bound, s);
    var rest := CanFinish(bound, Next(bound, s, Pick(s), true));
    run := [Choice(Pick(s), true)] + rest;
  }

  /** No reachable state is stuck: as long as signals arrive, all three threads can finish. */
  lemma {:induction false} AlwaysProgress(bound: nat, s: State)
    requires bound >= 1 && Reachable(bound, s)
    ensures s.main == MainDone || exists t :: Enabled(s, t)
    ensures exists run ::
              Runs(bound, s, run) && End(bound, s, run).main == MainDone && End(bound, s, run).sendRounds >= bound
  {
    var prefix :| Runs(bound, START, prefix) && End(bound, START, prefix) == s;
    InvAlongRun(bound, START, prefix);
    if s.main != MainDone {
      PickedStep(bound, s);
    }
    var run := CanFinish(bound, s);
  }

  // ----- No rounds at all -----

  /** With a bound of 0 the receiver is done at once: main has unlocked for the sender's first round. */
  const UNREAD := State(JoinSender, LockFirst, ReceiverDone, false, true, false, 0, 0, 0)

  /** The sender has sent one round and waits for a receiver that is gone. */
  const STUCK := State(JoinSender, LockAgain, ReceiverDone, true, false, true, 0, 1, 0)

  lemma {:induction false} RunStep(bound: nat, s: State, c: Choice, rest: seq<Choice>)
    requires Enabled(s, c.thread) && Runs(bound, Next(bound, s, c.thread, c.arrived), rest)
    ensures Runs(bound, s, [c] + rest)
    ensures End(bound, s, [c] + rest) == End(bound, Next(bound, s, c.thread, c.arrived), rest)
  {
    assert ([c] + rest)[1..] == rest;
  }

  // ----- Reads that time out -----

  /** The receiver is at the start of a round; every read so far has timed out. */
  function Unread(rounds: nat): State {
    State(JoinReceiver, if rounds == 0 then LockFirst else LockAgain, TestBound, true, true, rounds > 0,
          0, rounds, rounds)
  }

  /** One more step, in which a read times out. */
  lemma {:induction false} Go(bound: nat, s: State, t: Thread) returns (next: State)
    requires Reachable(bound, s) && Enabled(s, t)
    ensures next == Next(bound, s, t, false) && Reachable(bound, next)
  {
    var run :| Runs(bound, START, run) && End(bound, START, run) == s;
    RunLonger(bound, START, run, Choice(t, false));
    next := Next(bound, s, t, false);
  }

  lemma {:induction false} RunLonger(bound: nat, s: State, run: seq<Choice>, last: Choice)
    requires Runs(bound, s, run) && Enabled(End(bound, s, run), last.thread)
    ensures Runs(bound, s, run + [last])
    ensures End(bound, s, run + [last]) == Next(bound, End(bound, s, run), last.thread, last.arrived)
    decreases |run|
  {
    if run == [] {
      assert [] + [last] == [last];
      assert Runs(bound, Next(bound, s, last.thread, last.arrived), []);
    } else {
      var next := Next(bound, s, run[0].thread, run[0].arrived);
      RunLonger(bound, next, run[1..], last);
      assert run + [last] == [run[0]] + (run[1..] + [last]);
      RunStep(bound, s, run[0], run[1..] + [last]);
    }
  }

  /** Reads may time out for ever: rounds pass without a signal being counted, although one is pending from
      the first round on. */
  lemma {:induction false} ReadsMayTimeOut(bound: nat, rounds: nat)
    requires bound >= 1
    ensures var s := Unread(rounds);
            && Reachable(bound, s) && s.sendRounds == s.readRounds == rounds && s.iteration == 0
            && (s.pending <==> rounds > 0)
  {
    if rounds == 0 {
      assert Runs(bound, START, []) && End(bound, START, []) == START;
      var s := Go(bound, START, Main);
      s := Go(bound, s, Main);
      s := Go(bound, s, Main);
      s := Go(bound, s, Main);
    } else {
      ReadsMayTimeOut(bound, rounds - 1);
      ReadTimesOut(bound, rounds - 1);
      SenderAnswers(bound, rounds - 1);
    }
  }

  /** The receiver has given up its read and waits for its next turn. */
  function TimedOut(rounds: nat): State {
    Unread(rounds).(receiver := WaitMutex1, mutex := false, readRounds := rounds + 1)
  }

  lemma ReadTimesOut(bound: nat, rounds: nat)
    requires bound >= 1 && Reachable(bound, Unread(rounds))
    ensures Reachable(bound, TimedOut(rounds))
  {
    var s := Go(bound, Unread(rounds), Receiver);
    s := Go(bound, s, Receiver);
    s := Go(bound, s, Receiver);
  }

  lemma SenderAnswers(bound: nat, rounds: nat)
    requires bound >= 1 && Reachable(bound, TimedOut(rounds))
    ensures Reachable(bound, Unread(rounds + 1))
  {
    var s := Go(bound, TimedOut(rounds), Sender);
    if rounds > 0 {
      s := Go(bound, s, Sender);
    }
    s := Go(bound, s, Sender);
    s := Go(bound, s, Sender);
    s := Go(bound, s, Receiver);
  }

  // ----- A run that gets stuck -----

  /** A run that ends in STUCK, from any state from which one step leads to the start of such a run. */
  lemma Extend(s: State, t: Thread, next: State, run: seq<Choice>) returns (longer: seq<Choice>)
    requires Enabled(s, t) && Next(0, s, t, true) == next
    requires Runs(0, next, run) && End(0, next, run) == STUCK
    ensures Runs(0, s, longer) && End(0, s, longer) == STUCK
  {
    RunStep(0, s, Choice(t, true), run);
    longer := [Choice(t, true)] + run;
  }

  lemma SenderLeftAlone() returns (run: seq<Choice>)
    ensures Runs(0, UNREAD, run) && End(0, UNREAD, run) == STUCK
  {
    var s1 := Next(0, UNREAD, Sender, true);
    var s2 := Next(0, s1, Sender, true);
    run := Extend(s2, Sender, STUCK, []);
    run := Extend(s1, Sender, s2, run);
    run := Extend(UNREAD, Sender, s1, run);
  }

  lemma NoRoundsGetStuck()
    ensures Reachable(0, STUCK) && !exists t :: Enabled(STUCK, t)
  {
    var s1 := Next(0, START, Main, true);
    var s2 := Next(0, s1, Main, true);
    var s3 := Next(0, s2, Main, true);
    var s4 := Next(0, s3, Main, true);
    var s5 := Next(0, s4, Receiver, true);
    var s6 := Next(0, s5, Main, true);
    var run := SenderLeftAlone();
    run := Extend(s6, Main, UNREAD, run);
    run := Extend(s5, Main, s6, run);
    run := Extend(s4, Receiver, s5, run);
    run := Extend(s3, Main, s4, run);
    run := Extend(s2, Main, s3, run);
    run := Extend(s1, Main, s2, run);
    run := Extend(START, Main, s1, run);
  }

  /** No reachable state is stuck exactly when there is at least one round. */
  lemma DeadlockFreeExactly(bound: nat)
    ensures (forall s | Reachable(bound, s) :: s.main == MainDone || exists t :: Enabled(s, t)) <==> bound >= 1
  {
    if bound >= 1 {
      forall s | Reachable(bound, s)
        ensures s.main == MainDone || exists t :: Enabled(s, t)
      {
        AlwaysProgress(bound, s);
      }
    } else {
      NoRoundsGetStuck();
    }
  }
}
