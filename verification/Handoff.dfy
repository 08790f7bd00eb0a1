/** Two threads that take turns through one mutex and two counters, and a tool that, from a given
    round on, overlays a flag and two hand-over locks on their checkpoints until it detaches. */
module Handoff {

  /** `rounds` is the bound of the second thread's loop; the tool, when there is one, starts its
      sequence once its own counter reaches `threshold`. */
  datatype Config = Plain(rounds: nat) | Tooled(rounds: nat, threshold: nat)

  datatype Thread = Main | Second

  /** Where the main thread is: each value names the step it takes next. */
  datatype MainPc =
    | LockFirst        // first lock of the application mutex
    | Create           // start the second thread
    | Checkpoint       // MainThreadIterationCheckpoint: test the flag
    | ReleaseToSecond  //   release waitToMainThreadLock
    | WaitForSecond    //   get waitToSecondThreadLock
    | LockRound        // lock the mutex
    | Count            // iteration_main++
    | Compare          // iteration_main >= iteration_second ?
    | TestExit         // && !shouldExit ?
    | UnlockWait       // unlock inside the wait loop
    | Yield
    | LockWait         // lock inside the wait loop
    | UnlockRound      // unlock after the wait loop
    | TestDone         // while (!shouldExit)
    | MainDone

  /** Where the second thread is. */
  datatype SecondPc =
    | NotStarted
    | ResetCounter     // iteration_second = 0
    | TestBound        // iteration_second < rounds ?
    | Checkpoint1      // ++counter >= threshold ?
    | RaiseFlag        //   reproduceBugOnThisIteration = true
    | GetSecondLock    //   get waitToSecondThreadLock
    | GetMainLock      //   get waitToMainThreadLock
    | UnlockTurn       // unlock the mutex
    | CountTurn        // iteration_second++
    | Checkpoint2      // test the flag
    | WaitForMain      //   get waitToMainThreadLock
    | LockTurn         // lock the mutex
    | Checkpoint3      // test the flag
    | ReleaseSecond    //   release waitToSecondThreadLock
    | Detach           //   detach
    | CompareTurn      // iteration_second > iteration_main ?
    | UnlockSpin       // unlock inside the wait loop
    | YieldSpin
    | LockSpin         // lock inside the wait loop
    | UnlockLast       // unlock after the last round
    | SetExit          // shouldExit = true
    | SecondDone
    | Detached         // the tool is gone: end of the modelled run

  /** Locks are binary semaphores: either thread may release them. */
  datatype State = State(
    main: MainPc, second: SecondPc,
    mutex: bool, iterationMain: nat, iterationSecond: nat, shouldExit: bool,
    counter: nat, flag: bool, mainLock: bool, secondLock: bool)

  const START := State(LockFirst, NotStarted, false, 0, 0, false, 0, false, false, false)

  /** Getting a lock blocks while it is held. */
  predicate Enabled(s: State, t: Thread) {
    s.second != Detached &&
    match t
    case Main =>
      (match s.main
       case LockFirst | LockRound | LockWait => !s.mutex
       case WaitForSecond => !s.secondLock
       case MainDone => false
       case _ => true)
    case Second =>
      (match s.second
       case LockTurn | LockSpin => !s.mutex
       case GetSecondLock => !s.secondLock
       case GetMainLock | WaitForMain => !s.mainLock
       case NotStarted | SecondDone | Detached => false
       case _ => true)
  }

  function Next(c: Config, s: State, t: Thread): State
    requires Enabled(s, t)
  {
    match t
    case Main =>
      (match s.main
       case LockFirst => s.(main := Create, mutex := true)
       case Create => s.(main := Checkpoint, second := ResetCounter)
       case Checkpoint => s.(main := if s.flag then ReleaseToSecond else LockRound)
       case ReleaseToSecond => s.(main := WaitForSecond, mainLock := false)
       case WaitForSecond => s.(main := LockRound, secondLock := true)
       case LockRound => s.(main := Count, mutex := true)
       case Count => s.(main := Compare, iterationMain := s.iterationMain + 1)
       case Compare => s.(main := if s.iterationMain >= s.iterationSecond then TestExit else UnlockRound)
       case TestExit => s.(main := if !s.shouldExit then UnlockWait else UnlockRound)
       case UnlockWait => s.(main := Yield, mutex := false)
       case Yield => s.(main := LockWait)
       case LockWait => s.(main := Compare, mutex := true)
       case UnlockRound => s.(main := TestDone, mutex := false)
       case TestDone => s.(main := if !s.shouldExit then Checkpoint else MainDone)
       case MainDone => s)
    case Second =>
      (match s.second
       case ResetCounter => s.(second := TestBound, iterationSecond := 0)
       case TestBound => s.(second := if s.iterationSecond < c.rounds then Checkpoint1 else UnlockLast)
       case Checkpoint1 =>
         if c.Tooled? then
           s.(second := if s.counter + 1 >= c.threshold then RaiseFlag else UnlockTurn, counter := s.counter + 1)
         else s.(second := UnlockTurn)
       case RaiseFlag => s.(second := GetSecondLock, flag := true)
       case GetSecondLock => s.(second := GetMainLock, secondLock := true)
       case GetMainLock => s.(second := UnlockTurn, mainLock := true)
       case UnlockTurn => s.(second := CountTurn, mutex := false)
       case CountTurn => s.(second := Checkpoint2, iterationSecond := s.iterationSecond + 1)
       case Checkpoint2 => s.(second := if s.flag then WaitForMain else LockTurn)
       case WaitForMain => s.(second := LockTurn, mainLock := true)
       case LockTurn => s.(second := Checkpoint3, mutex := true)
       case Checkpoint3 => s.(second := if s.flag then ReleaseSecond else CompareTurn)
       case ReleaseSecond => s.(second := Detach, secondLock := false)
       case Detach => s.(second := Detached)
       case CompareTurn => s.(second := if s.iterationSecond > s.iterationMain then UnlockSpin else TestBound)
       case UnlockSpin => s.(second := YieldSpin, mutex := false)
       case YieldSpin => s.(second := LockSpin)
       case LockSpin => s.(second := CompareTurn, mutex := true)
       case UnlockLast => s.(second := SetExit, mutex := false)
       case SetExit => s.(second := SecondDone, shouldExit := true)
       case NotStarted => s
       case SecondDone => s
       case Detached => s)
  }

  // ----- Runs -----

  /** A schedule names the thread that takes each step. */
  predicate Runs(c: Config, s: State, schedule: seq<Thread>)
    decreases |schedule|
  {
    schedule == [] || (Enabled(s, schedule[0]) && Runs(c, Next(c, s, schedule[0]), schedule[1..]))
  }

  function End(c: Config, s: State, schedule: seq<Thread>): State
    requires Runs(c, s, schedule)
    decreases |schedule|
  {
    if schedule == [] then s else End(c, Next(c, s, schedule[0]), schedule[1..])
  }

  ghost predicate Reachable(c: Config, s: State) {
    exists schedule :: Runs(c, START, schedule) && End(c, START, schedule) == s
  }

  /** Both threads finished, or the tool has detached. */
  predicate Final(s: State) {
    s.second == Detached || (s.second == SecondDone && s.main == MainDone)
  }

  predicate Deadlocked(s: State) {
    !Final(s) && !Enabled(s, Main) && !Enabled(s, Second)
  }

  // ----- The protocol invariant -----

  /** The main thread is between its lock and its unlock of the mutex. */
  predicate MainHolds(s: State) {
    s.main in {Create, Count, Compare, TestExit, UnlockWait, UnlockRound}
  }

  /** The second thread is; it starts out owning the lock the main thread took for it. */
  predicate SecondHolds(s: State) {
    s.second in {ResetCounter, TestBound, Checkpoint1, RaiseFlag, GetSecondLock, GetMainLock, UnlockTurn,
                 Checkpoint3, ReleaseSecond, Detach, CompareTurn, UnlockSpin, UnlockLast, Detached}
  }

  predicate MainInWaitLoop(s: State) {
    s.main in {Compare, TestExit, UnlockWait, Yield, LockWait}
  }

  /** The second thread has not yet counted its turn. */
  predicate BeforeTurn(s: State) {
    s.second in {NotStarted, ResetCounter, TestBound, Checkpoint1, RaiseFlag, GetSecondLock, GetMainLock, UnlockTurn,
                 CountTurn}
  }

  predicate Finishing(s: State) {
    s.second in {UnlockLast, SetExit, SecondDone}
  }

  /** Mutual exclusion and lock-step of the two counters. */
  predicate LockStep(c: Config, s: State) {
    && (s.mutex <==> MainHolds(s) || SecondHolds(s))
    && !(MainHolds(s) && SecondHolds(s))
    && (s.main in {LockFirst, Create} <==> s.second == NotStarted)
    && (s.second in {NotStarted, ResetCounter} ==> s.iterationMain == 0 && s.iterationSecond == 0)
    && (MainInWaitLoop(s) ==> s.iterationMain >= 1)
    && (s.main in {Checkpoint, ReleaseToSecond, WaitForSecond, LockRound, Count} ==>
          s.iterationMain == 0 || s.iterationMain < s.iterationSecond)
    && (s.main in {UnlockRound, TestDone} ==> s.shouldExit || s.iterationMain < s.iterationSecond)
    && (s.main == MainDone ==> s.shouldExit)
    && (s.shouldExit <==> s.second == SecondDone)
    && s.iterationSecond <= c.rounds
    && (if BeforeTurn(s) then
          s.iterationMain == s.iterationSecond
          || (s.iterationSecond == 0 && s.iterationMain == 1 && s.second == CountTurn)
        else
          s.iterationSecond >= 1 && s.iterationSecond <= s.iterationMain + 1 && s.iterationMain <= s.iterationSecond)
    && (s.second in {Checkpoint1, RaiseFlag, GetSecondLock, GetMainLock, UnlockTurn, CountTurn} ==>
          s.iterationSecond < c.rounds)
    && (Finishing(s) ==> s.iterationSecond == c.rounds && s.iterationMain == c.rounds)
  }

  /** What the tool's counter, flag and locks are at each point of the application. */
  predicate ToolInStep(c: Config, s: State) {
    if !s.flag then
      && !s.mainLock && !s.secondLock
      && s.main !in {ReleaseToSecond, WaitForSecond}
      && s.second !in {GetSecondLock, GetMainLock, WaitForMain, ReleaseSecond, Detach, Detached}
      && (c.Tooled? ==>
            && s.counter == s.iterationSecond + (if s.second in {RaiseFlag, UnlockTurn, CountTurn} then 1 else 0)
            && (s.second == RaiseFlag ==> s.counter == c.threshold && MainInWaitLoop(s))
            && (s.second != RaiseFlag && s.counter > 0 ==> s.counter < c.threshold))
      && (c.Plain? ==> s.second != RaiseFlag)
    else
      && c.Tooled? && s.counter == c.threshold == s.iterationMain + 1
      && s.iterationSecond == (if BeforeTurn(s) then s.iterationMain else s.iterationMain + 1)
      && match s.second
         case GetSecondLock => MainInWaitLoop(s) && !s.mainLock && !s.secondLock
         case GetMainLock => MainInWaitLoop(s) && !s.mainLock && s.secondLock
         case UnlockTurn | CountTurn => MainInWaitLoop(s) && s.mainLock && s.secondLock
         case Checkpoint2 | WaitForMain =>
           && s.secondLock
           && (MainInWaitLoop(s) || s.main in {UnlockRound, TestDone, Checkpoint, ReleaseToSecond, WaitForSecond})
           && (s.mainLock <==> s.main != WaitForSecond)
         case LockTurn | Checkpoint3 | ReleaseSecond => s.main == WaitForSecond && s.mainLock && s.secondLock
         case Detach | Detached => s.mainLock && s.main == (if s.secondLock then LockRound else WaitForSecond)
         case _ => false
  }

  predicate Inv(c: Config, s: State) {
    LockStep(c, s) && ToolInStep(c, s)
  }

  /** At least one round, and a tool that does not strike in the very first one. */
  predicate Sound(c: Config) {
    c.rounds >= 1 && (c.Tooled? ==> c.threshold >= 2)
  }

  lemma MainKeepsLockStep(c: Config, s: State)
    requires Sound(c) && Inv(c, s) && Enabled(s, Main)
    ensures LockStep(c, Next(c, s, Main))
  {
    if MainInWaitLoop(s) {
      WaitLoopKeepsLockStep(c, s);
    } else {
      RoundKeepsLockStep(c, s);
    }
  }

  lemma WaitLoopKeepsLockStep(c: Config, s: State)
    requires Sound(c) && Inv(c, s) && Enabled(s, Main) && MainInWaitLoop(s)
    ensures LockStep(c, Next(c, s, Main))
  {
  }

  lemma RoundKeepsLockStep(c: Config, s: State)
    requires Sound(c) && Inv(c, s) && Enabled(s, Main) && !MainInWaitLoop(s)
    ensures LockStep(c, Next(c, s, Main))
  {
  }

  lemma MainKeepsTool(c: Config, s: State)
    requires Sound(c) && Inv(c, s) && Enabled(s, Main)
    ensures ToolInStep(c, Next(c, s, Main))
  {
  }

  lemma SecondKeepsLockStep(c: Config, s: State)
    requires Sound(c) && Inv(c, s) && Enabled(s, Second)
    ensures LockStep(c, Next(c, s, Second))
  {
    if BeforeTurn(s) {
      TurnKeepsLockStep(c, s);
    } else {
      AfterTurnKeepsLockStep(c, s);
    }
  }

  lemma TurnKeepsLockStep(c: Config, s: State)
    requires Sound(c) && Inv(c, s) && Enabled(s, Second) && BeforeTurn(s)
    ensures LockStep(c, Next(c, s, Second))
  {
  }

  lemma AfterTurnKeepsLockStep(c: Config, s: State)
    requires Sound(c) && Inv(c, s) && Enabled(s, Second) && !BeforeTurn(s)
    ensures LockStep(c, Next(c, s, Second))
  {
  }

  lemma SecondKeepsTool(c: Config, s: State)
    requires Sound(c) && Inv(c, s) && Enabled(s, Second)
    ensures ToolInStep(c, Next(c, s, Second))
  {
  }

  lemma StepKeepsInv(c: Config, s: State, t: Thread)
    requires Sound(c) && Inv(c, s) && Enabled(s, t)
    ensures Inv(c, Next(c, s, t))
  {
    if t == Main {
      MainKeepsLockStep(c, s);
      MainKeepsTool(c, s);
    } else {
      SecondKeepsLockStep(c, s);
      SecondKeepsTool(c, s);
    }
  }

  lemma {:induction false} InvAlongRun(c: Config, s: State, schedule: seq<Thread>)
    requires Sound(c) && Inv(c, s) && Runs(c, s, schedule)
    ensures Inv(c, End(c, s, schedule))
    decreases |schedule|
  {
    if schedule != [] {
      StepKeepsInv(c, s, schedule[0]);
      InvAlongRun(c, Next(c, s, schedule[0]), schedule[1..]);
    }
  }

  lemma ReachableInv(c: Config, s: State)
    requires Sound(c) && Reachable(c, s)
    ensures Inv(c, s)
  {
    var schedule :| Runs(c, START, schedule) && End(c, START, schedule) == s;
    InvAlongRun(c, START, schedule);
  }

  // ----- Safety, for every interleaving -----

  /** The counters stay in step, the lock regions exclude each other, every unlock finds the mutex
      held, and a run in which both threads finish has counted every round on both sides. */
  lemma CountersInStep(c: Config, s: State)
    requires Sound(c) && Reachable(c, s)
    ensures s.iterationSecond <= s.iterationMain + 1
    ensures s.iterationMain <= if s.iterationSecond >= 1 then s.iterationSecond else 1
    ensures !(MainHolds(s) && SecondHolds(s))
    ensures s.main in {UnlockWait, UnlockRound} || s.second in {UnlockTurn, UnlockSpin, UnlockLast} ==> s.mutex
    ensures s.main == MainDone && s.second == SecondDone ==> s.iterationMain == s.iterationSecond == c.rounds
  {
    ReachableInv(c, s);
  }

  /** When the second thread reaches its first checkpoint in the tool's round, the main thread is in
      its wait loop and both hand-over locks are free; a hand-over lock is only released while held;
      and the main thread is past its wait only once the second thread holds the mutex. */
  lemma HandOverLocksAreSafe(c: Config, s: State)
    requires Sound(c) && Reachable(c, s)
    ensures s.second in {RaiseFlag, GetSecondLock} ==> MainInWaitLoop(s) && !s.mainLock && !s.secondLock
    ensures s.second == GetMainLock ==> MainInWaitLoop(s) && !s.mainLock
    ensures s.main == ReleaseToSecond ==> s.mainLock
    ensures s.second == ReleaseSecond ==> s.secondLock
    ensures s.flag && s.main in {LockRound, Count} ==> s.main == LockRound && s.mutex && s.second in {Detach, Detached}
  {
    ReachableInv(c, s);
  }

  /** The tool detaches in its round, with the main thread about to lock the mutex the second thread
      holds, if there are that many rounds; otherwise both threads finish. */
  lemma Outcome(c: Config, s: State)
    requires Sound(c) && Reachable(c, s) && Final(s)
    ensures s.second == Detached <==> c.Tooled? && c.rounds >= c.threshold
    ensures s.second == Detached ==>
              s.iterationSecond == c.threshold && s.mutex && s.main in {WaitForSecond, LockRound}
  {
    ReachableInv(c, s);
  }

  // ----- Progress -----

  /** A thread whose step brings the end nearer. */
  function Pick(s: State): Thread {
    if s.second in {NotStarted, SecondDone} then Main
    else if s.iterationSecond > s.iterationMain && !s.flag then
      (if Enabled(s, Main) then Main else Second)
    else
      (if Enabled(s, Second) then Second else Main)
  }

  /** How far the main thread is from counting, or with the flag from waiting for the second. */
  function MainToCount(pc: MainPc): nat {
    match pc
    case TestExit => 10 case UnlockWait => 9 case Yield => 8 case LockWait => 7 case Compare => 6
    case UnlockRound => 5 case TestDone => 4 case Checkpoint => 3 case LockRound => 2 case ReleaseToSecond => 2
    case Count => 1 case WaitForSecond => 1
    case _ => 0
  }

  /** How far it is from letting go of the mutex. */
  function MainToUnlock(pc: MainPc): nat {
    match pc
    case Compare => 3 case TestExit => 2 case UnlockWait => 1 case UnlockRound => 1
    case _ => 0
  }

  /** How far it is from its end once the second thread is done. */
  function MainToDone(pc: MainPc): nat {
    match pc
    case UnlockWait => 7 case Yield => 6 case LockWait => 5 case Compare => 4 case TestExit => 3
    case UnlockRound => 2 case TestDone => 1
    case _ => 0
  }

  /** How far the second thread is from counting its turn, from detaching or from its end. */
  function SecondToTurn(pc: SecondPc): nat {
    match pc
    case Checkpoint2 => 22 case WaitForMain => 21 case LockTurn => 20 case Checkpoint3 => 19
    case UnlockSpin => 18 case YieldSpin => 17 case LockSpin => 16 case CompareTurn => 15 case ResetCounter => 15
    case TestBound => 14 case Checkpoint1 => 13 case RaiseFlag => 12 case GetSecondLock => 11 case GetMainLock => 10
    case UnlockTurn => 9 case CountTurn => 8 case UnlockLast => 7 case SetExit => 6
    case ReleaseSecond => 2 case Detach => 1
    case _ => 0
  }

  /** How far it is from letting the main thread have the mutex. */
  function SecondToUnlock(pc: SecondPc): nat {
    match pc
    case Checkpoint3 => 3 case CompareTurn => 2 case UnlockSpin => 1
    case _ => 0
  }

  function Rank(s: State): nat {
    if s.second == NotStarted then (if s.main == LockFirst then 1001 else 1000)
    else if s.second == SecondDone then MainToDone(s.main)
    else if s.flag then 20 * SecondToTurn(s.second) + MainToCount(s.main)
    else if s.iterationSecond > s.iterationMain then 10 * MainToCount(s.main) + SecondToUnlock(s.second)
    else 20 * SecondToTurn(s.second) + 10 + MainToUnlock(s.main)
  }

  function Measure(c: Config, s: State): int {
    2000 * (2 * c.rounds - s.iterationMain - s.iterationSecond) + Rank(s)
  }

  lemma MeasureIsNatural(c: Config, s: State)
    requires Sound(c) && Inv(c, s)
    ensures Measure(c, s) >= 0
  {
  }

  lemma PickIsEnabled(c: Config, s: State)
    requires Sound(c) && Inv(c, s) && !Final(s)
    ensures Enabled(s, Pick(s))
  {
  }

  lemma PickedMainStep(c: Config, s: State)
    requires Sound(c) && Inv(c, s) && !Final(s) && Pick(s) == Main && Enabled(s, Main)
    ensures Measure(c, Next(c, s, Main)) < Measure(c, s)
  {
  }

  lemma PickedSecondStep(c: Config, s: State)
    requires Sound(c) && Inv(c, s) && !Final(s) && Pick(s) == Second && Enabled(s, Second)
    ensures Measure(c, Next(c, s, Second)) < Measure(c, s)
  {
    if BeforeTurn(s) {
      PickedTurn(c, s);
    } else {
      PickedAfterTurn(c, s);
    }
  }

  lemma PickedTurn(c: Config, s: State)
    requires Sound(c) && Inv(c, s) && !Final(s) && Pick(s) == Second && Enabled(s, Second) && BeforeTurn(s)
    ensures Measure(c, Next(c, s, Second)) < Measure(c, s)
  {
  }

  lemma PickedAfterTurn(c: Config, s: State)
    requires Sound(c) && Inv(c, s) && !Final(s) && Pick(s) == Second && Enabled(s, Second) && !BeforeTurn(s)
    ensures Measure(c, Next(c, s, Second)) < Measure(c, s)
  {
  }

  /** From every reachable state some schedule leads to the end. */
  lemma CanFinish(c: Config, s: State) returns (schedule: seq<Thread>)
    requires Sound(c) && Inv(c, s)
    ensures Runs(c, s, schedule) && Final(End(c, s, schedule))
    decreases Measure(c, s)
  {
    if Final(s) {
      return [];
    }
    var t := Pick(s);
    PickIsEnabled(c, s);
    StepKeepsInv(c, s, t);
    if t == Main {
      PickedMainStep(c, s);
    } else {
      PickedSecondStep(c, s);
    }
    MeasureIsNatural(c, Next(c, s, t));
    var rest := CanFinish(c, Next(c, s, t));
    schedule := [t] + rest;
  }

  /** No reachable state is stuck, and the end can always be reached. */
  lemma {:induction false} AlwaysProgress(c: Config, s: State)
    requires Sound(c) && Reachable(c, s)
    ensures !Deadlocked(s)
    ensures exists schedule :: Runs(c, s, schedule) && Final(End(c, s, schedule))
  {
    ReachableInv(c, s);
    if !Final(s) {
      PickIsEnabled(c, s);
    }
    var schedule := CanFinish(c, s);
  }

  // ----- Every fair run ends -----

  predicate SecondInWaitLoop(s: State) {
    s.second in {CompareTurn, UnlockSpin, YieldSpin, LockSpin}
  }

  /** A step from one place in a thread's wait loop to another. */
  predicate Spins(c: Config, s: State, t: Thread)
    requires Enabled(s, t)
  {
    if t == Main then MainInWaitLoop(s) && MainInWaitLoop(Next(c, s, t))
    else SecondInWaitLoop(s) && SecondInWaitLoop(Next(c, s, t))
  }

  /** How far the main thread has come in its round, which ends when it counts. */
  function MainPlace(pc: MainPc): nat {
    match pc
    case LockFirst => 0 case Create => 1
    case Compare => 2 case TestExit => 2 case UnlockWait => 2 case Yield => 2 case LockWait => 2
    case UnlockRound => 3 case TestDone => 4 case Checkpoint => 5 case ReleaseToSecond => 6
    case WaitForSecond => 7 case LockRound => 8 case Count => 9 case MainDone => 10
  }

  /** How far the second thread has come in its round. */
  function SecondPlace(pc: SecondPc): nat {
    match pc
    case NotStarted => 0 case Checkpoint2 => 1 case WaitForMain => 2 case LockTurn => 3 case Checkpoint3 => 4
    case ReleaseSecond => 5 case Detach => 6 case Detached => 7
    case CompareTurn => 8 case UnlockSpin => 8 case YieldSpin => 8 case LockSpin => 8 case ResetCounter => 8
    case TestBound => 9 case Checkpoint1 => 10 case RaiseFlag => 11 case GetSecondLock => 12 case GetMainLock => 13
    case UnlockTurn => 14 case CountTurn => 15 case UnlockLast => 16 case SetExit => 17 case SecondDone => 18
  }

  function Progress(s: State): nat {
    20 * (s.iterationMain + s.iterationSecond) + MainPlace(s.main) + SecondPlace(s.second)
  }

  function ProgressBound(c: Config): nat {
    40 * c.rounds + 28
  }

  /** Whichever thread moves, a step makes progress unless it spins. */
  lemma StepProgresses(c: Config, s: State, t: Thread)
    requires Sound(c) && Inv(c, s) && Enabled(s, t)
    ensures if Spins(c, s, t) then Progress(Next(c, s, t)) == Progress(s) else Progress(Next(c, s, t)) > Progress(s)
  {
    if t == Main {
      MainStepProgresses(c, s);
    } else {
      SecondStepProgresses(c, s);
    }
  }

  lemma MainStepProgresses(c: Config, s: State)
    requires Sound(c) && Inv(c, s) && Enabled(s, Main)
    ensures var next := Next(c, s, Main);
            if Spins(c, s, Main) then Progress(next) == Progress(s) else Progress(next) > Progress(s)
  {
  }

  lemma SecondStepProgresses(c: Config, s: State)
    requires Sound(c) && Inv(c, s) && Enabled(s, Second)
    ensures var next := Next(c, s, Second);
            if Spins(c, s, Second) then Progress(next) == Progress(s) else Progress(next) > Progress(s)
  {
  }

  lemma ProgressIsBounded(c: Config, s: State)
    requires Sound(c) && Inv(c, s)
    ensures Progress(s) <= ProgressBound(c)
  {
  }

  /** The steps of a run that do not spin. */
  function WorkSteps(c: Config, s: State, schedule: seq<Thread>): nat
    requires Runs(c, s, schedule)
    decreases |schedule|
  {
    if schedule == [] then 0
    else (if Spins(c, s, schedule[0]) then 0 else 1) + WorkSteps(c, Next(c, s, schedule[0]), schedule[1..])
  }

  lemma {:induction false} WorkIsProgress(c: Config, s: State, schedule: seq<Thread>)
    requires Sound(c) && Inv(c, s) && Runs(c, s, schedule)
    ensures Inv(c, End(c, s, schedule))
    ensures Progress(s) + WorkSteps(c, s, schedule) <= Progress(End(c, s, schedule))
    decreases |schedule|
  {
    if schedule != [] {
      StepProgresses(c, s, schedule[0]);
      StepKeepsInv(c, s, schedule[0]);
      WorkIsProgress(c, Next(c, s, schedule[0]), schedule[1..]);
    }
  }

  /** On every schedule, however long, all but boundedly many steps are spins. */
  lemma {:induction false} WorkIsBounded(c: Config, schedule: seq<Thread>)
    requires Sound(c) && Runs(c, START, schedule)
    ensures WorkSteps(c, START, schedule) <= ProgressBound(c)
  {
    WorkIsProgress(c, START, schedule);
    ProgressIsBounded(c, End(c, START, schedule));
  }

  /** How often a thread takes a step. */
  function Steps(schedule: seq<Thread>, t: Thread): nat {
    if schedule == [] then 0 else (if schedule[0] == t then 1 else 0) + Steps(schedule[1..], t)
  }

  /** The most spins left before the thread reaches its comparison. */
  function MainSpins(pc: MainPc): nat {
    match pc
    case TestExit => 4 case UnlockWait => 3 case Yield => 2 case LockWait => 1
    case _ => 0
  }

  function SecondSpins(pc: SecondPc): nat {
    match pc
    case UnlockSpin => 3 case YieldSpin => 2 case LockSpin => 1
    case _ => 0
  }

  /** The threads wait for opposite comparisons, so they cannot both spin for long. */
  lemma {:induction false} SpinningIsOneSided(c: Config, s: State, schedule: seq<Thread>)
    requires Runs(c, s, schedule) && WorkSteps(c, s, schedule) == 0
    ensures if s.iterationSecond > s.iterationMain then Steps(schedule, Main) <= MainSpins(s.main)
            else Steps(schedule, Second) <= SecondSpins(s.second)
    decreases |schedule|
  {
    if schedule != [] {
      var next := FirstSpin(c, s, schedule);
      SpinningIsOneSided(c, next, schedule[1..]);
    }
  }

  /** One spin, seen through the state it leads to. */
  lemma FirstSpin(c: Config, s: State, schedule: seq<Thread>) returns (next: State)
    requires schedule != [] && Runs(c, s, schedule) && WorkSteps(c, s, schedule) == 0
    ensures Runs(c, next, schedule[1..]) && WorkSteps(c, next, schedule[1..]) == 0
    ensures next.iterationMain == s.iterationMain && next.iterationSecond == s.iterationSecond
    ensures if schedule[0] == Main then next.second == s.second else next.main == s.main
    ensures s.iterationSecond > s.iterationMain && schedule[0] == Main ==> MainSpins(next.main) < MainSpins(s.main)
    ensures s.iterationSecond <= s.iterationMain && schedule[0] == Second ==>
              SecondSpins(next.second) < SecondSpins(s.second)
  {
    next := Next(c, s, schedule[0]);
    if schedule[0] == Main {
      MainSpin(c, s);
    } else {
      SecondSpin(c, s);
    }
  }

  lemma MainSpin(c: Config, s: State)
    requires Enabled(s, Main) && Spins(c, s, Main)
    ensures var next := Next(c, s, Main);
            && next.iterationMain == s.iterationMain && next.iterationSecond == s.iterationSecond
            && next.second == s.second
            && (s.iterationSecond > s.iterationMain ==> MainSpins(next.main) < MainSpins(s.main))
  {
  }

  lemma SecondSpin(c: Config, s: State)
    requires Enabled(s, Second) && Spins(c, s, Second)
    ensures var next := Next(c, s, Second);
            && next.iterationMain == s.iterationMain && next.iterationSecond == s.iterationSecond
            && next.main == s.main
            && (s.iterationSecond <= s.iterationMain ==> SecondSpins(next.second) < SecondSpins(s.second))
  {
  }

  /** A stretch of a run in which both threads get to take five steps. */
  predicate Fair(stretch: seq<Thread>) {
    Steps(stretch, Main) >= 5 && Steps(stretch, Second) >= 5
  }

  function Joined(stretches: seq<seq<Thread>>): seq<Thread> {
    if stretches == [] then [] else stretches[0] + Joined(stretches[1..])
  }

  lemma {:induction false} FairStretchesWork(c: Config, s: State, stretches: seq<seq<Thread>>)
    requires Runs(c, s, Joined(stretches)) && forall stretch <- stretches :: Fair(stretch)
    ensures |stretches| <= WorkSteps(c, s, Joined(stretches))
    decreases |stretches|
  {
    if stretches != [] {
      var first, later := stretches[0], Joined(stretches[1..]);
      assert first in stretches;
      var middle := RunsSplit(c, s, first, later);
      if WorkSteps(c, s, first) == 0 {
        SpinningIsOneSided(c, s, first);
      }
      FairStretchesWork(c, middle, stretches[1..]);
    }
  }

  lemma {:induction false} RunsSplit(c: Config, s: State, xs: seq<Thread>, ys: seq<Thread>) returns (middle: State)
    requires Runs(c, s, xs + ys)
    ensures Runs(c, s, xs) && middle == End(c, s, xs) && Runs(c, middle, ys)
    ensures WorkSteps(c, s, xs + ys) == WorkSteps(c, s, xs) + WorkSteps(c, middle, ys)
    decreases |xs|
  {
    if xs == [] {
      assert [] + ys == ys;
      middle := s;
    } else {
      var next, work := FirstOfBoth(c, s, xs, ys);
      middle := RunsSplit(c, next, xs[1..], ys);
    }
  }

  /** The first step of a schedule in two parts, seen through the state it leads to and the work it is. */
  lemma FirstOfBoth(c: Config, s: State, xs: seq<Thread>, ys: seq<Thread>) returns (next: State, work: nat)
    requires xs != [] && Runs(c, s, xs + ys)
    ensures Runs(c, next, xs[1..] + ys)
    ensures WorkSteps(c, s, xs + ys) == work + WorkSteps(c, next, xs[1..] + ys)
    ensures Runs(c, next, xs[1..]) ==>
              && Runs(c, s, xs) && End(c, s, xs) == End(c, next, xs[1..])
              && WorkSteps(c, s, xs) == work + WorkSteps(c, next, xs[1..])
  {
    assert (xs + ys)[0] == xs[0] && (xs + ys)[1..] == xs[1..] + ys;
    next := Next(c, s, xs[0]);
    work := if Spins(c, s, xs[0]) then 0 else 1;
  }

  /** Every fair run ends: no run consists of more fair stretches than the bound. */
  lemma {:induction false} FairRunsEnd(c: Config, stretches: seq<seq<Thread>>)
    requires Sound(c) && Runs(c, START, Joined(stretches)) && forall stretch <- stretches :: Fair(stretch)
    ensures |stretches| <= ProgressBound(c)
  {
    FairStretchesWork(c, START, stretches);
    WorkIsBounded(c, Joined(stretches));
  }

  function Other(t: Thread): Thread {
    if t == Main then Second else Main
  }

  /** If only `t` moves, then within `n` steps it makes progress or the other thread is enabled. */
  predicate LetsIn(c: Config, s: State, t: Thread, n: nat)
    decreases n
  {
    || Enabled(s, Other(t))
    || (n > 0 && Enabled(s, t) && (!Spins(c, s, t) || LetsIn(c, Next(c, s, t), t, n - 1)))
  }

  /** Steps up to the one that leaves the wait loop, or up to the unlocked mutex when none does. */
  function StepsToLetIn(s: State, t: Thread): nat {
    if t == Main then
      if s.iterationMain < s.iterationSecond then
        match s.main
        case TestExit => 5 case UnlockWait => 4 case Yield => 3 case LockWait => 2
        case _ => 1
      else if s.shouldExit then
        match s.main
        case UnlockWait => 5 case Yield => 4 case LockWait => 3 case Compare => 2
        case _ => 1
      else
        match s.main
        case LockWait => 4 case Compare => 3 case TestExit => 2 case UnlockWait => 1 case Yield => 0
        case _ => 1
    else if s.iterationSecond > s.iterationMain then
      match s.second
      case LockSpin => 3 case CompareTurn => 2 case UnlockSpin => 1 case YieldSpin => 0
      case _ => 1
    else
      match s.second
      case UnlockSpin => 4 case YieldSpin => 3 case LockSpin => 2
      case _ => 1
  }

  lemma SpinNearsUnlock(c: Config, s: State, t: Thread)
    requires Sound(c) && Inv(c, s) && !Final(s) && Enabled(s, t) && !Enabled(s, Other(t))
    ensures StepsToLetIn(s, t) > 0
    ensures Spins(c, s, t) ==> !Final(Next(c, s, t)) && StepsToLetIn(Next(c, s, t), t) < StepsToLetIn(s, t)
  {
  }

  lemma {:induction false} NearlyLetsIn(c: Config, s: State, t: Thread, n: nat)
    requires Sound(c) && Inv(c, s) && !Final(s) && StepsToLetIn(s, t) <= n
    ensures LetsIn(c, s, t, n)
    decreases n
  {
    PickIsEnabled(c, s);
    if !Enabled(s, Other(t)) {
      SpinNearsUnlock(c, s, t);
      if Spins(c, s, t) {
        StepKeepsInv(c, s, t);
        NearlyLetsIn(c, Next(c, s, t), t, n - 1);
      }
    }
  }

  /** No thread can keep the other blocked by spinning: from any reachable state that is not final, at most
      five steps of one thread alone make progress or enable the other. */
  lemma {:induction false} SpinnerLetsOtherIn(c: Config, s: State, t: Thread)
    requires Sound(c) && Reachable(c, s) && !Final(s)
    ensures LetsIn(c, s, t, 5)
  {
    ReachableInv(c, s);
    NearlyLetsIn(c, s, t, 5);
  }

  // ----- Reaching the situation the tool is for -----

  /** A run that ends detached passes a state in which the second thread is about to detach. */
  lemma {:induction false} DetachesInOneStep(c: Config, s: State, schedule: seq<Thread>) returns (before: seq<Thread>)
    requires s.second != Detached && Runs(c, s, schedule) && End(c, s, schedule).second == Detached
    ensures Runs(c, s, before) && End(c, s, before).second == Detach
    decreases |schedule|
  {
    var next := Next(c, s, schedule[0]);
    if next.second == Detached {
      before := [];
    } else {
      var rest := DetachesInOneStep(c, next, schedule[1..]);
      RunStep(c, s, schedule[0], rest);
      before := [schedule[0]] + rest;
    }
  }

  lemma {:induction false} ReachableStep(c: Config, s: State, t: Thread)
    requires Reachable(c, s) && Enabled(s, t)
    ensures Reachable(c, Next(c, s, t))
  {
    var schedule :| Runs(c, START, schedule) && End(c, START, schedule) == s;
    assert Runs(c, Next(c, s, t), []);
    RunStep(c, s, t, []);
    RunsConcat(c, START, schedule, [t] + []);
  }

  /** While the tool's second thread sleeps before it detaches, the lock it has released lets the main thread
      go on to the application mutex, where it is blocked. */
  lemma MainPassesItsWait(c: Config, s: State)
    requires Sound(c) && Reachable(c, s) && s.second == Detach && s.main == WaitForSecond
    ensures Enabled(s, Main)
    ensures var next := Next(c, s, Main);
            && next.main == LockRound && next.second == Detach && next.mutex && next.secondLock
            && !Enabled(next, Main)
  {
    ReachableInv(c, s);
  }

  /** The second thread is about to detach, or has detached, with the main thread blocked on the mutex. */
  predicate MainIsBlocked(s: State, second: SecondPc) {
    s.second == second && s.main == LockRound && s.mutex && s.secondLock
  }

  /** The tool's sequence can be completed, with the main thread blocked on the application mutex when the
      tool detaches, exactly when there are enough rounds. */
  lemma {:induction false} DetachWhileBlockedExactly(c: Config, second: SecondPc)
    requires Sound(c) && c.Tooled? && second in {Detach, Detached}
    ensures (exists s :: Reachable(c, s) && MainIsBlocked(s, second)) <==> c.rounds >= c.threshold
  {
    if s :| Reachable(c, s) && MainIsBlocked(s, second) {
      ReachableInv(c, s);
    }
    if c.rounds >= c.threshold {
      var s := BlockedBeforeDetach(c);
      if second == Detached {
        ReachableStep(c, s, Second);
        assert MainIsBlocked(Next(c, s, Second), second);
      }
    }
  }

  lemma {:induction false} BlockedBeforeDetach(c: Config) returns (s: State)
    requires Sound(c) && c.Tooled? && c.rounds >= c.threshold
    ensures Reachable(c, s) && MainIsBlocked(s, Detach)
  {
    assert Runs(c, START, []) && End(c, START, []) == START;
    var schedule := CanFinish(c, START);
    Outcome(c, End(c, START, schedule));
    var before := DetachesInOneStep(c, START, schedule);
    s := End(c, START, before);
    ReachableInv(c, s);
    if s.main == WaitForSecond {
      MainPassesItsWait(c, s);
      ReachableStep(c, s, Main);
      s := Next(c, s, Main);
    }
  }

  // ----- The steps of the tool's round and of the end, one by one -----

  const TOOL_STEPS := [RaiseFlag, GetSecondLock, GetMainLock, UnlockTurn, CountTurn, Checkpoint2, WaitForMain,
                       LockTurn, Checkpoint3, ReleaseSecond, Detach, Detached]

  const LAST_STEPS := [UnlockLast, SetExit, SecondDone]

  /** During a run the second thread is at each of the given places, in this order. */
  predicate Passes(c: Config, s: State, schedule: seq<Thread>, places: seq<SecondPc>)
    requires Runs(c, s, schedule)
    decreases |schedule|, |places|
  {
    || places == []
    || (s.second == places[0] && Passes(c, s, schedule, places[1..]))
    || (schedule != [] && Passes(c, Next(c, s, schedule[0]), schedule[1..], places))
  }

  /** How many of the tool's steps are done. */
  function ToolPlace(s: State): nat {
    if !s.flag then 0
    else
      match s.second
      case GetSecondLock => 1 case GetMainLock => 2 case UnlockTurn => 3 case CountTurn => 4 case Checkpoint2 => 5
      case WaitForMain => 6 case LockTurn => 7 case Checkpoint3 => 8 case ReleaseSecond => 9 case Detach => 10
      case _ => 11
  }

  function LastPlace(s: State): nat {
    match s.second
    case SetExit => 1 case SecondDone => 2 case _ => 0
  }

  lemma PlacesAdvance(c: Config, s: State, t: Thread)
    requires Sound(c) && Inv(c, s) && Enabled(s, t)
    ensures var next := Next(c, s, t);
            || ToolPlace(next) == ToolPlace(s)
            || (ToolPlace(next) == ToolPlace(s) + 1 < |TOOL_STEPS| && s.second == TOOL_STEPS[ToolPlace(s)])
    ensures var next := Next(c, s, t);
            || LastPlace(next) == LastPlace(s)
            || (LastPlace(next) == LastPlace(s) + 1 < |LAST_STEPS| && s.second == LAST_STEPS[LastPlace(s)])
  {
  }

  /** A step of the run, on which the second thread passes at most the first of the places. */
  lemma {:induction false} PassStep(c: Config, s: State, schedule: seq<Thread>, places: seq<SecondPc>, done: nat)
    requires schedule != [] && Runs(c, s, schedule) && done <= |places| && done <= 1
    requires done == 1 ==> s.second == places[0]
    requires Passes(c, Next(c, s, schedule[0]), schedule[1..], places[done..])
    ensures Passes(c, s, schedule, places)
  {
    assert places[0..] == places;
  }

  /** The first step of a run, seen through the state it leads to and the places passed from there. */
  lemma {:induction false} FirstPassed(c: Config, s: State, schedule: seq<Thread>) returns (next: State)
    requires Sound(c) && Inv(c, s) && schedule != [] && Runs(c, s, schedule)
    ensures Inv(c, next) && Runs(c, next, schedule[1..]) && End(c, s, schedule) == End(c, next, schedule[1..])
    ensures Passes(c, next, schedule[1..], TOOL_STEPS[ToolPlace(next)..]) ==>
              Passes(c, s, schedule, TOOL_STEPS[ToolPlace(s)..])
    ensures Passes(c, next, schedule[1..], LAST_STEPS[LastPlace(next)..]) ==>
              Passes(c, s, schedule, LAST_STEPS[LastPlace(s)..])
  {
    next := Next(c, s, schedule[0]);
    PlacesAdvance(c, s, schedule[0]);
    StepKeepsInv(c, s, schedule[0]);
    PassOne(c, s, schedule, TOOL_STEPS, ToolPlace(s), ToolPlace(next));
    PassOne(c, s, schedule, LAST_STEPS, LastPlace(s), LastPlace(next));
  }

  lemma {:induction false} PassOne(c: Config, s: State, schedule: seq<Thread>, places: seq<SecondPc>, k: nat, n: nat)
    requires schedule != [] && Runs(c, s, schedule)
    requires k == n <= |places| || (k + 1 == n < |places| && s.second == places[k])
    ensures Passes(c, Next(c, s, schedule[0]), schedule[1..], places[n..]) ==> Passes(c, s, schedule, places[k..])
  {
    if Passes(c, Next(c, s, schedule[0]), schedule[1..], places[n..]) {
      assert places[k..][n - k..] == places[n..];
      PassStep(c, s, schedule, places[k..], n - k);
    }
  }

  lemma {:induction false} ToolStepsAhead(c: Config, s: State, schedule: seq<Thread>)
    requires Sound(c) && Inv(c, s) && Runs(c, s, schedule) && End(c, s, schedule).second == Detached
    ensures Passes(c, s, schedule, TOOL_STEPS[ToolPlace(s)..])
    decreases |schedule|
  {
    if schedule == [] {
      assert ToolPlace(s) == 11 && TOOL_STEPS[11..] == [Detached];
      PassLast(c, s, Detached);
    } else {
      var next := FirstPassed(c, s, schedule);
      ToolStepsAhead(c, next, schedule[1..]);
    }
  }

  lemma {:induction false} LastStepsAhead(c: Config, s: State, schedule: seq<Thread>)
    requires Sound(c) && Inv(c, s) && Runs(c, s, schedule) && End(c, s, schedule).second == SecondDone
    ensures Passes(c, s, schedule, LAST_STEPS[LastPlace(s)..])
    decreases |schedule|
  {
    if schedule == [] {
      assert LastPlace(s) == 2 && LAST_STEPS[2..] == [SecondDone];
      PassLast(c, s, SecondDone);
    } else {
      var next := FirstPassed(c, s, schedule);
      LastStepsAhead(c, next, schedule[1..]);
    }
  }

  lemma {:induction false} PassLast(c: Config, s: State, place: SecondPc)
    requires s.second == place
    ensures Passes(c, s, [], [place])
  {
    assert [place][1..] == [];
  }

  /** A run that detaches has gone through all of the tool's steps in order; one in which the second thread
      finishes has unlocked the mutex before it sets the exit flag, with a step of its own for each. */
  lemma {:induction false} StepsAreTakenInOrder(c: Config, schedule: seq<Thread>)
    requires Sound(c) && Runs(c, START, schedule)
    ensures End(c, START, schedule).second == Detached ==> Passes(c, START, schedule, TOOL_STEPS)
    ensures End(c, START, schedule).second == SecondDone ==> Passes(c, START, schedule, LAST_STEPS)
  {
    if End(c, START, schedule).second == Detached {
      ToolStepsAhead(c, START, schedule);
      assert TOOL_STEPS[0..] == TOOL_STEPS;
    }
    if End(c, START, schedule).second == SecondDone {
      LastStepsAhead(c, START, schedule);
      assert LAST_STEPS[0..] == LAST_STEPS;
    }
  }

  // ----- A tool that strikes too early -----

  /** The tool is about to raise its flag in the first round: the main thread has not yet passed its
      checkpoint. */
  const STRIKING := State(Checkpoint, RaiseFlag, true, 0, 0, false, 1, false, false, false)

  /** The main thread has taken the lock the second thread is about to get, and waits for the mutex. */
  const STUCK := State(LockRound, GetSecondLock, true, 0, 0, false, 1, true, false, true)

  lemma {:induction false} StrikeBegins(c: Config)
    requires c.rounds >= 1 && c.Tooled? && c.threshold <= 1
    ensures var run := [Main, Main, Second, Second, Second];
            Runs(c, START, run) && End(c, START, run) == STRIKING
  {
    var s1 := Next(c, START, Main);
    var s2 := Next(c, s1, Main);
    var s3 := Next(c, s2, Second);
    var s4 := Next(c, s3, Second);
    assert Runs(c, STRIKING, []) && End(c, STRIKING, []) == STRIKING;
    RunStep(c, s4, Second, []);
    RunStep(c, s3, Second, [Second]);
    RunStep(c, s2, Second, [Second, Second]);
    RunStep(c, s1, Main, [Second, Second, Second]);
    RunStep(c, START, Main, [Main, Second, Second, Second]);
  }

  lemma {:induction false} StrikeBlocks(c: Config)
    ensures var run := [Second, Main, Main, Main];
            Runs(c, STRIKING, run) && End(c, STRIKING, run) == STUCK
  {
    var s1 := Next(c, STRIKING, Second);
    var s2 := Next(c, s1, Main);
    var s3 := Next(c, s2, Main);
    assert Runs(c, STUCK, []) && End(c, STUCK, []) == STUCK;
    RunStep(c, s3, Main, []);
    RunStep(c, s2, Main, [Main]);
    RunStep(c, s1, Main, [Main, Main]);
    RunStep(c, STRIKING, Second, [Main, Main, Main]);
  }

  /** A tool that strikes in the first round can block both threads. */
  lemma EarlyStrikeDeadlocks(c: Config)
    requires c.rounds >= 1 && c.Tooled? && c.threshold <= 1
    ensures Reachable(c, STUCK) && Deadlocked(STUCK)
  {
    StrikeBegins(c);
    StrikeBlocks(c);
    RunsConcat(c, START, [Main, Main, Second, Second, Second], [Second, Main, Main, Main]);
  }

  lemma {:induction false} RunsConcat(c: Config, s: State, xs: seq<Thread>, ys: seq<Thread>)
    requires Runs(c, s, xs) && Runs(c, End(c, s, xs), ys)
    ensures Runs(c, s, xs + ys) && End(c, s, xs + ys) == End(c, End(c, s, xs), ys)
    decreases |xs|
  {
    if xs == [] {
      assert [] + ys == ys;
    } else {
      var next := FirstStep(c, s, xs, ys);
      RunsConcat(c, next, xs[1..], ys);
    }
  }

  /** The first step of a schedule, seen through the state it leads to. */
  lemma FirstStep(c: Config, s: State, xs: seq<Thread>, ys: seq<Thread>) returns (next: State)
    requires xs != [] && Runs(c, s, xs)
    ensures Runs(c, next, xs[1..]) && End(c, s, xs) == End(c, next, xs[1..])
    ensures Runs(c, next, xs[1..] + ys) ==>
              Runs(c, s, xs + ys) && End(c, s, xs + ys) == End(c, next, xs[1..] + ys)
  {
    next := Next(c, s, xs[0]);
    assert xs + ys == [xs[0]] + (xs[1..] + ys);
    if Runs(c, next, xs[1..] + ys) {
      RunStep(c, s, xs[0], xs[1..] + ys);
    }
  }

  lemma {:induction false} RunStep(c: Config, s: State, t: Thread, rest: seq<Thread>)
    requires Enabled(s, t) && Runs(c, Next(c, s, t), rest)
    ensures Runs(c, s, [t] + rest) && End(c, s, [t] + rest) == End(c, Next(c, s, t), rest)
  {
    assert ([t] + rest)[1..] == rest;
  }

  /** The overlay never blocks both threads exactly when it leaves the first round alone. */
  lemma DeadlockFreeExactly(c: Config)
    requires c.rounds >= 1
    ensures (forall s :: Reachable(c, s) ==> !Deadlocked(s)) <==> Sound(c)
  {
    if Sound(c) {
      forall s | Reachable(c, s)
        ensures !Deadlocked(s)
      {
        AlwaysProgress(c, s);
      }
    } else {
      EarlyStrikeDeadlocks(c);
    }
  }
}
