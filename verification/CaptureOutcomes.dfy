/** What the outcome of a capture says about the run it ended: which poll, check, read or observation decided it. */
module CaptureOutcomes {
  import opened Wrappers
  import opened CaptureProtocol

  /** The `i`-th move is the owner's, made at `Wait`, and finds that the child has exited. */
  ghost predicate FindsExit(s: State, moves: seq<Move>, i: nat) {
    && i < |moves| && moves[i].OwnerMoves? && moves[i].world.waited.Exited?
    && Run(s, moves[..i]).owner.at == Wait
  }

  ghost predicate FirstExit(s: State, moves: seq<Move>, i: nat) {
    FindsExit(s, moves, i) && forall k: nat | k < i :: !FindsExit(s, moves, k)
  }

  ghost predicate NoExit(s: State, moves: seq<Move>) {
    forall i: nat :: !FindsExit(s, moves, i)
  }

  lemma FindsSooner(s: State, init: seq<Move>, last: Move, i: nat)
    ensures i < |init| ==> (FindsExit(s, init + [last], i) <==> FindsExit(s, init, i))
    ensures i > |init| ==> !FindsExit(s, init + [last], i)
    ensures FindsExit(s, init + [last], |init|) <==>
            last.OwnerMoves? && last.world.waited.Exited? && Run(s, init).owner.at == Wait
  {
    hide Run;
    var moves := init + [last];
    assert i < |init| ==> moves[..i] == init[..i];
    assert moves[..|init|] == init && moves[|init|] == last;
  }

  /** What one move does to the owner's memory of the exit. */
  lemma StepExit(s: State, move: Move)
    ensures
      var finds := move.OwnerMoves? && move.world.waited.Exited? && s.owner.at == Wait;
      var after := Step(s, move).owner;
      if s.owner.exited.None? && finds then
        after.exited == Some(move.world.waited.success) || (after.exited.None? && Left(after.at))
      else after.exited == s.owner.exited
    ensures Left(s.owner.at) ==> Left(Step(s, move).owner.at)
  {
    match move
    case ReaderMoves(read) => ReaderKeepsOwner(s, read);
    case OwnerMoves(w) => OwnerExit(s, w);
  }

  lemma ReaderKeepsOwner(s: State, read: ReadResult)
    ensures ReaderStep(s, read).owner == s.owner
  {
  }

  lemma OwnerExit(s: State, w: World)
    ensures
      var after := OwnerStep(s, w).owner;
      if s.owner.exited.None? && w.waited.Exited? && s.owner.at == Wait then
        after.exited == Some(w.waited.success) || (after.exited.None? && Left(after.at))
      else after.exited == s.owner.exited
    ensures Left(s.owner.at) ==> Left(OwnerStep(s, w).owner.at)
  {
  }

  /** The owner remembers the first exit it finds, and no other; it forgets it only to leave. */
  lemma {:induction false} ExitRemembered(s: State, moves: seq<Move>)
    requires s.owner.exited.None? && !Left(s.owner.at)
    ensures
      var after := Run(s, moves).owner;
      && (NoExit(s, moves) ==> after.exited.None?)
      && forall i: nat | FirstExit(s, moves, i) ::
           after.exited == Some(moves[i].world.waited.success) || (after.exited.None? && Left(after.at))
    ensures NoExit(s, moves) || exists i: nat :: FirstExit(s, moves, i)
  {
    hide Step;
    if moves != [] {
      var init, last := moves[..|moves| - 1], moves[|moves| - 1];
      assert moves == init + [last];
      ExitRemembered(s, init);
      StepExit(Run(s, init), last);
      forall i: nat
        ensures i < |init| ==> (FindsExit(s, moves, i) <==> FindsExit(s, init, i))
        ensures i > |init| ==> !FindsExit(s, moves, i)
        ensures FindsExit(s, moves, |init|) <==>
                last.OwnerMoves? && last.world.waited.Exited? && Run(s, init).owner.at == Wait
      {
        FindsSooner(s, init, last, i);
      }
      hide FindsExit;
      if NoExit(s, init) {
        assert FindsExit(s, moves, |init|) ==> FirstExit(s, moves, |init|);
        assert forall i: nat | FirstExit(s, moves, i) :: i == |init|;
      } else {
        var k: nat :| FirstExit(s, init, k);
        assert FirstExit(s, moves, k);
        assert forall i: nat | FirstExit(s, moves, i) :: i == k;
      }
    }
  }

  lemma {:induction false} ExitKept(s: State, moves: seq<Move>)
    requires s.owner.exited.Some?
    ensures Run(s, moves).owner.exited == s.owner.exited
  {
    hide Step;
    if moves != [] {
      ExitKept(s, moves[..|moves| - 1]);
      StepExit(Run(s, moves[..|moves| - 1]), moves[|moves| - 1]);
    }
  }

  /** The owner has heard of the child's exit: before this run, or by the first poll in it that found one. */
  ghost predicate Heard(s: State, moves: seq<Move>, success: bool) {
    if s.owner.exited.Some? then s.owner.exited.value == success
    else exists i: nat :: FirstExit(s, moves, i) && moves[i].world.waited.success == success
  }

  function Reported(success: bool): Ending {
    if success then Fine else Failed(ExitFailed)
  }

  /** A run that ends with a capture has heard of the exit and reports it. */
  lemma ExitHeard(s: State, moves: seq<Move>)
    requires Sound(s) && Run(s, moves).owner.at.Done? && Run(s, moves).owner.at.outcome.Success?
    ensures exists success :: Heard(s, moves, success) && Run(s, moves).owner.at.outcome.value.exit == Reported(success)
  {
    RunSound(s, moves);
    var after := Run(s, moves);
    assert after.owner.exited.Some?;
    assert Left(s.owner.at) && s.owner.at.outcome.Success? ==> s.owner.exited.Some?;
    var success := after.owner.exited.value;
    assert after.owner.at.outcome.value.exit == Reported(success);
    if s.owner.exited.Some? {
      ExitKept(s, moves);
    } else if Left(s.owner.at) {
      LeftForGood(s, moves);
    } else {
      ExitRemembered(s, moves);
    }
    hide Run, FirstExit;
    assert Heard(s, moves, success);
  }

  /** What an owner that leaves will return does not change any more. */
  lemma {:induction false} LeftForGood(s: State, moves: seq<Move>)
    requires Left(s.owner.at)
    ensures Left(Run(s, moves).owner.at) && Run(s, moves).owner.at.outcome == s.owner.at.outcome
  {
    hide Step;
    if moves != [] {
      LeftForGood(s, moves[..|moves| - 1]);
      StepLeft(Run(s, moves[..|moves| - 1]), moves[|moves| - 1]);
    }
  }

  lemma StepLeft(s: State, move: Move)
    requires Left(s.owner.at)
    ensures Left(Step(s, move).owner.at) && Step(s, move).owner.at.outcome == s.owner.at.outcome
  {
    match move
    case ReaderMoves(read) => ReaderKeepsOwner(s, read);
    case OwnerMoves(w) =>
      hide AfterReceive, AfterWait;
  }

  /**
   The reported exit is that of the first poll that found one: a capture that returns has met such a
   poll, and calls the child fine exactly if that poll did.
   */
  lemma ExitReported(timeout: nat, limit: nat, retainFailed: bool, joins: bool, moves: seq<Move>)
    requires Start(timeout, limit, retainFailed, joins).Success?
    requires Run(Start(timeout, limit, retainFailed, joins).value, moves).owner.at.Done?
    requires Run(Start(timeout, limit, retainFailed, joins).value, moves).owner.at.outcome.Success?
    ensures
      var s := Start(timeout, limit, retainFailed, joins).value;
      var exit := Run(s, moves).owner.at.outcome.value.exit;
      && (exists i: nat :: FirstExit(s, moves, i))
      && forall i: nat | FirstExit(s, moves, i) ::
           exit == if moves[i].world.waited.success then Fine else Failed(ExitFailed)
  {
    var s := Start(timeout, limit, retainFailed, joins).value;
    StartSound(timeout, limit, retainFailed, joins);
    hide Sound, Run;
    ExitHeard(s, moves);
    OneFirstExit(s, moves);
  }

  lemma OneFirstExit(s: State, moves: seq<Move>)
    ensures forall i: nat, k: nat | FirstExit(s, moves, i) && FirstExit(s, moves, k) :: i == k
  {
    hide FindsExit;
  }

  // ---------------------------------------------------------------- failures

  /** The owner consults clock and cancellation before each round of waiting and before each event. */
  ghost predicate Checks(s: State) {
    s.owner.at.Top? || s.owner.at.Drain?
  }

  /** The move, made in this state, is what `fault` stands for. */
  ghost predicate Causes(s: State, move: Move, fault: Fault) {
    match fault
    case Cancelled => move.OwnerMoves? && Checks(s) && move.world.control.CancelRequested?
    case TimedOut => move.OwnerMoves? && Checks(s) && move.world.control.DeadlinePassed?
    case OutputLimit =>
      move.ReaderMoves? && s.reader.at.Read? && move.read.Data? &&
      s.reader.bytes + |move.read.chunk| > s.config.limit
    case CaptureFailed => move.ReaderMoves? && s.reader.at.Read? && move.read.ReadError?
    case ObservationFailed =>
      move.OwnerMoves? && s.owner.at.Receive? && s.queue != [] && s.queue[0].Chunk? && !move.world.observes
    case WaitFailed => move.OwnerMoves? && s.owner.at.Wait? && move.world.waited.PollFailed?
    case ExitFailed =>
      move.OwnerMoves? && s.owner.at.Wait? && move.world.waited == Exited(false) && !s.config.retainFailed
    case _ => false
  }

  ghost predicate CausedAt(s: State, moves: seq<Move>, fault: Fault, i: nat) {
    i < |moves| && Causes(Run(s, moves[..i]), moves[i], fault)
  }

  ghost predicate Caused(s: State, moves: seq<Move>, fault: Fault) {
    exists i: nat :: CausedAt(s, moves, fault, i)
  }

  lemma CausedOn(s: State, init: seq<Move>, last: Move, fault: Fault)
    ensures Caused(s, init, fault) || Causes(Run(s, init), last, fault) ==> Caused(s, init + [last], fault)
  {
    hide Causes, Run;
    var moves := init + [last];
    assert moves[..|init|] == init && moves[|init|] == last;
    if i: nat :| CausedAt(s, init, fault, i) {
      assert moves[..i] == init[..i] && moves[i] == init[i];
      assert CausedAt(s, moves, fault, i);
    }
    if Causes(Run(s, init), last, fault) {
      assert CausedAt(s, moves, fault, |init|);
    }
  }

  ghost predicate FailsWith(result: Option<Ending>, fault: Fault) {
    result == Some(Failed(fault))
  }

  /** The fault is on its way to the owner, or is what the owner leaves with. */
  ghost predicate Owed(s: State, fault: Fault) {
    if Left(s.owner.at) then s.owner.at.outcome == Failure(fault)
    else FailsWith(QueuedResult(s.queue), fault) || FailsWith(PendingResult(s.reader.at), fault)
  }

  lemma Unstopped(s: State)
    requires Sound(s)
    ensures s.reader.bytes <= s.config.limit
    ensures !Left(s.owner.at) ==> !s.stop && s.connected
  {
    hide Conserved, ResultLast, Concat;
  }

  lemma QueuedLast(queue: seq<Event>, event: Event)
    ensures QueuedResult(queue + [event]) == ResultOf(event)
  {
    assert (queue + [event])[|queue|] == event;
  }

  lemma ReadOwes(s: State, read: ReadResult, fault: Fault)
    requires s.reader.at == Read && s.reader.bytes <= s.config.limit
    ensures AfterRead(s, read).queue == s.queue
    ensures FailsWith(PendingResult(AfterRead(s, read).reader.at), fault) ==> Causes(s, ReaderMoves(read), fault)
  {
    hide QueuedResult;
  }

  lemma SendOwes(s: State, event: Event, fault: Fault)
    requires s.reader.at == Send(event) && s.connected
    ensures
      var next := ReaderStep(s, Interrupted);
      FailsWith(QueuedResult(next.queue), fault) || FailsWith(PendingResult(next.reader.at), fault) ==>
        FailsWith(QueuedResult(s.queue), fault) || FailsWith(PendingResult(s.reader.at), fault)
  {
    QueuedLast(s.queue, event);
    hide QueuedResult;
  }

  lemma ReaderOwes(s: State, read: ReadResult, fault: Fault)
    requires Sound(s) && Owed(ReaderStep(s, read), fault)
    ensures Owed(s, fault) || Causes(s, ReaderMoves(read), fault)
  {
    Unstopped(s);
    ReaderKeepsOwner(s, read);
    hide Sound, QueuedResult, Causes;
    if !Left(s.owner.at) {
      match s.reader.at
      case Read =>
        ReadOwes(s, read, fault);
        hide AfterRead;
      case Send(event) =>
        SendOwes(s, event, fault);
        hide AfterRead, Pushed, Refuse;
        assert ReaderStep(s, read) == ReaderStep(s, Interrupted);
      case _ =>
        hide AfterRead;
    }
  }

  lemma TakenOwes(s: State, turn: nat, observes: bool, fault: Fault)
    requires Sound(s) && s.owner.at == Receive(turn) && Owed(AfterReceive(s, turn, observes), fault)
    ensures Owed(s, fault) || Causes(s, OwnerMoves(World(Proceed, observes, Running)), fault)
  {
    if s.queue == [] {
      NeverVanishes(s);
      hide Sound;
    } else {
      assert |s.queue| > 1 ==> s.queue[0].Chunk?;
      hide Sound;
      assert s.queue[1..] != [] ==> s.queue[1..][|s.queue| - 2] == s.queue[|s.queue| - 1];
    }
  }

  lemma WaitOwes(s: State, w: World, fault: Fault)
    requires s.owner.at.Wait? && Owed(AfterWait(s, w.waited), fault)
    ensures Owed(s, fault) || Causes(s, OwnerMoves(w), fault)
  {
    hide QueuedResult, PendingResult;
  }

  lemma CheckOwes(s: State, w: World, fault: Fault)
    requires !s.owner.at.Wait? && !s.owner.at.Receive? && Owed(OwnerStep(s, w), fault)
    ensures Owed(s, fault) || Causes(s, OwnerMoves(w), fault)
  {
    hide QueuedResult, PendingResult, AfterReceive, AfterWait;
  }

  lemma OwnerOwes(s: State, w: World, fault: Fault)
    requires Sound(s) && Owed(OwnerStep(s, w), fault)
    ensures Owed(s, fault) || Causes(s, OwnerMoves(w), fault)
  {
    hide Sound, Owed, AfterReceive, AfterWait;
    match s.owner.at
    case Receive(turn) =>
      TakenOwes(s, turn, w.observes, fault);
    case Wait =>
      WaitOwes(s, w, fault);
      hide Causes;
    case _ =>
      hide Causes, OwnerStep;
      CheckOwes(s, w, fault);
  }

  lemma {:induction false} RunOwes(s: State, moves: seq<Move>, fault: Fault)
    requires Sound(s) && !Owed(s, fault) && Owed(Run(s, moves), fault)
    ensures Caused(s, moves, fault)
  {
    hide Sound, Owed, Causes, ReaderStep, OwnerStep;
    if moves != [] {
      var init, last := moves[..|moves| - 1], moves[|moves| - 1];
      assert moves == init + [last];
      RunSound(s, init);
      CausedOn(s, init, last, fault);
      if Owed(Run(s, init), fault) {
        RunOwes(s, init, fault);
      } else {
        match last
        case ReaderMoves(read) => ReaderOwes(Run(s, init), read, fault);
        case OwnerMoves(w) => OwnerOwes(Run(s, init), w, fault);
      }
    }
  }

  /**
   No capture fails without its reason: a run that ends with a fault met a move, in a state in which
   it counts, that is what the fault stands for.
   */
  lemma FailureMeans(timeout: nat, limit: nat, retainFailed: bool, joins: bool, moves: seq<Move>)
    requires Start(timeout, limit, retainFailed, joins).Success?
    requires Run(Start(timeout, limit, retainFailed, joins).value, moves).owner.at.Done?
    requires Run(Start(timeout, limit, retainFailed, joins).value, moves).owner.at.outcome.Failure?
    ensures
      var s := Start(timeout, limit, retainFailed, joins).value;
      Caused(s, moves, Run(s, moves).owner.at.outcome.error)
  {
    var s := Start(timeout, limit, retainFailed, joins).value;
    StartSound(timeout, limit, retainFailed, joins);
    hide Sound, Run;
    RunOwes(s, moves, Run(s, moves).owner.at.outcome.error);
  }

  // ---------------------------------------------------------------- what a capture was started with

  lemma {:induction false} ConfigKept(s: State, moves: seq<Move>)
    ensures Run(s, moves).config == s.config
  {
    if moves != [] {
      ConfigKept(s, moves[..|moves| - 1]);
      StepConfig(Run(s, moves[..|moves| - 1]), moves[|moves| - 1]);
      hide Step;
    }
  }

  lemma StepConfig(s: State, move: Move)
    ensures Step(s, move).config == s.config
  {
  }

  lemma StepJoins(s: State, move: Move)
    requires s.config.joins && (s.owner.at.Done? ==> s.reader.at.Halted?)
    ensures Step(s, move).owner.at.Done? ==> Step(s, move).reader.at.Halted?
  {
    match move
    case ReaderMoves(read) =>
      ReaderKeepsOwner(s, read);
    case OwnerMoves(w) =>
      hide AfterReceive, AfterWait;
      AfterReceiveGoesOn(s, w.observes);
      AfterWaitGoesOn(s, w.waited);
  }

  lemma AfterReceiveGoesOn(s: State, observes: bool)
    ensures s.owner.at.Receive? ==> !AfterReceive(s, s.owner.at.turn, observes).owner.at.Done?
  {
  }

  lemma AfterWaitGoesOn(s: State, waited: Poll)
    ensures !AfterWait(s, waited).owner.at.Done?
  {
  }

  lemma {:induction false} JoinedHalts(s: State, moves: seq<Move>)
    requires s.config.joins && (s.owner.at.Done? ==> s.reader.at.Halted?)
    ensures Run(s, moves).owner.at.Done? ==> Run(s, moves).reader.at.Halted?
  {
    if moves != [] {
      JoinedHalts(s, moves[..|moves| - 1]);
      ConfigKept(s, moves[..|moves| - 1]);
      StepJoins(Run(s, moves[..|moves| - 1]), moves[|moves| - 1]);
      hide Step;
    }
  }

  /**
   What the arguments of a capture decide: the most bytes it returns, what an output limit means, whether
   a failed child's bytes are returned or refused, and whether the reader has ended when it returns.
   */
  lemma ParametersDecide(timeout: nat, limit: nat, retainFailed: bool, joins: bool, moves: seq<Move>)
    requires Start(timeout, limit, retainFailed, joins).Success?
    requires Run(Start(timeout, limit, retainFailed, joins).value, moves).owner.at.Done?
    ensures
      var after := Run(Start(timeout, limit, retainFailed, joins).value, moves);
      && (joins ==> after.reader.at.Halted?)
      && match after.owner.at.outcome {
           case Success(captured) => |captured.stdout| <= limit && (captured.exit.Failed? ==> retainFailed)
           case Failure(fault) =>
             (fault == OutputLimit ==> |after.past.delivered| > limit) && (fault == ExitFailed ==> !retainFailed)
         }
  {
    var s := Start(timeout, limit, retainFailed, joins).value;
    StartSound(timeout, limit, retainFailed, joins);
    RunSound(s, moves);
    ConfigKept(s, moves);
    hide Run;
    var after := Run(s, moves);
    if joins {
      JoinedHalts(s, moves);
    }
    assert Bounded(after) && OutcomeJustified(after, after.owner.at.outcome);
    hide Sound;
    if after.owner.at.outcome == Failure(ExitFailed) {
      FailureMeans(timeout, limit, retainFailed, joins, moves);
      var i: nat :| CausedAt(s, moves, ExitFailed, i);
      ConfigKept(s, moves[..i]);
    }
  }

  /** An owner that has left goes without the reader exactly if it was not to join it, or the reader has ended. */
  lemma DropWaitsExactly(timeout: nat, limit: nat, retainFailed: bool, joins: bool, moves: seq<Move>, w: World)
    requires Start(timeout, limit, retainFailed, joins).Success?
    requires Run(Start(timeout, limit, retainFailed, joins).value, moves).owner.at.Joining?
    ensures
      var after := Run(Start(timeout, limit, retainFailed, joins).value, moves);
      Step(after, OwnerMoves(w)).owner.at.Done? <==> !joins || after.reader.at.Halted?
  {
    ConfigKept(Start(timeout, limit, retainFailed, joins).value, moves);
    hide Run;
  }

  // ---------------------------------------------------------------- how long one drain is

  /** How many events the owner has taken: chunks it was told of, and the end of the stream. */
  function Events(owner: Owner): nat {
    |owner.observed| + if owner.drained then 1 else 0
  }

  /** The owner is in the middle of a drain, at this turn. */
  ghost predicate AtTurn(owner: Owner, turn: nat) {
    owner.at == Drain(turn) || owner.at == Receive(turn)
  }

  ghost predicate Draining(s: State, moves: seq<Move>) {
    forall i | 0 <= i <= |moves| :: Run(s, moves[..i]).owner.at.Drain? || Run(s, moves[..i]).owner.at.Receive?
  }

  lemma StepTurn(s: State, move: Move, turn: nat)
    requires AtTurn(s.owner, turn) && turn <= 64 && (s.owner.at.Receive? ==> !s.owner.drained && turn < 64)
    requires Step(s, move).owner.at.Drain? || Step(s, move).owner.at.Receive?
    ensures
      var after := Step(s, move).owner;
      var next := turn + Events(after) - Events(s.owner);
      && next >= 0 && AtTurn(after, next) && next <= 64
      && (after.at.Receive? ==> !after.drained && next < 64)
  {
    match move
    case ReaderMoves(read) => ReaderKeepsOwner(s, read);
    case OwnerMoves(w) =>
  }

  /** A drain takes one event a turn, and at most 64. */
  lemma {:induction false} TurnsCount(s: State, moves: seq<Move>)
    requires s.owner.at == Drain(0) && Draining(s, moves)
    ensures
      var after := Run(s, moves).owner;
      var taken := Events(after) - Events(s.owner);
      && 0 <= taken <= 64 && AtTurn(after, taken) && (after.at.Receive? ==> !after.drained && taken < 64)
  {
    hide Step;
    if moves != [] {
      var init, last := moves[..|moves| - 1], moves[|moves| - 1];
      assert forall i | 0 <= i <= |init| :: moves[..i] == init[..i];
      assert moves[..|moves|] == moves;
      hide Run;
      assert Draining(s, init);
      TurnsCount(s, init);
      assert Run(s, moves) == Step(Run(s, init), last) by {
        RunLast(s, init, last);
        assert moves == init + [last];
      }
      StepTurn(Run(s, init), last, Events(Run(s, init).owner) - Events(s.owner));
    } else {
      assert Run(s, []) == s;
    }
  }

  /** A drain gives way to the wait exactly after 64 events, at the end of the stream, or on an empty queue. */
  lemma DrainEnds(s: State, moves: seq<Move>, w: World)
    requires s.owner.at == Drain(0) && Draining(s, moves)
    ensures
      var after := Run(s, moves);
      Step(after, OwnerMoves(w)).owner.at.Wait? <==>
        if after.owner.at.Drain? then Events(after.owner) == Events(s.owner) + 64 || after.owner.drained
        else after.queue == [] && !after.reader.at.Halted?
  {
    TurnsCount(s, moves);
    hide Run, Draining;
  }

  lemma RunLast(s: State, init: seq<Move>, last: Move)
    ensures Run(s, init + [last]) == Step(Run(s, init), last)
  {
    assert (init + [last])[..|init|] == init;
    hide Step;
  }
}
