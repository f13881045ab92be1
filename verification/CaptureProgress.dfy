/**
 Captures that nothing disturbs end, and end well: if the stream ends within the limit, the
 child has exited acceptably, the observer agrees and every check passes, fair scheduling of the
 two threads brings the whole stream to the caller.
 */
module CaptureProgress {
  import opened Wrappers
  import opened CaptureProtocol
  import opened CaptureOutcomes

  // ---------------------------------------------------------------- undisturbed captures

  /**
   The move is answered as in a capture that goes well. A read that yields nothing yet is not a
   move here: the reader repeats it.
   */
  ghost predicate Willing(s: State, move: Move) {
    match move
    case ReaderMoves(read) =>
      s.reader.at.Read? ==>
        read.EndOfFile? || (read.Data? && |read.chunk| <= s.config.limit - s.reader.bytes)
    case OwnerMoves(w) =>
      w.control.Proceed? && w.observes && w.waited.Exited? && (w.waited.success || s.config.retainFailed)
  }

  ghost predicate FineSoFar(result: Option<Ending>) {
    result.None? || result.value.Fine?
  }

  /** Nothing has gone wrong yet. */
  ghost predicate Unspoiled(s: State) {
    && FineSoFar(QueuedResult(s.queue)) && FineSoFar(PendingResult(s.reader.at))
    && (Left(s.owner.at) ==> s.owner.at.outcome.Success?)
    && (s.reader.at.Halted? ==> QueuedResult(s.queue).Some? || s.owner.drained)
  }

  lemma StartUnspoiled(timeout: nat, limit: nat, retainFailed: bool, joins: bool)
    requires Start(timeout, limit, retainFailed, joins).Success?
    ensures Unspoiled(Start(timeout, limit, retainFailed, joins).value)
  {
  }

  // ---------------------------------------------------------------- what is left to do

  /** Events the reader may still queue: one for each further byte, one held, and the result. */
  ghost function ToQueue(s: State): nat
    requires s.reader.bytes <= s.config.limit
  {
    match s.reader.at
    case Halted => 0
    case Offer(event) => if event.Finished? then 1 else s.config.limit - s.reader.bytes + 2
    case Send(event) => if event.Finished? then 1 else s.config.limit - s.reader.bytes + 2
    case _ => s.config.limit - s.reader.bytes + 1
  }

  /** Reader steps until the next event is queued. */
  ghost function ToPush(at: ReaderAt): nat {
    match at
    case Halted => 0
    case Send(_) => 1
    case Offer(_) => 2
    case Read => 3
    case CheckStop => 4
  }

  /** Owner steps until the next queued event is taken. */
  ghost function ToTake(at: OwnerAt): nat {
    match at
    case Receive(_) => 1
    case Drain(turn) => if turn < QUEUE_CHUNKS then 2 else 6
    case Top => 3
    case Decide => 4
    case Wait => 5
    case _ => 0
  }

  /** Owner steps until it is done, once everything is taken. */
  ghost function ToLeave(owner: Owner): nat {
    match owner.at
    case Done(_) => 0
    case Joining(_) => 1
    case Leaving(_) => 2
    case Decide => if owner.exited.Some? then 3 else 7
    case Wait => 4
    case Drain(_) => 5
    case Top => 6
    case Receive(_) => 8
  }

  /** Only an empty queue makes the owner wait for the reader. */
  ghost predicate WaitsForEvent(s: State) {
    s.queue == [] && !s.reader.at.Halted?
  }

  ghost function Phase(s: State): nat {
    if s.queue != [] then ToTake(s.owner.at)
    else if !s.reader.at.Halted? then 6 + ToPush(s.reader.at)
    else ToLeave(s.owner)
  }

  ghost function Work(s: State): nat
    requires s.reader.bytes <= s.config.limit
  {
    11 * (ToQueue(s) + |s.queue|) + Phase(s)
  }

  // ---------------------------------------------------------------- every step

  /** What the invariant says in an unspoiled state. */
  lemma UnspoiledMeans(s: State)
    requires Sound(s) && Unspoiled(s)
    ensures s.reader.bytes <= s.config.limit && |s.queue| <= QUEUE_CHUNKS
    ensures Left(s.owner.at) ==> s.owner.drained
    ensures s.owner.drained ==> s.queue == [] && s.reader.at.Halted?
    ensures s.queue == [] && s.reader.at.Halted? ==> s.owner.drained
    ensures s.stop ==> Left(s.owner.at)
    ensures !s.connected ==> s.stop
    ensures s.owner.at.Receive? ==> !s.owner.drained
    ensures QueuedResult(s.queue).Some? ==> s.reader.at.Halted?
    ensures forall i | 0 <= i < |s.queue| - 1 :: s.queue[i].Chunk?
  {
    hide Conserved, Concat;
  }

  /** A reader that is heard reads on, offers what it read, and queues it where there is room. */
  lemma ReaderWorks(s: State, read: ReadResult)
    requires Sound(s) && Unspoiled(s) && Willing(s, ReaderMoves(read)) && Sound(ReaderStep(s, read))
    ensures Unspoiled(ReaderStep(s, read)) && Work(ReaderStep(s, read)) <= Work(s)
    ensures Work(ReaderStep(s, read)) == Work(s) ==>
              WaitsForEvent(ReaderStep(s, read)) == WaitsForEvent(s) == false
  {
    UnspoiledMeans(s);
    hide Sound;
    match s.reader.at
    case CheckStop =>
    case Read =>
    case Offer(event) =>
    case Send(event) =>
      if |s.queue| < QUEUE_CHUNKS {
        PushedWorks(s, event);
      }
    case Halted =>
  }

  lemma PushedWorks(s: State, event: Event)
    requires s.reader.at == Send(event) && s.reader.bytes <= s.config.limit && Unspoiled(s)
    requires QueuedResult(s.queue).None?
    ensures Unspoiled(Pushed(s, event)) && Work(Pushed(s, event)) <= Work(s)
    ensures WaitsForEvent(s) ==> Work(Pushed(s, event)) < Work(s)
  {
    assert (s.queue + [event])[|s.queue|] == event;
    assert |s.queue + [event]| == |s.queue| + 1;
  }

  lemma TakenWorks(s: State, turn: nat, observes: bool)
    requires Sound(s) && Unspoiled(s) && s.owner.at == Receive(turn) && s.queue != [] && observes
    ensures var next := AfterReceive(s, turn, observes);
      Unspoiled(next) && next.reader == s.reader && next.config == s.config && Work(next) < Work(s)
  {
    UnspoiledMeans(s);
    hide Sound;
    assert |s.queue[1..]| == |s.queue| - 1;
    assert s.queue[1..] != [] ==> s.queue[1..][|s.queue| - 2] == s.queue[|s.queue| - 1];
    assert s.queue[0].Finished? ==> |s.queue| == 1;
  }

  /** `next` is no further from the end than `s`, and nearer unless the owner must wait for the reader. */
  ghost predicate Nearer(s: State, next: State) {
    && Unspoiled(next) && next.reader == s.reader && next.config == s.config && s.reader.bytes <= s.config.limit
    && Work(next) <= Work(s)
    && (Work(next) == Work(s) > 0 ==> WaitsForEvent(next) == WaitsForEvent(s) == true)
  }

  lemma EmptyReceives(s: State, turn: nat, observes: bool)
    requires Sound(s) && Unspoiled(s) && s.owner.at == Receive(turn) && s.queue == []
    ensures Nearer(s, AfterReceive(s, turn, observes))
  {
    UnspoiledMeans(s);
    hide Sound;
    assert !s.reader.at.Halted?;
  }

  lemma WaitWorks(s: State, waited: Poll)
    requires Sound(s) && Unspoiled(s) && s.owner.at == Wait
    requires waited.Exited? && (waited.success || s.config.retainFailed)
    ensures Nearer(s, AfterWait(s, waited))
  {
    UnspoiledMeans(s);
    hide Sound;
  }

  /** The checks, the return, and the drop of the reader. */
  lemma MovesOn(s: State, w: World)
    requires Sound(s) && Unspoiled(s) && w.control.Proceed? && !s.owner.at.Receive? && !s.owner.at.Wait?
    ensures Nearer(s, OwnerStep(s, w))
  {
    hide Sound, AfterReceive, AfterWait;
    UnspoiledMeans(s);
  }

  /** An owner that finds an event, or everything taken, gets closer to its end; otherwise it waits. */
  lemma OwnerWorks(s: State, w: World)
    requires Sound(s) && Unspoiled(s) && Willing(s, OwnerMoves(w))
    ensures Nearer(s, OwnerStep(s, w))
  {
    hide Sound, Unspoiled, Work, WaitsForEvent, AfterReceive, AfterWait;
    UnspoiledMeans(s);
    match s.owner.at
    case Receive(turn) =>
      if s.queue == [] {
        EmptyReceives(s, turn, w.observes);
      } else {
        TakenWorks(s, turn, w.observes);
      }
    case Wait =>
      WaitWorks(s, w.waited);
    case _ =>
      MovesOn(s, w);
  }

  /** No move leads away from the end, and a move of the awaited thread leads towards it. */
  lemma WorkDrops(s: State, move: Move)
    requires Sound(s) && Unspoiled(s) && Willing(s, move)
    ensures Sound(Step(s, move)) && Unspoiled(Step(s, move)) && Step(s, move).config == s.config
    ensures s.reader.bytes <= s.config.limit && Step(s, move).reader.bytes <= s.config.limit
    ensures Work(Step(s, move)) <= Work(s) && (Work(s) == 0 <==> s.owner.at.Done?)
    ensures Work(Step(s, move)) == Work(s) > 0 ==>
              WaitsForEvent(Step(s, move)) == WaitsForEvent(s) && move.ReaderMoves? != WaitsForEvent(s)
  {
    StepSound(s, move);
    StepKeepsConfig(s, move);
    UnspoiledMeans(s);
    DoneExactly(s);
    hide Sound, ReaderStep, OwnerStep, Work, Unspoiled, WaitsForEvent, Willing;
    match move
    case ReaderMoves(read) =>
      ReaderWorks(s, read);
      UnspoiledMeans(Step(s, move));
    case OwnerMoves(w) =>
      OwnerWorks(s, w);
  }

  lemma DoneExactly(s: State)
    requires Sound(s) && Unspoiled(s) && s.reader.bytes <= s.config.limit
    ensures Work(s) == 0 <==> s.owner.at.Done?
  {
    UnspoiledMeans(s);
    hide Sound, Unspoiled;
  }

  // ---------------------------------------------------------------- every fair run

  /** Every move of the run is willing in the state it meets. */
  ghost predicate AllWilling(s: State, moves: seq<Move>) {
    moves == [] ||
      (AllWilling(s, moves[..|moves| - 1]) && Willing(Run(s, moves[..|moves| - 1]), moves[|moves| - 1]))
  }

  lemma {:induction false} AllWillingSplits(s: State, a: seq<Move>, b: seq<Move>)
    requires AllWilling(s, a + b)
    ensures AllWilling(s, a) && AllWilling(Run(s, a), b)
    decreases |b|
  {
    hide Willing, Run;
    if b == [] {
      assert a + b == a;
    } else {
      var init := b[..|b| - 1];
      assert (a + b)[..|a + b| - 1] == a + init;
      AllWillingSplits(s, a, init);
      RunConcat(s, a, init);
    }
  }

  lemma {:induction false} WorkOver(s: State, moves: seq<Move>)
    requires Sound(s) && Unspoiled(s) && AllWilling(s, moves)
    ensures Sound(Run(s, moves)) && Unspoiled(Run(s, moves)) && Run(s, moves).config == s.config
    ensures s.reader.bytes <= s.config.limit && Run(s, moves).reader.bytes <= s.config.limit
    ensures Work(Run(s, moves)) <= Work(s)
    ensures Work(Run(s, moves)) == Work(s) > 0 ==>
              WaitsForEvent(Run(s, moves)) == WaitsForEvent(s) && Count(moves, WaitsForEvent(s)) == 0
  {
    hide Sound, Unspoiled, Step, Work, WaitsForEvent, Willing;
    UnspoiledMeans(s);
    if moves != [] {
      var init := moves[..|moves| - 1];
      WorkOver(s, init);
      WorkDrops(Run(s, init), moves[|moves| - 1]);
    }
  }

  ghost predicate BothMove(moves: seq<Move>) {
    Count(moves, true) > 0 && Count(moves, false) > 0
  }

  lemma {:induction false} RoundsWork(s: State, rounds: seq<seq<Move>>)
    requires Sound(s) && Unspoiled(s) && AllWilling(s, Flattened(rounds))
    requires forall i | 0 <= i < |rounds| :: BothMove(rounds[i])
    ensures var after := Run(s, Flattened(rounds));
      && Sound(after) && Unspoiled(after) && s.reader.bytes <= s.config.limit
      && after.reader.bytes <= after.config.limit
      && (Work(after) == 0 || Work(after) + |rounds| <= Work(s))
  {
    hide Sound, Unspoiled, Work, Run, WaitsForEvent, Count, AllWilling;
    UnspoiledMeans(s);
    if rounds == [] {
      RunNothing(s);
    } else {
      var init, last := rounds[..|rounds| - 1], rounds[|rounds| - 1];
      assert BothMove(last);
      AllWillingSplits(s, Flattened(init), last);
      RoundsWork(s, init);
      RunConcat(s, Flattened(init), last);
      WorkOver(Run(s, Flattened(init)), last);
    }
  }

  lemma WorkBounded(s: State)
    requires s.reader.bytes <= s.config.limit && |s.queue| <= QUEUE_CHUNKS
    ensures Work(s) < 11 * (s.config.limit + QUEUE_CHUNKS + 3)
  {
  }

  /**
   From every reachable state in which nothing has gone wrong, a capture that nothing disturbs from
   now on is over after boundedly many rounds in which both threads move, wherever they were and
   however they interleave, and it returns the whole stream and the exit the child was found to have.
   */
  lemma UndisturbedCaptureSucceeds(s: State, rounds: seq<seq<Move>>)
    requires Reachable(s) && Unspoiled(s) && AllWilling(s, Flattened(rounds))
    requires forall i | 0 <= i < |rounds| :: BothMove(rounds[i])
    requires |rounds| >= 11 * (s.config.limit + QUEUE_CHUNKS + 3)
    ensures
      var after := Run(s, Flattened(rounds));
      && after.owner.at.Done? && after.owner.at.outcome.Success?
      && after.past.eof && after.owner.at.outcome.value.stdout == after.past.delivered
      && exists success :: Heard(s, Flattened(rounds), success) &&
                           after.owner.at.outcome.value.exit == Reported(success)
  {
    ReachableSound(s);
    UnspoiledMeans(s);
    hide Work, AllWilling;
    RoundsWork(s, rounds);
    WorkBounded(s);
    var after := Run(s, Flattened(rounds));
    DoneExactly(after);
    assert Unspoiled(after) && Left(after.owner.at);
    DoneMeans(after);
    ExitHeard(s, Flattened(rounds));
    hide Sound, Run, Flattened, Heard;
  }

  lemma StartReachable(timeout: nat, limit: nat, retainFailed: bool, joins: bool)
    requires Start(timeout, limit, retainFailed, joins).Success?
    ensures Reachable(Start(timeout, limit, retainFailed, joins).value)
  {
    assert Run(Start(timeout, limit, retainFailed, joins).value, []) ==
        Start(timeout, limit, retainFailed, joins).value;
  }

  /** In particular from the start: every accepted timeout and limit. */
  lemma UndisturbedStartSucceeds(timeout: nat, limit: nat, retainFailed: bool, joins: bool, rounds: seq<seq<Move>>)
    requires Start(timeout, limit, retainFailed, joins).Success?
    requires AllWilling(Start(timeout, limit, retainFailed, joins).value, Flattened(rounds))
    requires |rounds| >= 11 * (limit + QUEUE_CHUNKS + 3) && forall i | 0 <= i < |rounds| :: BothMove(rounds[i])
    ensures
      var after := Run(Start(timeout, limit, retainFailed, joins).value, Flattened(rounds));
      && after.owner.at.Done? && after.owner.at.outcome.Success?
      && after.owner.at.outcome.value.stdout == after.past.delivered
      && (exists i: nat :: FirstExit(Start(timeout, limit, retainFailed, joins).value, Flattened(rounds), i))
      && forall i: nat | FirstExit(Start(timeout, limit, retainFailed, joins).value, Flattened(rounds), i) ::
           after.owner.at.outcome.value.exit ==
           if Flattened(rounds)[i].world.waited.success then Fine else Failed(ExitFailed)
  {
    StartUnspoiled(timeout, limit, retainFailed, joins);
    StartReachable(timeout, limit, retainFailed, joins);
    hide Unspoiled, Reachable, AllWilling, Run, BothMove, FirstExit;
    UndisturbedCaptureSucceeds(Start(timeout, limit, retainFailed, joins).value, rounds);
    ExitReported(timeout, limit, retainFailed, joins, Flattened(rounds));
  }

  lemma DoneMeans(s: State)
    requires Sound(s) && s.owner.at.Done? && s.owner.at.outcome.Success?
    ensures s.past.eof && s.owner.at.outcome.value.stdout == s.past.delivered
  {
    assert Queued(s.queue) == [] && Unsent(s.reader.at) == [];
    hide Queued, Unsent, Concat;
  }
}
