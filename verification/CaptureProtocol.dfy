/**
 Bounded capture of a child's output: a reader thread and an owner over a bounded queue, a stop
 flag and a deadline, as a step system. One step of either thread is one access to something shared.
 */
module CaptureProtocol {
  import opened Wrappers
  import Checkpoints

  type Bytes = Checkpoints.Bytes

  const QUEUE_CHUNKS := 64
  const BUFFER := 8192
  const MAX_CAPTURE_BYTES := 64 * 1024 * 1024

  /** What one read can return: the read buffer's size bounds it. */
  type Chunk = c: Bytes | 1 <= |c| <= BUFFER witness [0]

  datatype Fault =
    | InvalidLimits | Cancelled | TimedOut | OutputLimit | CaptureFailed | ReaderVanished
    | ObservationFailed | WaitFailed | ExitFailed

  /** How reading or the child ended. */
  datatype Ending = Fine | Failed(fault: Fault)

  datatype Event = Chunk(bytes: Bytes) | Finished(result: Ending)

  /** `CheckStop` and `Read` are `read_bounded`; `Offer` and `Send` are the two halves of `send_event`. */
  datatype ReaderAt = CheckStop | Read | Offer(event: Event) | Send(event: Event) | Halted

  datatype Captured = Captured(stdout: Bytes, exit: Ending)

  /**
   `Top` and `Drain` check the deadline, `Receive` takes one event, `Wait` polls the child, `Decide`
   returns or sleeps; `Leaving` and `Joining` are the reader handle's drop.
   */
  datatype OwnerAt =
    | Top
    | Drain(turn: nat)
    | Receive(turn: nat)
    | Wait
    | Decide
    | Leaving(outcome: Result<Captured, Fault>)
    | Joining(outcome: Result<Captured, Fault>)
    | Done(outcome: Result<Captured, Fault>)

  datatype Reader = Reader(at: ReaderAt, bytes: nat)

  datatype Owner = Owner(at: OwnerAt, output: Bytes, drained: bool, exited: Option<bool>, observed: seq<Bytes>)

  /** Bytes read, whether the stream ended, and what was taken but not kept by either thread. */
  datatype History = History(delivered: Bytes, eof: bool, withheld: Bytes, refused: Bytes)

  datatype Config = Config(limit: nat, retainFailed: bool, joins: bool)

  datatype State = State(
    config: Config,
    reader: Reader,
    queue: seq<Event>,
    stop: bool,
    connected: bool,
    owner: Owner,
    past: History)

  datatype ReadResult = Data(chunk: Chunk) | EndOfFile | Interrupted | WouldBlock | ReadError

  /** `ProcessControl::check`. */
  datatype Control = Proceed | CancelRequested | DeadlinePassed {
    function Refusal(): Fault {
      if CancelRequested? then Cancelled else TimedOut
    }
  }

  /** What polling the child says. */
  datatype Poll = Running | Exited(success: bool) | PollFailed

  /** What the owner's next access outside the protocol yields; each step uses the field it needs. */
  datatype World = World(control: Control, observes: bool, waited: Poll)

  datatype Move = ReaderMoves(read: ReadResult) | OwnerMoves(world: World)

  // ---------------------------------------------------------------- the steps

  /** `validate_limits`: no capture starts outside 1 byte to 64 MiB or without time. */
  function Start(timeout: nat, limit: nat, retainFailed: bool, joins: bool): (r: Result<State, Fault>)
    ensures r.Success? <==> timeout > 0 && 1 <= limit <= 64 * 1024 * 1024
  {
    if timeout == 0 || limit == 0 || limit > MAX_CAPTURE_BYTES then Failure(InvalidLimits)
    else
      var reader, owner := Reader(CheckStop, 0), Owner(Top, [], false, None, []);
      Success(State(Config(limit, retainFailed, joins), reader, [], false, true, owner, History([], false, [], [])))
  }

  /** The reader moves on, alone. */
  function ReaderTo(s: State, at: ReaderAt): State {
    s.(reader := Reader(at, s.reader.bytes))
  }

  /** The owner moves on, alone. */
  function OwnerTo(s: State, at: OwnerAt): State {
    s.(owner := s.owner.(at := at))
  }

  function Accepted(s: State, chunk: Bytes): State {
    s.(past := s.past.(delivered := s.past.delivered + chunk),
       reader := Reader(Offer(Chunk(chunk)), s.reader.bytes + |chunk|))
  }

  function Overflowed(s: State, chunk: Bytes): State {
    ReaderTo(
      s.(past := s.past.(delivered := s.past.delivered + chunk, refused := s.past.refused + chunk)),
      Offer(Finished(Failed(OutputLimit))))
  }

  /** After a read: accept the chunk within the limit, or finish. */
  function AfterRead(s: State, read: ReadResult): State {
    match read
    case Data(chunk) => if |chunk| > s.config.limit - s.reader.bytes then Overflowed(s, chunk) else Accepted(s, chunk)
    case EndOfFile => ReaderTo(s.(past := s.past.(eof := true)), Offer(Finished(Fine)))
    case Interrupted => ReaderTo(s, CheckStop)
    case WouldBlock => ReaderTo(s, CheckStop)
    case ReadError => ReaderTo(s, Offer(Finished(Failed(CaptureFailed))))
  }

  function Dropped(s: State, bytes: Bytes): State {
    ReaderTo(s.(past := s.past.(refused := s.past.refused + bytes)), Offer(Finished(Failed(Cancelled))))
  }

  function Pushed(s: State, event: Event): State {
    ReaderTo(s.(queue := s.queue + [event]), if event.Chunk? then CheckStop else Halted)
  }

  /** `send_event` gave up: a chunk ends the reading, a result ends the thread. */
  function Refuse(s: State, event: Event): State {
    match event
    case Chunk(bytes) => Dropped(s, bytes)
    case Finished(_) => ReaderTo(s, Halted)
  }

  function ReaderStep(s: State, read: ReadResult): State {
    match s.reader.at
    case CheckStop => if s.stop then ReaderTo(s, Offer(Finished(Failed(Cancelled)))) else ReaderTo(s, Read)
    case Read => AfterRead(s, read)
    case Offer(event) => if s.stop then Refuse(s, event) else ReaderTo(s, Send(event))
    case Send(event) =>
      if !s.connected then Refuse(s, event)
      else if |s.queue| < QUEUE_CHUNKS then Pushed(s, event)
      else ReaderTo(s, Offer(event))
    case Halted => s
  }

  function Taken(s: State, turn: nat, bytes: Bytes): State
    requires s.queue != []
  {
    s.(queue := s.queue[1..],
       owner := s.owner.(output := s.owner.output + bytes, observed := s.owner.observed + [bytes],
           at := Drain(turn + 1)))
  }

  function Withheld(s: State, bytes: Bytes): State
    requires s.queue != []
  {
    OwnerTo(s.(queue := s.queue[1..], past := s.past.(withheld := bytes)), Leaving(Failure(ObservationFailed)))
  }

  function Concluded(s: State, turn: nat, result: Ending): State
    requires s.queue != []
  {
    var rest := s.(queue := s.queue[1..]);
    if result.Fine? then rest.(owner := s.owner.(drained := true, at := Drain(turn + 1)))
    else OwnerTo(rest, Leaving(Failure(result.fault)))
  }

  /** One received event, or none: an empty queue whose reader is gone is a failure. */
  function AfterReceive(s: State, turn: nat, observes: bool): State {
    if s.queue == [] then
      if s.reader.at.Halted? then OwnerTo(s, Leaving(Failure(ReaderVanished))) else OwnerTo(s, Wait)
    else
      match s.queue[0]
      case Chunk(bytes) => if observes then Taken(s, turn, bytes) else Withheld(s, bytes)
      case Finished(result) => Concluded(s, turn, result)
  }

  function ExitOutcome(success: bool): Ending {
    if success then Fine else Failed(ExitFailed)
  }

  function AfterWait(s: State, waited: Poll): State {
    if s.owner.exited.Some? then OwnerTo(s, Decide)
    else
      match waited
      case PollFailed => OwnerTo(s, Leaving(Failure(WaitFailed)))
      case Running => OwnerTo(s, Decide)
      case Exited(success) =>
        if !s.config.retainFailed && !success then OwnerTo(s, Leaving(Failure(ExitFailed)))
        else s.(owner := s.owner.(exited := Some(success), at := Decide))
  }

  function OwnerStep(s: State, w: World): State {
    match s.owner.at
    case Top =>
      if !w.control.Proceed? then OwnerTo(s, Leaving(Failure(w.control.Refusal()))) else OwnerTo(s, Drain(0))
    case Drain(turn) =>
      if turn >= QUEUE_CHUNKS || s.owner.drained then OwnerTo(s, Wait)
      else if !w.control.Proceed? then OwnerTo(s, Leaving(Failure(w.control.Refusal())))
      else OwnerTo(s, Receive(turn))
    case Receive(turn) => AfterReceive(s, turn, w.observes)
    case Wait => AfterWait(s, w.waited)
    case Decide =>
      if s.owner.exited.Some? && s.owner.drained then
        OwnerTo(s, Leaving(Success(Captured(s.owner.output, ExitOutcome(s.owner.exited.value)))))
      else OwnerTo(s, Top)
    case Leaving(outcome) => OwnerTo(s.(stop := true), Joining(outcome))
    case Joining(outcome) =>
      if s.config.joins && !s.reader.at.Halted? then s else OwnerTo(s.(connected := false), Done(outcome))
    case Done(_) => s
  }

  function Step(s: State, move: Move): State {
    match move
    case ReaderMoves(read) => ReaderStep(s, read)
    case OwnerMoves(world) => OwnerStep(s, world)
  }

  /** Any interleaving, with any outside behaviour. */
  ghost function Run(s: State, moves: seq<Move>): State {
    if moves == [] then s else Step(Run(s, moves[..|moves| - 1]), moves[|moves| - 1])
  }

  // ---------------------------------------------------------------- what every state satisfies

  ghost function Load(event: Event): Bytes {
    if event.Chunk? then event.bytes else []
  }

  /** The bytes of the queued chunks, in order. */
  ghost function Queued(queue: seq<Event>): Bytes {
    if queue == [] then [] else Queued(queue[..|queue| - 1]) + Load(queue[|queue| - 1])
  }

  ghost function Concat(chunks: seq<Bytes>): Bytes {
    if chunks == [] then [] else Concat(chunks[..|chunks| - 1]) + chunks[|chunks| - 1]
  }

  ghost function Pending(reader: ReaderAt): Option<Event> {
    match reader
    case Offer(event) => Some(event)
    case Send(event) => Some(event)
    case _ => None
  }

  /** The chunk the reader holds but has not queued. */
  ghost function Unsent(reader: ReaderAt): Bytes {
    if Pending(reader).Some? then Load(Pending(reader).value) else []
  }

  /** The way of the bytes: captured, taken but not kept, queued, held by the reader, dropped by the reader. */
  ghost function Flow(output: Bytes, withheld: Bytes, queued: Bytes, unsent: Bytes, refused: Bytes): Bytes {
    output + withheld + queued + unsent + refused
  }

  /** Nothing delivered is lost, duplicated or reordered. */
  ghost predicate Conserved(s: State) {
    Flow(s.owner.output, s.past.withheld, Queued(s.queue), Unsent(s.reader.at), s.past.refused) == s.past.delivered
  }

  ghost predicate Bounded(s: State) {
    && 1 <= s.config.limit <= MAX_CAPTURE_BYTES && |s.queue| <= QUEUE_CHUNKS
    && s.reader.bytes <= s.config.limit && s.reader.bytes <= |s.past.delivered|
    && |s.owner.output| + |s.past.withheld| + |Queued(s.queue)| + |Unsent(s.reader.at)| <= s.reader.bytes
    && (s.past.refused == [] ==> s.reader.bytes == |s.past.delivered|)
  }

  ghost function ResultOf(event: Event): Option<Ending> {
    if event.Finished? then Some(event.result) else None
  }

  ghost function QueuedResult(queue: seq<Event>): Option<Ending> {
    if queue == [] then None else ResultOf(queue[|queue| - 1])
  }

  ghost function PendingResult(reader: ReaderAt): Option<Ending> {
    if Pending(reader).Some? then ResultOf(Pending(reader).value) else None
  }

  ghost predicate Left(owner: OwnerAt) {
    owner.Leaving? || owner.Joining? || owner.Done?
  }

  /** Only the last queued event may be the result, and the reader has then ended. */
  ghost predicate QueueShape(queue: seq<Event>, reader: ReaderAt) {
    && (forall i | 0 <= i < |queue| - 1 :: queue[i].Chunk?)
    && (QueuedResult(queue).Some? ==> reader.Halted?)
  }

  /** What a result says, wherever it is on its way to the owner. */
  ghost predicate ResultJustified(s: State, result: Option<Ending>) {
    && (result == Some(Fine) ==> s.past.eof && s.past.refused == [])
    && (result == Some(Failed(OutputLimit)) ==> |s.past.delivered| > s.config.limit)
    && result != Some(Failed(ReaderVanished))
  }

  /** The result comes last, once, and success means the stream ended with nothing lost. */
  ghost predicate ResultLast(s: State) {
    && QueueShape(s.queue, s.reader.at)
    && ResultJustified(s, QueuedResult(s.queue)) && ResultJustified(s, PendingResult(s.reader.at))
    && (s.owner.drained ==>
          s.past.eof && s.past.refused == [] && s.past.withheld == [] && s.reader.at.Halted? && s.queue == [])
    && (s.past.eof ==> PendingResult(s.reader.at) == Some(Fine) || s.reader.at.Halted?)
    && (s.past.refused != [] ==> PendingResult(s.reader.at).Some? || s.reader.at.Halted?)
    && (s.reader.at.Halted? ==> s.owner.drained || QueuedResult(s.queue).Some? || Left(s.owner.at))
  }

  ghost predicate OwnerConsistent(s: State) {
    && Concat(s.owner.observed) == s.owner.output
    && (s.stop <==> s.owner.at.Joining? || s.owner.at.Done?)
    && (!s.connected ==> s.stop)
    && (s.owner.at.Receive? ==> !s.owner.drained)
    && (s.past.withheld != [] ==> Left(s.owner.at))
    && (Left(s.owner.at) ==> OutcomeJustified(s, s.owner.at.outcome))
  }

  /** What an outcome says about the run it ends. */
  ghost predicate OutcomeJustified(s: State, outcome: Result<Captured, Fault>) {
    match outcome
    case Success(captured) =>
      && s.owner.drained && captured.stdout == s.owner.output
      && s.owner.exited.Some? && captured.exit == ExitOutcome(s.owner.exited.value)
      && (captured.exit.Fine? || s.config.retainFailed)
    case Failure(fault) =>
      fault != ReaderVanished && (fault == OutputLimit ==> |s.past.delivered| > s.config.limit)
  }

  ghost predicate Sound(s: State) {
    && Conserved(s) && Bounded(s) && ResultLast(s) && OwnerConsistent(s)
    && (s.owner.exited == Some(false) ==> s.config.retainFailed)
    && (Pending(s.reader.at).Some? && Pending(s.reader.at).value.Chunk? ==> Pending(s.reader.at).value.bytes != [])
  }

  // ---------------------------------------------------------------- the steps keep it

  lemma QueuedPush(queue: seq<Event>, event: Event)
    ensures Queued(queue + [event]) == Queued(queue) + Load(event)
  {
    assert (queue + [event])[..|queue|] == queue;
  }

  lemma {:induction false} QueuedPop(queue: seq<Event>)
    requires queue != []
    ensures Queued(queue) == Load(queue[0]) + Queued(queue[1..])
  {
    hide Load;
    var init, last := queue[..|queue| - 1], queue[|queue| - 1];
    if init == [] {
      assert Queued(init) == [] && queue[1..] == [];
    } else {
      QueuedPop(init);
      assert queue[1..][..|queue| - 2] == init[1..];
      Associates(Load(queue[0]), Queued(init[1..]), Load(last));
    }
  }

  lemma Associates(a: Bytes, b: Bytes, c: Bytes)
    ensures (a + b) + c == a + (b + c)
  {
  }

  lemma FlowReads(a: Bytes, b: Bytes, c: Bytes, e: Bytes, x: Bytes)
    ensures Flow(a, b, c, [], e + x) == Flow(a, b, c, [], e) + x
    ensures Flow(a, b, c, x, []) == Flow(a, b, c, [], []) + x
  {
  }

  lemma FlowSends(a: Bytes, b: Bytes, c: Bytes, d: Bytes, e: Bytes)
    ensures Flow(a, b, c + d, [], e) == Flow(a, b, c, d, e)
    ensures Flow(a, b, c, [], [] + d) == Flow(a, b, c, d, [])
  {
    Associates(a + b, c, d);
  }

  lemma FlowReceives(a: Bytes, x: Bytes, c: Bytes, d: Bytes, e: Bytes)
    ensures Flow(a + x, [], c, d, e) == Flow(a, [], x + c, d, e)
    ensures Flow(a, x, c, d, e) == Flow(a, [], x + c, d, e)
  {
    Associates(a, x, c);
    assert a + [] == a && a + x + [] == a + x;
  }

  /** What a reader still holding or reading a chunk implies. */
  lemma ReadingMeans(s: State)
    requires Sound(s) && !s.reader.at.Halted? && PendingResult(s.reader.at).None?
    ensures s.past.refused == [] && !s.past.eof && !s.owner.drained
    ensures s.reader.bytes == |s.past.delivered| && !QueuedResult(s.queue).Some?
  {
  }

  lemma AcceptSound(s: State, chunk: Chunk)
    requires Sound(s) && s.reader.at == Read && |chunk| <= s.config.limit - s.reader.bytes
    ensures Sound(ReaderStep(s, Data(chunk)))
  {
    ReadingMeans(s);
    assert ReaderStep(s, Data(chunk)) == Accepted(s, chunk);
    FlowReads(s.owner.output, s.past.withheld, Queued(s.queue), s.past.refused, chunk);
    hide ReaderStep, AfterRead, Flow, Queued, Concat;
  }

  lemma OverflowSound(s: State, chunk: Chunk)
    requires Sound(s) && s.reader.at == Read && |chunk| > s.config.limit - s.reader.bytes
    ensures Sound(ReaderStep(s, Data(chunk)))
  {
    ReadingMeans(s);
    assert ReaderStep(s, Data(chunk)) == Overflowed(s, chunk);
    FlowReads(s.owner.output, s.past.withheld, Queued(s.queue), s.past.refused, chunk);
    hide ReaderStep, AfterRead, Flow, Queued, Concat;
  }

  lemma EndSound(s: State, read: ReadResult)
    requires Sound(s) && s.reader.at == Read && !read.Data?
    ensures Sound(ReaderStep(s, read))
  {
    ReadingMeans(s);
    hide Flow, Queued, Concat;
  }

  lemma CheckSound(s: State, read: ReadResult)
    requires Sound(s) && s.reader.at == CheckStop
    ensures Sound(ReaderStep(s, read))
  {
    ReadingMeans(s);
    hide Flow, Queued, Concat, QueueShape;
  }

  lemma RefuseSound(s: State, event: Event)
    requires Sound(s) && Pending(s.reader.at) == Some(event) && s.stop
    ensures Sound(Refuse(s, event))
  {
    FlowSends(s.owner.output, s.past.withheld, Queued(s.queue), Load(event), s.past.refused);
    if event.Chunk? {
      ReadingMeans(s);
      assert Refuse(s, event) == Dropped(s, event.bytes);
      hide Refuse, Flow, Queued, Concat;
    } else {
      hide Flow, Queued, Concat;
    }
  }

  lemma PushedShape(queue: seq<Event>, event: Event, reader: ReaderAt, after: ReaderAt)
    requires QueueShape(queue, reader) && QueuedResult(queue).None? && (event.Finished? ==> after.Halted?)
    ensures QueueShape(queue + [event], after) && QueuedResult(queue + [event]) == ResultOf(event)
  {
  }

  lemma PushSound(s: State, event: Event)
    requires Sound(s) && s.reader.at == Send(event) && |s.queue| < QUEUE_CHUNKS
    ensures Sound(Pushed(s, event))
  {
    QueuedPush(s.queue, event);
    FlowSends(s.owner.output, s.past.withheld, Queued(s.queue), Load(event), s.past.refused);
    PushedShape(s.queue, event, s.reader.at, if event.Chunk? then CheckStop else Halted);
    hide Flow, Queued, Concat, QueueShape, QueuedResult;
  }

  lemma SameReaderSound(s: State, at: ReaderAt)
    requires Sound(s) && Pending(s.reader.at).Some? && Pending(at) == Pending(s.reader.at)
    ensures Sound(ReaderTo(s, at))
  {
    hide Flow, Queued, Concat;
  }

  /** The reader's steps. */
  lemma ReaderSound(s: State, read: ReadResult)
    requires Sound(s)
    ensures Sound(ReaderStep(s, read))
  {
    match s.reader.at
    case CheckStop => CheckSound(s, read);
    case Read =>
      if !read.Data? {
        EndSound(s, read);
      } else if |read.chunk| <= s.config.limit - s.reader.bytes {
        AcceptSound(s, read.chunk);
      } else {
        OverflowSound(s, read.chunk);
      }
    case Offer(event) =>
      if s.stop {
        RefuseSound(s, event);
      } else {
        SameReaderSound(s, Send(event));
      }
      hide Sound, Refuse;
    case Send(event) =>
      assert !s.connected ==> s.stop;
      if !s.connected {
        RefuseSound(s, event);
      } else if |s.queue| < QUEUE_CHUNKS {
        PushSound(s, event);
      } else {
        SameReaderSound(s, Offer(event));
      }
      hide Sound, Refuse;
    case Halted =>
  }

  lemma PopKeepsShape(queue: seq<Event>, reader: ReaderAt)
    requires QueueShape(queue, reader) && queue != []
    ensures QueueShape(queue[1..], reader)
    ensures queue[0].Chunk? ==> QueuedResult(queue[1..]) == QueuedResult(queue)
    ensures queue[0].Finished? ==>
              queue[1..] == [] && reader.Halted? && QueuedResult(queue) == Some(queue[0].result)
  {
  }

  lemma TakeSound(s: State, turn: nat, bytes: Bytes)
    requires Sound(s) && s.owner.at == Receive(turn) && s.queue != [] && s.queue[0] == Chunk(bytes)
    ensures Sound(Taken(s, turn, bytes))
  {
    QueuedPop(s.queue);
    PopKeepsShape(s.queue, s.reader.at);
    FlowReceives(s.owner.output, bytes, Queued(s.queue[1..]), Unsent(s.reader.at), s.past.refused);
    assert (s.owner.observed + [bytes])[..|s.owner.observed|] == s.owner.observed;
    hide Flow, Queued, QueueShape, Unsent;
  }

  lemma WithholdSound(s: State, turn: nat, bytes: Bytes)
    requires Sound(s) && s.owner.at == Receive(turn) && s.queue != [] && s.queue[0] == Chunk(bytes)
    ensures Sound(Withheld(s, bytes))
  {
    QueuedPop(s.queue);
    PopKeepsShape(s.queue, s.reader.at);
    FlowReceives(s.owner.output, bytes, Queued(s.queue[1..]), Unsent(s.reader.at), s.past.refused);
    hide Flow, Queued, QueueShape, Unsent, Concat;
  }

  lemma ResultSound(s: State, turn: nat, result: Ending)
    requires Sound(s) && s.owner.at == Receive(turn) && s.queue != [] && s.queue[0] == Finished(result)
    ensures Sound(Concluded(s, turn, result))
  {
    QueuedPop(s.queue);
    PopKeepsShape(s.queue, s.reader.at);
    hide Flow, QueueShape, Concat;
    assert Queued([]) == [];
    hide Queued;
  }

  /** A reader that ended has always left its result: the owner never finds the queue closed without one. */
  lemma NeverVanishes(s: State)
    requires Sound(s) && s.owner.at.Receive? && s.queue == []
    ensures !s.reader.at.Halted?
  {
  }

  lemma ReceiveSound(s: State, turn: nat, observes: bool)
    requires Sound(s) && s.owner.at == Receive(turn)
    ensures Sound(AfterReceive(s, turn, observes))
  {
    if s.queue == [] {
      NeverVanishes(s);
      MoveSound(s, Wait);
    } else {
      match s.queue[0]
      case Chunk(bytes) =>
        TakeSound(s, turn, bytes);
        WithholdSound(s, turn, bytes);
        hide Sound, Taken, Withheld;
      case Finished(result) =>
        ResultSound(s, turn, result);
        hide Sound, Concluded;
    }
  }

  /** Moving the owner on changes nothing else. */
  lemma MoveSound(s: State, at: OwnerAt)
    requires Sound(s) && !Left(s.owner.at) && !Left(at) && (at.Receive? ==> !s.owner.drained)
    ensures Sound(OwnerTo(s, at))
  {
    hide Flow, Queued, Concat, QueueShape;
  }

  lemma LeaveSound(s: State, outcome: Result<Captured, Fault>)
    requires Sound(s) && !Left(s.owner.at) && OutcomeJustified(s, outcome)
    ensures Sound(OwnerTo(s, Leaving(outcome)))
  {
    hide Flow, Queued, Concat, QueueShape;
  }

  lemma ExitSound(s: State, success: bool)
    requires Sound(s) && s.owner.at == Wait && (success || s.config.retainFailed)
    ensures Sound(s.(owner := s.owner.(exited := Some(success), at := Decide)))
  {
    hide Flow, Queued, Concat, QueueShape;
  }

  lemma DropSound(s: State, outcome: Result<Captured, Fault>)
    requires Sound(s)
    ensures s.owner.at == Leaving(outcome) ==> Sound(OwnerTo(s.(stop := true), Joining(outcome)))
    ensures s.owner.at == Joining(outcome) ==> Sound(OwnerTo(s.(connected := false), Done(outcome)))
  {
    hide Flow, Queued, Concat, QueueShape;
  }

  lemma WaitSound(s: State, waited: Poll)
    requires Sound(s) && s.owner.at == Wait
    ensures Sound(AfterWait(s, waited))
  {
    MoveSound(s, Decide);
    assert OutcomeJustified(s, Failure(WaitFailed)) && OutcomeJustified(s, Failure(ExitFailed));
    LeaveSound(s, Failure(WaitFailed));
    LeaveSound(s, Failure(ExitFailed));
    if waited.Exited? && (waited.success || s.config.retainFailed) {
      ExitSound(s, waited.success);
    }
    hide Sound, OutcomeJustified;
  }

  lemma DecideSound(s: State)
    requires Sound(s) && s.owner.at == Decide
    ensures s.owner.exited.Some? && s.owner.drained ==>
              Sound(OwnerTo(s, Leaving(Success(Captured(s.owner.output, ExitOutcome(s.owner.exited.value))))))
  {
    if s.owner.exited.Some? && s.owner.drained {
      LeaveSound(s, Success(Captured(s.owner.output, ExitOutcome(s.owner.exited.value))));
    }
  }

  lemma RefusalSound(s: State, control: Control)
    requires Sound(s) && !Left(s.owner.at)
    ensures Sound(OwnerTo(s, Leaving(Failure(control.Refusal()))))
  {
    LeaveSound(s, Failure(control.Refusal()));
  }

  /** The owner's steps. */
  lemma OwnerSound(s: State, w: World)
    requires Sound(s)
    ensures Sound(OwnerStep(s, w))
  {
    match s.owner.at
    case Top =>
      MoveSound(s, Drain(0));
      RefusalSound(s, w.control);
      hide Sound;
    case Drain(turn) =>
      MoveSound(s, Wait);
      RefusalSound(s, w.control);
      if !s.owner.drained {
        MoveSound(s, Receive(turn));
      }
      hide Sound;
    case Receive(turn) =>
      ReceiveSound(s, turn, w.observes);
      hide Sound, AfterReceive;
    case Wait =>
      WaitSound(s, w.waited);
      hide Sound, AfterWait;
    case Decide =>
      MoveSound(s, Top);
      DecideSound(s);
      hide Sound;
    case Leaving(outcome) =>
      DropSound(s, outcome);
      hide Sound;
    case Joining(outcome) =>
      DropSound(s, outcome);
      hide Sound;
    case Done(_) =>
  }

  // ---------------------------------------------------------------- every run

  /** The invariant holds after any interleaving. */
  lemma {:induction false} RunSound(s: State, moves: seq<Move>)
    requires Sound(s)
    ensures Sound(Run(s, moves))
  {
    if moves != [] {
      RunSound(s, moves[..|moves| - 1]);
      var before, move := Run(s, moves[..|moves| - 1]), moves[|moves| - 1];
      StepSound(before, move);
      hide Sound, Step;
    }
  }

  lemma StepSound(s: State, move: Move)
    requires Sound(s)
    ensures Sound(Step(s, move))
  {
    match move
    case ReaderMoves(read) =>
      ReaderSound(s, read);
      hide Sound, ReaderStep;
    case OwnerMoves(w) =>
      OwnerSound(s, w);
      hide Sound, OwnerStep;
  }

  lemma StartSound(timeout: nat, limit: nat, retainFailed: bool, joins: bool)
    requires Start(timeout, limit, retainFailed, joins).Success?
    ensures Sound(Start(timeout, limit, retainFailed, joins).value)
  {
  }

  /** Every state some interleaving of the two threads can reach. */
  ghost predicate Reachable(s: State) {
    exists timeout, limit, retainFailed, joins, moves ::
      Start(timeout, limit, retainFailed, joins).Success? &&
      s == Run(Start(timeout, limit, retainFailed, joins).value, moves)
  }

  lemma ReachableSound(s: State)
    requires Reachable(s)
    ensures Sound(s)
  {
    var timeout, limit, retainFailed, joins, moves :|
      Start(timeout, limit, retainFailed, joins).Success? &&
      s == Run(Start(timeout, limit, retainFailed, joins).value, moves);
    StartSound(timeout, limit, retainFailed, joins);
    RunSound(Start(timeout, limit, retainFailed, joins).value, moves);
  }

  /**
   At every moment the captured, the queued and the unsent bytes are, in this order, a prefix of
   what was read: all of it while nothing was dropped, never more than the limit, in at most 64 chunks.
   */
  lemma PrefixAtAllTimes(s: State)
    requires Reachable(s)
    ensures |s.queue| <= QUEUE_CHUNKS
    ensures |s.owner.output + s.past.withheld + Queued(s.queue) + Unsent(s.reader.at)| <= s.config.limit
    ensures s.config.limit <= MAX_CAPTURE_BYTES
    ensures s.owner.output + s.past.withheld + Queued(s.queue) + Unsent(s.reader.at) + s.past.refused ==
        s.past.delivered
    ensures !Left(s.owner.at) ==> s.past.withheld == []
    ensures s.past.refused != [] ==> PendingResult(s.reader.at).Some? || s.reader.at.Halted?
    ensures s.owner.output == Concat(s.owner.observed)
  {
    ReachableSound(s);
    hide Queued, Unsent, Concat;
  }

  /** A successful capture returns the whole stream up to its end, within the limit, as observed. */
  lemma CaptureIsExact(s: State, captured: Captured)
    requires Reachable(s) && s.owner.at == Done(Success(captured))
    ensures s.past.eof && captured.stdout == s.past.delivered == Concat(s.owner.observed)
    ensures |captured.stdout| <= s.config.limit
    ensures captured.exit.Failed? ==> s.config.retainFailed && s.owner.exited == Some(false)
  {
    ReachableSound(s);
    assert Queued(s.queue) == [] && Unsent(s.reader.at) == [];
    hide Queued, Unsent, Concat;
  }

  /** An overlong stream is never captured, and a limit failure only ever means an overlong stream. */
  lemma LimitFailureMeansOverlong(s: State)
    requires Reachable(s) && s.owner.at.Done?
    ensures s.owner.at.outcome == Failure(OutputLimit) ==> |s.past.delivered| > s.config.limit
    ensures |s.past.delivered| > s.config.limit ==> s.owner.at.outcome.Failure?
  {
    ReachableSound(s);
    if s.owner.at.outcome.Success? {
      CaptureIsExact(s, s.owner.at.outcome.value);
    }
  }

  /** The owner never reports a reader that ended without a result. */
  lemma ReaderNeverVanishes(s: State)
    requires Reachable(s) && Left(s.owner.at)
    ensures s.owner.at.outcome != Failure(ReaderVanished)
  {
    ReachableSound(s);
  }

  // ---------------------------------------------------------------- everything ends

  ghost function Count(moves: seq<Move>, reader: bool): nat {
    if moves == [] then 0
    else Count(moves[..|moves| - 1], reader) + if moves[|moves| - 1].ReaderMoves? == reader then 1 else 0
  }

  /** Steps a stopped reader may still take. */
  ghost function ReaderRank(at: ReaderAt): nat {
    match at
    case Halted => 0
    case Offer(event) => if event.Finished? then 1 else 2
    case CheckStop => 2
    case Send(event) => if event.Finished? then 2 else 3
    case Read => 3
  }

  /** Steps an owner whose check fails from now on may still take before it leaves. */
  ghost function OwnerRank(at: OwnerAt): nat {
    match at
    case Receive(_) => 5
    case Drain(_) => 4
    case Wait => 3
    case Decide => 2
    case Top => 1
    case _ => 0
  }

  ghost predicate Refused(move: Move) {
    move.OwnerMoves? ==> !move.world.control.Proceed?
  }

  /** One step brings the thread that takes it closer to its end and keeps the other where it is. */
  lemma RanksDrop(s: State, move: Move)
    ensures s.stop ==> Step(s, move).stop
    ensures s.stop && move.ReaderMoves? ==>
              ReaderRank(Step(s, move).reader.at) < ReaderRank(s.reader.at) || Step(s, move).reader.at.Halted?
    ensures move.OwnerMoves? ==> Step(s, move).reader.at == s.reader.at
    ensures move.OwnerMoves? && Refused(move) ==>
              OwnerRank(Step(s, move).owner.at) < OwnerRank(s.owner.at) || Left(Step(s, move).owner.at)
    ensures move.ReaderMoves? ==> Step(s, move).owner.at == s.owner.at
    ensures ReaderRank(s.reader.at) <= 3 && OwnerRank(s.owner.at) <= 5
    ensures s.reader.at.Halted? <==> ReaderRank(s.reader.at) == 0
    ensures Left(s.owner.at) <==> OwnerRank(s.owner.at) == 0
  {
    match move
    case ReaderMoves(read) => ReaderRankDrops(s, read);
    case OwnerMoves(w) => OwnerRankDrops(s, w);
  }

  lemma AfterReadRank(s: State, read: ReadResult)
    requires s.reader.at == Read
    ensures AfterRead(s, read).owner.at == s.owner.at && AfterRead(s, read).stop == s.stop
    ensures ReaderRank(AfterRead(s, read).reader.at) < 3
  {
    match read
    case Data(chunk) =>
      if |chunk| > s.config.limit - s.reader.bytes {
        assert AfterRead(s, read).reader.at == Offer(Finished(Failed(OutputLimit)));
      } else {
        assert AfterRead(s, read).reader.at == Offer(Chunk(chunk));
      }
    case EndOfFile =>
    case Interrupted =>
    case WouldBlock =>
    case ReadError =>
  }

  lemma RefuseRank(s: State, event: Event)
    ensures Refuse(s, event).owner.at == s.owner.at && Refuse(s, event).stop == s.stop
    ensures ReaderRank(Refuse(s, event).reader.at) < ReaderRank(Offer(event)) < ReaderRank(Send(event))
  {
  }

  lemma ReaderRankDrops(s: State, read: ReadResult)
    ensures ReaderStep(s, read).owner.at == s.owner.at && ReaderStep(s, read).stop == s.stop
    ensures s.stop ==>
              ReaderRank(ReaderStep(s, read).reader.at) < ReaderRank(s.reader.at) ||
                  ReaderStep(s, read).reader.at.Halted?
  {
    match s.reader.at
    case CheckStop =>
    case Read =>
      AfterReadRank(s, read);
      hide AfterRead;
    case Offer(event) =>
      RefuseRank(s, event);
      hide Refuse;
    case Send(event) =>
      RefuseRank(s, event);
      hide Refuse;
    case Halted =>
  }

  lemma AfterReceiveRank(s: State, turn: nat, observes: bool)
    ensures AfterReceive(s, turn, observes).reader.at == s.reader.at && AfterReceive(s, turn, observes).stop == s.stop
    ensures OwnerRank(AfterReceive(s, turn, observes).owner.at) < 5
  {
    if s.queue != [] {
      match s.queue[0]
      case Chunk(_) =>
      case Finished(_) =>
    }
  }

  lemma AfterWaitRank(s: State, waited: Poll)
    ensures AfterWait(s, waited).reader.at == s.reader.at && AfterWait(s, waited).stop == s.stop
    ensures OwnerRank(AfterWait(s, waited).owner.at) < 3
  {
    match waited
    case Running =>
    case Exited(_) =>
    case PollFailed =>
  }

  lemma OwnerRankDrops(s: State, w: World)
    ensures OwnerStep(s, w).reader.at == s.reader.at && (s.stop ==> OwnerStep(s, w).stop)
    ensures !w.control.Proceed? ==>
              OwnerRank(OwnerStep(s, w).owner.at) < OwnerRank(s.owner.at) || Left(OwnerStep(s, w).owner.at)
  {
    match s.owner.at
    case Receive(turn) =>
      AfterReceiveRank(s, turn, w.observes);
      hide AfterReceive;
    case Wait =>
      AfterWaitRank(s, w.waited);
      hide AfterWait;
    case _ =>
      hide AfterReceive, AfterWait;
  }

  /** Whatever the pipe and the owner do, a stopped reader ends within three of its own steps. */
  lemma {:induction false} StoppedReaderHalts(s: State, moves: seq<Move>)
    requires s.stop
    ensures Run(s, moves).stop
    ensures ReaderRank(Run(s, moves).reader.at) == 0 ||
            ReaderRank(Run(s, moves).reader.at) + Count(moves, true) <= ReaderRank(s.reader.at)
    ensures Count(moves, true) >= 3 ==> Run(s, moves).reader.at.Halted?
  {
    if moves != [] {
      StoppedReaderHalts(s, moves[..|moves| - 1]);
      RanksDrop(Run(s, moves[..|moves| - 1]), moves[|moves| - 1]);
      hide Step, ReaderRank, OwnerRank;
      assert ReaderRank(Halted) == 0;
    }
  }

  /** Once cancelled or past its deadline, the owner leaves within five of its own steps. */
  lemma {:induction false} ExpiredOwnerLeaves(s: State, moves: seq<Move>)
    requires forall move | move in moves :: Refused(move)
    ensures OwnerRank(Run(s, moves).owner.at) == 0 ||
            OwnerRank(Run(s, moves).owner.at) + Count(moves, false) <= OwnerRank(s.owner.at)
    ensures Count(moves, false) >= 5 ==> Left(Run(s, moves).owner.at)
  {
    if moves != [] {
      var init := moves[..|moves| - 1];
      assert forall move | move in init :: move in moves;
      ExpiredOwnerLeaves(s, init);
      RanksDrop(Run(s, init), moves[|moves| - 1]);
      hide Step, ReaderRank, OwnerRank;
    }
  }

  /** Steps until the capture is over, counting only those of the thread it waits for. */
  ghost function Distance(s: State): nat {
    match s.owner.at
    case Done(_) => 0
    case Joining(_) => 1 + ReaderRank(s.reader.at)
    case Leaving(_) => 5
    case _ => 5 + OwnerRank(s.owner.at)
  }

  /** Only the join of a live reader waits for the reader. */
  ghost predicate WaitsForReader(s: State) {
    s.owner.at.Joining? && s.config.joins && !s.reader.at.Halted?
  }

  lemma JoinWaits(s: State, w: World)
    requires Left(s.owner.at)
    ensures s.owner.at.Joining? && !WaitsForReader(s) ==> OwnerStep(s, w).owner.at.Done?
    ensures WaitsForReader(s) || s.owner.at.Done? ==> OwnerStep(s, w) == s
    ensures s.owner.at.Leaving? ==> OwnerStep(s, w).owner.at.Joining?
  {
    hide AfterReceive, AfterWait;
  }

  /** No move leads away from the end, and a move of the awaited thread leads towards it. */
  lemma DistanceDrops(s: State, move: Move)
    requires Sound(s) && Refused(move)
    ensures Distance(Step(s, move)) <= Distance(s)
    ensures Distance(s) == 0 <==> s.owner.at.Done?
    ensures Distance(Step(s, move)) == Distance(s) > 0 ==>
              WaitsForReader(Step(s, move)) == WaitsForReader(s) && move.ReaderMoves? != WaitsForReader(s)
  {
    RanksDrop(s, move);
    StepKeepsConfig(s, move);
    assert s.owner.at.Joining? ==> s.stop;
    assert ReaderRank(Step(s, move).reader.at) <= 3 by {
      RanksDrop(Step(s, move), move);
    }
    if move.OwnerMoves? && Left(s.owner.at) {
      JoinWaits(s, move.world);
    }
    hide Sound, ReaderStep, OwnerStep, ReaderRank;
  }

  lemma StepKeepsConfig(s: State, move: Move)
    ensures Step(s, move).config == s.config
  {
    match move
    case ReaderMoves(read) => ReaderKeepsConfig(s, read);
    case OwnerMoves(w) => OwnerKeepsConfig(s, w);
  }

  lemma ReaderKeepsConfig(s: State, read: ReadResult)
    ensures ReaderStep(s, read).config == s.config
  {
  }

  lemma OwnerKeepsConfig(s: State, w: World)
    ensures OwnerStep(s, w).config == s.config
  {
  }

  /** Both threads move at least once, and every check of the owner refuses. */
  ghost predicate Round(moves: seq<Move>) {
    && Count(moves, true) > 0 && Count(moves, false) > 0
    && forall i | 0 <= i < |moves| :: Refused(moves[i])
  }

  lemma {:induction false} DistanceOver(s: State, moves: seq<Move>)
    requires Sound(s) && forall i | 0 <= i < |moves| :: Refused(moves[i])
    ensures Sound(Run(s, moves)) && Distance(Run(s, moves)) <= Distance(s)
    ensures Distance(Run(s, moves)) == Distance(s) > 0 ==>
              WaitsForReader(Run(s, moves)) == WaitsForReader(s) && Count(moves, WaitsForReader(s)) == 0
  {
    hide Sound, Step, Distance, WaitsForReader, Refused;
    RunSound(s, moves);
    if moves != [] {
      var init := moves[..|moves| - 1];
      RunSound(s, init);
      DistanceOver(s, init);
      DistanceDrops(Run(s, init), moves[|moves| - 1]);
    }
  }

  ghost function Flattened(rounds: seq<seq<Move>>): seq<Move> {
    if rounds == [] then [] else Flattened(rounds[..|rounds| - 1]) + rounds[|rounds| - 1]
  }

  lemma {:induction false} RunConcat(s: State, a: seq<Move>, b: seq<Move>)
    ensures Run(s, a + b) == Run(Run(s, a), b)
    decreases |b|
  {
    hide Step;
    if b == [] {
      assert a + b == a;
    } else {
      assert (a + b)[..|a + b| - 1] == a + b[..|b| - 1];
      RunConcat(s, a, b[..|b| - 1]);
    }
  }

  lemma {:induction false} RoundsDrop(s: State, rounds: seq<seq<Move>>)
    requires Sound(s) && forall i | 0 <= i < |rounds| :: Round(rounds[i])
    ensures Sound(Run(s, Flattened(rounds)))
    ensures Distance(Run(s, Flattened(rounds))) == 0 ||
            Distance(Run(s, Flattened(rounds))) + |rounds| <= Distance(s)
  {
    hide Sound, Distance, Run, WaitsForReader, Count;
    if rounds == [] {
      assert Run(s, []) == s by { RunNothing(s); }
    } else {
      var init, last := rounds[..|rounds| - 1], rounds[|rounds| - 1];
      assert Round(last);
      RoundsDrop(s, init);
      RunConcat(s, Flattened(init), last);
      DistanceOver(Run(s, Flattened(init)), last);
    }
  }

  lemma RunNothing(s: State)
    ensures Run(s, []) == s
  {
  }

  /**
   A capture whose checks refuse from now on is over after ten rounds in which both threads
   move, wherever it was: the join of the reader cannot hang.
   */
  lemma RefusedCaptureEnds(s: State, rounds: seq<seq<Move>>)
    requires Reachable(s) && |rounds| >= 10 && forall i | 0 <= i < |rounds| :: Round(rounds[i])
    ensures Run(s, Flattened(rounds)).owner.at.Done?
  {
    ReachableSound(s);
    RoundsDrop(s, rounds);
    DistanceBounded(s);
    DistanceBounded(Run(s, Flattened(rounds)));
    hide Distance, Sound;
  }

  lemma DistanceBounded(s: State)
    ensures Distance(s) <= 10 && (Distance(s) == 0 <==> s.owner.at.Done?)
  {
  }
}
