/** The delivery protocol between an export's producer, the bounded response
    queue, and a client that may read, stall, or leave.

    The producer is a blocking thread; the handler, the body, and the client
    run beside it. Each step below is one atomic act of one of them, and a run
    is any interleaving. A stall or a timeout is a step that may be taken
    whenever the code's deadline could have passed. */
module ExportDelivery {
  import opened Basics
  import ES = ExportStream

  /** How many items wait between the producer and the body. */
  const BODY_CHUNKS: nat := 8

  datatype Item = Chunk(bytes: Bytes) | Failed

  /** Where the producer's closure is. */
  datatype Phase =
    | Preparing    // authorizing, auditing, reading metadata
    | Sending      // handing chunks over, the guard armed
    | Signalling   // a failure is waiting for room in the queue
    | Unwinding    // a panic is dropping the closure's values
    | Ending       // a known end: the guard is disarmed
    | Gone         // every sender is dropped, so the channel is closed

  datatype Response = Waiting | Answered | Streaming | Left

  /** What a poll of the body answers, when it is not pending. */
  datatype Answer = Data(bytes: Bytes) | Error | EndOfBody

  /** `plan` is what the container writer hands over when nothing fails; `answers`
      is all the body has answered, in order. */
  datatype State = State(
    plan: seq<Bytes>, sent: nat, phase: Phase, armed: bool, achieved: bool,
    queue: seq<Item>, response: Response, answers: seq<Answer>)

  function Initial(plan: seq<Bytes>): State {
    State(plan, 0, Preparing, false, false, [], Waiting, [])
  }

  /** The body's receiver exists until the handler answers without a body or
      the client leaves. */
  predicate Open(s: State) {
    s.response == Waiting || s.response == Streaming
  }

  predicate Room(s: State) {
    Open(s) && |s.queue| < BODY_CHUNKS
  }

  datatype Step =
    | Start | Refuse | Fail(clientGone: bool) | Panic
    | Send | SendStalled | SendClosed | Finish
    | Signal | SignalLost | DropSenders
    | TimeOut | Leave | Poll

  predicate Enabled(s: State, step: Step) {
    match step
    case Start => s.phase == Preparing
    case Refuse => s.phase == Preparing
    case Fail(_) => s.phase == Preparing || s.phase == Sending
    case Panic => s.phase == Preparing || s.phase == Sending || s.phase == Signalling
    case Send => s.phase == Sending && s.sent < |s.plan| && Room(s)
    case SendStalled => s.phase == Sending && s.sent < |s.plan| && Open(s) && !Room(s)
    case SendClosed => s.phase == Sending && s.sent < |s.plan| && !Open(s)
    case Finish => s.phase == Sending && s.sent == |s.plan|
    case Signal => (s.phase == Signalling || (s.phase == Unwinding && s.armed)) && Room(s)
    case SignalLost => (s.phase == Signalling || (s.phase == Unwinding && s.armed)) && !Room(s)
    case DropSenders => s.phase == Ending || (s.phase == Unwinding && !s.armed)
    case TimeOut => s.response == Waiting
    case Leave => s.response == Streaming
    case Poll => s.response == Streaming && (s.queue != [] || s.phase == Gone)
  }

  /** The handler's answer once it can no longer stream: the receiver goes with
      it, and with the receiver whatever was queued. */
  function Settle(s: State): State {
    if s.response == Waiting then s.(response := Answered, queue := []) else s
  }

  function Next(s: State, step: Step): State
    requires Enabled(s, step)
  {
    match step
    case Start =>
      s.(phase := Sending, armed := true, response := if s.response == Waiting then Streaming else s.response)
    case Refuse => Settle(s).(phase := Ending)
    case Fail(clientGone) =>
      Settle(s).(phase := if clientGone then Ending else Signalling, armed := s.armed && !clientGone)
    case Panic => s.(phase := Unwinding)
    case Send => s.(queue := s.queue + [Chunk(s.plan[s.sent])], sent := s.sent + 1)
    case SendStalled => s.(phase := Signalling)
    case SendClosed => s.(phase := Ending, armed := false)
    case Finish => s.(achieved := true, phase := Ending, armed := false)
    case Signal => s.(queue := s.queue + [Failed], phase := Ending, armed := false)
    case SignalLost => s.(phase := Ending, armed := false)
    case DropSenders => Settle(s).(phase := Gone)
    case TimeOut => Settle(s)
    case Leave => s.(response := Left, queue := [])
    case Poll =>
      if s.queue == [] then s.(answers := s.answers + [if s.achieved then EndOfBody else Error])
      else
        var answer := match s.queue[0] case Chunk(bytes) => Data(bytes) case Failed => Error;
        s.(answers := s.answers + [answer], queue := s.queue[1..])
  }

  /** The bytes the client has been given, answer by answer. */
  function Received(answers: seq<Answer>): seq<Bytes> {
    if answers == [] then []
    else
      var last := answers[|answers| - 1];
      Received(answers[..|answers| - 1]) + (if last.Data? then [last.bytes] else [])
  }

  predicate EndedCleanly(s: State) {
    EndOfBody in s.answers
  }

  /** The states of a run, its steps in any order the guards allow. */
  ghost predicate Run(s: State, steps: seq<Step>, s': State)
    decreases |steps|
  {
    if steps == [] then s == s'
    else Enabled(s, steps[0]) && Run(Next(s, steps[0]), steps[1..], s')
  }

  ghost predicate Reachable(plan: seq<Bytes>, s: State) {
    exists steps :: Run(Initial(plan), steps, s)
  }

  // -------------------------------------------------------------- invariant

  function Chunks(queue: seq<Item>): seq<Bytes> {
    if queue == [] || queue[0].Failed? then [] else [queue[0].bytes] + Chunks(queue[1..])
  }

  /** Nothing follows a failure in the queue. */
  predicate FailedLast(queue: seq<Item>) {
    forall i | 0 <= i < |queue| - 1 :: queue[i].Chunk?
  }

  predicate Over(s: State) {
    s.phase == Ending || s.phase == Gone
  }

  ghost predicate Inv(s: State) {
    && s.sent <= |s.plan|
    && |s.queue| <= BODY_CHUNKS
    && (!Open(s) ==> s.queue == [])
    && (s.response == Waiting ==> s.sent == 0 && s.answers == [] && !s.armed && s.phase != Sending && s.phase != Signalling)
    && (s.phase == Preparing ==> s.response != Streaming && s.response != Left && !s.armed && s.sent == 0)
    && FailedLast(s.queue)
    && (s.queue != [] && s.queue[|s.queue| - 1].Failed? ==> Over(s) && !s.achieved)
    && (s.achieved ==> Over(s) && s.sent == |s.plan|)
    && (Open(s) ==> Received(s.answers) + Chunks(s.queue) == s.plan[..s.sent])
    && Received(s.answers) <= s.plan
    && Verdict(s)
  }

  /** What the answers so far say of the producer. */
  ghost predicate Verdict(s: State) {
    && Final(s.answers)
    && (EndOfBody in s.answers ==> s.achieved && s.phase == Gone && s.queue == [] && Received(s.answers) == s.plan)
    && (Error in s.answers ==> !s.achieved && Over(s) && s.queue == [])
  }

  /** Once the body has answered with an error, or with its end, it answers with
      nothing else. */
  ghost predicate Final(answers: seq<Answer>) {
    forall i, j | 0 <= i < j < |answers| :: !answers[i].Data? ==> answers[j] == answers[i]
  }

  lemma {:induction false} ChunksSnoc(queue: seq<Item>, item: Item)
    requires forall q <- queue :: q.Chunk?
    ensures Chunks(queue + [item]) == Chunks(queue) + Chunks([item])
  {
    if queue == [] {
      assert queue + [item] == [item];
    } else {
      assert (queue + [item])[1..] == queue[1..] + [item];
      ChunksSnoc(queue[1..], item);
      assert [queue[0].bytes] + (Chunks(queue[1..]) + Chunks([item])) == Chunks(queue) + Chunks([item]);
    }
  }

  lemma Pushes(s: State, item: Item)
    requires Inv(s) && Room(s) && !Over(s)
    ensures FailedLast(s.queue + [item])
    ensures Chunks(s.queue + [item]) == Chunks(s.queue) + (if item.Chunk? then [item.bytes] else [])
  {
    ChunksSnoc(s.queue, item);
  }

  lemma SendKeeps(s: State)
    requires Inv(s) && Enabled(s, Send)
    ensures Inv(Next(s, Send))
  {
    Pushes(s, Chunk(s.plan[s.sent]));
    assert s.plan[..s.sent + 1] == s.plan[..s.sent] + [s.plan[s.sent]];
    assert Received(s.answers) + (Chunks(s.queue) + [s.plan[s.sent]]) == s.plan[..s.sent] + [s.plan[s.sent]];
  }

  lemma SignalKeeps(s: State)
    requires Inv(s) && Enabled(s, Signal)
    ensures Inv(Next(s, Signal))
  {
    Pushes(s, Failed);
  }

  lemma ReceivedMore(answers: seq<Answer>, answer: Answer)
    ensures Received(answers + [answer]) == Received(answers) + (if answer.Data? then [answer.bytes] else [])
  {
    assert (answers + [answer])[..|answers|] == answers;
  }

  lemma FinalMore(answers: seq<Answer>, answer: Answer)
    requires Final(answers)
    requires Error in answers ==> answer == Error
    requires EndOfBody in answers ==> answer == EndOfBody
    ensures Final(answers + [answer])
  {
    forall i | 0 <= i < |answers| && !answers[i].Data?
      ensures answer == answers[i]
    {
      assert answers[i] in answers;
    }
  }

  lemma PollData(s: State)
    requires Inv(s) && Enabled(s, Poll) && s.queue != [] && s.queue[0].Chunk?
    ensures Inv(Next(s, Poll))
  {
    var bytes, rest := s.queue[0].bytes, s.queue[1..];
    var s' := s.(answers := s.answers + [Data(bytes)], queue := rest);
    ReceivedMore(s.answers, Data(bytes));
    FinalMore(s.answers, Data(bytes));
    assert Received(s'.answers) + Chunks(rest) == Received(s.answers) + Chunks(s.queue);
    assert Received(s'.answers) <= s.plan[..s.sent];
    assert Verdict(s');
  }

  lemma PollFailure(s: State)
    requires Inv(s) && Enabled(s, Poll) && s.queue != [] && s.queue[0].Failed?
    ensures Inv(Next(s, Poll))
  {
    assert |s.queue| == 1;
    ReceivedMore(s.answers, Error);
    FinalMore(s.answers, Error);
  }

  /** A body that has failed has nothing queued, and its producer will never have
      achieved a complete archive; so the next answer is a failure again. */
  lemma PollNothing(s: State)
    requires Inv(s) && Enabled(s, Poll) && s.queue == []
    ensures Inv(Next(s, Poll))
  {
    var answer := if s.achieved then EndOfBody else Error;
    var s' := s.(answers := s.answers + [answer]);
    assert Next(s, Poll) == s';
    ReceivedMore(s.answers, answer);
    FinalMore(s.answers, answer);
    assert Received(s.answers) + Chunks(s.queue) == Received(s.answers);
    assert s.plan[..|s.plan|] == s.plan;
    assert Verdict(s');
  }

  lemma PollKeeps(s: State)
    requires Inv(s) && Enabled(s, Poll)
    ensures Inv(Next(s, Poll))
  {
    if s.queue == [] {
      PollNothing(s);
    } else if s.queue[0].Chunk? {
      PollData(s);
    } else {
      PollFailure(s);
    }
  }

  /** Every other step leaves the answers as they are. */
  lemma ProducerKeeps(s: State, step: Step)
    requires Inv(s) && Enabled(s, step) && !step.Poll? && !step.Send? && !step.Signal?
    ensures Inv(Next(s, step))
  {
    assert Next(s, step).answers == s.answers && Next(s, step).sent == s.sent;
  }

  lemma StepKeeps(s: State, step: Step)
    requires Inv(s) && Enabled(s, step)
    ensures Inv(Next(s, step))
  {
    match step
    case Send => SendKeeps(s);
    case Signal => SignalKeeps(s);
    case Poll => PollKeeps(s);
    case _ => ProducerKeeps(s, step);
  }

  lemma {:induction false} RunKeeps(s: State, steps: seq<Step>, s': State)
    requires Inv(s) && Run(s, steps, s')
    ensures Inv(s') && s'.plan == s.plan
    decreases |steps|
  {
    if steps != [] {
      StepKeeps(s, steps[0]);
      RunKeeps(Next(s, steps[0]), steps[1..], s');
    }
  }

  // --------------------------------------------------------------- theorems

  /** No truncated download looks complete: in every interleaving, a body that
      ends cleanly has handed the client every byte of the archive, in order,
      and at any moment what the client holds is a prefix of the archive. */
  lemma CleanEndIsWhole(plan: seq<Bytes>, s: State)
    requires Reachable(plan, s)
    ensures Received(s.answers) <= plan
    ensures EndedCleanly(s) ==> Flat(Received(s.answers)) == Flat(plan)
  {
    var steps :| Run(Initial(plan), steps, s);
    RunKeeps(Initial(plan), steps, s);
  }

  /** The queue is a bound on bytes however large an entry is. */
  lemma QueueIsBounded(plan: seq<Bytes>, s: State)
    requires Reachable(plan, s) && forall c <- plan :: |c| <= ES.BODY_CHUNK_BYTES
    ensures |s.queue| <= BODY_CHUNKS
    ensures |Flat(Chunks(s.queue))| <= BODY_CHUNKS * ES.BODY_CHUNK_BYTES
  {
    var steps :| Run(Initial(plan), steps, s);
    RunKeepsQueue(Initial(plan), steps, s);
    RunQueueSmall(Initial(plan), steps, s);
    SmallChunks(s.queue, BODY_CHUNKS, ES.BODY_CHUNK_BYTES);
  }

  lemma RunKeepsQueue(s: State, steps: seq<Step>, s': State)
    requires Inv(s) && Run(s, steps, s')
    ensures |s'.queue| <= BODY_CHUNKS
  {
    RunKeeps(s, steps, s');
  }

  predicate Small(queue: seq<Item>) {
    forall q <- queue :: q.Chunk? ==> |q.bytes| <= ES.BODY_CHUNK_BYTES
  }

  lemma {:induction false} RunQueueSmall(s: State, steps: seq<Step>, s': State)
    requires Run(s, steps, s') && Small(s.queue) && forall c <- s.plan :: |c| <= ES.BODY_CHUNK_BYTES
    ensures Small(s'.queue)
    decreases |steps|
  {
    if steps != [] {
      RunQueueSmall(Next(s, steps[0]), steps[1..], s');
    }
  }

  lemma {:induction false} SmallChunks(queue: seq<Item>, most: nat, bound: nat)
    requires |queue| <= most && forall q <- queue :: q.Chunk? ==> |q.bytes| <= bound
    ensures |Flat(Chunks(queue))| <= most * bound
  {
    if queue != [] && queue[0].Chunk? {
      SmallChunks(queue[1..], most - 1, bound);
      assert most * bound == (most - 1) * bound + bound;
    }
  }

  /** The producer has failed, panicked, or ended without completing. */
  predicate Lost(s: State) {
    !s.achieved && s.phase != Preparing && s.phase != Sending
  }

  /** A failure fails closed: once the producer is past sending without having
      completed, no continuation ends cleanly, whether or not the failure item
      found room in the queue. */
  lemma {:induction false} LostNeverEndsCleanly(s: State, steps: seq<Step>, s': State)
    requires Inv(s) && Lost(s) && Run(s, steps, s')
    ensures Lost(s') && !EndedCleanly(s')
    decreases |steps|
  {
    if steps != [] {
      StepKeeps(s, steps[0]);
      LostNeverEndsCleanly(Next(s, steps[0]), steps[1..], s');
    }
  }

  /** A failure the client has been told of is never taken back. The body may be
      polled again after it, or after its end: whatever is polled, whenever, an
      error is followed by errors alone and an end of body by ends alone, so no
      bytes follow either and the two never meet. */
  lemma BrokenStaysBroken(plan: seq<Bytes>, s: State, steps: seq<Step>, s': State)
    requires Reachable(plan, s) && Run(s, steps, s')
    ensures Final(s'.answers)
    ensures Error in s.answers ==> !EndedCleanly(s') && Received(s'.answers) == Received(s.answers)
  {
    var before :| Run(Initial(plan), before, s);
    RunKeeps(Initial(plan), before, s);
    RunKeeps(s, steps, s');
    if Error in s.answers {
      AfterAnError(s, steps, s');
    }
  }

  lemma {:induction false} AfterAnError(s: State, steps: seq<Step>, s': State)
    requires Inv(s) && Error in s.answers && Run(s, steps, s')
    ensures Error in s'.answers && !EndedCleanly(s') && Received(s'.answers) == Received(s.answers)
    decreases |steps|
  {
    if steps != [] {
      StepKeeps(s, steps[0]);
      if steps[0] == Poll {
        ReceivedMore(s.answers, Error);
      }
      AfterAnError(Next(s, steps[0]), steps[1..], s');
    }
  }

  /** Whatever the producer does, a client that keeps reading is answered: the
      body of a producer that is gone can always be polled to an end. */
  lemma {:induction false} GoneBodyEnds(s: State) returns (steps: seq<Step>, s': State)
    requires Inv(s) && s.phase == Gone && s.response == Streaming
    ensures Run(s, steps, s') && (if s.achieved then EndOfBody else Error) in s'.answers
    decreases |s.queue|
  {
    StepKeeps(s, Poll);
    var s1 := Next(s, Poll);
    if s.queue == [] {
      s' := s1;
      steps := [Poll];
      assert steps[1..] == [];
      assert s'.answers[|s.answers|] == if s.achieved then EndOfBody else Error;
    } else {
      var rest;
      rest, s' := GoneBodyEnds(s1);
      steps := [Poll] + rest;
      assert steps[1..] == rest;
    }
  }

  lemma {:induction false} RunOn(s: State, first: seq<Step>, middle: State, second: seq<Step>, s': State)
    requires Run(s, first, middle) && Run(middle, second, s')
    ensures Run(s, first + second, s')
    decreases |first|
  {
    if first == [] {
      assert first + second == second;
    } else {
      assert (first + second)[1..] == first[1..] + second;
      RunOn(Next(s, first[0]), first[1..], middle, second, s');
    }
  }

  lemma OneStep(s: State, step: Step)
    requires Enabled(s, step)
    ensures Run(s, [step], Next(s, step))
  {
    assert [step][1..] == [];
  }

  /** A chunk is sent and read. */
  lemma Hands(s: State) returns (s': State)
    requires s.phase == Sending && s.response == Streaming && s.queue == [] && s.sent < |s.plan|
    ensures Run(s, [Send] + [Poll], s') && s' == s.(sent := s.sent + 1, answers := s'.answers)
    ensures Received(s'.answers) == Received(s.answers) + [s.plan[s.sent]]
  {
    var s1 := Next(s, Send);
    s' := Next(s1, Poll);
    OneStep(s, Send);
    OneStep(s1, Poll);
    RunOn(s, [Send], s1, [Poll], s');
    ReceivedMore(s.answers, Data(s.plan[s.sent]));
  }

  lemma {:induction false} Delivers(s: State) returns (steps: seq<Step>, s': State)
    requires s.phase == Sending && s.response == Streaming && s.queue == [] && s.sent <= |s.plan|
    requires Received(s.answers) == s.plan[..s.sent]
    ensures Run(s, steps, s') && s' == s.(sent := |s.plan|, answers := s'.answers)
    ensures Received(s'.answers) == s.plan
    decreases |s.plan| - s.sent
  {
    if s.sent == |s.plan| {
      steps, s' := [], s;
    } else {
      var s1 := Hands(s);
      assert s.plan[..s.sent + 1] == s.plan[..s.sent] + [s.plan[s.sent]];
      steps, s' := Delivers(s1);
      RunOn(s, [Send] + [Poll], s1, steps, s');
      steps := [Send] + [Poll] + steps;
    }
  }

  /** With everything read, the producer finishes and the body ends. */
  lemma Finishes(s: State) returns (s': State)
    requires s.phase == Sending && s.response == Streaming && s.queue == [] && s.sent == |s.plan|
    ensures Run(s, [Finish] + [DropSenders] + [Poll], s')
    ensures EndedCleanly(s') && Received(s'.answers) == Received(s.answers)
  {
    var s1 := Next(s, Finish);
    var s2 := Next(s1, DropSenders);
    s' := Next(s2, Poll);
    OneStep(s, Finish);
    OneStep(s1, DropSenders);
    OneStep(s2, Poll);
    RunOn(s, [Finish], s1, [DropSenders], s2);
    RunOn(s, [Finish] + [DropSenders], s2, [Poll], s');
    ReceivedMore(s.answers, EndOfBody);
    assert s'.answers[|s.answers|] == EndOfBody;
  }

  /** Every archive can be downloaded whole. */
  lemma WholeDownloadExists(plan: seq<Bytes>)
    ensures exists s :: Reachable(plan, s) && EndedCleanly(s) && Received(s.answers) == plan
  {
    var s0 := Initial(plan);
    var s1 := Next(s0, Start);
    OneStep(s0, Start);
    var steps, s2 := Delivers(s1);
    RunOn(s0, [Start], s1, steps, s2);
    var s3 := Finishes(s2);
    RunOn(s0, [Start] + steps, s2, [Finish] + [DropSenders] + [Poll], s3);
  }

  /** The two halves together: a download of a container session that ends
      cleanly is, byte for byte, the buffered archive. */
  lemma CleanDownloadIsTheContainer(room: nat, plans: seq<ES.EntryPlan>, directory: seq<Bytes>, s: State)
    requires forall p <- plans :: ES.PlanFits(p)
    requires var (rs, b) := ES.BufferRun(ES.NewBuffer(ES.Sink([], 0, room)),
                                         ES.ContainerOps(plans, directory) + [ES.Seek(ES.End(0))]);
      rs != [] && rs[|rs| - 1].Ok? && Reachable(b.sink.chunks, s)
    requires EndedCleanly(s)
    ensures Flat(Received(s.answers)) == ES.Container(plans, directory)
  {
    ES.ContainerStreams(room, plans, directory);
    var b := ES.BufferRun(ES.NewBuffer(ES.Sink([], 0, room)),
                          ES.ContainerOps(plans, directory) + [ES.Seek(ES.End(0))]).1;
    CleanEndIsWhole(b.sink.chunks, s);
  }

  // ------------------------------------------------------------ one hand-off

  /** What the client does between two tries. */
  datatype Act = Idle | Take | Close

  datatype SendOutcome = Sent | ClientGone | Stalled

  datatype Channel = Channel(queue: seq<Item>, open: bool)

  function Between(c: Channel, act: Act): Channel {
    match act
    case Idle => c
    case Take => if c.queue == [] then c else c.(queue := c.queue[1..])
    case Close => Channel([], false)
  }

  /** Trying until the deadline: `acts` lists what happened in each wait. */
  function SendWithin(c: Channel, item: Item, acts: seq<Act>): (SendOutcome, Channel)
    decreases |acts|
  {
    if !c.open then (ClientGone, c)
    else if |c.queue| < BODY_CHUNKS then (Sent, c.(queue := c.queue + [item]))
    else if acts == [] then (Stalled, c)
    else SendWithin(Between(c, acts[0]), item, acts[1..])
  }

  /** A client that makes any progress at all never loses the transfer: only
      one that stays idle with a full queue does, and an item that is sent is
      the last thing in the queue. */
  lemma {:induction false} OnlyIdleClientsStall(c: Channel, item: Item, acts: seq<Act>)
    requires c.open && |c.queue| <= BODY_CHUNKS
    ensures var (outcome, c') := SendWithin(c, item, acts);
      && (outcome == Stalled <==> |c.queue| == BODY_CHUNKS && forall i | 0 <= i < |acts| :: acts[i] == Idle)
      && (outcome == ClientGone ==> Close in acts && !c'.open)
      && (outcome == Sent ==> c'.open && c'.queue != [] && c'.queue[|c'.queue| - 1] == item && |c'.queue| <= BODY_CHUNKS)
    decreases |acts|
  {
    if |c.queue| == BODY_CHUNKS && acts != [] {
      var c1 := Between(c, acts[0]);
      assert forall i | 0 <= i < |acts| - 1 :: acts[1..][i] == acts[i + 1];
      assert forall i | 0 < i < |acts| :: acts[i] == acts[1..][i - 1];
      if c1.open {
        OnlyIdleClientsStall(c1, item, acts[1..]);
      }
    }
  }

  /** How many items the client takes. */
  function Takes(acts: seq<Act>): nat {
    if acts == [] then 0 else Takes(acts[1..]) + (if acts[0] == Take then 1 else 0)
  }

  /** After `k` waits, and no sooner, there was room: the queue is what the
      client's takes had left of it, whole and in order, and then the item. */
  ghost predicate SentAfter(c: Channel, item: Item, acts: seq<Act>, k: nat, c': Channel) {
    && k <= |acts| && Close !in acts[..k]
    && Takes(acts[..k]) <= |c.queue| && |c.queue| - Takes(acts[..k]) < BODY_CHUNKS
    && (forall j | 0 <= j < k :: |c.queue| - Takes(acts[..j]) >= BODY_CHUNKS)
    && c' == Channel(c.queue[Takes(acts[..k])..] + [item], true)
  }

  ghost predicate FindsRoom(c: Channel, item: Item, acts: seq<Act>, c': Channel) {
    exists k: nat :: SentAfter(c, item, acts, k, c')
  }

  lemma TakesFirst(acts: seq<Act>, k: nat)
    requires 0 < k <= |acts|
    ensures Takes(acts[..k]) == Takes(acts[1..][..k - 1]) + (if acts[0] == Take then 1 else 0)
    ensures Close in acts[..k] <==> acts[0] == Close || Close in acts[1..][..k - 1]
  {
    assert acts[..k][1..] == acts[1..][..k - 1];
    assert acts[..k] == [acts[0]] + acts[1..][..k - 1];
  }

  /** One wait more in front of a hand-off that finds room. */
  lemma RoomOneLater(c: Channel, item: Item, acts: seq<Act>, k: nat, c': Channel)
    requires c.open && |c.queue| >= BODY_CHUNKS && acts != [] && acts[0] != Close
    requires SentAfter(Between(c, acts[0]), item, acts[1..], k, c')
    ensures SentAfter(c, item, acts, k + 1, c')
  {
    var t := Takes(acts[1..][..k]);
    TakesFirst(acts, k + 1);
    forall j | 0 <= j < k + 1
      ensures |c.queue| - Takes(acts[..j]) >= BODY_CHUNKS
    {
      if j > 0 {
        TakesFirst(acts, j);
      }
    }
    if acts[0] == Take {
      assert c.queue[1..][t..] == c.queue[t + 1..];
    }
  }

  lemma {:induction false} SentFindsRoom(c: Channel, item: Item, acts: seq<Act>)
    requires SendWithin(c, item, acts).0 == Sent
    ensures FindsRoom(c, item, acts, SendWithin(c, item, acts).1)
    decreases |acts|
  {
    var c' := SendWithin(c, item, acts).1;
    if |c.queue| < BODY_CHUNKS {
      assert SentAfter(c, item, acts, 0, c');
    } else {
      var c1 := Between(c, acts[0]);
      SentFindsRoom(c1, item, acts[1..]);
      var k: nat :| SentAfter(c1, item, acts[1..], k, c');
      RoomOneLater(c, item, acts, k, c');
    }
  }

  lemma {:induction false} RoomIsFound(c: Channel, item: Item, acts: seq<Act>, k: nat, c': Channel)
    requires c.open && SentAfter(c, item, acts, k, c')
    ensures SendWithin(c, item, acts).0 == Sent
    decreases |acts|
  {
    if k > 0 {
      var c1 := Between(c, acts[0]);
      TakesFirst(acts, k);
      assert acts[..0] == [];
      assert acts[0] in acts[..k];
      forall j | 0 <= j < k - 1
        ensures |c1.queue| - Takes(acts[1..][..j]) >= BODY_CHUNKS
      {
        TakesFirst(acts, j + 1);
        assert |c.queue| - Takes(acts[..j + 1]) >= BODY_CHUNKS;
      }
      var taken := Takes(acts[1..][..k - 1]);
      assert SentAfter(c1, item, acts[1..], k - 1, Channel(c1.queue[taken..] + [item], true));
      RoomIsFound(c1, item, acts[1..], k - 1, Channel(c1.queue[taken..] + [item], true));
    }
  }

  lemma {:induction false} StalledLeaves(c: Channel, item: Item, acts: seq<Act>)
    requires SendWithin(c, item, acts).0 == Stalled
    ensures Close !in acts && |c.queue| - Takes(acts) >= BODY_CHUNKS
    ensures SendWithin(c, item, acts).1 == Channel(c.queue[Takes(acts)..], true)
    decreases |acts|
  {
    if acts != [] {
      StalledLeaves(Between(c, acts[0]), item, acts[1..]);
      assert acts == [acts[0]] + acts[1..];
      if acts[0] == Take {
        assert c.queue[1..][Takes(acts[1..])..] == c.queue[Takes(acts)..];
      }
    }
  }

  /** A hand-off loses nothing, whatever is queued and whatever the client does
      meanwhile. It succeeds exactly when there comes to be room before the
      deadline and the client's departure; then the queue is what the client's
      takes left of the old one, in order and with nothing dropped, followed by the
      item. When it is given up nothing was taken and the queue is as it was. */
  lemma HandOffLosesNothing(c: Channel, item: Item, acts: seq<Act>)
    requires c.open
    ensures var (outcome, c') := SendWithin(c, item, acts);
      && (outcome == Sent ==> FindsRoom(c, item, acts, c'))
      && (outcome != Sent ==> forall d :: !FindsRoom(c, item, acts, d))
      && (outcome == Stalled && |c.queue| <= BODY_CHUNKS ==> c' == c && Takes(acts) == 0)
      && (outcome == ClientGone ==> Close in acts && c' == Channel([], false))
  {
    var (outcome, c') := SendWithin(c, item, acts);
    if outcome == Sent {
      SentFindsRoom(c, item, acts);
    } else {
      forall d | FindsRoom(c, item, acts, d)
        ensures false
      {
        var k: nat :| SentAfter(c, item, acts, k, d);
        RoomIsFound(c, item, acts, k, d);
      }
    }
    if outcome == Stalled {
      StalledLeaves(c, item, acts);
      assert c.queue[0..] == c.queue;
    }
    if outcome == ClientGone {
      GoneWasClosed(c, item, acts);
    }
  }

  lemma {:induction false} GoneWasClosed(c: Channel, item: Item, acts: seq<Act>)
    requires c.open && SendWithin(c, item, acts).0 == ClientGone
    ensures Close in acts && SendWithin(c, item, acts).1 == Channel([], false)
    decreases |acts|
  {
    if Between(c, acts[0]).open {
      GoneWasClosed(Between(c, acts[0]), item, acts[1..]);
    }
  }

  // The hand-off is what the protocol's producer does in one send.

  function ChannelOf(s: State): Channel {
    Channel(s.queue, Open(s))
  }

  function StepsOf(s: State, act: Act): seq<Step> {
    match act
    case Idle => []
    case Take => if s.queue == [] then [] else [Poll]
    case Close => [Leave]
  }

  lemma ActIsSteps(s: State, act: Act) returns (s': State)
    requires s.response == Streaming
    ensures Run(s, StepsOf(s, act), s') && ChannelOf(s') == Between(ChannelOf(s), act)
    ensures s'.sent == s.sent && s'.plan == s.plan && s'.phase == s.phase && s'.response != Waiting
  {
    s' := s;
    if act == Close {
      s' := Next(s, Leave);
      OneStep(s, Leave);
    } else if act == Take && s.queue != [] {
      s' := Next(s, Poll);
      OneStep(s, Poll);
    }
  }

  /** Where the producer stands after a hand-off, and what it does next. */
  predicate HandedOff(s: State, outcome: SendOutcome, s': State) {
    && s'.plan == s.plan
    && match outcome
       case Sent => s'.sent == s.sent + 1 && s'.phase == Sending
       case Stalled => s'.sent == s.sent && Enabled(s', SendStalled)
       case ClientGone => s'.sent == s.sent && Enabled(s', SendClosed)
  }

  /** A hand-off of the next chunk, with whatever the client does meanwhile, is a
      run of the protocol to the same queue: the client's polls and departure, and
      then one send, or the step for why there was none. */
  lemma {:induction false} HandOffIsARun(s: State, acts: seq<Act>) returns (steps: seq<Step>, s': State)
    requires s.phase == Sending && s.sent < |s.plan| && s.response != Waiting
    ensures var (outcome, c') := SendWithin(ChannelOf(s), Chunk(s.plan[s.sent]), acts);
      && Run(s, steps, s') && ChannelOf(s') == c' && HandedOff(s, outcome, s')
    decreases |acts|
  {
    if Room(s) {
      steps, s' := [Send], Next(s, Send);
      OneStep(s, Send);
    } else if !Open(s) || acts == [] {
      steps, s' := [], s;
    } else {
      var s1 := ActIsSteps(s, acts[0]);
      var rest;
      rest, s' := HandOffIsARun(s1, acts[1..]);
      RunOn(s, StepsOf(s, acts[0]), s1, rest, s');
      steps := StepsOf(s, acts[0]) + rest;
    }
  }

  class ResponseQueue {
    var queue: seq<Item>
    var open: bool

    function View(): Channel
      reads this
    {
      Channel(queue, open)
    }

    /** The client's side runs while the producer sleeps. */
    method Sleep(act: Act)
      modifies this
      ensures View() == Between(old(View()), act)
    {
      match act {
        case Idle =>
        case Take =>
          if queue != [] {
            queue := queue[1..];
          }
        case Close => queue, open := [], false;
      }
    }

    /** Hands one item over, waiting for room until the deadline. */
    method SendBefore(item: Item, acts: seq<Act>) returns (outcome: SendOutcome)
      modifies this
      ensures (outcome, View()) == SendWithin(old(View()), item, acts)
    {
      var i := 0;
      while true
        invariant 0 <= i <= |acts|
        invariant SendWithin(View(), item, acts[i..]) == SendWithin(old(View()), item, acts)
        decreases |acts| - i
      {
        if !open {
          return ClientGone;
        }
        if |queue| < BODY_CHUNKS {
          queue := queue + [item];
          return Sent;
        }
        if i == |acts| {
          return Stalled;
        }
        assert acts[i..][1..] == acts[i + 1..];
        Sleep(acts[i]);
        i := i + 1;
      }
    }
  }
}
