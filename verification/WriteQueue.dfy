/**
  The outgoing message queue of a connection as a state machine: one step per critical section or
  asynchronous call of send, write_frame and handle_write_frame
  (install/include/websocketpp/impl/connection_impl.hpp), in any interleaving of threads.
 */
module WriteQueue {
  import opened Wrappers

  datatype Message = Message(header: seq<byte>, payload: seq<byte>, terminal: bool)

  /**
    The fields of the connection, the work its threads and its transport still owe, and the
    history of what was pushed and what became of it.
   */
  datatype State = State(
    queue: seq<Message>,               // m_send_queue
    current: seq<Message>,             // m_current_msgs
    buffer: seq<seq<byte>>,            // m_send_buffer
    flag: bool,                        // m_write_flag
    bufferSize: int,                   // m_send_buffer_size
    posting: nat,                      // threads that saw needs_writing and have not called dispatch yet
    owed: nat,                         // dispatched write_frame handlers that have not run yet
    starting: nat,                     // write_frame activations past the lock, before async_write
    outstanding: seq<seq<seq<byte>>>,  // transport writes without a completion
    finishing: seq<Ending>,            // handle_write_frame activations past clear(), before the lock
    terminated: nat,                   // handle_write_frame activations that ended in terminate
    wire: seq<seq<byte>>,              // every buffer ever given to the transport, in order
    pushed: seq<Message>,
    written: seq<Message>,             // messages of completed writes
    lost: seq<Message>                 // messages of failed writes
  )

  datatype Ending = Ending(ok: bool, terminal: bool)

  datatype Step =
    | Push(msg: Message)                 // write_push and the needs_writing test, under the lock
    | Post                               // transport dispatch of write_frame
    | RunWriteFrame                      // write_frame up to the end of its critical section
    | StartWrite                         // the rest of write_frame
    | Complete(index: nat, ok: bool)     // handle_write_frame up to m_current_msgs.clear()
    | Finish(index: nat)                 // the rest of handle_write_frame

  const INITIAL := State([], [], [], false, 0, 0, 0, 0, [], [], 0, [], [], [], [])

  function Buffers(msgs: seq<Message>): seq<seq<byte>> {
    if msgs == [] then [] else Buffers(msgs[..|msgs| - 1]) + [msgs[|msgs| - 1].header, msgs[|msgs| - 1].payload]
  }

  function PayloadTotal(msgs: seq<Message>): nat {
    if msgs == [] then 0 else |msgs[0].payload| + PayloadTotal(msgs[1..])
  }

  /** How many messages one write takes: all of them, or up to and including the first terminal one. */
  function BatchSize(queue: seq<Message>): (n: nat)
    ensures n <= |queue| && (queue != [] ==> n > 0)
    ensures forall i | 0 <= i < n - 1 :: !queue[i].terminal
    ensures n < |queue| ==> n > 0 && queue[n - 1].terminal
  {
    if queue == [] then 0
    else if queue[0].terminal then 1
    else 1 + BatchSize(queue[1..])
  }

  function Remove<T>(s: seq<T>, i: nat): seq<T>
    requires i < |s|
  {
    s[..i] + s[i + 1..]
  }

  predicate Enabled(s: State, step: Step) {
    match step
    case Push(_) => true
    case Post => s.posting > 0
    case RunWriteFrame => s.owed > 0
    case StartWrite => s.starting > 0
    case Complete(i, _) => i < |s.outstanding|
    case Finish(i) => i < |s.finishing|
  }

  function AfterPush(s: State, msg: Message): State {
    s.(queue := s.queue + [msg],
       bufferSize := s.bufferSize + |msg.payload|,
       pushed := s.pushed + [msg],
       posting := s.posting + if s.flag then 0 else 1)
  }

  function AfterPost(s: State): State
    requires s.posting > 0
  {
    s.(posting := s.posting - 1, owed := s.owed + 1)
  }

  function AfterRunWriteFrame(s: State): State
    requires s.owed > 0
  {
    if s.flag then s.(owed := s.owed - 1)
    else
      var n := BatchSize(s.queue);
      var current := s.current + s.queue[..n];
      s.(owed := s.owed - 1,
         queue := s.queue[n..],
         bufferSize := s.bufferSize - PayloadTotal(s.queue[..n]),
         current := current,
         flag := current != [],
         starting := s.starting + if current != [] then 1 else 0)
  }

  function AfterStartWrite(s: State): State
    requires s.starting > 0
  {
    var buffer := s.buffer + Buffers(s.current);
    s.(starting := s.starting - 1,
       buffer := buffer,
       outstanding := s.outstanding + [buffer],
       wire := s.wire + buffer)
  }

  function AfterComplete(s: State, i: nat, ok: bool): State
    requires i < |s.outstanding|
  {
    s.(outstanding := Remove(s.outstanding, i),
       finishing := s.finishing + [Ending(ok, s.current != [] && s.current[|s.current| - 1].terminal)],
       written := s.written + if ok then s.current else [],
       lost := s.lost + if ok then [] else s.current,
       buffer := [],
       current := [])
  }

  function AfterFinish(s: State, i: nat): State
    requires i < |s.finishing|
  {
    var s' := s.(finishing := Remove(s.finishing, i));
    if !s.finishing[i].ok || s.finishing[i].terminal then s'.(terminated := s.terminated + 1)
    else s'.(flag := false, posting := s.posting + if s.queue != [] then 1 else 0)
  }

  function Apply(s: State, step: Step): State
    requires Enabled(s, step)
  {
    match step
    case Push(msg) => AfterPush(s, msg)
    case Post => AfterPost(s)
    case RunWriteFrame => AfterRunWriteFrame(s)
    case StartWrite => AfterStartWrite(s)
    case Complete(i, ok) => AfterComplete(s, i, ok)
    case Finish(i) => AfterFinish(s, i)
  }

  // ------------------------------------------------------- the invariant

  /** Who holds the write flag: at most one activity, and each one counts. */
  function Owners(s: State): nat {
    s.starting + |s.outstanding| + |s.finishing| + s.terminated
  }

  predicate OnlyLastTerminal(msgs: seq<Message>) {
    forall i | 0 <= i < |msgs| - 1 :: !msgs[i].terminal
  }

  predicate NoneTerminal(msgs: seq<Message>) {
    forall i | 0 <= i < |msgs| :: !msgs[i].terminal
  }

  /** The connection has written its last byte: a write failed or carried a terminal message. */
  predicate Stopped(s: State) {
    s.terminated > 0 || (s.finishing != [] && (!s.finishing[0].ok || s.finishing[0].terminal))
  }

  predicate SingleOwner(s: State) {
    && Owners(s) == (if s.flag then 1 else 0)
    && (s.current != [] <==> s.starting + |s.outstanding| == 1)
    && s.buffer == (if s.outstanding == [] then [] else Buffers(s.current))
    && (s.outstanding != [] ==> s.outstanding[0] == s.buffer)
  }

  predicate Conserves(s: State) {
    && s.written + s.lost + s.current + s.queue == s.pushed
    && s.bufferSize == PayloadTotal(s.queue)
    && s.wire == Buffers(s.written + s.lost + if s.outstanding == [] then [] else s.current)
  }

  predicate NoLostWakeup(s: State) {
    s.queue != [] && !s.flag ==> s.posting + s.owed > 0
  }

  predicate StopsAtTerminal(s: State) {
    && OnlyLastTerminal(s.current)
    && OnlyLastTerminal(s.written + s.lost)
    && (!Stopped(s) ==> s.lost == [] && NoneTerminal(s.written))
    // a stop has a cause: a failed write, or a terminal message written last
    && (Stopped(s) && s.lost == [] ==> s.written != [] && s.written[|s.written| - 1].terminal)
  }

  predicate Inv(s: State) {
    SingleOwner(s) && Conserves(s) && NoLostWakeup(s) && StopsAtTerminal(s)
  }

  lemma {:induction false} BuffersConcat(a: seq<Message>, b: seq<Message>)
    ensures Buffers(a + b) == Buffers(a) + Buffers(b)
    decreases |b|
  {
    if b == [] {
      assert a + b == a;
    } else {
      assert (a + b)[..|a + b| - 1] == a + b[..|b| - 1];
      BuffersConcat(a, b[..|b| - 1]);
    }
  }

  lemma {:induction false} PayloadConcat(a: seq<Message>, b: seq<Message>)
    ensures PayloadTotal(a + b) == PayloadTotal(a) + PayloadTotal(b)
    decreases |a|
  {
    if a == [] {
      assert a + b == b;
    } else {
      assert (a + b)[1..] == a[1..] + b;
      PayloadConcat(a[1..], b);
    }
  }

  lemma PushKeepsInv(s: State, msg: Message)
    requires Inv(s)
    ensures Inv(AfterPush(s, msg))
  {
    PayloadConcat(s.queue, [msg]);
  }

  // A batch leaves the front of the queue for the empty place of current messages.
  lemma TakenInOrder(before: seq<Message>, queue: seq<Message>, n: nat)
    requires n <= |queue|
    ensures before + [] + queue == before + ([] + queue[..n]) + queue[n..]
    ensures PayloadTotal(queue) == PayloadTotal(queue[..n]) + PayloadTotal(queue[n..])
  {
    var a, b := queue[..n], queue[n..];
    assert queue == a + b;
    Regrouped(before, a, b);
    PayloadConcat(a, b);
  }

  lemma Regrouped(before: seq<Message>, a: seq<Message>, b: seq<Message>)
    ensures before + [] + (a + b) == before + ([] + a) + b
  {
    assert before + [] == before;
    assert [] + a == a;
    assert before + a + b == before + (a + b);
  }

  lemma TakeConserves(s: State)
    requires SingleOwner(s) && Conserves(s) && s.owed > 0 && !s.flag
    ensures Conserves(AfterRunWriteFrame(s))
  {
    assert s.current == [];
    TakenInOrder(s.written + s.lost, s.queue, BatchSize(s.queue));
  }

  lemma TakeStops(s: State)
    requires SingleOwner(s) && StopsAtTerminal(s) && s.owed > 0 && !s.flag
    ensures StopsAtTerminal(AfterRunWriteFrame(s))
  {
    assert AfterRunWriteFrame(s).current == s.queue[..BatchSize(s.queue)];
  }

  lemma RunWriteFrameKeepsInv(s: State)
    requires Inv(s) && s.owed > 0
    ensures Inv(AfterRunWriteFrame(s))
  {
    if !s.flag {
      TakeConserves(s);
      TakeStops(s);
    }
  }

  lemma StartWriteKeepsInv(s: State)
    requires Inv(s) && s.starting > 0
    ensures Inv(AfterStartWrite(s))
  {
    BuffersConcat(s.written + s.lost, s.current);
    assert s.written + s.lost + [] == s.written + s.lost;
  }

  // The messages of a finished write move to the end of what is written, or of what is lost.
  lemma FinishedInOrder(w: seq<Message>, c: seq<Message>, q: seq<Message>)
    ensures (w + c) + ([] + []) + [] + q == w + [] + c + q && (w + c) + ([] + []) + [] == w + [] + c
    ensures (w + []) + ([] + c) + [] + q == w + [] + c + q && (w + []) + ([] + c) + [] == w + [] + c
  {
  }

  lemma CompleteConserves(s: State, i: nat, ok: bool)
    requires SingleOwner(s) && Conserves(s) && StopsAtTerminal(s) && i < |s.outstanding|
    ensures s.current != [] && Conserves(AfterComplete(s, i, ok))
  {
    assert s.lost == [] && Remove(s.outstanding, i) == [];
    FinishedInOrder(s.written, s.current, s.queue);
  }

  lemma NoneThenLast(a: seq<Message>, b: seq<Message>)
    requires NoneTerminal(a) && OnlyLastTerminal(b) && b != []
    ensures OnlyLastTerminal(a + b)
    ensures !b[|b| - 1].terminal ==> NoneTerminal(a + b)
  {
  }

  lemma CompleteStops(s: State, i: nat, ok: bool)
    requires SingleOwner(s) && StopsAtTerminal(s) && i < |s.outstanding|
    ensures StopsAtTerminal(AfterComplete(s, i, ok))
  {
    var s' := AfterComplete(s, i, ok);
    assert !Stopped(s) && s.lost == [];
    NoneThenLast(s.written, s.current);
    assert s'.written + s'.lost == s.written + s.current;
    assert s'.finishing == [Ending(ok, s.current[|s.current| - 1].terminal)];
  }

  lemma CompleteKeepsInv(s: State, i: nat, ok: bool)
    requires Inv(s) && i < |s.outstanding|
    ensures s.current != [] && Inv(AfterComplete(s, i, ok))
  {
    CompleteConserves(s, i, ok);
    CompleteStops(s, i, ok);
  }

  lemma FinishOwns(s: State, i: nat)
    requires SingleOwner(s) && NoLostWakeup(s) && i < |s.finishing|
    ensures SingleOwner(AfterFinish(s, i)) && NoLostWakeup(AfterFinish(s, i))
  {
    assert |s.finishing| == 1 && s.outstanding == [] && s.starting == 0;
    assert Remove(s.finishing, i) == [];
  }

  lemma FinishStops(s: State, i: nat)
    requires SingleOwner(s) && StopsAtTerminal(s) && i < |s.finishing|
    ensures StopsAtTerminal(AfterFinish(s, i))
  {
    assert |s.finishing| == 1 && s.terminated == 0 && i == 0;
    assert Remove(s.finishing, i) == [];
    assert Stopped(AfterFinish(s, i)) == Stopped(s);
  }

  lemma FinishKeepsInv(s: State, i: nat)
    requires Inv(s) && i < |s.finishing|
    ensures Inv(AfterFinish(s, i))
  {
    FinishOwns(s, i);
    FinishStops(s, i);
  }

  lemma StepKeepsInv(s: State, step: Step)
    requires Inv(s) && Enabled(s, step)
    ensures Inv(Apply(s, step))
  {
    match step
    case Push(msg) => PushKeepsInv(s, msg);
    case Post =>
    case RunWriteFrame => RunWriteFrameKeepsInv(s);
    case StartWrite => StartWriteKeepsInv(s);
    case Complete(i, ok) => CompleteKeepsInv(s, i, ok);
    case Finish(i) => FinishKeepsInv(s, i);
  }

  /** A push owes a write_frame exactly when nobody is writing; the end of a write exactly when messages wait. */
  lemma WakeupsExactly(s: State, msg: Message, i: nat)
    requires Inv(s)
    ensures AfterPush(s, msg).posting == s.posting + if Owners(s) == 0 then 1 else 0
    ensures i < |s.finishing| && !Stopped(s) ==>
              AfterFinish(s, i).posting == (s.posting + if s.queue == [] then 0 else 1) && Owners(AfterFinish(s, i)) == 0
    ensures i < |s.finishing| && Stopped(s) ==>
              AfterFinish(s, i).posting == s.posting && Owners(AfterFinish(s, i)) == 1
  {
  }

  // ------------------------------------------------------- whole runs

  predicate EnabledRun(s: State, steps: seq<Step>)
    decreases |steps|
  {
    steps != [] ==> Enabled(s, steps[0]) && EnabledRun(Apply(s, steps[0]), steps[1..])
  }

  function Run(s: State, steps: seq<Step>): State
    requires EnabledRun(s, steps)
    decreases |steps|
  {
    if steps == [] then s else Run(Apply(s, steps[0]), steps[1..])
  }

  /** In every interleaving, of any length, the queue invariant holds. */
  lemma {:induction false} RunKeepsInv(s: State, steps: seq<Step>)
    requires Inv(s) && EnabledRun(s, steps)
    ensures Inv(Run(s, steps))
    decreases |steps|
  {
    if steps != [] {
      StepKeepsInv(s, steps[0]);
      RunKeepsInv(Apply(s, steps[0]), steps[1..]);
    }
  }

  /** What the invariant gives a user of the connection. */
  lemma EveryRunIsSafe(steps: seq<Step>)
    requires EnabledRun(INITIAL, steps)
    ensures var s := Run(INITIAL, steps);
            // one transport write at a time
            && s.starting + |s.outstanding| <= 1
            // nothing lost, duplicated or reordered, and the wire carries exactly what left the queue
            && s.written + s.lost + s.current + s.queue == s.pushed
            && s.wire <= Buffers(s.pushed)
            && s.bufferSize == PayloadTotal(s.queue)
            // a waiting message always has a write_frame coming, or a write whose completion will look
            && (s.queue != [] ==> s.flag || s.posting + s.owed > 0)
            // nothing follows a terminal message
            && OnlyLastTerminal(s.written + s.lost)
  {
    RunKeepsInv(INITIAL, steps);
    var s := Run(INITIAL, steps);
    WireIsPrefix(s.written + s.lost, s.current, s.queue);
  }

  lemma WireIsPrefix(done: seq<Message>, current: seq<Message>, queue: seq<Message>)
    ensures Buffers(done + []) <= Buffers(done + current + queue)
    ensures Buffers(done + current) <= Buffers(done + current + queue)
  {
    assert done + [] == done && done + current + queue == done + (current + queue);
    BuffersConcat(done, current + queue);
    BuffersConcat(done + current, queue);
  }

  /** Each message takes two buffers, its header and then its payload. */
  lemma {:induction false} BuffersAt(msgs: seq<Message>)
    ensures |Buffers(msgs)| == 2 * |msgs|
    ensures forall i | 0 <= i < |msgs| ::
              Buffers(msgs)[2 * i] == msgs[i].header && Buffers(msgs)[2 * i + 1] == msgs[i].payload
    decreases |msgs|
  {
    if msgs != [] {
      var front, last := msgs[..|msgs| - 1], msgs[|msgs| - 1];
      BuffersAt(front);
      assert Buffers(msgs) == Buffers(front) + [last.header, last.payload];
      forall i | 0 <= i < |msgs|
        ensures Buffers(msgs)[2 * i] == msgs[i].header && Buffers(msgs)[2 * i + 1] == msgs[i].payload
      {
        assert i < |front| ==> msgs[i] == front[i] && 2 * i + 1 < 2 * |front|;
      }
    }
  }

  /** How many messages the transport was given, the write in progress included. */
  function Given(s: State): nat {
    |s.written| + |s.lost| + if s.outstanding == [] then 0 else |s.current|
  }

  /** The wire is header and payload of the messages pushed first, in that order. */
  predicate WireInOrder(s: State) {
    && Given(s) <= |s.pushed| && |s.wire| == 2 * Given(s)
    && forall i | 0 <= i < Given(s) ::
         s.wire[2 * i] == s.pushed[i].header && s.wire[2 * i + 1] == s.pushed[i].payload
  }

  lemma ConservedInOrder(s: State)
    requires Conserves(s)
    ensures WireInOrder(s)
  {
    CarriesGiven(s.written + s.lost, s.current, s.queue, s.pushed, s.wire, s.outstanding != []);
  }

  /** So it is in every run. */
  lemma WireCarriesMessages(steps: seq<Step>)
    requires EnabledRun(INITIAL, steps)
    ensures WireInOrder(Run(INITIAL, steps))
  {
    RunKeepsInv(INITIAL, steps);
    ConservedInOrder(Run(INITIAL, steps));
  }

  lemma CarriesGiven(done: seq<Message>, current: seq<Message>, queue: seq<Message>, pushed: seq<Message>,
                     wire: seq<seq<byte>>, inFlight: bool)
    requires pushed == done + current + queue && wire == Buffers(done + if inFlight then current else [])
    ensures var n := |done| + if inFlight then |current| else 0;
            && n <= |pushed| && |wire| == 2 * n
            && forall i | 0 <= i < n :: wire[2 * i] == pushed[i].header && wire[2 * i + 1] == pushed[i].payload
  {
    var front := done + if inFlight then current else [];
    BuffersAt(front);
    assert forall i | 0 <= i < |front| :: front[i] == pushed[i];
  }

  function Payloads(msgs: seq<Message>): seq<seq<byte>> {
    seq(|msgs|, i requires 0 <= i < |msgs| => msgs[i].payload)
  }

  /** The total that the buffer size keeps is the length of the payloads put together, headers left out. */
  lemma {:induction false} TotalIsLength(msgs: seq<Message>)
    ensures PayloadTotal(msgs) == |Flatten(Payloads(msgs))|
    decreases |msgs|
  {
    if msgs != [] {
      TotalIsLength(msgs[1..]);
      assert Payloads(msgs)[1..] == Payloads(msgs[1..]);
    }
  }

  lemma StopIsFinal(s: State, step: Step)
    requires Inv(s) && Stopped(s) && Enabled(s, step)
    ensures var s' := Apply(s, step); Stopped(s') && s'.wire == s.wire && s'.written == s.written
  {
    assert s.flag && s.starting == 0 && s.outstanding == [];
  }

  /** After a failed write or a terminal message no step of any run gives the transport another byte. */
  lemma {:induction false} NothingAfterStop(s: State, steps: seq<Step>)
    requires Inv(s) && Stopped(s) && EnabledRun(s, steps)
    ensures var s' := Run(s, steps); Stopped(s') && s'.wire == s.wire && s'.written == s.written
    decreases |steps|
  {
    if steps != [] {
      StepKeepsInv(s, steps[0]);
      StopIsFinal(s, steps[0]);
      NothingAfterStop(Apply(s, steps[0]), steps[1..]);
    }
  }

  // ------------------------------------------------------- everything pushed gets written

  /** Work left over: no more steps than this can happen before another push. */
  function Measure(s: State): nat {
    10 * |s.queue| + 2 * s.posting + s.owed + 6 * s.starting + 5 * |s.outstanding| + 4 * |s.finishing|
  }

  lemma StepMakesProgress(s: State, step: Step)
    requires Inv(s) && Enabled(s, step) && !step.Push?
    ensures Measure(Apply(s, step)) < Measure(s)
  {
  }

  /** Without further pushes every run comes to rest within a bound known at the start. */
  lemma {:induction false} RunsComeToRest(s: State, steps: seq<Step>)
    requires Inv(s) && EnabledRun(s, steps)
    requires forall i | 0 <= i < |steps| :: !steps[i].Push?
    ensures |steps| + Measure(Run(s, steps)) <= Measure(s)
    decreases |steps|
  {
    if steps != [] {
      StepMakesProgress(s, steps[0]);
      StepKeepsInv(s, steps[0]);
      RunsComeToRest(Apply(s, steps[0]), steps[1..]);
    }
  }

  predicate AtRest(s: State) {
    s.posting == 0 && s.owed == 0 && s.starting == 0 && s.outstanding == [] && s.finishing == []
  }

  // A batch ends with the first terminal message.
  lemma {:induction false} BatchOf(a: seq<Message>, b: seq<Message>)
    requires OnlyLastTerminal(a) && (b != [] ==> a != [] && a[|a| - 1].terminal)
    ensures BatchSize(a + b) == |a|
    decreases |a|
  {
    if a != [] {
      assert (a + b)[1..] == a[1..] + b;
      if !a[0].terminal {
        assert forall k | 0 <= k < |a[1..]| :: a[1..][k] == a[k + 1];
        BatchOf(a[1..], b);
      }
    }
  }

  /**
    A connection at rest after no failed write has written every message up to and including the
    first terminal one, and nothing else: all that was pushed, if none was terminal.
   */
  lemma RestMeansAllWritten(s: State)
    requires Inv(s) && AtRest(s)
    ensures forall step | Enabled(s, step) :: step.Push?
    ensures s.lost == [] ==>
              var n := BatchSize(s.pushed);
              && s.written == s.pushed[..n] && s.queue == s.pushed[n..]
              && s.wire == Buffers(s.pushed[..n]) && s.bufferSize == PayloadTotal(s.pushed[n..])
              && (s.terminated == 0 <==> NoneTerminal(s.pushed))
    ensures s.lost != [] ==> s.terminated > 0 && s.written + s.lost <= s.pushed
  {
    assert s.current == [] && s.written + s.lost + s.current + s.queue == s.written + s.lost + s.queue;
    if s.lost == [] {
      assert s.written + s.lost == s.written && s.written + s.lost + [] == s.written;
      RestBatch(s);
    }
  }

  lemma RestBatch(s: State)
    requires Inv(s) && AtRest(s) && s.lost == [] && s.pushed == s.written + s.queue && OnlyLastTerminal(s.written)
    ensures BatchSize(s.pushed) == |s.written|
    ensures s.terminated == 0 <==> NoneTerminal(s.pushed)
  {
    if s.terminated == 0 {
      assert s.queue == [] && NoneTerminal(s.written) && s.pushed == s.written;
    } else {
      var last := |s.written| - 1;
      assert s.pushed[last] == s.written[last] && s.pushed[last].terminal;
    }
    BatchOf(s.written, s.queue);
  }
}
