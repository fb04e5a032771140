/**
  The life of a server connection (install/include/websocketpp/impl/connection_impl.hpp) as a state
  machine. Handlers are serialised; each step is one stretch of code between two points where
  other handlers or the application may run.
 */
module Lifecycle {
  import opened Wrappers

  datatype Session = Connecting | Open | Closing | Closed

  datatype Internal = UserInit | TransportInit | ReadHttpRequest | ProcessHttpRequest | ProcessConnection

  datatype Error = NoError | HttpConnectionEnded | InvalidState | Eof | General | OtherError

  datatype Status = Uninitialized | SwitchingProtocols | OtherStatus

  datatype Ending = FailedEnding | ClosedEnding

  datatype State = State(
    session: Session,        // m_state
    internal: Internal,      // m_internal_state
    isHttp: bool,            // m_is_http
    ec: Error,               // m_ec
    response: Status,        // m_response's status code
    wasClean: bool,          // m_was_clean
    responses: nat,          // HTTP responses handed to the transport and not yet reported written
    shutdowns: seq<Ending>,  // transport shutdowns started and not yet reported done
    openCalls: nat,          // calls of the open handler
    failCalls: nat,          // calls of the fail handler
    closeCalls: nat,         // calls of the close handler
    endCalls: nat            // calls of the termination handler
  )

  const INITIAL := State(Connecting, UserInit, false, NoError, Uninitialized, false, 0, [], 0, 0, 0, 0)

  datatype Frame = Ping | Pong | CloseFrame(valid: bool)

  /** `framed` says whether a message buffer was available and the close frame could be prepared. */
  datatype Step =
    | Start
    | TransportReady(error: Error)
    | RequestRead(error: Error, inBounds: bool, complete: bool, plainHttp: bool)
    | SetStatus(status: Status)                      // set_status from an http or validate handler
    | RequestRefused(error: Error)                   // write_http_response_error
    | WriteResponse(error: Error)
    | ResponseWritten(error: Error)
    | TimerExpired(error: Error)                     // open or close handshake timeout
    | Read(error: Error)                             // the guards of handle_read_frame
    | ControlFrame(frame: Frame, drop: bool, framed: bool)
    | ProtocolError(drop: bool, framed: bool)        // consume reported an error
    | UserClose(framed: bool)
    | FrameWritten(error: Error, terminal: bool)     // handle_write_frame
    | ShutdownDone(index: nat)                       // handle_terminate

  predicate Enabled(s: State, step: Step) {
    match step
    case ResponseWritten(_) => s.responses > 0
    // the read loop runs only past the guards of handle_read_frame
    case ControlFrame(_, _, _) => s.internal == ProcessConnection
    case ProtocolError(_, _) => s.internal == ProcessConnection
    case ShutdownDone(i) => i < |s.shutdowns|
    case TimerExpired(e) => e != NoError
    case _ => true
  }

  function Terminate(s: State, error: Error): State {
    var s' := if error != NoError then s.(ec := error) else s;
    match s'.session
    case Connecting => s'.(session := Closed, shutdowns := s'.shutdowns + [FailedEnding])
    case Closed => s'
    case _ => s'.(session := Closed, shutdowns := s'.shutdowns + [ClosedEnding])
  }

  function SendCloseFrame(s: State, ack: bool, framed: bool): State {
    if !framed then s else s.(session := Closing, wasClean := s.wasClean || ack)
  }

  /** close: only an open connection starts the closing handshake. */
  function Close(s: State, framed: bool): (State, bool) {
    if s.session != Open then (s, false) else (SendCloseFrame(s, false, framed), framed)
  }

  function WriteHttpResponse(s: State, error: Error): State {
    if error == HttpConnectionEnded then s
    else if s.response == Uninitialized then s.(response := OtherStatus, ec := General, responses := s.responses + 1)
    else s.(ec := error, responses := s.responses + 1)
  }

  /** `inBounds` says that both boundary checks on the octets read passed. */
  function AfterRequestRead(s: State, error: Error, inBounds: bool, complete: bool, plainHttp: bool): State {
    var e := if error != NoError then error
             else if s.session == Connecting then (if s.internal != ReadHttpRequest then InvalidState else NoError)
             else if s.session == Closed then NoError
             else InvalidState;
    if error == NoError && s.session == Closed then s
    else if e != NoError then (if e == Eof && s.session == Closed then s else Terminate(s, e))
    else if !inBounds then Terminate(s, General)
    else if complete then s.(internal := ProcessHttpRequest, isHttp := s.isHttp || plainHttp)
    else s
  }

  function AfterResponseWritten(s: State, error: Error): State
    requires s.responses > 0
  {
    var s := s.(responses := s.responses - 1);
    var e := if error != NoError then error
             else if s.session == Connecting then (if s.internal != ProcessHttpRequest then InvalidState else NoError)
             else InvalidState;
    if error == NoError && s.session == Closed then s
    else if e != NoError then (if e == Eof && s.session == Closed then s else Terminate(s, e))
    else if s.response != SwitchingProtocols then
      var s' := if s.isHttp then s.(ec := HttpConnectionEnded) else s;
      Terminate(s', s'.ec)
    else s.(internal := ProcessConnection, session := Open, openCalls := s.openCalls + 1)
  }

  function AfterRead(s: State, error: Error): State {
    var e := if error == NoError && s.internal != ProcessConnection then InvalidState else error;
    if e == NoError then s
    else if (e == Eof || e == InvalidState) && s.session == Closed then s
    else Terminate(s, e)
  }

  function AfterControlFrame(s: State, frame: Frame, drop: bool, framed: bool): State {
    if s.session == Closed then s
    else if !frame.CloseFrame? then s
    else if !frame.valid then (if drop then Terminate(s, OtherError) else SendCloseFrame(s, true, framed))
    else if s.session == Open then SendCloseFrame(s, true, framed)
    else if s.session == Closing && !s.wasClean then Terminate(s.(wasClean := true), NoError)
    else s
  }

  function AfterProtocolError(s: State, drop: bool, framed: bool): State {
    if drop then Terminate(s, OtherError)
    else
      var (s', ok) := Close(s, framed);
      if ok then s' else Terminate(s', if s.session != Open then InvalidState else OtherError)
  }

  function AfterShutdownDone(s: State, i: nat): State
    requires i < |s.shutdowns|
  {
    var ending := s.shutdowns[i];
    s.(shutdowns := s.shutdowns[..i] + s.shutdowns[i + 1..],
       failCalls := s.failCalls + if ending == FailedEnding && s.ec != HttpConnectionEnded then 1 else 0,
       closeCalls := s.closeCalls + if ending == ClosedEnding then 1 else 0,
       endCalls := s.endCalls + 1)
  }

  function Apply(s: State, step: Step): State
    requires Enabled(s, step)
  {
    match step
    case Start =>
      if s.internal != UserInit then Terminate(s, InvalidState) else s.(internal := TransportInit)
    case TransportReady(error) =>
      var e := if s.internal != TransportInit then InvalidState else error;
      if e != NoError then Terminate(s, e) else s.(internal := ReadHttpRequest)
    case RequestRead(error, inBounds, complete, plainHttp) => AfterRequestRead(s, error, inBounds, complete, plainHttp)
    case SetStatus(status) => if s.internal != ProcessHttpRequest then s else s.(response := status)
    case RequestRefused(error) =>
      if s.internal != ReadHttpRequest then Terminate(s, InvalidState)
      else WriteHttpResponse(s.(internal := ProcessHttpRequest, response := OtherStatus), error)
    case WriteResponse(error) => WriteHttpResponse(s, error)
    case ResponseWritten(error) => AfterResponseWritten(s, error)
    case TimerExpired(error) => Terminate(s, error)
    case Read(error) => AfterRead(s, error)
    case ControlFrame(frame, drop, framed) => AfterControlFrame(s, frame, drop, framed)
    case ProtocolError(drop, framed) => AfterProtocolError(s, drop, framed)
    case UserClose(framed) => Close(s, framed).0
    case FrameWritten(error, terminal) =>
      if error != NoError then Terminate(s, error) else if terminal then Terminate(s, NoError) else s
    case ShutdownDone(i) => AfterShutdownDone(s, i)
  }

  // ------------------------------------------------------- every run

  function Rank(session: Session): nat {
    match session
    case Connecting => 0
    case Open => 1
    case Closing => 2
    case Closed => 3
  }

  predicate Inv(s: State) {
    // one shutdown at most, started by the step that closed the session
    && |s.shutdowns| + s.endCalls == (if s.session == Closed then 1 else 0)
    // the open handler ran exactly when the connection got past the handshake
    && s.openCalls == (if s.internal == ProcessConnection then 1 else 0)
    && (s.session == Connecting ==> s.openCalls == 0)
    && (s.session in {Open, Closing} ==> s.openCalls == 1)
    // how it ended tells whether it had opened
    && (s.shutdowns != [] ==> s.shutdowns[0] == if s.openCalls == 1 then ClosedEnding else FailedEnding)
    && s.closeCalls == (if s.openCalls == 1 then s.endCalls else 0)
    && s.failCalls <= (if s.openCalls == 1 then 0 else s.endCalls)
  }

  /** A step keeps the invariant and never moves the session back. */
  predicate Advances(s: State, s': State) {
    Inv(s') && Rank(s.session) <= Rank(s'.session) && (s.session == Connecting ==> s'.session != Closing)
  }

  lemma TerminateAdvances(s: State, error: Error)
    requires Inv(s)
    ensures Advances(s, Terminate(s, error))
  {
  }

  // The close frame goes out only from an open or closing session.
  lemma SendCloseAdvances(s: State, ack: bool, framed: bool)
    requires Inv(s) && s.session in {Open, Closing}
    ensures Advances(s, SendCloseFrame(s, ack, framed))
  {
  }

  lemma RequestReadAdvances(s: State, error: Error, inBounds: bool, complete: bool, plainHttp: bool)
    requires Inv(s)
    ensures Advances(s, AfterRequestRead(s, error, inBounds, complete, plainHttp))
  {
    forall e
      ensures Advances(s, Terminate(s, e))
    {
      TerminateAdvances(s, e);
    }
  }

  lemma ResponseWrittenAdvances(s: State, error: Error)
    requires Inv(s) && s.responses > 0
    ensures Advances(s, AfterResponseWritten(s, error))
  {
    var t := s.(responses := s.responses - 1);
    if error != NoError {
      TerminateAdvances(t, error);
    } else if t.session != Connecting || t.internal != ProcessHttpRequest {
      TerminateAdvances(t, InvalidState);
    } else if t.isHttp {
      TerminateAdvances(t.(ec := HttpConnectionEnded), HttpConnectionEnded);
    } else {
      TerminateAdvances(t, t.ec);
    }
  }

  lemma ControlFrameAdvances(s: State, frame: Frame, drop: bool, framed: bool)
    requires Inv(s) && s.internal == ProcessConnection
    ensures Advances(s, AfterControlFrame(s, frame, drop, framed))
  {
    if s.session != Closed {
      TerminateAdvances(s, OtherError);
      TerminateAdvances(s.(wasClean := true), NoError);
      SendCloseAdvances(s, true, framed);
    }
  }

  lemma CloseAdvances(s: State, framed: bool)
    requires Inv(s)
    ensures Advances(s, Close(s, framed).0)
  {
    if s.session == Open {
      SendCloseAdvances(s, false, framed);
    }
  }

  lemma ProtocolErrorAdvances(s: State, drop: bool, framed: bool)
    requires Inv(s)
    ensures Advances(s, AfterProtocolError(s, drop, framed))
  {
    CloseAdvances(s, framed);
    TerminateAdvances(s, OtherError);
    TerminateAdvances(Close(s, framed).0, InvalidState);
    TerminateAdvances(Close(s, framed).0, OtherError);
  }

  lemma ShutdownDoneAdvances(s: State, i: nat)
    requires Inv(s) && i < |s.shutdowns|
    ensures Advances(s, AfterShutdownDone(s, i))
  {
  }

  // The invariant does not look at the response, the recorded error or a clean close.
  lemma SameLifeAdvances(s: State, s': State)
    requires Inv(s) && s' == s.(ec := s'.ec, response := s'.response, responses := s'.responses)
    ensures Advances(s, s')
  {
  }

  lemma WriteResponseAdvances(s: State, error: Error)
    requires Inv(s)
    ensures Advances(s, WriteHttpResponse(s, error))
  {
    SameLifeAdvances(s, WriteHttpResponse(s, error));
  }

  lemma RefusalAdvances(s: State, error: Error)
    requires Inv(s)
    ensures Advances(s, Apply(s, RequestRefused(error)))
  {
    if s.internal != ReadHttpRequest {
      TerminateAdvances(s, InvalidState);
    } else {
      WriteResponseAdvances(s.(internal := ProcessHttpRequest, response := OtherStatus), error);
    }
  }

  lemma ReadAdvances(s: State, error: Error)
    requires Inv(s)
    ensures Advances(s, AfterRead(s, error))
  {
    TerminateAdvances(s, InvalidState);
    TerminateAdvances(s, error);
  }

  lemma StepKeepsInv(s: State, step: Step)
    requires Inv(s) && Enabled(s, step)
    ensures Advances(s, Apply(s, step))
  {
    match step
    case Start => TerminateAdvances(s, InvalidState);
    case TransportReady(error) =>
      TerminateAdvances(s, InvalidState);
      TerminateAdvances(s, error);
    case RequestRead(error, inBounds, complete, plainHttp) =>
      RequestReadAdvances(s, error, inBounds, complete, plainHttp);
    case SetStatus(_) =>
    case RequestRefused(error) => RefusalAdvances(s, error);
    case WriteResponse(error) => WriteResponseAdvances(s, error);
    case ResponseWritten(error) => ResponseWrittenAdvances(s, error);
    case TimerExpired(error) => TerminateAdvances(s, error);
    case Read(error) => ReadAdvances(s, error);
    case ControlFrame(frame, drop, framed) => ControlFrameAdvances(s, frame, drop, framed);
    case ProtocolError(drop, framed) => ProtocolErrorAdvances(s, drop, framed);
    case UserClose(framed) => CloseAdvances(s, framed);
    case FrameWritten(error, _) =>
      TerminateAdvances(s, error);
      TerminateAdvances(s, NoError);
    case ShutdownDone(i) => ShutdownDoneAdvances(s, i);
  }

  predicate EnabledRun(s: State, steps: seq<Step>)
    decreases |steps|
  {
    steps != [] ==> Enabled(s, steps[0]) && EnabledRun(Apply(s, steps[0]), steps[1..])
  }

  function Run(s: State, steps: seq<Step>): State
    requires EnabledRun(s, steps)
    decreases |steps|
  {
    if steps == [] then s else Run(Apply(s, steps[0]), steps[1..])
  }

  /** Over any run the session only moves forward, and from connecting it opens before it closes down. */
  lemma {:induction false} RunKeepsInv(s: State, steps: seq<Step>)
    requires Inv(s) && EnabledRun(s, steps)
    ensures Inv(Run(s, steps)) && Rank(s.session) <= Rank(Run(s, steps).session)
    decreases |steps|
  {
    if steps != [] {
      StepKeepsInv(s, steps[0]);
      RunKeepsInv(Apply(s, steps[0]), steps[1..]);
    }
  }

  // ------------------------------------------------------- which step moves the session

  /** A connection opens when the response that accepts the upgrade has been written. */
  predicate ToOpen(s: State, step: Step) {
    && s.session == Connecting && s.internal == ProcessHttpRequest && s.response == SwitchingProtocols
    && step == ResponseWritten(NoError)
  }

  /** It starts to close when a close frame is sent: asked for, in reply to one, or after a protocol error. */
  predicate ToClosing(s: State, step: Step) {
    match step
    case UserClose(framed) => s.session == Open && framed
    case ProtocolError(drop, framed) => s.session == Open && framed && !drop
    case ControlFrame(frame, drop, framed) =>
      frame.CloseFrame? && framed && if frame.valid then s.session == Open else s.session != Closed && !drop
    case _ => false
  }

  /** It is closed by errors and timeouts, a refused upgrade, a reply to its close frame, or a terminal write. */
  predicate ToClosed(s: State, step: Step) {
    match step
    case Start => s.internal != UserInit
    case TransportReady(error) => error != NoError || s.internal != TransportInit
    case RequestRead(error, inBounds, _, _) =>
      error != NoError || !inBounds || s.session != Connecting || s.internal != ReadHttpRequest
    case RequestRefused(_) => s.internal != ReadHttpRequest
    case ResponseWritten(error) =>
      error != NoError || s.session != Connecting || s.internal != ProcessHttpRequest || s.response != SwitchingProtocols
    case TimerExpired(error) => true
    case Read(error) => error != NoError || s.internal != ProcessConnection
    case ControlFrame(frame, drop, _) =>
      frame.CloseFrame? && if frame.valid then s.session == Closing && !s.wasClean else drop
    case ProtocolError(drop, framed) => drop || s.session != Open || !framed
    case FrameWritten(error, terminal) => error != NoError || terminal
    case SetStatus(_) => false
    case WriteResponse(_) => false
    case UserClose(_) => false
    case ShutdownDone(_) => false
  }

  /** A close is clean once both sides have sent their close frame. */
  predicate ToClean(s: State, step: Step) {
    match step
    case ControlFrame(frame, drop, framed) =>
      frame.CloseFrame? && s.session != Closed
      && if frame.valid then s.session == Closing || (s.session == Open && framed) else framed && !drop
    case _ => false
  }

  /** The steps above and no others move the session, to where they say, and make the close clean. */
  predicate MovesAsSaid(s: State, step: Step, s': State) {
    && (s.session != Open ==> (s'.session == Open <==> ToOpen(s, step)))
    && (s.session != Closing ==> (s'.session == Closing <==> ToClosing(s, step)))
    && (s.session != Closed ==> (s'.session == Closed <==> ToClosed(s, step)))
    && (s.session == Closed ==> s'.session == Closed)
    && (s'.wasClean <==> s.wasClean || ToClean(s, step))
    && s'.openCalls == s.openCalls + (if ToOpen(s, step) then 1 else 0)
  }

  lemma RequestReadMoves(s: State, error: Error, inBounds: bool, complete: bool, plainHttp: bool)
    ensures MovesAsSaid(s, RequestRead(error, inBounds, complete, plainHttp),
                        AfterRequestRead(s, error, inBounds, complete, plainHttp))
  {
  }

  lemma ResponseWrittenMoves(s: State, error: Error)
    requires s.responses > 0
    ensures MovesAsSaid(s, ResponseWritten(error), AfterResponseWritten(s, error))
  {
  }

  lemma ReadMoves(s: State, error: Error)
    ensures MovesAsSaid(s, Read(error), AfterRead(s, error))
  {
  }

  lemma ControlFrameMoves(s: State, frame: Frame, drop: bool, framed: bool)
    ensures MovesAsSaid(s, ControlFrame(frame, drop, framed), AfterControlFrame(s, frame, drop, framed))
  {
  }

  lemma ProtocolErrorMoves(s: State, drop: bool, framed: bool)
    ensures MovesAsSaid(s, ProtocolError(drop, framed), AfterProtocolError(s, drop, framed))
  {
  }

  lemma ResponseMoves(s: State, error: Error)
    ensures MovesAsSaid(s, RequestRefused(error), Apply(s, RequestRefused(error)))
    ensures MovesAsSaid(s, WriteResponse(error), Apply(s, WriteResponse(error)))
  {
  }

  /** Over all states and steps: exactly when a connection opens, starts to close, closes, and closes cleanly. */
  lemma SessionMoves(s: State, step: Step)
    requires Enabled(s, step)
    ensures MovesAsSaid(s, step, Apply(s, step))
  {
    match step
    case RequestRead(error, inBounds, complete, plainHttp) =>
      RequestReadMoves(s, error, inBounds, complete, plainHttp);
    case RequestRefused(error) => ResponseMoves(s, error);
    case WriteResponse(error) => ResponseMoves(s, error);
    case ResponseWritten(error) => ResponseWrittenMoves(s, error);
    case Read(error) => ReadMoves(s, error);
    case ControlFrame(frame, drop, framed) => ControlFrameMoves(s, frame, drop, framed);
    case ProtocolError(drop, framed) => ProtocolErrorMoves(s, drop, framed);
    case _ =>
  }

  /** The handshake goes through its stages one by one; nothing else moves it. */
  function NextInternal(s: State, step: Step): Internal {
    match step
    case Start => if s.internal == UserInit then TransportInit else s.internal
    case TransportReady(error) =>
      if s.internal == TransportInit && error == NoError then ReadHttpRequest else s.internal
    case RequestRead(_, _, _, _) => if RequestComplete(s, step) then ProcessHttpRequest else s.internal
    case RequestRefused(_) => if s.internal == ReadHttpRequest then ProcessHttpRequest else s.internal
    case _ => if ToOpen(s, step) then ProcessConnection else s.internal
  }

  predicate RequestComplete(s: State, step: Step) {
    s.session == Connecting && s.internal == ReadHttpRequest
    && step.RequestRead? && step.error == NoError && step.inBounds && step.complete
  }

  /** A response goes out for a refused request, and whenever one is written that no http handler took over. */
  predicate SendsResponse(s: State, step: Step) {
    match step
    case RequestRefused(error) => s.internal == ReadHttpRequest && error != HttpConnectionEnded
    case WriteResponse(error) => error != HttpConnectionEnded
    case _ => false
  }

  lemma HandshakeMoves(s: State, step: Step)
    requires Enabled(s, step)
    ensures Apply(s, step).internal == NextInternal(s, step)
    ensures Apply(s, step).isHttp <==> s.isHttp || (RequestComplete(s, step) && step.plainHttp)
    ensures Apply(s, step).responses + (if step.ResponseWritten? then 1 else 0)
         == s.responses + if SendsResponse(s, step) then 1 else 0
  {
    match step
    case RequestRead(_, _, _, _) => RequestReadStages(s, step);
    case ResponseWritten(_) => ResponseWrittenStages(s, step);
    case ControlFrame(_, _, _) => FrameStages(s, step);
    case ProtocolError(_, _) => FrameStages(s, step);
    case _ =>
  }

  lemma RequestReadStages(s: State, step: Step)
    requires step.RequestRead?
    ensures Apply(s, step).internal == NextInternal(s, step) && Apply(s, step).responses == s.responses
    ensures Apply(s, step).isHttp <==> s.isHttp || (RequestComplete(s, step) && step.plainHttp)
  {
  }

  lemma ResponseWrittenStages(s: State, step: Step)
    requires step.ResponseWritten? && s.responses > 0
    ensures Apply(s, step).internal == NextInternal(s, step)
    ensures Apply(s, step).isHttp == s.isHttp && Apply(s, step).responses + 1 == s.responses
  {
  }

  lemma FrameStages(s: State, step: Step)
    requires (step.ControlFrame? || step.ProtocolError?) && Enabled(s, step)
    ensures Apply(s, step).internal == s.internal
    ensures Apply(s, step).isHttp == s.isHttp && Apply(s, step).responses == s.responses
  {
  }

  /** The response's status: chosen while the request is processed, and never left unset on the wire. */
  function NextStatus(s: State, step: Step): Status {
    match step
    case SetStatus(status) => if s.internal == ProcessHttpRequest then status else s.response
    case RequestRefused(_) => if s.internal == ReadHttpRequest then OtherStatus else s.response
    case WriteResponse(_) => if SendsResponse(s, step) && s.response == Uninitialized then OtherStatus else s.response
    case _ => s.response
  }

  lemma StatusMoves(s: State, step: Step)
    requires Enabled(s, step)
    ensures Apply(s, step).response == NextStatus(s, step)
    ensures SendsResponse(s, step) ==> Apply(s, step).response != Uninitialized
  {
    match step
    case RequestRead(error, inBounds, complete, plainHttp) => RequestReadStatus(s, step);
    case ResponseWritten(error) => ResponseWrittenStatus(s, step);
    case ControlFrame(frame, drop, framed) => FrameStatus(s, step);
    case ProtocolError(drop, framed) => FrameStatus(s, step);
    case _ =>
  }

  lemma RequestReadStatus(s: State, step: Step)
    requires step.RequestRead?
    ensures Apply(s, step).response == s.response
  {
  }

  lemma ResponseWrittenStatus(s: State, step: Step)
    requires step.ResponseWritten? && s.responses > 0
    ensures Apply(s, step).response == s.response
  {
  }

  lemma FrameStatus(s: State, step: Step)
    requires (step.ControlFrame? || step.ProtocolError?) && Enabled(s, step)
    ensures Apply(s, step).response == s.response
  {
  }

  // ------------------------------------------------------- the recorded error

  /** The error a step writes to m_ec, by the guards of its handler; None when it leaves m_ec alone. */
  function Recorded(s: State, step: Step): Option<Error> {
    match step
    case Start => if s.internal != UserInit then Some(InvalidState) else None
    case TransportReady(error) =>
      if s.internal != TransportInit then Some(InvalidState) else Reported(error)
    case RequestRead(error, inBounds, _, _) =>
      if error != NoError then Unexpected(s, error)
      else if s.session == Closed then None
      else if s.session != Connecting || s.internal != ReadHttpRequest then Some(InvalidState)
      else if !inBounds then Some(General) else None
    case RequestRefused(error) =>
      if s.internal != ReadHttpRequest then Some(InvalidState)
      else if error == HttpConnectionEnded then None else Some(error)
    // a response that is written without an error records that there is none
    case WriteResponse(error) =>
      if error == HttpConnectionEnded then None
      else if s.response == Uninitialized then Some(General) else Some(error)
    case ResponseWritten(error) =>
      if error != NoError then Unexpected(s, error)
      else if s.session == Closed then None
      else if s.session != Connecting || s.internal != ProcessHttpRequest then Some(InvalidState)
      else if s.response != SwitchingProtocols && s.isHttp then Some(HttpConnectionEnded) else None
    case TimerExpired(error) => Reported(error)
    case Read(error) =>
      if error == NoError then
        if s.internal != ProcessConnection && s.session != Closed then Some(InvalidState) else None
      else if error == InvalidState && s.session == Closed then None
      else Unexpected(s, error)
    case ControlFrame(frame, drop, _) =>
      if s.session != Closed && frame.CloseFrame? && !frame.valid && drop then Some(OtherError) else None
    case ProtocolError(drop, framed) =>
      if drop then Some(OtherError)
      else if s.session != Open then Some(InvalidState)
      else if !framed then Some(OtherError) else None
    case FrameWritten(error, _) => Reported(error)
    case SetStatus(_) => None
    case UserClose(_) => None
    case ShutdownDone(_) => None
  }

  function Reported(error: Error): Option<Error> {
    if error != NoError then Some(error) else None
  }

  // End of file is expected from a closed connection.
  function Unexpected(s: State, error: Error): Option<Error> {
    if error == Eof && s.session == Closed then None else Some(error)
  }

  /** The step wrote that error if any, called no handler of an ending, and left a closed connection closed. */
  predicate Records(s: State, s': State, recorded: Option<Error>) {
    && s'.ec == recorded.GetOr(s.ec)
    && s'.failCalls == s.failCalls && s'.closeCalls == s.closeCalls && s'.endCalls == s.endCalls
    && (s.session == Closed ==> s'.shutdowns == s.shutdowns && s'.session == Closed)
  }

  lemma RequestReadRecords(s: State, error: Error, inBounds: bool, complete: bool, plainHttp: bool)
    ensures Records(s, AfterRequestRead(s, error, inBounds, complete, plainHttp),
                    Recorded(s, RequestRead(error, inBounds, complete, plainHttp)))
  {
  }

  lemma ResponseWrittenRecords(s: State, error: Error)
    requires s.responses > 0
    ensures Records(s, AfterResponseWritten(s, error), Recorded(s, ResponseWritten(error)))
  {
  }

  lemma ReadRecords(s: State, error: Error)
    ensures Records(s, AfterRead(s, error), Recorded(s, Read(error)))
  {
  }

  lemma ControlFrameRecords(s: State, frame: Frame, drop: bool, framed: bool)
    ensures Records(s, AfterControlFrame(s, frame, drop, framed), Recorded(s, ControlFrame(frame, drop, framed)))
  {
  }

  lemma ProtocolErrorRecords(s: State, drop: bool, framed: bool)
    ensures Records(s, AfterProtocolError(s, drop, framed), Recorded(s, ProtocolError(drop, framed)))
  {
  }

  lemma RefusalRecords(s: State, error: Error)
    ensures Records(s, Apply(s, RequestRefused(error)), Recorded(s, RequestRefused(error)))
    ensures Records(s, Apply(s, WriteResponse(error)), Recorded(s, WriteResponse(error)))
  {
  }

  lemma StepRecords(s: State, step: Step)
    requires Enabled(s, step)
    ensures !step.ShutdownDone? ==> Records(s, Apply(s, step), Recorded(s, step))
    ensures Apply(s, step).ec == Recorded(s, step).GetOr(s.ec)
  {
    match step
    case RequestRead(error, inBounds, complete, plainHttp) =>
      RequestReadRecords(s, error, inBounds, complete, plainHttp);
    case RequestRefused(error) => RefusalRecords(s, error);
    case WriteResponse(error) => RefusalRecords(s, error);
    case ResponseWritten(error) => ResponseWrittenRecords(s, error);
    case Read(error) => ReadRecords(s, error);
    case ControlFrame(frame, drop, framed) => ControlFrameRecords(s, frame, drop, framed);
    case ProtocolError(drop, framed) => ProtocolErrorRecords(s, drop, framed);
    case _ =>
  }

  /** What the last step of a run that recorded anything recorded. */
  function LastRecorded(s: State, steps: seq<Step>): Option<Error>
    requires EnabledRun(s, steps)
    decreases |steps|
  {
    if steps == [] then None
    else
      var later := LastRecorded(Apply(s, steps[0]), steps[1..]);
      if later.Some? then later else Recorded(s, steps[0])
  }

  lemma {:induction false} RunRecords(s: State, steps: seq<Step>)
    requires EnabledRun(s, steps)
    ensures Run(s, steps).ec == LastRecorded(s, steps).GetOr(s.ec)
    decreases |steps|
  {
    if steps != [] {
      StepRecords(s, steps[0]);
      RunRecords(Apply(s, steps[0]), steps[1..]);
    }
  }

  // ------------------------------------------------------- which handlers fire

  lemma {:induction false} RunInTwo(s: State, steps: seq<Step>, i: nat)
    requires EnabledRun(s, steps) && i <= |steps|
    ensures EnabledRun(s, steps[..i]) && EnabledRun(Run(s, steps[..i]), steps[i..])
    ensures Run(s, steps) == Run(Run(s, steps[..i]), steps[i..])
    decreases i
  {
    if i == 0 {
      assert steps[0..] == steps && steps[..0] == [];
    } else {
      RunInTwo(Apply(s, steps[0]), steps[1..], i - 1);
      assert steps[..i][1..] == steps[1..][..i - 1] && steps[1..][i - 1..] == steps[i..];
    }
  }

  predicate NoShutdown(steps: seq<Step>) {
    forall i | 0 <= i < |steps| :: !steps[i].ShutdownDone?
  }

  /** Handlers of an ending run only where a shutdown is reported done, and an ended connection has no more. */
  lemma {:induction false} QuietRun(s: State, steps: seq<Step>)
    requires Inv(s) && EnabledRun(s, steps) && (NoShutdown(steps) || s.endCalls == 1)
    ensures var s' := Run(s, steps);
            && s'.failCalls == s.failCalls && s'.closeCalls == s.closeCalls && s'.endCalls == s.endCalls
            && (s.session == Closed ==> s'.shutdowns == s.shutdowns)
    decreases |steps|
  {
    if steps != [] {
      StepRecords(s, steps[0]);
      StepKeepsInv(s, steps[0]);
      assert NoShutdown(steps) ==> NoShutdown(steps[1..]);
      QuietRun(Apply(s, steps[0]), steps[1..]);
    }
  }

  // The one shutdown of a run, and what its end calls.
  lemma ShutdownDecides(steps: seq<Step>, i: nat)
    requires EnabledRun(INITIAL, steps) && i < |steps| && steps[i].ShutdownDone?
    ensures EnabledRun(INITIAL, steps[..i])
    ensures var before := Run(INITIAL, steps[..i]);
            && (Run(INITIAL, steps).failCalls == 1
                <==> before.openCalls == 0 && LastRecorded(INITIAL, steps[..i]) != Some(HttpConnectionEnded))
            && (Run(INITIAL, steps).closeCalls == 1 <==> before.openCalls == 1)
  {
    RunInTwo(INITIAL, steps, i);
    var before, rest := Run(INITIAL, steps[..i]), steps[i..];
    RunKeepsInv(INITIAL, steps[..i]);
    RunRecords(INITIAL, steps[..i]);
    StepKeepsInv(before, rest[0]);
    QuietRun(Apply(before, rest[0]), rest[1..]);
  }

  /** The promises the handler documentation makes to an application, and exactly when each handler fires. */
  lemma HandlersFireOnce(steps: seq<Step>)
    requires EnabledRun(INITIAL, steps)
    ensures var s := Run(INITIAL, steps);
            // at most one of fail and close, at most once; close only after open, fail only without
            && s.failCalls + s.closeCalls <= 1
            && (s.closeCalls > 0 ==> s.openCalls == 1)
            && (s.failCalls > 0 ==> s.openCalls == 0)
            && s.openCalls <= 1
    // none before a shutdown is reported done
    ensures NoShutdown(steps) ==> Run(INITIAL, steps).failCalls == 0 && Run(INITIAL, steps).closeCalls == 0
    // and then close if the connection had opened, fail if it had not and was not recorded as an ended HTTP request
    ensures forall i | 0 <= i < |steps| && steps[i].ShutdownDone? ::
              && EnabledRun(INITIAL, steps[..i])
              && (Run(INITIAL, steps).closeCalls == 1 <==> Run(INITIAL, steps[..i]).openCalls == 1)
              && (Run(INITIAL, steps).failCalls == 1
                  <==> Run(INITIAL, steps[..i]).openCalls == 0
                       && LastRecorded(INITIAL, steps[..i]) != Some(HttpConnectionEnded))
  {
    RunKeepsInv(INITIAL, steps);
    if NoShutdown(steps) {
      QuietRun(INITIAL, steps);
    }
    forall i | 0 <= i < |steps| && steps[i].ShutdownDone?
      ensures EnabledRun(INITIAL, steps[..i])
      ensures Run(INITIAL, steps).closeCalls == 1 <==> Run(INITIAL, steps[..i]).openCalls == 1
      ensures Run(INITIAL, steps).failCalls == 1
         <==> Run(INITIAL, steps[..i]).openCalls == 0
              && LastRecorded(INITIAL, steps[..i]) != Some(HttpConnectionEnded)
    {
      ShutdownDecides(steps, i);
    }
  }

  /**
    The fail handler looks at the error recorded last, not at the one that ended the connection.
    After an answered HTTP request it fires at the end of the shutdown if and only if a step of the
    run in between recorded something else, be it that there was no error.
   */
  lemma LateRecordFiresFail(s: State, steps: seq<Step>)
    requires Inv(s) && s.shutdowns == [FailedEnding] && s.ec == HttpConnectionEnded
    requires EnabledRun(s, steps) && NoShutdown(steps)
    ensures Run(s, steps).shutdowns == [FailedEnding]
    ensures AfterShutdownDone(Run(s, steps), 0).failCalls == 1
       <==> LastRecorded(s, steps).Some? && LastRecorded(s, steps) != Some(HttpConnectionEnded)
    ensures AfterShutdownDone(Run(s, steps), 0).failCalls <= 1
  {
    QuietRun(s, steps);
    RunRecords(s, steps);
  }

  /** Some step of the run writes to m_ec. */
  predicate Overwrites(s: State, steps: seq<Step>)
    requires EnabledRun(s, steps)
    decreases |steps|
  {
    steps != [] && (Recorded(s, steps[0]).Some? || Overwrites(Apply(s, steps[0]), steps[1..]))
  }

  /** Neither the transport nor a timer reports that an HTTP request ended: that error is the connection's own. */
  predicate NoEndedReports(steps: seq<Step>) {
    forall i | 0 <= i < |steps| ::
      match steps[i]
      case TransportReady(error) => error != HttpConnectionEnded
      case RequestRead(error, _, _, _) => error != HttpConnectionEnded
      case ResponseWritten(error) => error != HttpConnectionEnded
      case TimerExpired(error) => error != HttpConnectionEnded
      case Read(error) => error != HttpConnectionEnded
      case FrameWritten(error, _) => error != HttpConnectionEnded
      case _ => true
  }

  // In a closed connection nothing else records that an HTTP request ended.
  lemma {:induction false} ClosedRecordsOther(s: State, steps: seq<Step>)
    requires Inv(s) && s.session == Closed && EnabledRun(s, steps) && NoEndedReports(steps)
    ensures LastRecorded(s, steps) != Some(HttpConnectionEnded)
    ensures LastRecorded(s, steps).Some? <==> Overwrites(s, steps)
    decreases |steps|
  {
    if steps != [] {
      StepKeepsInv(s, steps[0]);
      ClosedRecordsOther(Apply(s, steps[0]), steps[1..]);
      assert Recorded(s, steps[0]) != Some(HttpConnectionEnded);
    }
  }

  /** With a transport that keeps to its own errors: the fail handler fires exactly if any step records. */
  lemma AnyRecordFiresFail(s: State, steps: seq<Step>)
    requires Inv(s) && s.shutdowns == [FailedEnding] && s.ec == HttpConnectionEnded
    requires EnabledRun(s, steps) && NoShutdown(steps) && NoEndedReports(steps)
    ensures Run(s, steps).shutdowns == [FailedEnding]
    ensures AfterShutdownDone(Run(s, steps), 0).failCalls == 1 <==> Overwrites(s, steps)
  {
    LateRecordFiresFail(s, steps);
    ClosedRecordsOther(s, steps);
  }

  // A connection holding a complete plain HTTP request, before and after it is answered.
  const REQUESTED := State(Connecting, ProcessHttpRequest, true, NoError, Uninitialized, false, 0, [], 0, 0, 0, 0)
  const SENT := State(Connecting, ProcessHttpRequest, true, NoError, OtherStatus, false, 1, [], 0, 0, 0, 0)

  lemma SentEnds() returns (steps: seq<Step>)
    ensures EnabledRun(SENT, steps)
    ensures Run(SENT, steps).shutdowns == [FailedEnding] && Run(SENT, steps).ec == HttpConnectionEnded
  {
    steps := OneMore(SENT, ResponseWritten(NoError), []);
  }

  lemma AnswerEnds() returns (steps: seq<Step>)
    ensures EnabledRun(REQUESTED, steps)
    ensures Run(REQUESTED, steps).shutdowns == [FailedEnding] && Run(REQUESTED, steps).ec == HttpConnectionEnded
  {
    steps := SentEnds();
    var chosen := REQUESTED.(response := OtherStatus);
    assert Apply(chosen, WriteResponse(NoError)) == SENT;
    steps := OneMore(chosen, WriteResponse(NoError), steps);
    steps := OneMore(REQUESTED, SetStatus(OtherStatus), steps);
  }

  /** An ordinary HTTP request ends that way: closed, recorded as ended, its shutdown not yet done. */
  lemma HttpRequestEnds() returns (steps: seq<Step>)
    ensures EnabledRun(INITIAL, steps)
    ensures Run(INITIAL, steps).shutdowns == [FailedEnding] && Run(INITIAL, steps).ec == HttpConnectionEnded
  {
    steps := AnswerEnds();
    var ready := INITIAL.(internal := TransportInit);
    var reading := INITIAL.(internal := ReadHttpRequest);
    steps := OneMore(reading, RequestRead(NoError, true, true, true), steps);
    steps := OneMore(ready, TransportReady(NoError), steps);
    steps := OneMore(INITIAL, Start, steps);
  }

  // A connection before its upgrade is answered, when the answer is sent, and once it is open.
  const UPGRADING := State(Connecting, ProcessHttpRequest, false, NoError, Uninitialized, false, 0, [], 0, 0, 0, 0)
  const ACCEPTED := State(Connecting, ProcessHttpRequest, false, NoError, SwitchingProtocols, false, 1, [], 0, 0, 0, 0)
  const OPENED := State(Open, ProcessConnection, false, NoError, SwitchingProtocols, false, 0, [], 1, 0, 0, 0)

  lemma AcceptedOpens()
    ensures Apply(ACCEPTED, ResponseWritten(NoError)) == OPENED
  {
  }

  lemma UpgradeAccepted(rest: seq<Step>) returns (steps: seq<Step>)
    requires EnabledRun(ACCEPTED, rest)
    ensures EnabledRun(UPGRADING, steps) && Run(UPGRADING, steps) == Run(ACCEPTED, rest)
  {
    var chosen := UPGRADING.(response := SwitchingProtocols);
    assert Apply(chosen, WriteResponse(NoError)) == ACCEPTED;
    steps := OneMore(chosen, WriteResponse(NoError), rest);
    steps := OneMore(UPGRADING, SetStatus(SwitchingProtocols), steps);
  }

  lemma UpToRequest(rest: seq<Step>) returns (steps: seq<Step>)
    requires EnabledRun(UPGRADING, rest)
    ensures EnabledRun(INITIAL, steps) && Run(INITIAL, steps) == Run(UPGRADING, rest)
  {
    var ready := INITIAL.(internal := TransportInit);
    var reading := INITIAL.(internal := ReadHttpRequest);
    assert Apply(reading, RequestRead(NoError, true, true, false)) == UPGRADING;
    steps := OneMore(reading, RequestRead(NoError, true, true, false), rest);
    steps := OneMore(ready, TransportReady(NoError), steps);
    steps := OneMore(INITIAL, Start, steps);
  }

  /** An upgrade request, accepted: a run that opens the connection and goes on from there. */
  lemma UpgradeOpens(rest: seq<Step>) returns (steps: seq<Step>)
    requires EnabledRun(OPENED, rest)
    ensures EnabledRun(INITIAL, steps) && Run(INITIAL, steps) == Run(OPENED, rest)
  {
    AcceptedOpens();
    steps := OneMore(ACCEPTED, ResponseWritten(NoError), rest);
    steps := UpgradeAccepted(steps);
    steps := UpToRequest(steps);
  }

  // The end of a shutdown after an opened connection.
  lemma ClosedEnds(s: State) returns (steps: seq<Step>)
    requires s.session == Closed && s.shutdowns == [ClosedEnding]
    ensures EnabledRun(s, steps)
    ensures Run(s, steps) == s.(shutdowns := [], closeCalls := s.closeCalls + 1, endCalls := s.endCalls + 1)
  {
    steps := OneMore(s, ShutdownDone(0), []);
  }

  lemma PeerCloseSteps(closing: State, closed: State)
    requires closing == OPENED.(session := Closing, wasClean := true)
    requires closed == closing.(session := Closed, shutdowns := [ClosedEnding])
    ensures Apply(OPENED, ControlFrame(CloseFrame(true), false, true)) == closing
    ensures Apply(closing, FrameWritten(NoError, true)) == closed
  {
  }

  /** Open handler and close handler both fire on a connection that is upgraded and closed by its peer. */
  lemma PeerCloses() returns (steps: seq<Step>)
    ensures EnabledRun(INITIAL, steps)
    ensures var s := Run(INITIAL, steps); s.session == Closed && s.wasClean && s.openCalls == 1 && s.closeCalls == 1
  {
    var closing := OPENED.(session := Closing, wasClean := true);
    var closed := closing.(session := Closed, shutdowns := [ClosedEnding]);
    PeerCloseSteps(closing, closed);
    steps := ClosedEnds(closed);
    steps := OneMore(closing, FrameWritten(NoError, true), steps);
    steps := OneMore(OPENED, ControlFrame(CloseFrame(true), false, true), steps);
    steps := UpgradeOpens(steps);
  }

  lemma UserCloseSteps(closing: State, closed: State)
    requires closing == OPENED.(session := Closing)
    requires closed == closing.(wasClean := true, session := Closed, shutdowns := [ClosedEnding])
    ensures Apply(OPENED, UserClose(true)) == closing
    ensures Apply(closing, ControlFrame(CloseFrame(true), false, true)) == closed
  {
  }

  /** And on one that asks to close and gets its reply. */
  lemma UserCloses() returns (steps: seq<Step>)
    ensures EnabledRun(INITIAL, steps)
    ensures var s := Run(INITIAL, steps); s.session == Closed && s.wasClean && s.openCalls == 1 && s.closeCalls == 1
  {
    var closing := OPENED.(session := Closing);
    var closed := closing.(wasClean := true, session := Closed, shutdowns := [ClosedEnding]);
    UserCloseSteps(closing, closed);
    steps := ClosedEnds(closed);
    steps := OneMore(closing, ControlFrame(CloseFrame(true), false, true), steps);
    steps := OneMore(OPENED, UserClose(true), steps);
    steps := UpgradeOpens(steps);
  }

  lemma {:induction false} RunThen(s: State, a: seq<Step>, b: seq<Step>)
    requires EnabledRun(s, a) && EnabledRun(Run(s, a), b)
    ensures EnabledRun(s, a + b) && Run(s, a + b) == Run(Run(s, a), b)
    decreases |a|
  {
    if a == [] {
      assert a + b == b;
    } else {
      assert (a + b)[1..] == a[1..] + b && (a + b)[0] == a[0];
      RunThen(Apply(s, a[0]), a[1..], b);
    }
  }

  /** An ordinary HTTP request, then a timer that reports late, then the end of the shutdown: fail fires. */
  lemma LateTimerFiresFail() returns (steps: seq<Step>)
    ensures EnabledRun(INITIAL, steps) && Run(INITIAL, steps).failCalls == 1
  {
    var request := HttpRequestEnds();
    RunKeepsInv(INITIAL, request);
    var s := Run(INITIAL, request);
    steps := TimerThenEnd(s);
    RunThen(INITIAL, request, steps);
    steps := request + steps;
  }

  lemma TimerThenEnd(s: State) returns (steps: seq<Step>)
    requires Inv(s) && s.shutdowns == [FailedEnding]
    ensures EnabledRun(s, steps) && Run(s, steps).failCalls == 1
  {
    var late := s.(ec := OtherError);
    assert Apply(s, TimerExpired(OtherError)) == late;
    steps := OneMore(late, ShutdownDone(0), []);
    steps := OneMore(s, TimerExpired(OtherError), steps);
  }

  lemma OneMore(s: State, step: Step, rest: seq<Step>) returns (steps: seq<Step>)
    requires Enabled(s, step) && EnabledRun(Apply(s, step), rest)
    ensures EnabledRun(s, steps) && Run(s, steps) == Run(Apply(s, step), rest)
  {
    steps := [step] + rest;
    assert steps[1..] == rest;
  }
}
