/**
  The handlers of a server connection that move its session state
  (install/include/websocketpp/impl/connection_impl.hpp); each is a step of Lifecycle. Ghost fields
  count what the transport owes and which application handlers ran.
 */
module ConnectionLife {
  import opened Lifecycle

  class Connection {
    var session: Session
    var internal: Internal
    var isHttp: bool
    var ec: Error
    var response: Status
    var wasClean: bool

    ghost var responses: nat
    ghost var shutdowns: seq<Ending>
    ghost var openCalls: nat
    ghost var failCalls: nat
    ghost var closeCalls: nat
    ghost var endCalls: nat

    constructor ()
      ensures Snapshot() == INITIAL && Inv(Snapshot())
    {
      session, internal, isHttp, ec, response, wasClean := Connecting, UserInit, false, NoError, Uninitialized, false;
      responses, shutdowns, openCalls, failCalls, closeCalls, endCalls := 0, [], 0, 0, 0, 0;
    }

    ghost function Snapshot(): State
      reads this
    {
      State(session, internal, isHttp, ec, response, wasClean, responses, shutdowns,
            openCalls, failCalls, closeCalls, endCalls)
    }

    method Terminate(error: Error)
      modifies this
      ensures Snapshot() == Lifecycle.Terminate(old(Snapshot()), error)
    {
      if error != NoError {
        ec := error;
      }
      var tstat;
      if session == Connecting {
        session := Closed;
        tstat := FailedEnding;
      } else if session != Closed {
        session := Closed;
        tstat := ClosedEnding;
      } else {
        return;
      }
      shutdowns := shutdowns + [tstat];
    }

    method HandleTerminate(ghost index: nat, tstat: Ending)
      requires index < |shutdowns| && shutdowns[index] == tstat
      modifies this
      ensures Snapshot() == Apply(old(Snapshot()), ShutdownDone(index))
    {
      if tstat == FailedEnding {
        if ec != HttpConnectionEnded {
          failCalls := failCalls + 1;
        }
      } else {
        closeCalls := closeCalls + 1;
      }
      endCalls := endCalls + 1;
      shutdowns := shutdowns[..index] + shutdowns[index + 1..];
    }

    method StartConnection()
      modifies this
      ensures Snapshot() == Apply(old(Snapshot()), Start)
    {
      if internal != UserInit {
        Terminate(InvalidState);
        return;
      }
      internal := TransportInit;
    }

    method HandleTransportInit(error: Error)
      modifies this
      ensures Snapshot() == Apply(old(Snapshot()), TransportReady(error))
    {
      var ecm := error;
      if internal != TransportInit {
        ecm := InvalidState;
      }
      if ecm != NoError {
        Terminate(ecm);
        return;
      }
      internal := ReadHttpRequest;
    }

    method HandleReadHandshake(error: Error, inBounds: bool, complete: bool, plainHttp: bool)
      modifies this
      ensures Snapshot() == Apply(old(Snapshot()), RequestRead(error, inBounds, complete, plainHttp))
    {
      var ecm := error;
      if ecm == NoError {
        if session == Connecting {
          if internal != ReadHttpRequest {
            ecm := InvalidState;
          }
        } else if session == Closed {
          return;
        } else {
          ecm := InvalidState;
        }
      }
      if ecm != NoError {
        if ecm == Eof && session == Closed {
          return;
        }
        Terminate(ecm);
        return;
      }
      if !inBounds {
        Terminate(General);
        return;
      }
      if complete {
        internal := ProcessHttpRequest;
        if plainHttp {
          isHttp := true;
        }
      }
    }

    method WriteHttpResponse(error: Error)
      modifies this
      ensures Snapshot() == Apply(old(Snapshot()), WriteResponse(error))
    {
      if error == HttpConnectionEnded {
        return;
      }
      if response == Uninitialized {
        response := OtherStatus;
        ec := General;
      } else {
        ec := error;
      }
      responses := responses + 1;
    }

    method WriteHttpResponseError(error: Error)
      modifies this
      ensures Snapshot() == Apply(old(Snapshot()), RequestRefused(error))
    {
      if internal != ReadHttpRequest {
        Terminate(InvalidState);
        return;
      }
      internal := ProcessHttpRequest;
      response := OtherStatus;
      WriteHttpResponse(error);
    }

    method HandleWriteHttpResponse(error: Error)
      requires responses > 0
      modifies this
      ensures Snapshot() == Apply(old(Snapshot()), ResponseWritten(error))
    {
      responses := responses - 1;
      var ecm := error;
      if ecm == NoError {
        if session == Connecting {
          if internal != ProcessHttpRequest {
            ecm := InvalidState;
          }
        } else if session == Closed {
          return;
        } else {
          ecm := InvalidState;
        }
      }
      if ecm != NoError {
        if ecm == Eof && session == Closed {
          return;
        }
        Terminate(ecm);
        return;
      }
      if response != SwitchingProtocols {
        if isHttp {
          ec := HttpConnectionEnded;
        }
        Terminate(ec);
        return;
      }
      internal := ProcessConnection;
      session := Open;
      openCalls := openCalls + 1;
    }

    method SendCloseFrame(ack: bool, framed: bool) returns (ok: bool)
      modifies this
      ensures Snapshot() == Lifecycle.SendCloseFrame(old(Snapshot()), ack, framed) && ok == framed
    {
      if !framed {
        return false;
      }
      session := Closing;
      if ack {
        wasClean := true;
      }
      ok := true;
    }

    method Close(framed: bool) returns (ok: bool)
      modifies this
      ensures (Snapshot(), ok) == Lifecycle.Close(old(Snapshot()), framed)
    {
      if session != Open {
        return false;
      }
      ok := SendCloseFrame(false, framed);
    }

    /** The guards of handle_read_frame; `proceed` says that the read loop runs. */
    method HandleReadFrame(error: Error) returns (proceed: bool)
      modifies this
      ensures Snapshot() == Apply(old(Snapshot()), Read(error))
      ensures proceed <==> error == NoError && old(internal) == ProcessConnection
      ensures proceed ==> Snapshot() == old(Snapshot()) && Enabled(Snapshot(), ProtocolError(true, true))
    {
      var ecm := error;
      if ecm == NoError && internal != ProcessConnection {
        ecm := InvalidState;
      }
      proceed := ecm == NoError;
      if !proceed {
        if ecm == Eof {
          if session == Closed {
            return;
          }
        } else if ecm == InvalidState {
          if session == Closed {
            return;
          }
        }
        Terminate(ecm);
      }
    }

    method HandleConsumeError(drop: bool, framed: bool)
      requires internal == ProcessConnection
      modifies this
      ensures Snapshot() == Apply(old(Snapshot()), ProtocolError(drop, framed))
    {
      if drop {
        Terminate(OtherError);
      } else {
        var wasOpen := session == Open;
        var ok := Close(framed);
        if !ok {
          Terminate(if wasOpen then OtherError else InvalidState);
        }
      }
    }

    method ProcessControlFrame(frame: Frame, drop: bool, framed: bool)
      requires internal == ProcessConnection
      modifies this
      ensures Snapshot() == Apply(old(Snapshot()), ControlFrame(frame, drop, framed))
    {
      if session == Closed {
        return;
      }
      if !frame.CloseFrame? {
        return;
      }
      var ok;
      if !frame.valid {
        if drop {
          Terminate(OtherError);
        } else {
          ok := SendCloseFrame(true, framed);
        }
        return;
      }
      if session == Open {
        ok := SendCloseFrame(true, framed);
      } else if session == Closing && !wasClean {
        wasClean := true;
        Terminate(NoError);
      }
    }
  }
}
