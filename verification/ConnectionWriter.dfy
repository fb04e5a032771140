/**
  The writing half of the connection class (install/include/websocketpp/impl/connection_impl.hpp),
  one method per critical section. Fields hold what the code keeps; ghost fields hold what its
  threads and the transport owe, so that each method is one step of WriteQueue.
 */
module ConnectionWriter {
  import opened Wrappers
  import opened WriteQueue

  class Connection {
    var sendQueue: seq<Message>
    var currentMsgs: seq<Message>
    var sendBuffer: seq<seq<byte>>
    var writeFlag: bool
    var sendBufferSize: int

    ghost var posting: nat
    ghost var owed: nat
    ghost var starting: nat
    ghost var outstanding: seq<seq<seq<byte>>>
    ghost var finishing: seq<Ending>
    ghost var terminated: nat
    ghost var wire: seq<seq<byte>>
    ghost var pushed: seq<Message>
    ghost var written: seq<Message>
    ghost var lost: seq<Message>

    constructor ()
      ensures Snapshot() == INITIAL && Inv(Snapshot())
    {
      sendQueue, currentMsgs, sendBuffer, writeFlag, sendBufferSize := [], [], [], false, 0;
      posting, owed, starting, outstanding, finishing, terminated := 0, 0, 0, [], [], 0;
      wire, pushed, written, lost := [], [], [], [];
    }

    ghost function Snapshot(): State
      reads this
    {
      State(sendQueue, currentMsgs, sendBuffer, writeFlag, sendBufferSize, posting, owed, starting,
            outstanding, finishing, terminated, wire, pushed, written, lost)
    }

    method WritePush(msg: Message)
      modifies this`sendBufferSize, this`sendQueue
      ensures sendQueue == old(sendQueue) + [msg]
      ensures sendBufferSize == old(sendBufferSize) + |msg.payload|
    {
      sendBufferSize := sendBufferSize + |msg.payload|;
      sendQueue := sendQueue + [msg];
    }

    method WritePop() returns (msg: Option<Message>)
      modifies this`sendBufferSize, this`sendQueue
      ensures old(sendQueue) == [] ==>
                msg == None && sendQueue == [] && sendBufferSize == old(sendBufferSize)
      ensures old(sendQueue) != [] ==>
                && msg == Some(old(sendQueue)[0]) && sendQueue == old(sendQueue)[1..]
                && sendBufferSize == old(sendBufferSize) - |old(sendQueue)[0].payload|
    {
      if sendQueue == [] {
        return None;
      }
      msg := Some(sendQueue[0]);
      sendBufferSize := sendBufferSize - |msg.value.payload|;
      sendQueue := sendQueue[1..];
    }

    /** The critical section of send, ping, pong and send_close_frame. */
    method Enqueue(msg: Message) returns (needsWriting: bool)
      modifies this
      ensures Snapshot() == AfterPush(old(Snapshot()), msg)
      ensures needsWriting <==> posting == old(posting) + 1
    {
      WritePush(msg);
      needsWriting := !writeFlag && sendQueue != [];
      pushed := pushed + [msg];
      if needsWriting {
        posting := posting + 1;
      }
    }

    /** The dispatch of write_frame that a caller owes once it saw needs_writing. */
    method DispatchWriteFrame()
      requires posting > 0
      modifies this
      ensures Snapshot() == AfterPost(old(Snapshot()))
    {
      posting, owed := posting - 1, owed + 1;
    }

    /** The loop of write_frame: move messages out of the queue, up to and including a terminal one. */
    method PullBatch()
      modifies this`sendQueue, this`sendBufferSize, this`currentMsgs
      ensures var queue, n := old(sendQueue), BatchSize(old(sendQueue));
              && currentMsgs == old(currentMsgs) + queue[..n]
              && sendQueue == queue[n..]
              && sendBufferSize == old(sendBufferSize) - PayloadTotal(queue[..n])
    {
      ghost var queue, n, taken := sendQueue, BatchSize(sendQueue), 0;
      var next := WritePop();
      if queue != [] {
        PayloadOfNext(queue, 0);
      }
      while next.Some?
        invariant taken <= n <= |queue|
        invariant currentMsgs == old(currentMsgs) + queue[..taken]
        invariant next.Some? ==> taken < n && next.value == queue[taken]
        invariant next.None? ==> taken == n
        invariant sendQueue == queue[if next.Some? then taken + 1 else taken..]
        invariant sendBufferSize
               == old(sendBufferSize) - PayloadTotal(queue[..if next.Some? then taken + 1 else taken])
        decreases |queue| - taken
      {
        currentMsgs := currentMsgs + [next.value];
        taken := taken + 1;
        if !next.value.terminal {
          next := WritePop();
          if taken < |queue| {
            PayloadOfNext(queue, taken);
          }
        } else {
          next := None;
        }
      }
    }

    // The loop leaves every other field alone.
    method TakeBatch()
      modifies this`sendQueue, this`sendBufferSize, this`currentMsgs
      ensures Snapshot() == BatchTaken(old(Snapshot()))
    {
      PullBatch();
    }

    // Whoever has messages to send holds the write flag until they are sent.
    method HoldFlag() returns (claimed: bool)
      modifies this`writeFlag, this`starting
      ensures Snapshot() == FlagHeld(old(Snapshot())) && claimed == (currentMsgs != [])
    {
      claimed := currentMsgs != [];
      if claimed {
        writeFlag := true;
        starting := starting + 1;
      }
    }

    /** write_frame up to the end of its critical section. */
    method ClaimMessages() returns (claimed: bool)
      requires owed > 0
      modifies this
      ensures Snapshot() == AfterRunWriteFrame(old(Snapshot()))
      ensures claimed <==> starting == old(starting) + 1
    {
      owed := owed - 1;
      if writeFlag {
        return false;
      }
      TakeBatch();
      claimed := HoldFlag();
      ClaimIsStep(old(Snapshot()));
    }

    /** The rest of write_frame: gather the buffers and start the transport write. */
    method StartWrite()
      requires starting > 0
      modifies this
      ensures Snapshot() == AfterStartWrite(old(Snapshot()))
    {
      for i := 0 to |currentMsgs|
        invariant Snapshot() == old(Snapshot()).(buffer := sendBuffer)
        invariant sendBuffer == old(sendBuffer) + Buffers(old(currentMsgs)[..i])
      {
        assert currentMsgs[..i + 1][..i] == currentMsgs[..i];
        sendBuffer := sendBuffer + [currentMsgs[i].header];
        sendBuffer := sendBuffer + [currentMsgs[i].payload];
      }
      assert currentMsgs[..|currentMsgs|] == currentMsgs;
      starting := starting - 1;
      outstanding := outstanding + [sendBuffer];
      wire := wire + sendBuffer;
    }

    /** handle_write_frame up to the release of its messages; `ok` is the absence of a transport error. */
    method TakeCompletion(ghost index: nat, ok: bool) returns (ending: Ending)
      requires index < |outstanding| && currentMsgs != []
      modifies this
      ensures Snapshot() == AfterComplete(old(Snapshot()), index, ok)
      ensures ending == finishing[|finishing| - 1]
    {
      ending := Ending(ok, currentMsgs[|currentMsgs| - 1].terminal);
      if ok {
        written := written + currentMsgs;
      } else {
        lost := lost + currentMsgs;
      }
      sendBuffer := [];
      currentMsgs := [];
      outstanding := Remove(outstanding, index);
      finishing := finishing + [ending];
      assert old(written) + [] == old(written) && old(lost) + [] == old(lost);
    }

    /** The rest of handle_write_frame: terminate, or release the flag and look at the queue again. */
    method Release(ghost index: nat, ending: Ending) returns (terminate: bool, needsWriting: bool)
      requires index < |finishing| && finishing[index] == ending
      modifies this
      ensures Snapshot() == AfterFinish(old(Snapshot()), index)
      ensures terminate == (!ending.ok || ending.terminal)
      ensures needsWriting <==> posting == old(posting) + 1
    {
      terminate, needsWriting := !ending.ok || ending.terminal, false;
      finishing := Remove(finishing, index);
      if terminate {
        terminated := terminated + 1;
        return;
      }
      writeFlag := false;
      needsWriting := sendQueue != [];
      if needsWriting {
        posting := posting + 1;
      }
    }
  }

  function BatchTaken(s: State): State {
    var n := BatchSize(s.queue);
    s.(queue := s.queue[n..], current := s.current + s.queue[..n],
       bufferSize := s.bufferSize - PayloadTotal(s.queue[..n]))
  }

  function FlagHeld(s: State): State {
    if s.current == [] then s else s.(flag := true, starting := s.starting + 1)
  }

  lemma ClaimIsStep(s: State)
    requires s.owed > 0 && !s.flag
    ensures FlagHeld(BatchTaken(s.(owed := s.owed - 1))) == AfterRunWriteFrame(s)
  {
  }

  lemma PayloadOfNext(queue: seq<Message>, i: nat)
    requires i < |queue|
    ensures PayloadTotal(queue[..i + 1]) == PayloadTotal(queue[..i]) + |queue[i].payload|
  {
    assert queue[..i + 1] == queue[..i] + [queue[i]];
    PayloadConcat(queue[..i], [queue[i]]);
  }
}
