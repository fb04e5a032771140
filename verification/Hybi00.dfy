/**
  Framing and streaming parse of the hybi-00 protocol
  (install/include/websocketpp/processors/hybi00.hpp) together with the read loop that drives it
  (install/include/websocketpp/impl/connection_impl.hpp:1032-1103).
 */
module Hybi00 {
  import opened Wrappers
  import Utf8

  const MSG_HDR: byte := 0x00
  const MSG_FTR: byte := 0xFF

  datatype Error = NoError | ProtocolViolation | NoIncomingBuffers | InvalidOpcode | InvalidPayload

  // ------------------------------------------------------- the stream, octet by octet

  /** Where a reader stands in the stream: between messages, inside one, or stopped by an error. */
  datatype Phase = Header | Payload(sofar: seq<byte>) | Failed(ec: Error)

  /** And how many messages it has begun, with or without success. */
  datatype Place = Place(phase: Phase, begun: nat)

  datatype Reading = Reading(messages: seq<seq<byte>>, at: Place)

  /** Whether the message manager has a buffer for the message begun as number n. */
  type Buffers = nat -> bool

  const START := Place(Header, 0)

  /** The messages an octet stream carries, read one octet at a time. */
  function Read(buffers: Buffers, at: Place, bytes: seq<byte>): Reading
    decreases |bytes|
  {
    if bytes == [] then Reading([], at)
    else
      var b := bytes[0];
      match at.phase
      case Failed(_) => Reading([], at)
      case Header =>
        if b != MSG_HDR then Reading([], at.(phase := Failed(ProtocolViolation)))
        else if !buffers(at.begun) then Reading([], Place(Failed(NoIncomingBuffers), at.begun + 1))
        else Read(buffers, Place(Payload([]), at.begun + 1), bytes[1..])
      case Payload(sofar) =>
        if b == MSG_FTR then
          var rest := Read(buffers, at.(phase := Header), bytes[1..]);
          Reading([sofar] + rest.messages, rest.at)
        else Read(buffers, at.(phase := Payload(sofar + [b])), bytes[1..])
  }

  /** Reading two stretches one after the other is reading their concatenation. */
  lemma {:induction false} ReadConcat(buffers: Buffers, at: Place, a: seq<byte>, b: seq<byte>)
    ensures var first := Read(buffers, at, a);
            var second := Read(buffers, first.at, b);
            Read(buffers, at, a + b) == Reading(first.messages + second.messages, second.at)
    decreases |a|
  {
    if a == [] {
      assert a + b == b;
    } else {
      assert (a + b)[1..] == a[1..] + b && (a + b)[0] == a[0];
      match at.phase {
        case Failed(_) => FailedStays(buffers, at, b);
        case Header =>
          if a[0] != MSG_HDR {
            FailedStays(buffers, at.(phase := Failed(ProtocolViolation)), b);
          } else if !buffers(at.begun) {
            FailedStays(buffers, Place(Failed(NoIncomingBuffers), at.begun + 1), b);
          } else {
            ReadConcat(buffers, Place(Payload([]), at.begun + 1), a[1..], b);
          }
        case Payload(sofar) =>
          if a[0] == MSG_FTR {
            ReadConcat(buffers, at.(phase := Header), a[1..], b);
          } else {
            ReadConcat(buffers, at.(phase := Payload(sofar + [a[0]])), a[1..], b);
          }
      }
    }
  }

  lemma FailedStays(buffers: Buffers, at: Place, b: seq<byte>)
    requires at.phase.Failed?
    ensures Read(buffers, at, b) == Reading([], at)
  {
  }

  // ------------------------------------------------------- frames

  function Frame(payload: seq<byte>): seq<byte> {
    [MSG_HDR] + payload + [MSG_FTR]
  }

  function FrameAll(payloads: seq<seq<byte>>): seq<byte> {
    if payloads == [] then [] else Frame(payloads[0]) + FrameAll(payloads[1..])
  }

  /** The reads of a connection: one chunk after another, never past an error. */
  function ReadChunks(buffers: Buffers, at: Place, chunks: seq<seq<byte>>): Reading
    decreases |chunks|
  {
    if chunks == [] then Reading([], at)
    else
      var first := Read(buffers, at, chunks[0]);
      var rest := ReadChunks(buffers, first.at, chunks[1..]);
      Reading(first.messages + rest.messages, rest.at)
  }

  /** How the stream is cut into reads makes no difference, whatever the octets. */
  lemma {:induction false} ChunksDoNotMatter(buffers: Buffers, at: Place, chunks: seq<seq<byte>>)
    ensures ReadChunks(buffers, at, chunks) == Read(buffers, at, Flatten(chunks))
    decreases |chunks|
  {
    if chunks != [] {
      ChunksDoNotMatter(buffers, Read(buffers, at, chunks[0]).at, chunks[1..]);
      ReadConcat(buffers, at, chunks[0], Flatten(chunks[1..]));
    }
  }

  // Octets up to a frame end are gathered into the payload.
  lemma {:induction false} GatherPayload(buffers: Buffers, n: nat, sofar: seq<byte>, part: seq<byte>, rest: seq<byte>)
    requires MSG_FTR !in part
    ensures Read(buffers, Place(Payload(sofar), n), part + rest) == Read(buffers, Place(Payload(sofar + part), n), rest)
    decreases |part|
  {
    if part == [] {
      assert part + rest == rest && sofar + part == sofar;
    } else {
      assert (part + rest)[1..] == part[1..] + rest;
      assert sofar + [part[0]] + part[1..] == sofar + part;
      GatherPayload(buffers, n, sofar + [part[0]], part[1..], rest);
    }
  }

  /** A frame is read back as its payload exactly when there is a buffer and the payload has no frame-end octet. */
  lemma FrameReads(buffers: Buffers, n: nat, payload: seq<byte>)
    ensures Read(buffers, Place(Header, n), Frame(payload)) == Reading([payload], Place(Header, n + 1))
       <==> buffers(n) && MSG_FTR !in payload
  {
    var tail := payload + [MSG_FTR];
    assert Frame(payload)[1..] == tail && Frame(payload)[0] == MSG_HDR;
    if buffers(n) {
      TailReads(buffers, n + 1, payload, tail);
    }
  }

  lemma TailReads(buffers: Buffers, n: nat, payload: seq<byte>, tail: seq<byte>)
    requires tail == payload + [MSG_FTR]
    ensures Read(buffers, Place(Payload([]), n), tail) == Reading([payload], Place(Header, n)) <==> MSG_FTR !in payload
  {
    var i := FindFooter(tail, 0);
    assert tail[|payload|] == MSG_FTR;
    assert tail == tail[..i] + tail[i..] && tail[..i] == tail[0..i] == payload[..i];
    GatherPayload(buffers, n, [], tail[..i], tail[i..]);
    assert [] + tail[..i] == tail[..i];
    if MSG_FTR !in payload {
      assert i == |payload|;
      assert tail[i..][1..] == [] && tail[..i] == payload;
    } else {
      assert payload[..|payload|] == payload;
      assert Read(buffers, Place(Payload([]), n), tail).messages[0] == payload[..i];
    }
  }

  /** The first frame end at or after `p`, or the length of the buffer: std::find. */
  function FindFooter(buf: seq<byte>, p: nat): (i: nat)
    requires p <= |buf|
    ensures p <= i <= |buf| && forall j | p <= j < i :: buf[j] != MSG_FTR
    ensures i < |buf| ==> buf[i] == MSG_FTR
    decreases |buf| - p
  {
    if p == |buf| || buf[p] == MSG_FTR then p
    else FindFooter(buf, p + 1)
  }

  lemma {:induction false} FramesRead(buffers: Buffers, n: nat, payloads: seq<seq<byte>>)
    requires forall i | n <= i < n + |payloads| :: buffers(i)
    requires forall i | 0 <= i < |payloads| :: MSG_FTR !in payloads[i]
    ensures Read(buffers, Place(Header, n), FrameAll(payloads)) == Reading(payloads, Place(Header, n + |payloads|))
    decreases |payloads|
  {
    if payloads != [] {
      FrameReads(buffers, n, payloads[0]);
      FramesRead(buffers, n + 1, payloads[1..]);
      ReadConcat(buffers, Place(Header, n), Frame(payloads[0]), FrameAll(payloads[1..]));
    }
  }

  /**
    Valid UTF-8 messages, framed and cut into reads in any way, are delivered unchanged, in order,
    and leave the reader between messages.
   */
  lemma MessagesSurviveTheWire(buffers: Buffers, payloads: seq<seq<byte>>, chunks: seq<seq<byte>>)
    requires forall i | 0 <= i < |payloads| :: buffers(i)
    requires forall i | 0 <= i < |payloads| :: Utf8.WellFormed(payloads[i])
    requires Flatten(chunks) == FrameAll(payloads)
    ensures ReadChunks(buffers, START, chunks) == Reading(payloads, Place(Header, |payloads|))
  {
    forall i | 0 <= i < |payloads|
      ensures MSG_FTR !in payloads[i]
    {
      NoFooterInside(payloads[i]);
    }
    FramesRead(buffers, 0, payloads);
    ChunksDoNotMatter(buffers, START, chunks);
  }

  lemma NoFooterInside(payload: seq<byte>)
    requires Utf8.WellFormed(payload)
    ensures MSG_FTR !in payload
  {
    Utf8.ValidIsUtf8(payload);
    forall j | 0 <= j < |payload|
      ensures payload[j] != MSG_FTR
    {
      Utf8.NoFrameEnd(Utf8.INITIAL, payload, j);
    }
  }

  // ------------------------------------------------------- the octets on the wire

  /** A message is 00, its octets, and ff; read back it is that message. */
  lemma WireFormat(buffers: Buffers, n: nat, payload: seq<byte>)
    requires buffers(n) && 0xFF !in payload
    ensures Frame(payload) == [0x00] + payload + [0xFF]
    ensures Read(buffers, Place(Header, n), [0x00] + payload + [0xFF]) == Reading([payload], Place(Header, n + 1))
  {
    FrameReads(buffers, n, payload);
  }

  /** Between messages any octet but 00 is a protocol violation, and 00 without a buffer the other error. */
  lemma HeaderErrors(buffers: Buffers, n: nat, first: byte, rest: seq<byte>)
    ensures first != 0x00 ==>
              Read(buffers, Place(Header, n), [first] + rest) == Reading([], Place(Failed(ProtocolViolation), n))
    ensures first == 0x00 && !buffers(n) ==>
              Read(buffers, Place(Header, n), [first] + rest) == Reading([], Place(Failed(NoIncomingBuffers), n + 1))
  {
  }

  // ------------------------------------------------------- handing messages out

  /** Completed messages reach the message handler while the connection is open; `isOpen` is by message number. */
  function Dispatched(messages: seq<seq<byte>>, isOpen: nat -> bool, from: nat): seq<seq<byte>> {
    if messages == [] then []
    else (if isOpen(from) then [messages[0]] else []) + Dispatched(messages[1..], isOpen, from + 1)
  }

  lemma {:induction false} DispatchedConcat(a: seq<seq<byte>>, b: seq<seq<byte>>, isOpen: nat -> bool, from: nat)
    ensures Dispatched(a + b, isOpen, from) == Dispatched(a, isOpen, from) + Dispatched(b, isOpen, from + |a|)
    decreases |a|
  {
    if a == [] {
      assert a + b == b;
    } else {
      assert (a + b)[1..] == a[1..] + b;
      DispatchedConcat(a[1..], b, isOpen, from + 1);
    }
  }

  /** On a connection that stays open every message is handed out, on one that does not none is. */
  lemma {:induction false} DispatchedWhileOpen(messages: seq<seq<byte>>, isOpen: nat -> bool, from: nat)
    ensures (forall i | from <= i < from + |messages| :: isOpen(i)) ==> Dispatched(messages, isOpen, from) == messages
    ensures (forall i | from <= i < from + |messages| :: !isOpen(i)) ==> Dispatched(messages, isOpen, from) == []
    decreases |messages|
  {
    if messages != [] {
      DispatchedWhileOpen(messages[1..], isOpen, from + 1);
      assert messages == [messages[0]] + messages[1..];
    }
  }

  // ------------------------------------------------------- the code

  datatype State = HEADER | PAYLOAD | READY | FATAL_ERROR

  /** prepare_data_frame: header and payload of the outgoing message. */
  method PrepareDataFrame(isText: bool, payload: seq<byte>)
    returns (ec: Error, header: seq<byte>, framed: seq<byte>)
    ensures ec == NoError <==> isText && Utf8.WellFormed(payload)
    ensures ec == InvalidOpcode <==> !isText
    ensures ec == NoError ==> header + framed == Frame(payload) == [0x00] + payload + [0xFF]
  {
    header, framed := [], [];
    if !isText {
      return InvalidOpcode, header, framed;
    }
    var ok := Utf8.Validate(payload);
    if !ok {
      return InvalidPayload, header, framed;
    }
    header := [MSG_HDR];
    framed := payload;
    framed := framed + [MSG_FTR];
    ec := NoError;
    assert header + framed == Frame(payload);
  }

  class Processor {
    const buffers: Buffers  // the answers of the message manager
    var state: State
    var msg: Option<seq<byte>>
    var begun: nat          // messages asked of the message manager
    ghost var failure: Error

    constructor (buffers: Buffers)
      ensures this.buffers == buffers && state == HEADER && msg == None && begun == 0 && Consistent()
    {
      this.buffers := buffers;
      state, msg, begun, failure := HEADER, None, 0, NoError;
    }

    predicate Consistent()
      reads this
    {
      match state
      case HEADER => true
      case PAYLOAD => msg.Some?
      case READY => msg.Some?
      case FATAL_ERROR => true
    }

    ghost function At(): Place
      requires Consistent() && state != READY
      reads this
    {
      match state
      case HEADER => Place(Header, begun)
      case PAYLOAD => Place(Payload(msg.value), begun)
      case FATAL_ERROR => Place(Failed(failure), begun)
    }

    /** consume: reads octets until the buffer ends, a message is complete or an error stops it. */
    method Consume(buf: seq<byte>) returns (p: nat, ec: Error)
      requires Consistent()
      modifies this
      ensures Consistent() && p <= |buf|
      ensures old(state) in {READY, FATAL_ERROR} ==> p == 0 && ec == NoError && unchanged(this)
      ensures old(state) in {HEADER, PAYLOAD} ==>
                var reading := Read(buffers, old(At()), buf);
                match state
                case READY =>
                  // one message is complete; what follows it is still to be read
                  var rest := Read(buffers, Place(Header, begun), buf[p..]);
                  p > 0 && ec == NoError && reading == Reading([msg.value] + rest.messages, rest.at)
                case FATAL_ERROR =>
                  && ec in {ProtocolViolation, NoIncomingBuffers} && failure == ec && old(state) == HEADER
                  && p == (if ec == NoIncomingBuffers then 1 else 0)
                  && reading == Reading([], At())
                case _ =>
                  ec == NoError && p == |buf| && reading == Reading([], At())
    {
      p, ec := 0, NoError;
      while p < |buf|
        invariant p <= |buf| && Consistent()
        invariant old(state) in {READY, FATAL_ERROR} ==> p == 0 && ec == NoError && unchanged(this)
        invariant old(state) in {HEADER, PAYLOAD} ==>
                    var reading := Read(buffers, old(At()), buf);
                    match state
                    case READY =>
                      var rest := Read(buffers, Place(Header, begun), buf[p..]);
                      p > 0 && ec == NoError && reading == Reading([msg.value] + rest.messages, rest.at)
                    case FATAL_ERROR =>
                      && ec in {ProtocolViolation, NoIncomingBuffers} && failure == ec && old(state) == HEADER
                      && p == (if ec == NoIncomingBuffers then 1 else 0)
                      && reading == Reading([], At())
                    case _ => ec == NoError && reading == Read(buffers, At(), buf[p..])
        invariant state == HEADER ==> p == 0 && old(state) == HEADER
        decreases |buf| - p, match state case HEADER => 2 case PAYLOAD => 1 case _ => 0
      {
        if state == HEADER {
          assert buf[p..][1..] == buf[p + 1..];
          if buf[p] == MSG_HDR {
            p := p + 1;
            var available := buffers(begun);
            begun := begun + 1;
            if !available {
              msg := None;
              ec := NoIncomingBuffers;
              state, failure := FATAL_ERROR, ec;
            } else {
              msg := Some([]);
              state := PAYLOAD;
            }
          } else {
            ec := ProtocolViolation;
            state, failure := FATAL_ERROR, ec;
          }
        } else if state == PAYLOAD {
          var it := FindFooter(buf, p);
          assert buf[p..] == buf[p..it] + buf[it..];
          GatherPayload(buffers, begun, msg.value, buf[p..it], buf[it..]);
          msg := Some(msg.value + buf[p..it]);
          p := it;
          if it != |buf| {
            p := p + 1;
            assert buf[it..][1..] == buf[p..];
            state := READY;
          }
        } else {
          break;
        }
      }
      assert p == |buf| ==> buf[p..] == [];
    }

    method GetMessage() returns (m: Option<seq<byte>>)
      modifies this`msg, this`state
      ensures m == old(msg) && msg == None && state == HEADER && Consistent()
    {
      m := msg;
      msg := None;
      state := HEADER;
    }
  }

  /** The read loop of a connection; `isOpen` says whether it is open when a message completes. */
  class Reader {
    const processor: Processor
    const isOpen: nat -> bool
    var completed: nat

    constructor (buffers: Buffers, isOpen: nat -> bool)
      ensures fresh(processor) && processor.buffers == buffers && this.isOpen == isOpen
      ensures Waiting() && At() == START && completed == 0
    {
      processor := new Processor(buffers);
      this.isOpen, completed := isOpen, 0;
    }

    /** Between reads no completed message is left lying. */
    predicate Waiting()
      reads this, processor
    {
      processor.Consistent() && processor.state != READY
    }

    ghost function At(): Place
      requires Waiting()
      reads this, processor
    {
      processor.At()
    }

    // One turn of the read loop: consume, and hand a completed message out.
    method Turn(buf: seq<byte>) returns (n: nat, delivered: seq<seq<byte>>, ec: Error, ghost found: seq<seq<byte>>)
      requires Waiting() && processor.state != FATAL_ERROR && buf != []
      modifies this, processor
      ensures Waiting() && n <= |buf| && (ec != NoError <==> processor.state == FATAL_ERROR)
      ensures ec == NoError ==> n > 0
      ensures ec != NoError ==> At().phase == Failed(ec)
      ensures var later := Read(processor.buffers, At(), buf[n..]);
              Read(processor.buffers, old(At()), buf) == Reading(found + later.messages, later.at)
      ensures completed == old(completed) + |found| && delivered == Dispatched(found, isOpen, old(completed))
    {
      n, ec := processor.Consume(buf);
      delivered, found := [], [];
      if ec == NoError && processor.state == READY {
        var m := processor.GetMessage();
        if isOpen(completed) {
          delivered := [m.value];
        }
        found := [m.value];
        assert found[1..] == [];
        completed := completed + 1;
      }
    }

    /**
      One read: turns of the loop until the octets are used up. What the handler gets are the messages
      of the octet stream, those completed while the connection is not open left out.
     */
    method HandleRead(buf: seq<byte>) returns (delivered: seq<seq<byte>>, ec: Error)
      requires Waiting() && processor.state != FATAL_ERROR
      modifies this, processor
      ensures Waiting()
      ensures var reading := Read(processor.buffers, old(At()), buf);
              && At() == reading.at
              && completed == old(completed) + |reading.messages|
              && delivered == Dispatched(reading.messages, isOpen, old(completed))
      ensures ec != NoError <==> processor.state == FATAL_ERROR
      ensures ec != NoError ==> At().phase == Failed(ec)
    {
      delivered, ec := [], NoError;
      ghost var reading, messages := Read(processor.buffers, At(), buf), [];
      var p := 0;
      assert buf[0..] == buf;
      while p < |buf| && ec == NoError
        invariant p <= |buf| && Waiting() && (ec != NoError <==> processor.state == FATAL_ERROR)
        invariant ec != NoError ==> At().phase == Failed(ec)
        invariant Continues(reading, messages, Read(processor.buffers, At(), buf[p..]))
        invariant completed == old(completed) + |messages| && delivered == Dispatched(messages, isOpen, old(completed))
        decreases |buf| - p, ec == NoError
      {
        ghost var rest := buf[p..];
        var n, more;
        ghost var found;
        n, more, ec, found := Turn(buf[p..]);
        assert rest[n..] == buf[p + n..];
        DispatchedConcat(messages, found, isOpen, old(completed));
        ContinuesOn(reading, messages, found, Read(processor.buffers, At(), rest[n..]));
        p, delivered, messages := p + n, delivered + more, messages + found;
      }
      if ec != NoError {
        FailedStays(processor.buffers, At(), buf[p..]);
      } else {
        assert buf[p..] == [];
      }
      assert messages + [] == messages;
    }

    /**
      A read after an error, which resume_reading can ask for: consume takes nothing and reports
      nothing, so however many turns the loop takes, it is still before the first octet.
     */
    method StuckRead(buf: seq<byte>, turns: nat) returns (p: nat)
      requires processor.state == FATAL_ERROR && buf != []
      modifies processor
      ensures p == 0 && unchanged(processor)
    {
      p := 0;
      for turn := 0 to turns
        invariant p == 0 && unchanged(processor)
      {
        var n, ec := processor.Consume(buf[p..]);
        assert ec == NoError && processor.state != READY;
        p := p + n;
      }
    }

    /** The reads of a connection one after another; an error ends them. */
    method HandleReads(chunks: seq<seq<byte>>) returns (delivered: seq<seq<byte>>, ec: Error)
      requires Waiting() && processor.state != FATAL_ERROR
      modifies this, processor
      ensures Waiting()
      ensures var reading := Read(processor.buffers, old(At()), Flatten(chunks));
              && At() == reading.at
              && delivered == Dispatched(reading.messages, isOpen, old(completed))
      ensures ec != NoError <==> processor.state == FATAL_ERROR
    {
      ghost var start, messages := At(), [];
      delivered, ec := [], NoError;
      assert chunks[..0] == [];
      for i := 0 to |chunks|
        invariant Waiting() && processor.state != FATAL_ERROR && ec == NoError
        invariant Read(processor.buffers, start, Flatten(chunks[..i])) == Reading(messages, At())
        invariant completed == old(completed) + |messages|
        invariant delivered == Dispatched(messages, isOpen, old(completed))
      {
        ghost var before, count := At(), completed;
        var more;
        more, ec := HandleRead(chunks[i]);
        ghost var next := Read(processor.buffers, before, chunks[i]).messages;
        NextRead(processor.buffers, start, chunks, i);
        DispatchedConcat(messages, next, isOpen, old(completed));
        delivered, messages := delivered + more, messages + next;
        if ec != NoError {
          NothingAfterFailure(processor.buffers, start, chunks, i + 1);
          return;
        }
      }
      assert chunks[..|chunks|] == chunks;
    }
  }

  /** The reading is the messages so far and then the rest. */
  predicate Continues(reading: Reading, messages: seq<seq<byte>>, rest: Reading) {
    reading == Reading(messages + rest.messages, rest.at)
  }

  lemma ContinuesOn(reading: Reading, messages: seq<seq<byte>>, found: seq<seq<byte>>, later: Reading)
    requires Continues(reading, messages, Reading(found + later.messages, later.at))
    ensures Continues(reading, messages + found, later)
  {
    assert messages + (found + later.messages) == messages + found + later.messages;
  }

  lemma NextRead(buffers: Buffers, at: Place, chunks: seq<seq<byte>>, i: nat)
    requires i < |chunks|
    ensures var before := Read(buffers, at, Flatten(chunks[..i]));
            var next := Read(buffers, before.at, chunks[i]);
            Read(buffers, at, Flatten(chunks[..i + 1])) == Reading(before.messages + next.messages, next.at)
  {
    ReadConcat(buffers, at, Flatten(chunks[..i]), chunks[i]);
    FlattenSnoc(chunks[..i], chunks[i]);
    assert chunks[..i + 1] == chunks[..i] + [chunks[i]];
  }

  // Once a prefix of the reads has failed, the rest of the stream adds no message.
  lemma {:induction false} NothingAfterFailure(buffers: Buffers, at: Place, chunks: seq<seq<byte>>, i: nat)
    requires i <= |chunks| && Read(buffers, at, Flatten(chunks[..i])).at.phase.Failed?
    ensures Read(buffers, at, Flatten(chunks)) == Read(buffers, at, Flatten(chunks[..i]))
    decreases |chunks| - i
  {
    if i == |chunks| {
      assert chunks[..i] == chunks;
    } else {
      var before := Read(buffers, at, Flatten(chunks[..i]));
      NextRead(buffers, at, chunks, i);
      FailedStays(buffers, before.at, chunks[i]);
      assert before.messages + [] == before.messages;
      NothingAfterFailure(buffers, at, chunks, i + 1);
    }
  }
}
