/** The polling writer and reader as objects over one socket; each call does what the state machine
    of PollStream does. */
module PollReadWrite {
  import opened Basics
  import opened Payloads
  import opened PollStream

  /** One direction of a socket: every byte put in, and how many of them were taken out. */
  class Socket {
    var sent: seq<byte>
    var taken: nat

    ghost predicate Valid()
      reads this
    {
      taken <= |sent|
    }

    ghost function Unread(): seq<byte>
      requires Valid()
      reads this
    {
      sent[taken..]
    }

    constructor ()
      ensures Valid() && sent == [] && taken == 0
    {
      sent, taken := [], 0;
    }

    /** Takes up to `count` bytes of a payload. */
    method Take(payload: seq<byte>, count: nat) returns (n: nat)
      requires Valid()
      modifies this`sent
      ensures Valid() && n == Least(count, |payload|) && sent == old(sent) + payload[..n]
      ensures Unread() == old(Unread()) + payload[..n]
    {
      n := Least(count, |payload|);
      sent := sent + payload[..n];
    }

    /** Puts up to `count` unread bytes into the buffer from the offset on. */
    method Give(buf: array<byte>, offset: nat, count: nat) returns (n: nat)
      requires Valid() && offset <= buf.Length
      modifies this`taken, buf
      ensures Valid() && n == Least(count, Least(|old(Unread())|, buf.Length - offset))
      ensures buf[..] == Fill(old(buf[..]), offset, old(Unread()), n)
      ensures taken == old(taken) + n && Unread() == old(Unread())[n..]
    {
      n := Least(count, Least(|sent| - taken, buf.Length - offset));
      var unread := sent[taken..];
      for i := 0 to n
        invariant taken == old(taken)
        invariant forall k :: 0 <= k < buf.Length ==>
          buf[k] == if offset <= k < offset + i then unread[k - offset] else old(buf[k])
      {
        buf[offset + i] := unread[i];
      }
      taken := taken + n;
      ghost var want := Fill(old(buf[..]), offset, old(Unread()), n);
      assert forall k :: 0 <= k < buf.Length ==> buf[k] == want[k];
    }
  }

  class PollWriter {
    const socket: Socket
    var pending: Option<seq<byte>>

    ghost function State(): Writer
      reads this, socket
    {
      Writer(pending, socket.sent)
    }

    constructor (socket: Socket)
      ensures this.socket == socket && pending == None
    {
      this.socket := socket;
      pending := None;
    }

    /** The payload is taken out first and what is left of it put back. */
    method ProcessPending(poll: Poll) returns (result: SendResult)
      requires pending.Some? && socket.Valid()
      modifies this, socket`sent
      ensures socket.Valid()
      ensures (State(), result) == ProcessWrite(old(State()), poll)
    {
      var payload := pending.value;
      pending := None;
      result := Ok;
      match poll
      case Ready(count) =>
        var sent := socket.Take(payload, count);
        if sent < |payload| { pending := Some(payload[sent..]); }
      case Error =>
        result := Failed;
      case Pending =>
        pending := Some(payload);
    }

    method SendPayload(payload: seq<byte>, first: Poll, second: Poll) returns (result: SendResult)
      requires socket.Valid()
      modifies this, socket`sent
      ensures socket.Valid()
      ensures (State(), result) == Send(old(State()), payload, first, second)
    {
      if pending.None? {
        pending := Some(payload);
        result := ProcessPending(first);
      } else {
        var _ := ProcessPending(first);
        if pending.None? {
          pending := Some(payload);
          result := ProcessPending(second);
        } else {
          result := SendFull(payload);
        }
      }
    }
  }

  /** A read buffer and how much of it is filled. */
  datatype Partial = Partial(buf: array<byte>, offset: nat)

  class PollReader {
    const socket: Socket
    var pending: Option<Partial>

    ghost function Buffers(): set<object>
      reads this
    {
      if pending.Some? then {pending.value.buf} else {}
    }

    ghost predicate Valid()
      reads this, Buffers(), socket
    {
      && socket.Valid()
      && (pending.Some? ==> pending.value.buf.Length == FRAME && pending.value.offset < FRAME)
    }

    ghost function State(): Reader
      reads this, Buffers()
    {
      match pending
      case None => Reader(None)
      case Some(Partial(buf, offset)) => Reader(Some((buf[..], offset)))
    }

    constructor (socket: Socket)
      requires socket.Valid()
      ensures this.socket == socket && Valid() && pending == None
    {
      this.socket := socket;
      pending := None;
    }

    /** The buffer is taken out first and put back if it is not full yet. */
    method ProcessPending(poll: Poll) returns (result: ReceiveResult)
      requires Valid() && pending.Some?
      modifies this, Buffers(), socket`taken
      ensures Valid() && Buffers() <= old(Buffers())
      ensures (State(), socket.Unread(), result) == ProcessRead(old(State()), old(socket.Unread()), poll)
    {
      hide Fill;
      var Partial(buf, offset) := pending.value;
      pending := None;
      match poll
      case Ready(count) =>
        var n := socket.Give(buf, offset, count);
        if offset + n < buf.Length {
          pending := Some(Partial(buf, offset + n));
          result := ReadEmpty;
        } else {
          result := Payload(buf[..]);
        }
      case Error =>
        result := ReadFailed;
      case Pending =>
        pending := Some(Partial(buf, offset));
        result := ReadEmpty;
    }

    method ReceivePayload(poll: Poll) returns (result: ReceiveResult)
      requires Valid()
      modifies this, Buffers(), socket`taken
      ensures Valid() && fresh(Buffers() - old(Buffers()))
      ensures (State(), socket.Unread(), result) == Receive(old(State()), old(socket.Unread()), poll)
    {
      hide ProcessRead;
      if pending.None? {
        var buf := new byte[FRAME](i => 0);
        pending := Some(Partial(buf, 0));
        assert buf[..] == Zeros(FRAME);
      }
      result := ProcessPending(poll);
    }
  }
}
