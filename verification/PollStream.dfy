/** A stream writer and a stream reader that never wait: each call polls the socket and keeps what is
    left for the next call. Here they are state machines over the outcomes of their polls. */
module PollStream {
  import opened Basics
  import opened Payloads

  type Payload = seq<byte>

  /** What polling the socket yields: nothing yet, a number of bytes it was ready for, or an error. */
  datatype Poll = Pending | Ready(count: nat) | Error

  function Least(a: nat, b: nat): nat { if a <= b then a else b }

  function Concat(ps: seq<Payload>): Payload {
    if ps == [] then [] else Concat(ps[..|ps| - 1]) + ps[|ps| - 1]
  }

  lemma ConcatSnoc(ps: seq<Payload>, p: Payload)
    ensures Concat(ps + [p]) == Concat(ps) + p
  {
    assert (ps + [p])[..|ps|] == ps;
  }

  // ----- the writer -----

  datatype SendResult = Ok | SendFull(payload: Payload) | Failed

  /** `wire` is every byte the socket ever took. */
  datatype Writer = Writer(pending: Option<Payload>, wire: Payload)

  const NewWriter: Writer := Writer(None, [])

  /** One poll for the pending bytes. An error drops them. */
  function ProcessWrite(w: Writer, poll: Poll): (Writer, SendResult)
    requires w.pending.Some?
  {
    var payload := w.pending.value;
    match poll
    case Pending => (w, Ok)
    case Error => (w.(pending := None), Failed)
    case Ready(count) =>
      var sent := Least(count, |payload|);
      var left := if sent < |payload| then Some(payload[sent..]) else None;
      (Writer(left, w.wire + payload[..sent]), Ok)
  }

  /** Sends a payload if nothing is left of the one before; `second` is the outcome of a second poll,
      made only when the first one finished what was pending. */
  function Send(w: Writer, payload: Payload, first: Poll, second: Poll): (Writer, SendResult) {
    match w.pending
    case None => ProcessWrite(w.(pending := Some(payload)), first)
    case Some(_) =>
      var (v, _) := ProcessWrite(w, first);
      if v.pending.None? then ProcessWrite(v.(pending := Some(payload)), second)
      else (v, SendFull(payload))
  }

  datatype Call = Call(payload: Payload, first: Poll, second: Poll)

  /** The writer after some calls. */
  function Sent(calls: seq<Call>): Writer {
    if calls == [] then NewWriter else
      var c := calls[|calls| - 1];
      Send(Sent(calls[..|calls| - 1]), c.payload, c.first, c.second).0
  }

  function LastResult(calls: seq<Call>): SendResult
    requires calls != []
  {
    var c := calls[|calls| - 1];
    Send(Sent(calls[..|calls| - 1]), c.payload, c.first, c.second).1
  }

  /** The payloads that were not handed back. */
  function Accepted(calls: seq<Call>): seq<Payload> {
    if calls == [] then [] else
      var before := Accepted(calls[..|calls| - 1]);
      if LastResult(calls).SendFull? then before else before + [calls[|calls| - 1].payload]
  }

  /** Some poll that was made ended in an error. */
  predicate SomeError(calls: seq<Call>) {
    calls != [] &&
    (var c := calls[|calls| - 1];
     var w := Sent(calls[..|calls| - 1]);
     || SomeError(calls[..|calls| - 1])
     || c.first.Error?
     || (c.second.Error? && w.pending.Some? && ProcessWrite(w, c.first).0.pending.None?))
  }

  function PendingBytes(w: Writer): Payload {
    match w.pending
    case None => []
    case Some(p) => p
  }

  /** Everything the writer still stands for: on the wire, or waiting. */
  function Carried(w: Writer): Payload {
    w.wire + PendingBytes(w)
  }

  predicate Nonempty(calls: seq<Call>) {
    forall i :: 0 <= i < |calls| ==> calls[i].payload != []
  }

  /** A poll moves bytes from pending to the wire and loses none, unless it fails; then it loses all
      that was pending. */
  lemma ProcessWriteCarries(w: Writer, poll: Poll)
    requires w.pending.Some? && w.pending.value != []
    ensures var v := ProcessWrite(w, poll).0;
      && (v.pending.Some? ==> v.pending.value != [])
      && (poll.Error? <==> ProcessWrite(w, poll).1.Failed?)
      && (!poll.Error? ==> Carried(v) == Carried(w))
      && (poll.Error? ==> Carried(v) == w.wire && v.pending.None?)
      && (!poll.Ready? ==> v.wire == w.wire)
      && (poll.Ready? ==> v.wire == w.wire + w.pending.value[..Least(poll.count, |w.pending.value|)])
  {
    if poll.Ready? {
      var payload := w.pending.value;
      var sent := Least(poll.count, |payload|);
      assert payload == payload[..sent] + payload[sent..];
      assert w.wire + payload[..sent] + payload[sent..] == w.wire + payload;
    }
  }

  /** A ready poll puts as many of the pending bytes on the wire as it is ready for, and nothing is left
      pending exactly when that is all of them. */
  lemma ProcessWriteMoves(w: Writer, count: nat)
    requires w.pending.Some?
    ensures var payload, v := w.pending.value, ProcessWrite(w, Ready(count)).0;
      && v.wire == w.wire + (if count < |payload| then payload[..count] else payload)
      && (v.pending.None? <==> count >= |payload|)
      && (v.pending.Some? ==> v.pending.value == payload[count..])
  {
    var payload := w.pending.value;
    if count >= |payload| { assert payload[..|payload|] == payload; }
  }

  /** Two polls ready for all that is pending and for the new payload put both on the wire. */
  lemma SendFlushes(w: Writer, payload: Payload, first: nat, second: nat)
    requires first >= |payload| && second >= |payload| && (w.pending.Some? ==> first >= |w.pending.value|)
    ensures var (v, r) := Send(w, payload, Ready(first), Ready(second));
      r.Ok? && v.pending.None? && v.wire == Carried(w) + payload
  {
    hide ProcessWrite;
    if w.pending.None? {
      ProcessWriteMoves(w.(pending := Some(payload)), first);
      ProcessWriteOk(w.(pending := Some(payload)), first);
      assert Carried(w) == w.wire;
    } else {
      ProcessWriteMoves(w, first);
      var v := ProcessWrite(w, Ready(first)).0;
      ProcessWriteMoves(v.(pending := Some(payload)), second);
      ProcessWriteOk(v.(pending := Some(payload)), second);
    }
  }

  lemma ProcessWriteOk(w: Writer, count: nat)
    requires w.pending.Some?
    ensures ProcessWrite(w, Ready(count)).1 == Ok
  {
  }

  /** What one call does to the bytes carried. */
  lemma SendCarries(w: Writer, c: Call)
    requires (w.pending.Some? ==> w.pending.value != []) && c.payload != []
    ensures var (v, r) := Send(w, c.payload, c.first, c.second);
      && (v.pending.Some? ==> v.pending.value != [])
      && (r.SendFull? ==> r.payload == c.payload && Carried(v) == Carried(w))
      && (!r.SendFull? && !CallFails(w, c) ==> Carried(v) == Carried(w) + c.payload)
      && (CallFails(w, c) ==> !r.SendFull? && |Carried(v)| < |Carried(w)| + |c.payload|)
  {
    if w.pending.None? {
      ProcessWriteCarries(w.(pending := Some(c.payload)), c.first);
    } else {
      ProcessWriteCarries(w, c.first);
      var v := ProcessWrite(w, c.first).0;
      if v.pending.None? {
        ProcessWriteCarries(v.(pending := Some(c.payload)), c.second);
      }
    }
  }

  predicate CallFails(w: Writer, c: Call) {
    c.first.Error? || (c.second.Error? && w.pending.Some? && ProcessWrite(w, c.first).0.pending.None?)
  }

  /** Over every schedule nothing is ever pending but a nonempty rest, and the bytes on the wire
      followed by the pending ones are all the bytes of the accepted payloads exactly when no poll
      failed: a failed poll leaves a hole that no later call fills. */
  lemma {:induction false} WriterConserves(calls: seq<Call>)
    requires Nonempty(calls)
    ensures var w := Sent(calls); w.pending.Some? ==> w.pending.value != []
    ensures Carried(Sent(calls)) == Concat(Accepted(calls)) <==> !SomeError(calls)
    ensures |Carried(Sent(calls))| <= |Concat(Accepted(calls))|
    ensures SomeError(calls) ==> |Carried(Sent(calls))| < |Concat(Accepted(calls))|
  {
    if calls != [] {
      var init, c := calls[..|calls| - 1], calls[|calls| - 1];
      WriterConserves(init);
      var w := Sent(init);
      SendCarries(w, c);
      ConcatSnoc(Accepted(init), c.payload);
      hide Send, ProcessWrite, Concat, Sent;
      assert SomeError(calls) <==> SomeError(init) || CallFails(w, c);
    }
  }

  // ----- the reader -----

  /** A partly filled buffer and how much of it is filled. */
  datatype Reader = Reader(pending: Option<(Payload, nat)>)

  datatype ReceiveResult = Payload(payload: seq<byte>) | ReadEmpty | ReadFailed

  /** The buffer with the first n bytes of the input put in at the offset. */
  function Fill(buf: seq<byte>, offset: nat, input: seq<byte>, n: nat): (r: seq<byte>)
    requires offset + n <= |buf| && n <= |input|
    ensures |r| == |buf|
  {
    buf[..offset] + input[..n] + buf[offset + n..]
  }

  lemma FillCarries(buf: seq<byte>, offset: nat, input: seq<byte>, n: nat)
    requires offset + n <= |buf| && n <= |input|
    ensures Fill(buf, offset, input, n)[..offset + n] + input[n..] == buf[..offset] + input
  {
    assert Fill(buf, offset, input, n)[..offset + n] == buf[..offset] + input[..n];
    assert input == input[..n] + input[n..];
  }

  /** One poll: takes bytes off the front of `input` into the buffer. Returns the reader, what is left
      of the input, and the result. */
  function ProcessRead(r: Reader, input: seq<byte>, poll: Poll): (Reader, seq<byte>, ReceiveResult)
    requires r.pending.Some? && r.pending.value.1 <= |r.pending.value.0|
  {
    var (buf, offset) := r.pending.value;
    match poll
    case Pending => (r, input, ReadEmpty)
    case Error => (Reader(None), input, ReadFailed)
    case Ready(count) =>
      var n := Least(count, Least(|input|, |buf| - offset));
      var filled := Fill(buf, offset, input, n);
      if offset + n < |filled| then (Reader(Some((filled, offset + n))), input[n..], ReadEmpty)
      else (Reader(None), input[n..], Payload(filled))
  }

  function Receive(r: Reader, input: seq<byte>, poll: Poll): (res: (Reader, seq<byte>, ReceiveResult))
    requires ReaderOk(r)
    ensures |res.1| <= |input|
    ensures res.2.Payload? ==> |res.2.payload| == FRAME
  {
    ProcessRead(if r.pending.None? then Reader(Some((Zeros(FRAME), 0))) else r, input, poll)
  }

  predicate ReaderOk(r: Reader) {
    r.pending.Some? ==> |r.pending.value.0| == FRAME && r.pending.value.1 < FRAME
  }

  /** The bytes read but not returned yet. */
  function Held(r: Reader): seq<byte>
    requires ReaderOk(r)
  {
    match r.pending
    case None => []
    case Some((buf, offset)) => buf[..offset]
  }

  /** A ready poll takes as many bytes as it is ready for, as there are and as still fit, and returns a payload
      exactly when that fills the frame. */
  lemma ReceiveMoves(r: Reader, input: seq<byte>, count: nat)
    requires ReaderOk(r)
    ensures var (q, left, result) := Receive(r, input, Ready(count));
      var n := Least(count, Least(|input|, FRAME - |Held(r)|));
      && left == input[n..]
      && (result.Payload? <==> |Held(r)| + n == FRAME)
      && (result.Payload? ==> result.payload == Held(r) + input[..n] && q.pending.None?)
      && (!result.Payload? ==> result.ReadEmpty? && ReaderOk(q) && Held(q) == Held(r) + input[..n])
  {
    var (buf, offset) := if r.pending.None? then (Zeros(FRAME), 0) else r.pending.value;
    assert buf[..offset] == Held(r) && |Held(r)| == offset;
    var n := Least(count, Least(|input|, FRAME - offset));
    var filled := Fill(buf, offset, input, n);
    assert filled[..offset + n] == buf[..offset] + input[..n];
    if offset + n == FRAME { assert filled[..offset + n] == filled; }
  }

  /** A poll that is not ready takes nothing; if it fails, what was held is lost. */
  lemma ReceiveIdles(r: Reader, input: seq<byte>, poll: Poll)
    requires ReaderOk(r) && !poll.Ready?
    ensures var (q, left, result) := Receive(r, input, poll);
      && left == input && ReaderOk(q)
      && (poll.Pending? ==> result.ReadEmpty? && Held(q) == Held(r))
      && (poll.Error? ==> result.ReadFailed? && Held(q) == [])
  {
  }

  /** A receive keeps every byte: what it takes off the input it returns or holds, in order. */
  lemma ReceiveCarries(r: Reader, input: seq<byte>, poll: Poll)
    requires ReaderOk(r) && !poll.Error?
    ensures var (q, left, result) := Receive(r, input, poll);
      && ReaderOk(q)
      && (result.Payload? ==> |result.payload| == FRAME && q.pending.None? && result.payload + left == Held(r) + input)
      && (!result.Payload? ==> result.ReadEmpty? && Held(q) + left == Held(r) + input)
  {
    if poll.Ready? {
      hide Fill;
      var (buf, offset) := if r.pending.None? then (Zeros(FRAME), 0) else r.pending.value;
      assert buf[..offset] == Held(r);
      var n := Least(poll.count, Least(|input|, |buf| - offset));
      FillCarries(buf, offset, input, n);
      var filled := Fill(buf, offset, input, n);
      assert offset + n == |filled| ==> filled[..offset + n] == filled;
    }
  }
}
