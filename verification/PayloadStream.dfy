/** Payloads sent through the poll-based stream: a generator feeds the writer, a checker takes what the
    reader returns. */
module PayloadStream {
  import opened Basics
  import opened PollStream
  import opened Payloads

  /** Generator, writer, socket, reader and checker. A payload that was handed back is sent again. */
  datatype System = System(
    genPat: byte,
    held: Option<seq<byte>>,
    writer: Writer,
    taken: nat,
    reader: Reader,
    checkPat: byte,
    accepted: seq<seq<byte>>,
    returned: seq<seq<byte>>,
    passed: bool)

  const START: System := System(FIRST_PAT, None, NewWriter, 0, Reader(None), FIRST_PAT, [], [], true)

  datatype Event = SendNext(first: Poll, second: Poll) | ReceiveNext(poll: Poll)

  predicate ErrorFree(e: Event) {
    match e
    case SendNext(first, second) => !first.Error? && !second.Error?
    case ReceiveNext(poll) => !poll.Error?
  }

  predicate AllErrorFree(es: seq<Event>) { forall i :: 0 <= i < |es| ==> ErrorFree(es[i]) }

  /** The payload a send is made with, and the generator's pattern then. */
  function Offered(s: System): (seq<byte>, byte) {
    if s.held.Some? then (s.held.value, s.genPat) else (Pattern(Next(s.genPat)), Next(s.genPat))
  }

  function SendStep(s: System, first: Poll, second: Poll): System {
    var (payload, pat) := Offered(s);
    var (w, r) := Send(s.writer, payload, first, second);
    if r.SendFull? then s.(genPat := pat, writer := w, held := Some(r.payload))
    else s.(genPat := pat, writer := w, held := None, accepted := s.accepted + [payload])
  }

  function ReceiveStep(s: System, poll: Poll): System
    requires s.taken <= |s.writer.wire| && ReaderOk(s.reader)
  {
    var (q, left, result) := Receive(s.reader, s.writer.wire[s.taken..], poll);
    var t := s.(reader := q, taken := |s.writer.wire| - |left|);
    if !result.Payload? then t else
      t.(returned := s.returned + [result.payload], checkPat := Next(s.checkPat),
         passed := s.passed && Passes(s.checkPat, result.payload))
  }

  // ----- the invariant -----

  /** The pattern of the k-th payload, counting from 0; patterns wrap around after 255. */
  function PatAt(k: nat): byte { ((11 + k) % 256) as byte }

  lemma PatStep(k: nat)
    ensures Next(PatAt(k)) == PatAt(k + 1) && Next(FIRST_PAT) == PatAt(0)
  {
  }

  /** The pattern of the payload before the k-th. */
  function PatBefore(k: nat): byte { if k == 0 then FIRST_PAT else PatAt(k - 1) }

  ghost predicate InSequence(ps: seq<seq<byte>>) {
    forall k :: 0 <= k < |ps| ==> ps[k] == Pattern(PatAt(k))
  }

  ghost predicate WriterSide(s: System) {
    && (s.writer.pending.Some? ==> s.writer.pending.value != [])
    && Carried(s.writer) == Concat(s.accepted)
    && InSequence(s.accepted)
    && (s.held.Some? ==> s.held.value == Pattern(PatAt(|s.accepted|)) && s.genPat == PatAt(|s.accepted|))
    && (s.held.None? ==> s.genPat == PatBefore(|s.accepted|))
  }

  ghost predicate ReaderSide(s: System) {
    && ReaderOk(s.reader)
    && s.taken <= |s.writer.wire|
    && Concat(s.returned) + Held(s.reader) == s.writer.wire[..s.taken]
    && AllFrames(s.returned)
    && s.checkPat == PatBefore(|s.returned|)
    && s.passed
  }

  ghost predicate AllFrames(ps: seq<seq<byte>>) {
    forall k :: 0 <= k < |ps| ==> |ps[k]| == FRAME
  }

  lemma OfferedNext(s: System)
    requires WriterSide(s)
    ensures Offered(s) == (Pattern(PatAt(|s.accepted|)), PatAt(|s.accepted|))
  {
    hide Pattern, Concat, Carried;
    PatStep(|s.accepted|);
    if s.accepted != [] { PatStep(|s.accepted| - 1); }
  }

  lemma SendKeeps(s: System, first: Poll, second: Poll)
    requires WriterSide(s) && ReaderSide(s) && !first.Error? && !second.Error?
    ensures WriterSide(SendStep(s, first, second)) && ReaderSide(SendStep(s, first, second))
  {
    hide Send, Concat, Pattern, Carried, PatAt, Held;
    OfferedNext(s);
    var payload := Offered(s).0;
    assert payload != [];
    SendCarries(s.writer, Call(payload, first, second));
    SendGrowsWire(s.writer, payload, first, second);
    ConcatSnoc(s.accepted, payload);
    var u := SendStep(s, first, second);
    assert u.writer.wire[..s.taken] == s.writer.wire[..s.taken];
    assert s.accepted != [] ==> |s.accepted| - 1 + 1 == |s.accepted|;
  }

  lemma SendGrowsWire(w: Writer, payload: seq<byte>, first: Poll, second: Poll)
    ensures w.wire <= Send(w, payload, first, second).0.wire
  {
  }

  lemma {:induction false} ConcatLength(ps: seq<seq<byte>>)
    requires AllFrames(ps)
    ensures |Concat(ps)| == |ps| * FRAME
  {
    if ps != [] { ConcatLength(ps[..|ps| - 1]); }
  }

  lemma {:induction false} ConcatPrefix(ps: seq<seq<byte>>, n: nat)
    requires n <= |ps|
    ensures Concat(ps[..n]) <= Concat(ps)
  {
    if n == |ps| {
      assert ps[..n] == ps;
    } else {
      ConcatPrefix(ps[..|ps| - 1], n);
      assert ps[..|ps| - 1][..n] == ps[..n];
    }
  }

  /** Frames cut from the front of a concatenation of frames are those frames. */
  lemma {:induction false} FramesAlign(a: seq<seq<byte>>, b: seq<seq<byte>>)
    requires AllFrames(a) && AllFrames(b) && Concat(a) <= Concat(b)
    ensures a <= b
  {
    ConcatLength(a);
    ConcatLength(b);
    if a != [] {
      var n := |a| - 1;
      assert Concat(a[..n]) <= Concat(a);
      FramesAlign(a[..n], b);
      LastFrame(a, b, n);
    }
  }

  lemma LastFrame(a: seq<seq<byte>>, b: seq<seq<byte>>, n: nat)
    requires AllFrames(a) && AllFrames(b) && |a| == n + 1 && n < |b| && a[..n] == b[..n]
    requires Concat(a) <= Concat(b)
    ensures a <= b
  {
    ConcatPrefix(b, n + 1);
    assert b[..n + 1][..n] == b[..n];
    SameTail(Concat(a[..n]), a[n], b[n], Concat(b));
    hide Concat;
    assert a == a[..n] + [a[n]];
  }

  lemma SameTail(x: seq<byte>, y: seq<byte>, z: seq<byte>, all: seq<byte>)
    requires x + y <= all && x + z <= all && |y| == |z|
    ensures y == z
  {
    assert y == all[|x|..|x| + |y|] && z == all[|x|..|x| + |y|];
  }

  /** What the reader has returned so far is a prefix of what was accepted. */
  lemma ReturnedArePrefix(s: System)
    requires WriterSide(s) && ReaderSide(s)
    ensures s.returned <= s.accepted
  {
    assert Concat(s.returned) <= s.writer.wire;
    assert s.writer.wire <= Carried(s.writer);
    FramesAlign(s.returned, s.accepted);
  }

  /** What is returned and held after a receive is what was taken off the wire, in order. */
  lemma ReceiveBytes(s: System, poll: Poll)
    requires ReaderSide(s) && !poll.Error?
    ensures var u := ReceiveStep(s, poll);
      && ReaderOk(u.reader)
      && u.taken <= |s.writer.wire|
      && Concat(u.returned) + Held(u.reader) == s.writer.wire[..u.taken]
      && AllFrames(u.returned)
  {
    hide Receive, Concat, Held, Passes, ReaderOk;
    var input := s.writer.wire[s.taken..];
    ReceiveCarries(s.reader, input, poll);
    var (q, left, result) := Receive(s.reader, input, poll);
    var c, h := Concat(s.returned), Held(s.reader);
    if result.Payload? {
      ConcatSnoc(s.returned, result.payload);
      HeldNothing(q);
      Consumed(s.writer.wire, s.taken, c, h, result.payload, [], left);
    } else {
      Consumed(s.writer.wire, s.taken, c, h, [], Held(q), left);
    }
  }

  lemma ReceiveKeeps(s: System, poll: Poll)
    requires WriterSide(s) && ReaderSide(s) && !poll.Error?
    ensures WriterSide(ReceiveStep(s, poll)) && ReaderSide(ReceiveStep(s, poll))
  {
    hide Receive, Concat, Pattern, Held, Passes, Carried, PatAt, ReaderOk;
    ReceiveBytes(s, poll);
    var result := Receive(s.reader, s.writer.wire[s.taken..], poll).2;
    if result.Payload? { ReturnedPasses(s, ReceiveStep(s, poll), result.payload); }
  }

  lemma HeldNothing(q: Reader)
    requires ReaderOk(q) && q.pending.None?
    ensures Held(q) == []
  {
  }

  /** With `out` returned and `held` held before, `more` returned now and `held'` held after. */
  lemma Consumed(
      wire: seq<byte>, taken: nat, out: seq<byte>, held: seq<byte>, more: seq<byte>, held': seq<byte>, left: seq<byte>)
    requires taken <= |wire| && out + held == wire[..taken] && |left| <= |wire| - taken
    requires more + held' + left == held + wire[taken..]
    ensures out + more + held' == wire[..|wire| - |left|]
  {
    var all := out + (held + wire[taken..]);
    assert all == wire;
    assert all == (out + more + held') + left;
    assert out + more + held' == all[..|wire| - |left|];
  }

  /** A payload just returned is the next one accepted, so it passes. */
  lemma ReturnedPasses(s: System, u: System, payload: seq<byte>)
    requires WriterSide(s) && s.checkPat == PatBefore(|s.returned|) && AllFrames(s.returned)
    requires u.writer == s.writer && u.accepted == s.accepted
    requires u.returned == s.returned + [payload] && |payload| == FRAME
    requires u.taken <= |u.writer.wire| && ReaderOk(u.reader)
    requires Concat(u.returned) + Held(u.reader) == u.writer.wire[..u.taken]
    ensures payload != [] && Passes(s.checkPat, payload)
    ensures Next(s.checkPat) == PatBefore(|u.returned|)
  {
    hide Held;
    var k := |s.returned|;
    assert Concat(u.returned) <= u.writer.wire;
    assert u.writer.wire <= Carried(u.writer);
    hide Concat;
    FramesAlign(u.returned, u.accepted);
    assert u.returned[k] == payload && u.accepted[k] == payload;
    PatStep(k);
    if k > 0 { PatStep(k - 1); }
  }

  // ----- every schedule -----

  function Apply(s: System, e: Event): System
    requires s.taken <= |s.writer.wire| && ReaderOk(s.reader)
  {
    match e
    case SendNext(first, second) => SendStep(s, first, second)
    case ReceiveNext(poll) => ReceiveStep(s, poll)
  }

  ghost predicate Sound(s: System) { WriterSide(s) && ReaderSide(s) }

  ghost function Run(es: seq<Event>): (s: System)
    requires AllErrorFree(es)
    ensures Sound(s)
  {
    if es == [] then StartSound(); START else
      var before := Run(es[..|es| - 1]);
      ApplySound(before, es[|es| - 1]);
      Apply(before, es[|es| - 1])
  }

  lemma StartSound()
    ensures Sound(START)
  {
  }

  lemma ApplySound(s: System, e: Event)
    requires Sound(s) && ErrorFree(e)
    ensures Sound(Apply(s, e))
  {
    hide WriterSide, ReaderSide, SendStep, ReceiveStep;
    assert WriterSide(s) && ReaderSide(s);
    match e
    case SendNext(first, second) => SendKeeps(s, first, second);
    case ReceiveNext(poll) => ReceiveKeeps(s, poll);
  }

  /** Every whole frame taken off the wire has been returned. */
  lemma ReturnedCount(s: System)
    requires Sound(s)
    ensures |s.returned| == s.taken / FRAME
    ensures s.writer.pending.None? && s.taken == |s.writer.wire| ==> |s.returned| == |s.accepted|
  {
    hide Concat, Pattern, PatAt;
    ConcatLength(s.returned);
    ConcatLength(s.accepted);
    WholeFrames(s.taken, |s.returned|, |Held(s.reader)|);
    if s.writer.pending.None? && s.taken == |s.writer.wire| {
      assert Carried(s.writer) == s.writer.wire;
      WholeFrames(s.taken, |s.accepted|, 0);
    }
  }

  lemma WholeFrames(total: nat, n: nat, rest: nat)
    requires rest < FRAME && total == n * FRAME + rest
    ensures total / FRAME == n
  {
  }

  /** However writes and reads are split: what the reader has returned is the whole frames taken off
      the wire and a prefix of what the writer accepted, all of it once nothing is left pending or
      unread; the accepted payloads are the generator's, in order; and no check fails. */
  lemma EndToEnd(es: seq<Event>)
    requires AllErrorFree(es)
    ensures var s := Run(es);
      && s.returned <= s.accepted
      && |s.returned| == s.taken / FRAME
      && (s.writer.pending.None? && s.taken == |s.writer.wire| ==> s.returned == s.accepted)
      && (forall k :: 0 <= k < |s.accepted| ==> s.accepted[k] == Pattern(PatAt(k)))
      && s.passed
  {
    hide Run, PatAt;
    var s := Run(es);
    ReturnedArePrefix(s);
    ReturnedCount(s);
    assert |s.returned| == |s.accepted| && s.returned <= s.accepted ==> s.returned == s.accepted;
  }

  // ----- progress -----

  /** The first poll of the send, or the poll of the receive, is ready for something. */
  predicate ReadySend(e: Event) { e.SendNext? && e.first.Ready? && e.first.count > 0 }

  predicate ReadyReceive(e: Event) { e.ReceiveNext? && e.poll.Ready? && e.poll.count > 0 }

  function CountSends(es: seq<Event>): nat {
    if es == [] then 0 else CountSends(es[..|es| - 1]) + if ReadySend(es[|es| - 1]) then 1 else 0
  }

  function CountReceives(es: seq<Event>): nat {
    if es == [] then 0 else CountReceives(es[..|es| - 1]) + if ReadyReceive(es[|es| - 1]) then 1 else 0
  }

  lemma RunSnoc(es: seq<Event>, e: Event)
    requires AllErrorFree(es) && ErrorFree(e)
    ensures AllErrorFree(es + [e]) && Sound(Run(es)) && Run(es + [e]) == Apply(Run(es), e)
  {
    hide WriterSide, Concat, Held, SendStep, ReceiveStep;
    assert (es + [e])[..|es|] == es;
  }

  /** The last event of a longer schedule. */
  lemma RunLast(es: seq<Event>, more: seq<Event>)
    requires AllErrorFree(es) && AllErrorFree(more) && more != []
    ensures var n := |more| - 1;
      && AllErrorFree(es + more) && AllErrorFree(es + more[..n])
      && Sound(Run(es + more[..n]))
      && Run(es + more) == Apply(Run(es + more[..n]), more[n])
  {
    hide Sound, Apply, Run;
    var n := |more| - 1;
    assert es + more == (es + more[..n]) + [more[n]];
    RunSnoc(es + more[..n], more[n]);
  }

  lemma RunNothing(es: seq<Event>)
    requires AllErrorFree(es)
    ensures es + [] == es && Run(es + []) == Run(es)
  {
    assert es + [] == es;
  }

  /** A poll that is ready for something moves bytes that are pending. */
  lemma SendMoves(w: Writer, payload: seq<byte>, first: Poll, second: Poll)
    requires w.pending.Some? && w.pending.value != [] && first.Ready? && first.count > 0
    ensures |Send(w, payload, first, second).0.wire| > |w.wire|
  {
    ProcessWriteMoves(w, first.count);
  }

  /** Nothing accepted is forgotten and nothing on the wire is taken back; while bytes accepted earlier are
      pending, a ready send puts some of them on the wire. */
  lemma EventWires(s: System, e: Event, earlier: seq<seq<byte>>)
    requires Sound(s) && ErrorFree(e) && earlier <= s.accepted
    ensures var u := Apply(s, e);
      && earlier <= u.accepted
      && |u.writer.wire| >= |s.writer.wire|
      && (ReadySend(e) ==> |u.writer.wire| >= Least(|Concat(earlier)|, |s.writer.wire| + 1))
  {
    hide Send, Receive, Concat, Pattern, PatAt, Held, Passes;
    if e.SendNext? {
      var payload := Offered(s).0;
      SendGrowsWire(s.writer, payload, e.first, e.second);
      if ReadySend(e) && |s.writer.wire| < |Concat(earlier)| {
        ConcatPrefix(s.accepted, |earlier|);
        assert s.accepted[..|earlier|] == earlier;
        SendMoves(s.writer, payload, e.first, e.second);
      }
    }
  }

  /** Every ready send wires a byte of what was accepted before, as long as there is one. */
  lemma {:induction false} AcceptedIsWired(es: seq<Event>, more: seq<Event>)
    requires AllErrorFree(es) && AllErrorFree(more)
    ensures AllErrorFree(es + more)
    ensures var s, u := Run(es), Run(es + more);
      && s.accepted <= u.accepted
      && |u.writer.wire| >= Least(|Concat(s.accepted)|, |s.writer.wire| + CountSends(more))
    decreases |more|
  {
    hide Sound, Run, Apply, Concat, ReadySend;
    if more == [] {
      RunNothing(es);
    } else {
      var n := |more| - 1;
      AcceptedIsWired(es, more[..n]);
      RunLast(es, more);
      EventWires(Run(es + more[..n]), more[n], Run(es).accepted);
    }
  }

  /** While bytes are unread, a ready receive takes some. */
  lemma EventTakes(s: System, e: Event, wired: nat)
    requires Sound(s) && ErrorFree(e) && wired <= |s.writer.wire|
    ensures var u := Apply(s, e);
      && wired <= |u.writer.wire|
      && u.taken >= s.taken
      && (ReadyReceive(e) ==> u.taken >= Least(wired, s.taken + 1))
  {
    hide Send, Receive, Concat, Pattern, PatAt, Passes;
    if e.SendNext? {
      SendGrowsWire(s.writer, Offered(s).0, e.first, e.second);
    } else if ReadyReceive(e) {
      ReceiveMoves(s.reader, s.writer.wire[s.taken..], e.poll.count);
      HeldShort(s.reader);
    }
  }

  lemma HeldShort(r: Reader)
    requires ReaderOk(r)
    ensures |Held(r)| < FRAME
  {
  }

  lemma {:induction false} WiredIsTaken(es: seq<Event>, more: seq<Event>, wired: nat)
    requires AllErrorFree(es) && AllErrorFree(more) && wired <= |Run(es).writer.wire|
    ensures AllErrorFree(es + more)
    ensures var s, u := Run(es), Run(es + more);
      wired <= |u.writer.wire| && u.taken >= Least(wired, s.taken + CountReceives(more))
    decreases |more|
  {
    hide Sound, Run, Apply, ReadyReceive;
    if more == [] {
      RunNothing(es);
    } else {
      var n := |more| - 1;
      WiredIsTaken(es, more[..n], wired);
      RunLast(es, more);
      EventTakes(Run(es + more[..n]), more[n], wired);
    }
  }

  /** What was accepted and has been taken has been returned. */
  lemma TakenIsReturned(s: System, earlier: seq<seq<byte>>)
    requires Sound(s) && earlier <= s.accepted && |Concat(earlier)| <= s.taken
    ensures earlier <= s.returned
  {
    hide Pattern, PatAt;
    ReturnedArePrefix(s);
    ReturnedCount(s);
    assert AllFrames(earlier);
    ConcatLength(earlier);
    hide Concat;
    assert |earlier| <= |s.returned|;
  }

  /** Progress: whatever happened so far, and however writes and reads go on, everything accepted so far is
      returned after as many sends ready for something as bytes were pending, and then as many receives
      ready for something as bytes were accepted. */
  lemma Delivered(es: seq<Event>, sends: seq<Event>, receives: seq<Event>)
    requires AllErrorFree(es) && AllErrorFree(sends) && AllErrorFree(receives)
    requires CountSends(sends) >= |PendingBytes(Run(es).writer)|
    requires CountReceives(receives) >= |Concat(Run(es).accepted)|
    ensures AllErrorFree(es + sends + receives)
    ensures Run(es).accepted <= Run(es + sends + receives).returned
  {
    hide Sound, Run, Concat, Apply;
    var s := Run(es);
    assert |Carried(s.writer)| == |Concat(s.accepted)| by { CarriedIs(s); }
    AcceptedIsWired(es, sends);
    var wired := |Concat(s.accepted)|;
    WiredIsTaken(es + sends, receives, wired);
    AcceptedIsWired(es + sends, receives);
    TakenIsReturned(Run(es + sends + receives), s.accepted);
  }

  lemma CarriedIs(s: System)
    requires Sound(s)
    ensures Carried(s.writer) == Concat(s.accepted)
  {
  }

  predicate OnlyReceives(es: seq<Event>) { forall i :: 0 <= i < |es| ==> es[i].ReceiveNext? }

  lemma {:induction false} ReceivesAcceptNothing(es: seq<Event>, more: seq<Event>)
    requires AllErrorFree(es) && AllErrorFree(more) && OnlyReceives(more)
    ensures AllErrorFree(es + more) && Run(es + more).accepted == Run(es).accepted
    decreases |more|
  {
    hide Sound, Run, Receive;
    if more == [] {
      RunNothing(es);
    } else {
      ReceivesAcceptNothing(es, more[..|more| - 1]);
      RunLast(es, more);
      SoundReads(Run(es + more[..|more| - 1]));
    }
  }

  lemma SoundReads(s: System)
    requires Sound(s)
    ensures s.taken <= |s.writer.wire| && ReaderOk(s.reader)
  {
  }

  /** Quiescence: after a send whose polls are ready for all there is, and enough ready receives, exactly what
      was accepted is returned, the payload of that send included. */
  lemma Quiesces(es: seq<Event>, first: nat, second: nat, receives: seq<Event>)
    requires AllErrorFree(es) && AllErrorFree(receives) && OnlyReceives(receives)
    requires first >= FRAME && second >= FRAME && first >= |PendingBytes(Run(es).writer)|
    requires CountReceives(receives) >= (|Run(es).accepted| + 1) * FRAME
    ensures var all := es + [SendNext(Ready(first), Ready(second))] + receives;
      && AllErrorFree(all)
      && Run(all).returned == Run(all).accepted == Run(es).accepted + [Offered(Run(es)).0]
  {
    hide Sound, Run, Concat, Send, Pattern;
    var e := SendNext(Ready(first), Ready(second));
    var s, sent := Run(es), es + [e];
    assert [e][..0] == [] && AllErrorFree([e]);
    RunLast(es, [e]);
    RunNothing(es);
    var u := Run(sent);
    FlushedSend(s, first, second);
    assert u.accepted == s.accepted + [Offered(s).0] && u.writer.pending.None?;
    assert |Concat(u.accepted)| == (|s.accepted| + 1) * FRAME by { SoundLength(u); }
    assert CountSends([]) == 0;
    assert AllErrorFree(sent + []) && sent + [] == sent;
    Delivered(sent, [], receives);
    ReceivesAcceptNothing(sent, receives);
    ReturnedArePrefix(Run(sent + receives)) by { SoundIs(Run(sent + receives)); }
  }

  lemma SoundIs(s: System)
    requires Sound(s)
    ensures WriterSide(s) && ReaderSide(s)
  {
  }

  lemma SoundLength(s: System)
    requires Sound(s)
    ensures |Concat(s.accepted)| == |s.accepted| * FRAME
  {
    hide PatAt, Pattern;
    ConcatLength(s.accepted);
  }

  lemma FlushedSend(s: System, first: nat, second: nat)
    requires Sound(s) && first >= FRAME && second >= FRAME && first >= |PendingBytes(s.writer)|
    ensures var u := SendStep(s, Ready(first), Ready(second));
      u.writer.pending.None? && u.accepted == s.accepted + [Offered(s).0]
  {
    hide Send, PatAt, Concat;
    OfferedNext(s);
    SendFlushes(s.writer, Offered(s).0, first, second);
  }
}
