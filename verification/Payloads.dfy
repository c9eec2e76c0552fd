/** The payloads of the stream: each is one byte, the pattern, all the way through, and patterns count
    up and wrap around. */
module Payloads {
  import opened Basics

  const FRAME: nat := 1024 * 192
  const FIRST_PAT: byte := 10

  function Next(pat: byte): byte {
    if pat == 255 then 0 else pat + 1
  }

  function Pattern(pat: byte): (p: seq<byte>)
    ensures |p| == FRAME && forall i :: 0 <= i < FRAME ==> p[i] == pat
  {
    seq(FRAME, i => pat)
  }

  /** What the checker asserts: all bytes alike, and of the pattern after `pat`. */
  predicate Passes(pat: byte, payload: seq<byte>) {
    payload != [] && (forall i :: 0 <= i < |payload| ==> payload[i] == payload[0]) && payload[0] == Next(pat)
  }

  class PayloadGenerator {
    var pat: byte
    const payloadSize: nat := FRAME

    constructor ()
      ensures pat == FIRST_PAT
    {
      pat := FIRST_PAT;
    }

    method Generate() returns (payload: seq<byte>)
      modifies this
      ensures pat == Next(old(pat)) && payload == Pattern(pat)
      ensures Passes(old(pat), payload)
    {
      pat := if pat == 255 then 0 else pat + 1;
      var fill := pat;
      payload := seq(payloadSize, i => fill);
    }
  }

  class PayloadChecker {
    var pat: byte

    constructor ()
      ensures pat == FIRST_PAT
    {
      pat := FIRST_PAT;
    }

    /** `passed` is false where an assertion fails. */
    method Check(payload: seq<byte>) returns (passed: bool)
      modifies this
      ensures pat == Next(old(pat))
      ensures passed <==> Passes(old(pat), payload)
    {
      pat := if pat == 255 then 0 else pat + 1;
      if payload == [] { return false; }
      var count := CountFirst(payload);
      passed := count == |payload| && payload[0] == pat;
      for i := 0 to |payload|
        invariant passed ==> count == |payload| && payload[0] == pat
        invariant count == |payload| && payload[0] == pat ==> passed
        invariant pat == Next(old(pat))
      {
        passed := passed && payload[i] == payload[0];
      }
    }
  }

  /** How many bytes equal the first. */
  method CountFirst(payload: seq<byte>) returns (count: nat)
    requires payload != []
    ensures count == |payload| <==> forall k :: 0 <= k < |payload| ==> payload[k] == payload[0]
  {
    count := 0;
    for i := 0 to |payload|
      invariant count <= i
      invariant count == i <==> forall k :: 0 <= k < i ==> payload[k] == payload[0]
    {
      if payload[i] == payload[0] { count := count + 1; }
    }
  }
}
