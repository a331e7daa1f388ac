/** The serving side's reply (server-go/bus/module_runtime.go, replyModuleResult and
    invalidModuleRequest): fragment a result and retry each fragment while the ring is full. */
module Reply {
  import opened LittleEndian
  import opened ModuleProtocol
  import opened Fragments

  /** What one attempt to emit a fragment meets; a full ring is followed by a pause after
      which the context may be done or the host epoch may have moved. */
  datatype Attempt = Accepts | Full(pause: Pause) | Refuses
  datatype Pause = Retry | ContextDone | EpochMoved

  datatype Outcome = Replied | BadBudget | EncodeFailed | Refused | Cancelled | Epoch

  datatype SentReply = SentReply(kind: u32, correlation: u64, payload: seq<byte>, more: bool)

  /** The bus as replyModuleResult sees it. The script is what successive attempts meet; a run
      that returns makes finitely many of them, and a script that ends is a refusal. */
  class Bus {
    const budget: u32
    var script: seq<Attempt>
    var sent: seq<SentReply>

    constructor (budget: u32, script: seq<Attempt>)
      ensures this.budget == budget && this.script == script && sent == []
    {
      this.budget := budget;
      this.script := script;
      this.sent := [];
    }

    method ReplyFragment(kind: u32, correlation: u64, payload: seq<byte>, more: bool) returns (a: Attempt)
      modifies this
      ensures a == if old(script) == [] then Refuses else old(script)[0]
      ensures script == if old(script) == [] then [] else old(script)[1..]
      ensures sent == if a == Accepts then old(sent) + [SentReply(kind, correlation, payload, more)] else old(sent)
    {
      a := Refuses;
      if script != [] {
        a := script[0];
        script := script[1..];
      }
      if a == Accepts {
        sent := sent + [SentReply(kind, correlation, payload, more)];
      }
    }
  }

  /** The status and body that actually go out: an unknown status or an oversized body is
      Internal, and only OK keeps its body. */
  function EffectiveStatus(status: u16, body: seq<byte>): (s: u16)
    ensures s <= STATUS_INTERNAL
    ensures status <= STATUS_INTERNAL && |body| <= MAX_BODY ==> s == status
    ensures status > STATUS_INTERNAL || |body| > MAX_BODY ==> s == STATUS_INTERNAL
  {
    if status > STATUS_INTERNAL || |body| > MAX_BODY then STATUS_INTERNAL else status
  }

  function EffectiveBody(status: u16, body: seq<byte>): (b: seq<byte>)
    ensures |b| <= MAX_BODY
    ensures EffectiveStatus(status, body) != STATUS_OK ==> b == []
    ensures status == STATUS_OK && |body| <= MAX_BODY ==> b == body
  {
    if EffectiveStatus(status, body) == STATUS_OK then body else []
  }

  function ChunkOf(budget: u32): (chunk: nat)
    requires budget > HEADER_LEN
    ensures 0 < chunk < 0x1_0000_0000
  {
    budget - HEADER_LEN
  }

  /** The fragments that carry a result. */
  function ResultFragments(stageID: u32, traceID: u64, status: u16, body: seq<byte>, chunk: nat): seq<Fragment>
    requires 0 < chunk < 0x1_0000_0000
  {
    Cut(Answer(EffectiveStatus(status, body), stageID, traceID), EffectiveBody(status, body), chunk)
  }

  function Addressed(kind: u32, correlation: u64, fs: seq<Fragment>): (rs: seq<SentReply>)
    ensures |rs| == |fs|
  {
    seq(|fs|, i requires 0 <= i < |fs| => SentReply(kind, correlation, fs[i].payload, fs[i].more))
  }

  /** Attempts of a script that are accepted. */
  function Accepted(script: seq<Attempt>): nat {
    if script == [] then 0 else (if script[0] == Accepts then 1 else 0) + Accepted(script[1..])
  }

  /** What delivering n fragments against a script of attempts comes to, and how many are taken. */
  function Delivered(script: seq<Attempt>, n: nat): (d: (Outcome, nat))
    ensures d.1 <= n && (d.0 == Replied <==> d.1 == n)
    ensures d.0 == Replied || d.0 == Refused || d.0 == Cancelled || d.0 == Epoch
  {
    if n == 0 then (Replied, 0)
    else if script == [] then (Refused, 0)
    else match script[0]
      case Accepts => var d := Delivered(script[1..], n - 1); (d.0, d.1 + 1)
      case Refuses => (Refused, 0)
      case Full(Retry) => Delivered(script[1..], n)
      case Full(ContextDone) => (Cancelled, 0)
      case Full(EpochMoved) => (Epoch, 0)
  }

  /** One fragment of any number still to be delivered was attempted with outcome r. */
  ghost predicate Attempted(before: seq<Attempt>, after: seq<Attempt>, r: Outcome) {
    forall n: nat :: n > 0 ==>
      Delivered(before, n) == if r == Replied then (Delivered(after, n - 1).0, Delivered(after, n - 1).1 + 1) else (r, 0)
  }

  /** Attempt i stops the delivery: all before it were taken or found the ring full for a while. */
  ghost predicate StopsAt(script: seq<Attempt>, i: nat, taken: nat, r: Outcome) {
    && i <= |script| && OnlyBusy(script[..i]) && Accepted(script[..i]) == taken
    && if i == |script| then r == Refused
       else (r == Refused && script[i] == Refuses) || (r == Cancelled && script[i] == Full(ContextDone))
            || (r == Epoch && script[i] == Full(EpochMoved))
  }

  /** A delivery that fails names the attempt that stopped it, and sent what was taken before. */
  lemma {:induction false} FailureHasReason(script: seq<Attempt>, n: nat) returns (i: nat)
    requires Delivered(script, n).0 != Replied
    ensures StopsAt(script, i, Delivered(script, n).1, Delivered(script, n).0)
  {
    if script == [] || (script[0] != Accepts && script[0] != Full(Retry)) {
      i := 0;
      assert script[..0] == [];
    } else {
      var k := FailureHasReason(script[1..], if script[0] == Accepts then n - 1 else n);
      i := k + 1;
      assert script[..i] == [script[0]] + script[1..][..k];
      assert script[..i][1..] == script[1..][..k];
    }
  }

  /** And it fails for no other reason: a script that only ever finds the ring full for a while, and
      is taken often enough, delivers everything. */
  lemma {:induction false} BusyDelivers(script: seq<Attempt>, n: nat)
    requires OnlyBusy(script) && Accepted(script) >= n
    ensures Delivered(script, n).0 == Replied
  {
    if n > 0 {
      assert OnlyBusy(script[1..]);
      BusyDelivers(script[1..], if script[0] == Accepts then n - 1 else n);
    }
  }

  /** A ring that is only ever full for a while. */
  ghost predicate OnlyBusy(script: seq<Attempt>) {
    forall i :: 0 <= i < |script| ==> script[i] == Accepts || script[i] == Full(Retry)
  }

  lemma ResultsAreValid(status: u16, stageID: u32, traceID: u64)
    requires status <= STATUS_INTERNAL
    ensures Answer(status, stageID, traceID).Valid() <==> stageID != 0
  {
  }

  /** Every fragment of a reply is a result message of the stage and trace it answers, with the
      effective status and its piece of the body, and all but the last announce more. */
  lemma FragmentSays(stageID: u32, traceID: u64, status: u16, body: seq<byte>, chunk: nat, i: nat)
    requires stageID != 0 && 0 < chunk < 0x1_0000_0000
    requires i < |ResultFragments(stageID, traceID, status, body, chunk)|
    ensures var f, parts := ResultFragments(stageID, traceID, status, body, chunk)[i], Split(EffectiveBody(status, body), chunk);
      && i < |parts| && |parts[i]| <= MAX_BODY && f.more == (i + 1 < |parts|)
      && Decode(f.payload) == Decoded.Message(
           Message.Message(2, EffectiveStatus(status, body), stageID, 0, |parts[i]|, 0, traceID))
      && f.payload[HEADER_LEN..] == parts[i]
  {
    hide Split, Payload, Decode, EffectiveStatus, EffectiveBody;
    var st, bd := EffectiveStatus(status, body), EffectiveBody(status, body);
    CutAt(Answer(st, stageID, traceID), bd, chunk, i);
    PieceWithin(bd, chunk, i);
    ResultsAreValid(st, stageID, traceID);
    PayloadDecodes(Answer(st, stageID, traceID), Split(bd, chunk)[i]);
    PayloadTail(Answer(st, stageID, traceID), Split(bd, chunk)[i]);
  }

  /** Every fragment but the last fills the inline budget exactly. */
  lemma FullButLast(stageID: u32, traceID: u64, status: u16, body: seq<byte>, budget: u32, i: nat)
    requires stageID != 0 && budget > HEADER_LEN && i < |ResultFragments(stageID, traceID, status, body, ChunkOf(budget))|
    ensures var f := ResultFragments(stageID, traceID, status, body, ChunkOf(budget))[i];
      |f.payload| <= budget && (f.more ==> |f.payload| == budget)
  {
    hide Split, Payload, EffectiveStatus, EffectiveBody;
    var st, bd := EffectiveStatus(status, body), EffectiveBody(status, body);
    CutAt(Answer(st, stageID, traceID), bd, ChunkOf(budget), i);
    SplitSizes(bd, ChunkOf(budget), i);
    PayloadSize(Answer(st, stageID, traceID), Split(bd, ChunkOf(budget))[i]);
  }

  lemma {:induction false} PieceWithin(body: seq<byte>, chunk: nat, i: nat)
    requires chunk > 0 && i < |Split(body, chunk)|
    ensures |Split(body, chunk)[i]| <= |body|
    decreases |body|
  {
    if |body| > chunk && i > 0 {
      PieceWithin(body[chunk..], chunk, i - 1);
    }
  }

  /** Emits every fragment of a result exactly once and in order, or a proper prefix of them
      and then fails; with enough room eventually, it never fails. */
  method ReplyModuleResult(bus: Bus, kind: u32, correlation: u64, stageID: u32, traceID: u64, status: u16,
                           body: seq<byte>)
    returns (r: Outcome)
    modifies bus
    ensures r == BadBudget <==> bus.budget <= HEADER_LEN
    ensures r == BadBudget ==> bus.sent == old(bus.sent)
    ensures stageID != 0 ==> r != EncodeFailed
    ensures bus.budget > HEADER_LEN ==>
      var rs := Addressed(kind, correlation, ResultFragments(stageID, traceID, status, body, ChunkOf(bus.budget)));
      && |old(bus.sent)| <= |bus.sent| <= |old(bus.sent)| + |rs|
      && bus.sent == old(bus.sent) + rs[..|bus.sent| - |old(bus.sent)|]
      && (r == Replied <==> |bus.sent| == |old(bus.sent)| + |rs|)
      && (stageID != 0 ==> (r, |bus.sent| - |old(bus.sent)|) == Delivered(old(bus.script), |rs|))
      && (stageID != 0 && OnlyBusy(old(bus.script)) && Accepted(old(bus.script)) >= |rs| ==> r == Replied)
  {
    hide Fragments.Payload, Cut, Message.Valid, Split, Standing, OnlyBusy, Accepted, EffectiveStatus, EffectiveBody, Delivered;
    var st, bd := EffectiveStatus(status, body), EffectiveBody(status, body);
    if bus.budget <= HEADER_LEN {
      return BadBudget;
    }
    var chunkCapacity := bus.budget - HEADER_LEN;
    var envelope := Answer(st, stageID, traceID);
    ResultsAreValid(st, stageID, traceID);
    ghost var fs := Cut(envelope, bd, chunkCapacity);
    ghost var rs := Addressed(kind, correlation, fs);
    ghost var before := bus.sent;
    ghost var i := 0;
    var first := true;
    var offset := 0;
    if OnlyBusy(bus.script) && Accepted(bus.script) >= |rs| {
      BusyDelivers(bus.script, |rs|);
    }
    StandsAtStart(bd, chunkCapacity);
    GoesOn(bd, chunkCapacity, 0, 0);
    while first || offset < |bd|
      invariant 0 <= i <= |rs| && 0 <= offset <= |bd| && (first <==> i == 0)
      invariant bus.sent == before + rs[..i]
      invariant Standing(bd, chunkCapacity, offset, i) && (i < |rs| <==> first || offset < |bd|)
      invariant stageID != 0 ==>
                  Delivered(old(bus.script), |rs|) ==
                  (Delivered(bus.script, |rs| - i).0, Delivered(bus.script, |rs| - i).1 + i)
      decreases first, |bd| - offset
    {
      first := false;
      var part := |bd| - offset;
      if part > chunkCapacity {
        part := chunkCapacity;
      }
      var more := offset + part < |bd|;
      PieceAt(bd, chunkCapacity, offset, i);
      CutAt(envelope, bd, chunkCapacity, i);
      r := SendPart(bus, kind, correlation, envelope, bd[offset..offset + part], more);
      if r != Replied {
        return;
      }
      assert rs[..i + 1] == rs[..i] + [rs[i]];
      offset := offset + part;
      i := i + 1;
      GoesOn(bd, chunkCapacity, offset, i);
    }
    return Replied;
  }

  /** Builds the payload of one fragment and delivers it. */
  method SendPart(bus: Bus, kind: u32, correlation: u64, envelope: Envelope, part: seq<byte>, more: bool)
    returns (r: Outcome)
    requires |part| <= MAX_BODY
    modifies bus
    ensures r == EncodeFailed <==> !envelope.Valid()
    ensures r == Replied || r == Refused || r == Cancelled || r == Epoch || r == EncodeFailed
    ensures bus.sent == if r == Replied then old(bus.sent) + [SentReply(kind, correlation, Payload(envelope, part), more)]
                        else old(bus.sent)
    ensures envelope.Valid() ==> Attempted(old(bus.script), bus.script, r)
  {
    hide EncodeBytes, Put, OnlyBusy, Accepted;
    var payload := new byte[HEADER_LEN + |part|];
    var message := envelope.Header(|part|);
    var written := EncodeInto(message, payload);
    if written == 0 {
      return EncodeFailed;
    }
    forall k | 0 <= k < |part| {
      payload[HEADER_LEN + k] := part[k];
    }
    assert payload[..] == EncodeBytes(message) + part;
    r := Deliver(bus, kind, correlation, payload[..], more);
  }

  /** Retries one fragment until it is accepted or there is a reason to stop. */
  method Deliver(bus: Bus, kind: u32, correlation: u64, payload: seq<byte>, more: bool) returns (r: Outcome)
    modifies bus
    ensures r == Replied || r == Refused || r == Cancelled || r == Epoch
    ensures bus.sent == if r == Replied then old(bus.sent) + [SentReply(kind, correlation, payload, more)]
                        else old(bus.sent)
    ensures Attempted(old(bus.script), bus.script, r)
  {
    while true
      invariant bus.sent == old(bus.sent)
      invariant forall n: nat :: n > 0 ==> Delivered(old(bus.script), n) == Delivered(bus.script, n)
      decreases |bus.script|
    {
      ghost var script := bus.script;
      var a := bus.ReplyFragment(kind, correlation, payload, more);
      match a {
        case Accepts => return Replied;
        case Refuses => return Refused;
        case Full(ContextDone) => return Cancelled;
        case Full(EpochMoved) => return Epoch;
        case Full(Retry) =>
      }
    }
  }

  /** Rejects a request event: InvalidRequest under the stage the kind selects, or stage 1. */
  method InvalidModuleRequest(bus: Bus, kind: u32, correlation: u64, stageID: u32, traceID: u64) returns (r: Outcome)
    modifies bus
    ensures r != EncodeFailed
    ensures r != Replied ==> bus.sent == old(bus.sent)
    ensures r == Replied ==>
      && bus.budget > HEADER_LEN
      && bus.sent == old(bus.sent) +
           Addressed(kind, correlation, ResultFragments(if stageID == 0 then 1 else stageID, traceID,
                                                        STATUS_INVALID_REQUEST, [], ChunkOf(bus.budget)))
  {
    if bus.budget > HEADER_LEN {
      OnePiece(ChunkOf(bus.budget));
    }
    r := ReplyModuleResult(bus, kind, correlation, if stageID == 0 then 1 else stageID, traceID,
                           STATUS_INVALID_REQUEST, []);
  }

  /** An empty body is one fragment. */
  lemma OnePiece(chunk: nat)
    requires chunk > 0
    ensures |Split([], chunk)| == 1
  {
  }
}
