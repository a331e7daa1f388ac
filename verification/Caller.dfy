/** The calling side (server-go/bus/module_caller.go): send a fragmented request, await and
    reassemble the correlated reply, and cancel on the way out when the wait fails. */
module Caller {
  import opened LittleEndian
  import opened ModuleProtocol
  import opened Fragments
  import opened Events
  import Wire

  datatype CallError =
    | ConfigError | RuntimeError | EncodeError | SendFailed | PollFailed
    | ContextEnded | DeadlinePassed | CapabilityAbsent | Rejected | StatusError(status: u16)

  datatype CallResult = Ok(body: seq<byte>) | Err(error: CallError)

  datatype SentRequest = SentRequest(kind: u32, correlation: u64, payload: seq<byte>, more: bool)

  /** One Poll: an error, nothing (with what the context and the clock then say), or an event. */
  datatype Polled = Broken | Nothing(ended: bool, expired: bool) | Got(event: Event)

  /** What one event means to a waiting call that holds held bytes. */
  datatype Reading = Skip | Fail(error: CallError) | Extend(part: seq<byte>) | Complete(part: seq<byte>)

  function Read(kind: u32, correlation: u64, limit: u32, held: nat, e: Event): Reading {
    var ours := e.frame.correlationID == correlation;
    if ours && e.frame.eventKind == Wire.KIND_CAPABILITY_ABSENT then Fail(CapabilityAbsent)
    else if ours && e.frame.eventKind == Wire.KIND_ERROR then Fail(Rejected)
    else if e.frame.eventKind != kind || !ours then Skip
    else match Decode(e.payload)
      case Invalid => Skip
      case Message(m) =>
        if m.operation != OP_RESULT then Skip
        else if m.status != STATUS_OK then Fail(StatusError(m.status))
        else if (held % 0x1_0000_0000 + m.bodyLen) % 0x1_0000_0000 > limit then Fail(RuntimeError)
        else
          EncodeOfDecode(e.payload);
          var part := e.payload[HEADER_LEN..HEADER_LEN + m.bodyLen];
          if Wire.Has(e.frame.hdrFlags, Wire.F_MORE) then Extend(part) else Complete(part)
  }

  /** The outcome of a wait over what successive polls return; a script that ends is a broken bus. */
  function Await(kind: u32, correlation: u64, limit: u32, held: seq<byte>, polls: seq<Polled>): CallResult
    decreases |polls|
  {
    if polls == [] then Err(PollFailed)
    else match polls[0]
      case Broken => Err(PollFailed)
      case Nothing(ended, expired) =>
        if ended then Err(ContextEnded)
        else if expired then Err(DeadlinePassed)
        else Await(kind, correlation, limit, held, polls[1..])
      case Got(e) =>
        match Read(kind, correlation, limit, |held|, e)
        case Skip => Await(kind, correlation, limit, held, polls[1..])
        case Fail(error) => Err(error)
        case Extend(part) => Await(kind, correlation, limit, held + part, polls[1..])
        case Complete(part) => Ok(held + part)
  }

  predicate Foreign(kind: u32, correlation: u64, p: Polled) {
    match p
    case Broken => false
    case Nothing(ended, expired) => !ended && !expired
    case Got(e) =>
      || e.frame.correlationID != correlation
      || (e.frame.eventKind != kind && e.frame.eventKind != Wire.KIND_CAPABILITY_ABSENT
          && e.frame.eventKind != Wire.KIND_ERROR)
  }

  function Own(kind: u32, correlation: u64, polls: seq<Polled>): seq<Polled> {
    if polls == [] then []
    else (if Foreign(kind, correlation, polls[0]) then [] else [polls[0]]) + Own(kind, correlation, polls[1..])
  }

  /** Idle polls and other calls' traffic, in any amount and anywhere, change nothing. */
  lemma {:induction false} ForeignTrafficIsIgnored(kind: u32, correlation: u64, limit: u32, held: seq<byte>, polls: seq<Polled>)
    ensures Await(kind, correlation, limit, held, polls) == Await(kind, correlation, limit, held, Own(kind, correlation, polls))
    decreases |polls|
  {
    hide Decode, Wire.Has;
    if polls != [] {
      var own := Own(kind, correlation, polls[1..]);
      if Foreign(kind, correlation, polls[0]) {
        assert [] + own == own;
        ForeignTrafficIsIgnored(kind, correlation, limit, held, polls[1..]);
      } else {
        assert ([polls[0]] + own)[1..] == own;
        ForeignTrafficIsIgnored(kind, correlation, limit, held, polls[1..]);
        if polls[0].Got? {
          var r := Read(kind, correlation, limit, |held|, polls[0].event);
          if r.Extend? {
            ForeignTrafficIsIgnored(kind, correlation, limit, held + r.part, polls[1..]);
          }
        }
      }
    }
  }

  /** Events that carry the fragments fs of a reply to this call. */
  ghost predicate Carry(kind: u32, correlation: u64, polls: seq<Polled>, fs: seq<Fragment>) {
    && |polls| == |fs|
    && forall i :: 0 <= i < |fs| ==>
         && polls[i].Got? && polls[i].event.frame.eventKind == kind
         && polls[i].event.frame.correlationID == correlation
         && polls[i].event.payload == fs[i].payload
         && Wire.Has(polls[i].event.frame.hdrFlags, Wire.F_MORE) == fs[i].more
  }

  /** What Read makes of the i-th fragment of an OK reply. */
  lemma ReadFragment(kind: u32, correlation: u64, limit: u32, held: nat, e: Event, envelope: Envelope, part: seq<byte>)
    requires kind != Wire.KIND_CAPABILITY_ABSENT && kind != Wire.KIND_ERROR
    requires envelope.Valid() && envelope.operation == OP_RESULT && envelope.status == STATUS_OK && |part| <= MAX_BODY
    requires e.frame.eventKind == kind && e.frame.correlationID == correlation && e.payload == Payload(envelope, part)
    requires held + |part| <= limit
    ensures Read(kind, correlation, limit, held, e) ==
            if Wire.Has(e.frame.hdrFlags, Wire.F_MORE) then Extend(part) else Complete(part)
  {
    hide Decode, Payload, Wire.Has, EncodeBytes;
    PayloadDecodes(envelope, part);
    assert held % 0x1_0000_0000 == held && (held + |part|) % 0x1_0000_0000 == held + |part|;
  }

  /** The original body comes back from the fragments of an OK reply, however it was cut. */
  lemma {:induction false} ReplyIsRebuilt(kind: u32, correlation: u64, limit: u32, held: seq<byte>, polls: seq<Polled>,
                                          envelope: Envelope, body: seq<byte>, chunk: nat)
    requires kind != Wire.KIND_CAPABILITY_ABSENT && kind != Wire.KIND_ERROR
    requires envelope.Valid() && envelope.operation == OP_RESULT && envelope.status == STATUS_OK
    requires 0 < chunk < 0x1_0000_0000 && |held| + |body| <= limit <= MAX_BODY
    requires Carry(kind, correlation, polls, Cut(envelope, body, chunk))
    ensures Await(kind, correlation, limit, held, polls) == Ok(held + body)
    decreases |body|
  {
    hide Decode, Payload, Wire.Has, Read;
    var fs := Cut(envelope, body, chunk);
    CutAt(envelope, body, chunk, 0);
    var part := Split(body, chunk)[0];
    ReadFragment(kind, correlation, limit, |held|, polls[0].event, envelope, part);
    if |body| > chunk {
      CutTail(envelope, body, chunk);
      ReplyIsRebuilt(kind, correlation, limit, held + part, polls[1..], envelope, body[chunk..], chunk);
      assert held + part + body[chunk..] == held + body;
    }
  }

  /** An error result for this call ends the wait with its status, whatever was held. */
  lemma ErrorReplyEndsWait(kind: u32, correlation: u64, limit: u32, held: seq<byte>, e: Event, rest: seq<Polled>,
                           envelope: Envelope, part: seq<byte>)
    requires kind != Wire.KIND_CAPABILITY_ABSENT && kind != Wire.KIND_ERROR
    requires envelope.Valid() && envelope.operation == OP_RESULT && envelope.status != STATUS_OK && |part| <= MAX_BODY
    requires e.frame.eventKind == kind && e.frame.correlationID == correlation && e.payload == Payload(envelope, part)
    ensures Await(kind, correlation, limit, held, [Got(e)] + rest) == Err(StatusError(envelope.status))
  {
    hide Decode, Payload, Wire.Has;
    PayloadDecodes(envelope, part);
  }

  /** The host's own refusals end it too, on their reserved kinds and before any payload is
      looked at. */
  lemma HostRefusalEndsWait(kind: u32, correlation: u64, limit: u32, held: seq<byte>, e: Event, rest: seq<Polled>)
    requires e.frame.correlationID == correlation
    ensures e.frame.eventKind == Wire.KIND_CAPABILITY_ABSENT ==>
      Await(kind, correlation, limit, held, [Got(e)] + rest) == Err(CapabilityAbsent)
    ensures e.frame.eventKind == Wire.KIND_ERROR ==>
      Await(kind, correlation, limit, held, [Got(e)] + rest) == Err(Rejected)
  {
    hide Decode, Wire.Has;
  }

  lemma CutTail(envelope: Envelope, body: seq<byte>, chunk: nat)
    requires 0 < chunk < 0x1_0000_0000 && |body| > chunk
    ensures Cut(envelope, body, chunk)[1..] == Cut(envelope, body[chunk..], chunk)
  {
    hide Payload;
    var tail := body[chunk..];
    forall i: nat | i < |Split(tail, chunk)|
      ensures Cut(envelope, body, chunk)[1..][i] == Cut(envelope, tail, chunk)[i]
    {
      CutAt(envelope, tail, chunk, i);
      CutAt(envelope, body, chunk, i + 1);
    }
  }

  function Requests(kind: u32, correlation: u64, fs: seq<Fragment>): (rs: seq<SentRequest>)
    ensures |rs| == |fs|
  {
    seq(|fs|, i requires 0 <= i < |fs| => SentRequest(kind, correlation, fs[i].payload, fs[i].more))
  }

  /** Fragments a bus takes before it first refuses one. */
  function Leading(accepts: seq<bool>): nat {
    if accepts == [] || !accepts[0] then 0 else 1 + Leading(accepts[1..])
  }

  /** The bus as a caller sees it: whether each request fragment is taken, what each poll
      returns, whether a cancel is taken, and a log of what was sent, of the cancels that were
      attempted and of those that were taken. */
  class Bus {
    const budget: u32
    var accepts: seq<bool>
    var polls: seq<Polled>
    const takesCancels: bool
    var sent: seq<SentRequest>
    var attempts: seq<(u32, u64)>
    var cancels: seq<(u32, u64)>

    constructor (budget: u32, accepts: seq<bool>, polls: seq<Polled>, takesCancels: bool)
      ensures this.budget == budget && this.accepts == accepts && this.polls == polls
      ensures this.takesCancels == takesCancels && sent == [] && attempts == [] && cancels == []
    {
      this.budget := budget;
      this.takesCancels := takesCancels;
      this.attempts := [];
      this.accepts := accepts;
      this.polls := polls;
      this.sent := [];
      this.cancels := [];
    }

    method RequestFragment(kind: u32, correlation: u64, payload: seq<byte>, more: bool) returns (ok: bool)
      modifies `accepts, `sent
      ensures ok == (correlation != 0 && old(accepts) != [] && old(accepts)[0])
      ensures accepts == if old(accepts) == [] then [] else old(accepts)[1..]
      ensures sent == if ok then old(sent) + [SentRequest(kind, correlation, payload, more)] else old(sent)
    {
      ok := correlation != 0 && accepts != [] && accepts[0];
      if accepts != [] {
        accepts := accepts[1..];
      }
      if ok {
        sent := sent + [SentRequest(kind, correlation, payload, more)];
      }
    }

    method Cancel(kind: u32, correlation: u64) returns (ok: bool)
      modifies `attempts, `cancels
      ensures ok == takesCancels && attempts == old(attempts) + [(kind, correlation)]
      ensures cancels == if ok then old(cancels) + [(kind, correlation)] else old(cancels)
    {
      ok := takesCancels;
      attempts := attempts + [(kind, correlation)];
      if ok {
        cancels := cancels + [(kind, correlation)];
      }
    }

    method Poll() returns (p: Polled)
      modifies `polls
      ensures p == if old(polls) == [] then Broken else old(polls)[0]
      ensures polls == if old(polls) == [] then [] else old(polls)[1..]
    {
      p := Broken;
      if polls != [] {
        p := polls[0];
        polls := polls[1..];
      }
    }
  }

  class ModuleCaller {
    const client: Bus
    var correlation: u64
    const responseLimit: u32

    constructor (client: Bus)
      ensures this.client == client && correlation == 0 && responseLimit == MAX_BODY
    {
      this.client := client;
      this.correlation := 0;
      this.responseLimit := MAX_BODY;
    }

    /** Why sending failed: a useless budget, a message that cannot be encoded, or the bus. */
    static predicate SendError(budget: u32, stageID: u32, error: CallError) {
      if budget <= HEADER_LEN then error == RuntimeError
      else if stageID == 0 then error == EncodeError
      else if budget - HEADER_LEN <= MAX_BODY then error == SendFailed
      else error == SendFailed || error == EncodeError
    }

    /** Sends every fragment of the request in order, or a proper prefix of them and fails. */
    method Send(kind: u32, stageID: u32, traceID: u64, correlation: u64, deadlineNS: u64, request: seq<byte>)
      returns (failed: bool, error: CallError)
      modifies client`accepts, client`sent
      ensures client.budget <= HEADER_LEN ==> failed && client.sent == old(client.sent)
      ensures failed ==> SendError(client.budget, stageID, error)
      ensures client.budget > HEADER_LEN ==>
        var rs := Requests(kind, correlation, Cut(Invoke(stageID, deadlineNS, traceID), request, client.budget - HEADER_LEN));
        && |old(client.sent)| <= |client.sent| <= |old(client.sent)| + |rs|
        && client.sent == old(client.sent) + rs[..|client.sent| - |old(client.sent)|]
        && (!failed <==> |client.sent| == |old(client.sent)| + |rs|)
      ensures stageID == 0 || correlation == 0 ==> failed && client.sent == old(client.sent)
      ensures HEADER_LEN < client.budget <= HEADER_LEN + MAX_BODY && stageID != 0 && correlation != 0 ==>
        var n := |Cut(Invoke(stageID, deadlineNS, traceID), request, client.budget - HEADER_LEN)|;
        |client.sent| - |old(client.sent)| == if Leading(old(client.accepts)) < n then Leading(old(client.accepts)) else n
    {
      hide Payload, Cut, Message.Valid, Split, Standing;
      failed, error := true, RuntimeError;
      if client.budget <= HEADER_LEN {
        return;
      }
      var chunk := client.budget - HEADER_LEN;
      var envelope := Invoke(stageID, deadlineNS, traceID);
      InvokeIsValid(stageID, deadlineNS, traceID);
      ghost var rs := Requests(kind, correlation, Cut(envelope, request, chunk));
      ghost var before := client.sent;
      ghost var i := 0;
      var frame := new byte[client.budget];
      var first := true;
      var offset := 0;
      StandsAtStart(request, chunk);
      GoesOn(request, chunk, 0, 0);
      while first || offset < |request|
        invariant 0 <= i <= |rs| && 0 <= offset <= |request| && (first <==> i == 0)
        invariant client.sent == before + rs[..i] && fresh(frame)
        invariant i > 0 ==> stageID != 0 && correlation != 0
        invariant Leading(old(client.accepts)) == i + Leading(client.accepts)
        invariant Standing(request, chunk, offset, i) && (i < |rs| <==> first || offset < |request|)
        decreases first, |request| - offset
      {
        first := false;
        var part := |request| - offset;
        if part > chunk {
          part := chunk;
        }
        var more := offset + part < |request|;
        PieceAt(request, chunk, offset, i);
        CutAt(envelope, request, chunk, i);
        failed, error := SendPart(kind, correlation, frame, envelope, request[offset..offset + part], more);
        if failed {
          return;
        }
        assert rs[..i + 1] == rs[..i] + [rs[i]];
        offset := offset + part;
        i := i + 1;
        GoesOn(request, chunk, offset, i);
      }
      failed := false;
    }

    lemma InvokeIsValid(stageID: u32, deadlineNS: u64, traceID: u64)
      ensures forall n: u32 :: Invoke(stageID, deadlineNS, traceID).Header(n).Valid() <==> stageID != 0 && n <= MAX_BODY
    {
    }

    /** Encodes one fragment into the frame buffer and requests it. */
    method SendPart(kind: u32, correlation: u64, frame: array<byte>, envelope: Envelope, part: seq<byte>, more: bool)
      returns (failed: bool, error: CallError)
      requires HEADER_LEN + |part| <= frame.Length && |part| < 0x1_0000_0000
      modifies frame, client`accepts, client`sent
      ensures !failed ==> envelope.Header(|part|).Valid() && correlation != 0
      ensures failed ==> error == if envelope.Header(|part|).Valid() then SendFailed else EncodeError
      ensures !failed ==> Leading(old(client.accepts)) == 1 + Leading(client.accepts)
      ensures failed && correlation != 0 && envelope.Header(|part|).Valid() ==> Leading(old(client.accepts)) == 0
      ensures client.sent == if failed then old(client.sent)
                             else old(client.sent) + [SentRequest(kind, correlation, Payload(envelope, part), more)]
    {
      hide Payload;
      failed, error := true, EncodeError;
      var payload, encoded := FillFrame(frame, envelope, part);
      if !encoded {
        return;
      }
      var ok := client.RequestFragment(kind, correlation, payload, more);
      if !ok {
        return true, SendFailed;
      }
      failed := false;
    }

    /** One fragment in the reused frame buffer; the stale bytes behind it are not sent. */
    method FillFrame(frame: array<byte>, envelope: Envelope, part: seq<byte>) returns (payload: seq<byte>, encoded: bool)
      requires HEADER_LEN + |part| <= frame.Length && |part| < 0x1_0000_0000
      modifies frame
      ensures encoded <==> envelope.Header(|part|).Valid()
      ensures encoded ==> payload == Payload(envelope, part)
    {
      hide EncodeBytes, Put;
      payload := [];
      var message := envelope.Header(|part|);
      var written := EncodeInto(message, frame);
      encoded := written == HEADER_LEN;
      if encoded {
        forall k | 0 <= k < |part| {
          frame[HEADER_LEN + k] := part[k];
        }
        payload := frame[..written + |part|];
        assert payload == EncodeBytes(message) + part;
      }
    }

    /** Consumes the bus until this call's result arrives. */
    method AwaitReply(kind: u32, correlation: u64) returns (r: CallResult)
      modifies client`polls
      ensures r == Await(kind, correlation, responseLimit, [], old(client.polls))
    {
      hide Read;
      var body: seq<byte> := [];
      while true
        invariant Await(kind, correlation, responseLimit, [], old(client.polls))
                  == Await(kind, correlation, responseLimit, body, client.polls)
        decreases |client.polls|
      {
        if |client.polls| == 0 {
          return Err(PollFailed);
        }
        var p := client.Poll();
        match p {
          case Broken => return Err(PollFailed);
          case Nothing(ended, expired) =>
            if ended {
              return Err(ContextEnded);
            }
            if expired {
              return Err(DeadlinePassed);
            }
          case Got(e) =>
            match Read(kind, correlation, responseLimit, |body|, e) {
              case Skip =>
              case Fail(error) => return Err(error);
              case Extend(part) => body := body + part;
              case Complete(part) => return Ok(body + part);
            }
        }
      }
    }

    /** One synchronous call. Every call that gets as far as sending uses a correlation of its
        own; a failed wait attempts one cancel for it, a failed send none, and the outcome is the
        same whether the bus takes the cancel or not. */
    method Call(kind: u32, stageID: u32, traceID: u64, deadline: nat, nowNS: u64, request: seq<byte>) returns (r: CallResult)
      modifies this`correlation, client
      ensures |request| % 0x1_0000_0000 > MAX_BODY ==>
        r == Err(ConfigError) && correlation == old(correlation) && client.sent == old(client.sent)
        && client.attempts == old(client.attempts)
      ensures |request| % 0x1_0000_0000 <= MAX_BODY ==>
        && correlation == (old(correlation) + 1) % TWO_64
        && (client.budget <= HEADER_LEN ==>
              r == Err(RuntimeError) && client.sent == old(client.sent) && client.attempts == old(client.attempts))
        && (client.budget > HEADER_LEN ==>
              var deadlineNS := if deadline > 0 then (nowNS + deadline) % TWO_64 else 0;
              var rs := Requests(kind, correlation, Cut(Invoke(stageID, deadlineNS, traceID), request, client.budget - HEADER_LEN));
              && old(client.sent) <= client.sent <= old(client.sent) + rs
              && (client.sent == old(client.sent) + rs ==>
                    && r == Await(kind, correlation, responseLimit, [], old(client.polls))
                    && client.attempts == old(client.attempts) + (if r.Ok? then [] else [(kind, correlation)]))
              && (client.sent != old(client.sent) + rs ==>
                    r.Err? && SendError(client.budget, stageID, r.error) && client.attempts == old(client.attempts))
              && (stageID != 0 && correlation != 0 && client.budget <= HEADER_LEN + MAX_BODY
                  && Leading(old(client.accepts)) < |rs| ==>
                    |client.sent| == |old(client.sent)| + Leading(old(client.accepts))))
      ensures client.cancels == old(client.cancels) +
        (if client.takesCancels then client.attempts[|old(client.attempts)|..] else [])
      ensures old(client.attempts) <= client.attempts
    {
      hide Cut, Await;
      if |request| % 0x1_0000_0000 > MAX_BODY {
        return Err(ConfigError);
      }
      correlation := (correlation + 1) % TWO_64;
      var deadlineNS := if deadline > 0 then (nowNS + deadline) % TWO_64 else 0;
      var failed, error := Send(kind, stageID, traceID, correlation, deadlineNS, request);
      if failed {
        return Err(error);
      }
      r := AwaitReply(kind, correlation);
      if r.Err? {
        var _ := client.Cancel(kind, correlation);
      }
    }
  }

  /** A call of two fragments whose second one is refused ends there: one fragment is out, and no
      cancel follows it, although the bus would have taken one. */
  method HalfSentCall() returns (r: CallResult, client: Bus)
    ensures r == Err(SendFailed) && |client.sent| == 1 && client.attempts == [] && client.takesCancels
  {
    client := new Bus(HEADER_LEN + 1, [true, false], [], true);
    var caller := new ModuleCaller(client);
    TwoPieces();
    assert Leading([true, false][1..]) == 0;
    assert Leading([true, false]) == 1;
    r := caller.Call(9, 1, 0, 0, 0, [5, 6]);
  }

  lemma TwoPieces()
    ensures |Split([5, 6], 1)| == 2
  {
    assert [5, 6][1..] == [6];
  }
}
