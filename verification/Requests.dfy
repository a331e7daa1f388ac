/** One fragmented request seen from the serving loop: what send put on the bus
    (server-go/bus/module_caller.go, send) against what the loop has assembled of it
    (server-go/bus/module_runtime.go, runModuleClient). */
module Requests {
  import opened LittleEndian
  import opened ModuleProtocol
  import opened Fragments
  import opened Events
  import opened Serving
  import Wire

  /** The arguments of one call, and the chunk its caller's budget allows. */
  datatype Request = Request(kind: u32, correlation: u64, stageID: u32, deadlineNS: u64, traceID: u64,
                             body: seq<byte>, chunk: nat)
  {
    ghost predicate Valid() {
      correlation != 0 && stageID != 0 && 0 < chunk && HEADER_LEN + chunk <= Wire.MAX_PAYLOAD
    }

    function Envelope(): Fragments.Envelope {
      Invoke(stageID, deadlineNS, traceID)
    }

    function Parts(): seq<seq<byte>>
      requires chunk > 0
    {
      Split(body, chunk)
    }

    function Fragments(): (fs: seq<Fragment>)
      requires 0 < chunk < 0x1_0000_0000
    {
      Cut(Envelope(), body, chunk)
    }
  }

  /** An event that carries fragment i: the relay keeps kind, correlation, pattern, FMore
      and payload; the other header fields are its own business. */
  ghost predicate Carries(r: Request, i: nat, e: Event)
    requires r.Valid() && i < |r.Fragments()|
  {
    && e.frame.eventKind == r.kind && e.frame.correlationID == r.correlation
    && IsRequest(e) && !IsCancel(e)
    && HasMore(e) == r.Fragments()[i].more && e.payload == r.Fragments()[i].payload
  }

  /** Fragment i as emit builds it. */
  function EventOf(r: Request, i: nat): Event
    requires 0 < r.chunk && HEADER_LEN + r.chunk <= Wire.MAX_PAYLOAD && i < |r.Fragments()|
  {
    FragmentFits(r, i);
    var f := r.Fragments()[i];
    Event(SentFrame(RequestFlags(f.more), r.kind, r.correlation, |f.payload|, 0), f.payload)
  }

  lemma FragmentFits(r: Request, i: nat)
    requires 0 < r.chunk && HEADER_LEN + r.chunk <= Wire.MAX_PAYLOAD && i < |r.Fragments()|
    ensures HEADER_LEN <= |r.Fragments()[i].payload| <= HEADER_LEN + r.chunk
    ensures i < |r.Parts()| && r.Fragments()[i].more == (i + 1 < |r.Parts()|)
  {
    hide Split;
    CutAt(r.Envelope(), r.body, r.chunk, i);
  }

  /** It carries the fragment and is a valid frame. */
  lemma EventCarries(r: Request, i: nat)
    requires r.Valid() && i < |r.Fragments()|
    ensures Carries(r, i, EventOf(r, i)) && Wire.Validate(EventOf(r, i).frame) == Wire.OK
  {
    hide Cut, Wire.Has, Wire.Validate;
    FragmentFits(r, i);
    var f := r.Fragments()[i];
    SentFlags(f.more, |f.payload| > 0);
    SentFrameValid(r.kind, r.correlation, |f.payload|, 0, f.more);
  }

  /** The tables hold exactly the first k parts of the request, none rejected. */
  ghost predicate Collected(t: Tables, r: Request, k: nat)
    requires r.Valid()
  {
    && k < |r.Parts()| && r.correlation !in t.jobs
    && (k == 0 ==> r.correlation !in t.assemblies)
    && (k > 0 ==>
          && r.correlation in t.assemblies
          && var a := t.assemblies[r.correlation];
             && a.eventKind == r.kind && a.message.stageID == r.stageID && a.message.deadlineNS == r.deadlineNS
             && a.message.traceID == r.traceID && a.body == Join(r.Parts()[..k]))
  }

  /** What fragment i decodes to, and the body bytes it brings. */
  lemma FragmentDecodes(r: Request, i: nat, e: Event)
    requires r.Valid() && i < |r.Fragments()| && Carries(r, i, e)
    ensures i < |r.Parts()| && |r.Parts()[i]| <= r.chunk
    ensures Decode(e.payload) == Decoded.Message(r.Envelope().Header(|r.Parts()[i]|))
    ensures PartOf(e) == r.Parts()[i]
    ensures HasMore(e) <==> i + 1 < |r.Parts()|
  {
    hide Split, Payload, Decode, Wire.Has;
    CutAt(r.Envelope(), r.body, r.chunk, i);
    PayloadDecodes(r.Envelope(), r.Parts()[i]);
  }

  /** In full: an invocation of the stage, with the deadline and trace of the call. */
  lemma FragmentSays(r: Request, i: nat)
    requires r.Valid() && i < |r.Fragments()|
    ensures var f, parts := r.Fragments()[i], r.Parts();
      && i < |parts| && f.more == (i + 1 < |parts|)
      && Decode(f.payload) == Decoded.Message(Message.Message(1, 0, r.stageID, 0, |parts[i]|, r.deadlineNS, r.traceID))
      && f.payload[HEADER_LEN..] == parts[i]
  {
    hide Split, Payload, Decode;
    CutAt(r.Envelope(), r.body, r.chunk, i);
    PayloadDecodes(r.Envelope(), r.Parts()[i]);
    PayloadTail(r.Envelope(), r.Parts()[i]);
  }

  lemma NextPrefix(parts: seq<seq<byte>>, k: nat)
    requires k < |parts|
    ensures Join(parts[..k + 1]) == Join(parts[..k]) + parts[k]
  {
    assert parts[..k + 1][..k] == parts[..k];
  }

  /** The loop has room for fragment k: for a new assembly when it is the first, and for a job
      when it is the last. */
  predicate HasRoom(t: Tables, r: Request, k: nat)
    requires r.chunk > 0
  {
    (k > 0 || |t.assemblies| < MAX_IN_FLIGHT) && (k + 1 < |r.Parts()| || |t.jobs| < MAX_IN_FLIGHT)
  }

  /** The deadline of a request has passed. */
  predicate Late(r: Request, now: u64) {
    r.deadlineNS != 0 && r.deadlineNS <= now
  }

  /** Why the loop refuses fragment k of an intact request. */
  predicate NoRoom(cfg: Config, t: Tables, r: Request, k: nat, now: u64)
    requires r.chunk > 0 && k < |r.Parts()|
  {
    || cfg.StageOf(r.kind) != r.stageID
    || (k == 0 && |t.assemblies| >= MAX_IN_FLIGHT)
    || |Join(r.Parts()[..k + 1])| > MAX_BODY
    || (k + 1 == |r.Parts()| && (Late(r, now) || !cfg.hasHandler || |t.jobs| >= MAX_IN_FLIGHT))
  }

  /** The assembly an intact request has reached after fragment k. */
  function Grown(t: Tables, r: Request, k: nat): Assembly
    requires 0 < r.chunk < 0x1_0000_0000 && k < |r.Parts()|
  {
    SplitSizes(r.body, r.chunk, k);
    var m := if k > 0 && r.correlation in t.assemblies then t.assemblies[r.correlation].message
             else r.Envelope().Header(|r.Parts()[k]|);
    Assembly(r.kind, m, Join(r.Parts()[..k + 1]))
  }

  /** The loop's decision on the next fragment of an intact request, in terms of the request. */
  function Decision(cfg: Config, t: Tables, r: Request, k: nat, now: u64, id: nat): Handled
    requires 0 < r.chunk < 0x1_0000_0000 && k < |r.Parts()|
  {
    var c := r.correlation;
    var body := Join(r.Parts()[..k + 1]);
    if cfg.StageOf(r.kind) != r.stageID then
      Handled(t.Forget(c), Answered(if cfg.StageOf(r.kind) == 0 then 1 else cfg.StageOf(r.kind), 0, STATUS_INVALID_REQUEST))
    else if k == 0 && |t.assemblies| >= MAX_IN_FLIGHT then Handled(t, Answered(r.stageID, r.traceID, STATUS_INTERNAL))
    else if |body| > MAX_BODY then Handled(t.Forget(c), Answered(r.stageID, r.traceID, STATUS_INTERNAL))
    else if k + 1 < |r.Parts()| then Handled(t.Buffer(c, Grown(t, r, k)), Buffered)
    else Dispatch(cfg, t.Forget(c), r.kind, c, r.Envelope().Header(0), body, now, id)
  }

  lemma HandleDecides(cfg: Config, t: Tables, r: Request, k: nat, e: Event, now: u64, id: nat)
    requires cfg.Valid() && r.Valid() && k < |r.Fragments()| && Carries(r, k, e) && Collected(t, r, k)
    ensures Handle(cfg, t, e, now, id) == Decision(cfg, t, r, k, now, id)
  {
    hide Decode, PartOf, Wire.Has, Split, Cut, Join;
    FragmentDecodes(r, k, e);
    NextPrefix(r.Parts(), k);
    assert Join(r.Parts()[..0]) == [] by {
      JoinOfNothing();
      assert r.Parts()[..0] == [];
    }
    assert r.Envelope().Header(|r.Parts()[k]|).stageID == r.stageID;
    assert [] + r.Parts()[k] == r.Parts()[k];
    if cfg.StageOf(r.kind) == r.stageID {
      assert !Unacceptable(cfg, t, e);
    }
  }

  /** The next fragment of an intact request is buffered, or starts a job with the complete
      body when it is the last, or is refused with an error status. */
  lemma NextFragment(cfg: Config, t: Tables, r: Request, k: nat, e: Event, now: u64, id: nat)
    requires cfg.Valid() && r.Valid() && k < |r.Fragments()| && Carries(r, k, e) && Collected(t, r, k)
    ensures var h := Handle(cfg, t, e, now, id);
      || (h.disposition.Answered? && STATUS_OK < h.disposition.status <= STATUS_INTERNAL)
      || (k + 1 < |r.Parts()| && h.disposition == Buffered && Collected(h.tables, r, k + 1))
      || (k + 1 == |r.Parts()| && r.correlation !in h.tables.assemblies
          && h.disposition == Started(Work(id, r.kind, r.correlation, r.stageID, r.deadlineNS, r.traceID), r.body))
  {
    hide Handle, Split, Cut, Join;
    HandleDecides(cfg, t, r, k, e, now, id);
    var parts := r.Parts();
    assert parts[..|parts|] == parts;
    JoinOfSplit(r.body, r.chunk);
  }

  /** The last fragment of an intact request for the right stage, with a place and a body within
      bounds: too late, no handler, no room for a job, or started, in this order. */
  lemma LastFragment(cfg: Config, t: Tables, r: Request, k: nat, e: Event, now: u64, id: nat)
    requires cfg.Valid() && r.Valid() && k < |r.Fragments()| && Carries(r, k, e) && Collected(t, r, k)
    requires k + 1 == |r.Parts()| && cfg.StageOf(r.kind) == r.stageID && |r.body| <= MAX_BODY
    requires k == 0 ==> |t.assemblies| < MAX_IN_FLIGHT
    ensures var d := Handle(cfg, t, e, now, id).disposition;
      && (d == Answered(r.stageID, r.traceID, STATUS_DEADLINE_EXCEEDED) <==> r.deadlineNS != 0 && r.deadlineNS <= now)
      && (!Late(r, now) ==>
            (d == Answered(r.stageID, r.traceID, STATUS_CAPABILITY_ABSENT) <==> !cfg.hasHandler))
      && (!Late(r, now) && cfg.hasHandler ==>
            (d == Answered(r.stageID, r.traceID, STATUS_INTERNAL) <==> |t.jobs| >= MAX_IN_FLIGHT))
      && (d.Started? <==> !Late(r, now) && cfg.hasHandler && |t.jobs| < MAX_IN_FLIGHT)
  {
    hide Handle, Split, Cut, Join;
    HandleDecides(cfg, t, r, k, e, now, id);
    PrefixFits(r.body, r.chunk, k + 1);
  }

  /** It is refused exactly for want of a stage, room, time or a handler; and with room, a handler
      and a body within bounds, only a deadline that passed before the last fragment is left. */
  lemma RefusedOnlyWithoutRoom(cfg: Config, t: Tables, r: Request, k: nat, e: Event, now: u64, id: nat)
    requires cfg.Valid() && r.Valid() && k < |r.Fragments()| && Carries(r, k, e) && Collected(t, r, k)
    ensures Handle(cfg, t, e, now, id).disposition.Answered? <==> NoRoom(cfg, t, r, k, now)
    ensures Handle(cfg, t, e, now, id).disposition.Answered? && cfg.StageOf(r.kind) == r.stageID && cfg.hasHandler
            && HasRoom(t, r, k) && |r.body| <= MAX_BODY ==>
              && Handle(cfg, t, e, now, id).disposition.status == STATUS_DEADLINE_EXCEEDED && r.deadlineNS != 0
              && k + 1 == |r.Parts()| && r.correlation !in Handle(cfg, t, e, now, id).tables.assemblies
              && Handle(cfg, t, e, now, id).tables.jobs == t.jobs
  {
    hide Handle, Split, Cut, Join;
    HandleDecides(cfg, t, r, k, e, now, id);
    PrefixFits(r.body, r.chunk, k + 1);
  }

  /** A fragment that finds no assembly of its own and no place for one is refused, whichever of
      its request it is. */
  lemma RefusedAtFullTables(cfg: Config, t: Tables, r: Request, k: nat, e: Event, now: u64, id: nat)
    requires cfg.Valid() && r.Valid() && k < |r.Fragments()| && Carries(r, k, e) && cfg.StageOf(r.kind) == r.stageID
    requires r.correlation !in t.assemblies && r.correlation !in t.jobs && |t.assemblies| >= MAX_IN_FLIGHT
    ensures Handle(cfg, t, e, now, id) == Handled(t, Answered(r.stageID, r.traceID, STATUS_INTERNAL))
  {
    hide Decode, PartOf, Wire.Has, Split, Cut, Join, Grow;
    FragmentDecodes(r, k, e);
  }

  lemma JoinOfNothing()
    ensures Join([]) == []
  {
  }

  /** A prefix of the parts is a prefix of the body. */
  lemma {:induction false} PrefixFits(body: seq<byte>, chunk: nat, k: nat)
    requires chunk > 0 && k <= |Split(body, chunk)|
    ensures |Join(Split(body, chunk)[..k])| <= |body|
  {
    var parts := Split(body, chunk);
    JoinOfSplit(body, chunk);
    assert parts == parts[..k] + parts[k..];
    JoinOfConcat(parts[..k], parts[k..]);
  }
}
