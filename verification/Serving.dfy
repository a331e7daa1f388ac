/** What the serving loop of a module process does with one polled event
    (server-go/bus/module_runtime.go, validateModuleConfig and the body of runModuleClient). */
module Serving {
  import opened LittleEndian
  import opened ModuleProtocol
  import opened Events
  import opened Wrappers
  import Wire

  const MAX_IN_FLIGHT: nat := 16

  datatype Stage = Stage(eventKind: u32, stageID: u32)

  /** The stage table is usable: no zero kind or stage, and no kind twice. */
  ghost predicate Unambiguous(stages: seq<Stage>) {
    && (forall i :: 0 <= i < |stages| ==> stages[i].eventKind != 0 && stages[i].stageID != 0)
    && (forall i, j :: 0 <= i < j < |stages| ==> stages[i].eventKind != stages[j].eventKind)
  }

  /** Accepts exactly the complete, unambiguous configurations, and turns the stage list
      into the function it denotes. */
  method ValidateModuleConfig(socketPath: string, moduleName: string, principalClass: u32, principalRef: u32,
                              stages: seq<Stage>)
    returns (r: Option<map<u32, u32>>)
    ensures r.Some? <==>
      && socketPath != "" && moduleName != "" && principalClass != 0 && principalRef != 0 && stages != []
      && Unambiguous(stages)
    ensures r.Some? ==>
      && (forall i :: 0 <= i < |stages| ==>
            stages[i].eventKind in r.value && r.value[stages[i].eventKind] == stages[i].stageID)
      && (forall k :: k in r.value ==>
            r.value[k] != 0 && exists i :: 0 <= i < |stages| && stages[i] == Stage(k, r.value[k]))
  {
    if socketPath == "" || moduleName == "" || principalClass == 0 || principalRef == 0 || |stages| == 0 {
      return None;
    }
    var table: map<u32, u32> := map[];
    for n := 0 to |stages|
      invariant Unambiguous(stages[..n])
      invariant forall i :: 0 <= i < n ==> stages[i].eventKind in table && table[stages[i].eventKind] == stages[i].stageID
      invariant forall k :: k in table ==> table[k] != 0 && exists i :: 0 <= i < n && stages[i] == Stage(k, table[k])
    {
      var stage := stages[n];
      if stage.eventKind == 0 || stage.stageID == 0 {
        return None;
      }
      if stage.eventKind in table {
        assert exists i :: 0 <= i < n && stages[i].eventKind == stage.eventKind;
        return None;
      }
      table := table[stage.eventKind := stage.stageID];
      assert stages[n] == Stage(stage.eventKind, table[stage.eventKind]);
    }
    assert stages[..|stages|] == stages;
    return Some(table);
  }

  /** The configuration a running loop works from. */
  datatype Config = Config(stages: map<u32, u32>, budget: u32, hasHandler: bool)
  {
    function StageOf(kind: u32): u32 {
      if kind in stages then stages[kind] else 0
    }

    /** What ValidateModuleConfig guarantees, and a budget with room for a message header. */
    ghost predicate Valid() {
      && (forall k :: k in stages ==> stages[k] != 0)
      && HEADER_LEN < budget <= Wire.MAX_PAYLOAD
    }
  }

  datatype Assembly = Assembly(eventKind: u32, message: Message, body: seq<byte>)

  datatype Work = Work(id: nat, eventKind: u32, correlationID: u64, stageID: u32, deadlineNS: u64, traceID: u64)

  /** The two tables of the loop, keyed by correlation. */
  datatype Tables = Tables(assemblies: map<u64, Assembly>, jobs: map<u64, Work>)
  {
    function Forget(c: u64): Tables {
      this.(assemblies := assemblies - {c})
    }

    function Buffer(c: u64, a: Assembly): Tables {
      this.(assemblies := assemblies[c := a])
    }

    function Launch(c: u64, w: Work): Tables {
      this.(jobs := jobs[c := w])
    }
  }

  /** What became of one polled event. */
  datatype Disposition =
    | Ignored
    | CancelSeen
    | Buffered
    | Answered(stageID: u32, traceID: u64, status: u16)
    | Started(work: Work, body: seq<byte>)

  datatype Handled = Handled(tables: Tables, disposition: Disposition)

  predicate IsCancel(e: Event) {
    Wire.Has(e.frame.hdrFlags, Wire.F_CANCEL)
  }

  predicate IsRequest(e: Event) {
    Wire.Has(e.frame.hdrFlags, Wire.F_REQUEST)
  }

  predicate HasMore(e: Event) {
    Wire.Has(e.frame.hdrFlags, Wire.F_MORE)
  }

  /** A request fragment the loop refuses outright. */
  predicate Unacceptable(cfg: Config, t: Tables, e: Event) {
    var c := e.frame.correlationID;
    var stage := cfg.StageOf(e.frame.eventKind);
    var decoded := Decode(e.payload);
    || stage == 0 || decoded.Invalid? || decoded.message.operation != OP_INVOKE
    || decoded.message.stageID != stage || c in t.jobs
    || (c in t.assemblies && !Continues(t.assemblies[c], e.frame.eventKind, decoded.message))
  }

  /** A fragment belongs to the assembly its first fragment opened. */
  predicate Continues(a: Assembly, kind: u32, m: Message) {
    && a.eventKind == kind && a.message.stageID == m.stageID
    && a.message.deadlineNS == m.deadlineNS && a.message.traceID == m.traceID
  }

  function Handle(cfg: Config, t: Tables, e: Event, now: u64, id: nat): Handled {
    var c := e.frame.correlationID;
    if IsCancel(e) then Handled(t.Forget(c), CancelSeen)
    else if !IsRequest(e) then Handled(t, Ignored)
    else if Unacceptable(cfg, t, e) then
      var stage := cfg.StageOf(e.frame.eventKind);
      Handled(t.Forget(c), Answered(if stage == 0 then 1 else stage, 0, STATUS_INVALID_REQUEST))
    else Accept(cfg, t, e, now, id)
  }

  /** A well-formed fragment: room for it, append it, and start the job when it is the last. */
  function Accept(cfg: Config, t: Tables, e: Event, now: u64, id: nat): Handled
    requires !Unacceptable(cfg, t, e)
  {
    var c, kind, m := e.frame.correlationID, e.frame.eventKind, Decode(e.payload).message;
    var stage := m.stageID;
    if c !in t.assemblies && |t.assemblies| >= MAX_IN_FLIGHT then Handled(t, Answered(stage, m.traceID, STATUS_INTERNAL))
    else
      Grow(cfg, t, e, if c in t.assemblies then t.assemblies[c] else Assembly(kind, m, []), m, now, id)
  }

  /** Appends the fragment's body to its assembly and dispatches a complete one. */
  function Grow(cfg: Config, t: Tables, e: Event, a: Assembly, m: Message, now: u64, id: nat): Handled {
    var c := e.frame.correlationID;
    var body := a.body + PartOf(e);
    if |body| > MAX_BODY then Handled(t.Forget(c), Answered(m.stageID, m.traceID, STATUS_INTERNAL))
    else if HasMore(e) then Handled(t.Buffer(c, a.(body := body)), Buffered)
    else Dispatch(cfg, t.Forget(c), e.frame.eventKind, c, m, body, now, id)
  }

  /** It makes no difference whether the assembly is already in the table. */
  lemma GrowFromBuffer(cfg: Config, t: Tables, e: Event, a: Assembly, m: Message, now: u64, id: nat)
    ensures Grow(cfg, t.Buffer(e.frame.correlationID, a), e, a, m, now, id) == Grow(cfg, t, e, a, m, now, id)
  {
    hide PartOf, HasMore, Dispatch;
    var c := e.frame.correlationID;
    assert t.assemblies[c := a] - {c} == t.assemblies - {c};
    assert t.Buffer(c, a).Forget(c) == t.Forget(c);
    assert t.Buffer(c, a).Buffer(c, a.(body := a.body + PartOf(e))) == t.Buffer(c, a.(body := a.body + PartOf(e)));
  }

  /** A complete request: refuse it, or start its job. */
  function Dispatch(cfg: Config, t: Tables, kind: u32, c: u64, m: Message, body: seq<byte>, now: u64, id: nat): Handled {
    if m.DeadlineExpired(now) then Handled(t, Answered(m.stageID, m.traceID, STATUS_DEADLINE_EXCEEDED))
    else if !cfg.hasHandler then Handled(t, Answered(m.stageID, m.traceID, STATUS_CAPABILITY_ABSENT))
    else if |t.jobs| >= MAX_IN_FLIGHT then Handled(t, Answered(m.stageID, m.traceID, STATUS_INTERNAL))
    else
      var work := Work(id, kind, c, m.stageID, m.deadlineNS, m.traceID);
      Handled(t.Launch(c, work), Started(work, body))
  }

  /** The body bytes of an event whose payload decodes. */
  function PartOf(e: Event): seq<byte> {
    match Decode(e.payload)
    case Invalid => []
    case Message(m) =>
      EncodeOfDecode(e.payload);
      e.payload[HEADER_LEN..HEADER_LEN + m.bodyLen]
  }

  /** The loop's mutable state between two polls. */
  class ServingLoop {
    const cfg: Config
    var assemblies: map<u64, Assembly>
    var jobs: map<u64, Work>
    var cancelled: set<nat>
    var nextId: nat

    constructor (cfg: Config)
      ensures this.cfg == cfg && assemblies == map[] && jobs == map[] && cancelled == {} && nextId == 0
    {
      this.cfg := cfg;
      this.assemblies := map[];
      this.jobs := map[];
      this.cancelled := {};
      this.nextId := 0;
    }

    /** One event through the loop body, ending in at most one answer or one started job. */
    method HandleEvent(e: Event, now: u64) returns (d: Disposition)
      modifies this
      ensures Handled(Tables(assemblies, jobs), d) == Handle(cfg, Tables(old(assemblies), old(jobs)), e, now, old(nextId))
      ensures cancelled == if d == CancelSeen && e.frame.correlationID in old(jobs)
                           then old(cancelled) + {old(jobs)[e.frame.correlationID].id} else old(cancelled)
      ensures nextId == if d.Started? then old(nextId) + 1 else old(nextId)
    {
      hide Decode, Wire.Has, Accept;
      var correlation := e.frame.correlationID;
      if Wire.Has(e.frame.hdrFlags, Wire.F_CANCEL) {
        if correlation in jobs {
          cancelled := cancelled + {jobs[correlation].id};
        }
        assemblies := assemblies - {correlation};
        return CancelSeen;
      }
      if !Wire.Has(e.frame.hdrFlags, Wire.F_REQUEST) {
        return Ignored;
      }
      var expectedStage := cfg.StageOf(e.frame.eventKind);
      var decoded := Decode(e.payload);
      var invalid := expectedStage == 0 || decoded.Invalid? || decoded.message.operation != OP_INVOKE
                     || decoded.message.stageID != expectedStage || correlation in jobs;
      if !invalid && correlation in assemblies {
        var assembly := assemblies[correlation];
        invalid := assembly.eventKind != e.frame.eventKind
                   || assembly.message.stageID != decoded.message.stageID
                   || assembly.message.deadlineNS != decoded.message.deadlineNS
                   || assembly.message.traceID != decoded.message.traceID;
      }
      if invalid {
        assemblies := assemblies - {correlation};
        return Answered(if expectedStage == 0 then 1 else expectedStage, 0, STATUS_INVALID_REQUEST);
      }
      d := Assemble(e, decoded.message, now);
    }

    /** Appends an acceptable fragment and starts its job when it is the last. */
    method Assemble(e: Event, message: Message, now: u64) returns (d: Disposition)
      requires !Unacceptable(cfg, Tables(assemblies, jobs), e) && Decode(e.payload) == Decoded.Message(message)
      modifies `assemblies, `jobs, `nextId
      ensures Handled(Tables(assemblies, jobs), d) == Accept(cfg, Tables(old(assemblies), old(jobs)), e, now, old(nextId))
      ensures nextId == if d.Started? then old(nextId) + 1 else old(nextId)
      ensures d != CancelSeen
    {
      hide Decode, Wire.Has, Unacceptable, PartOf, Dispatch, Grow;
      var correlation := e.frame.correlationID;
      if correlation !in assemblies {
        if |assemblies| >= MAX_IN_FLIGHT {
          return Answered(message.stageID, message.traceID, STATUS_INTERNAL);
        }
        GrowFromBuffer(cfg, Tables(assemblies, jobs), e, Assembly(e.frame.eventKind, message, []), message, now, nextId);
        assemblies := assemblies[correlation := Assembly(e.frame.eventKind, message, [])];
      }
      d := Extend(e, message, now);
    }

    method Extend(e: Event, message: Message, now: u64) returns (d: Disposition)
      requires e.frame.correlationID in assemblies && Decode(e.payload) == Decoded.Message(message)
      modifies `assemblies, `jobs, `nextId
      ensures Handled(Tables(assemblies, jobs), d) == Grow(cfg, Tables(old(assemblies), old(jobs)), e,
                old(assemblies)[e.frame.correlationID], message, now, old(nextId))
      ensures nextId == if d.Started? then old(nextId) + 1 else old(nextId)
      ensures d != CancelSeen
    {
      hide Decode, Wire.Has, PartOf, Dispatch;
      var correlation := e.frame.correlationID;
      var part := PartOf(e);
      if |assemblies[correlation].body| + |part| > MAX_BODY {
        assemblies := assemblies - {correlation};
        return Answered(message.stageID, message.traceID, STATUS_INTERNAL);
      }
      assemblies := assemblies[correlation := assemblies[correlation].(body := assemblies[correlation].body + part)];
      if Wire.Has(e.frame.hdrFlags, Wire.F_MORE) {
        return Buffered;
      }
      var body := assemblies[correlation].body;
      assemblies := assemblies - {correlation};
      assert assemblies == old(assemblies) - {correlation};
      d := Finish(e.frame.eventKind, correlation, message, body, now);
    }

    method Finish(kind: u32, correlation: u64, message: Message, body: seq<byte>, now: u64) returns (d: Disposition)
      modifies `jobs, `nextId
      ensures Handled(Tables(assemblies, jobs), d) ==
              Dispatch(cfg, Tables(assemblies, old(jobs)), kind, correlation, message, body, now, old(nextId))
      ensures nextId == if d.Started? then old(nextId) + 1 else old(nextId)
      ensures d != CancelSeen
    {
      if message.DeadlineExpired(now) {
        return Answered(message.stageID, message.traceID, STATUS_DEADLINE_EXCEEDED);
      }
      if !cfg.hasHandler {
        return Answered(message.stageID, message.traceID, STATUS_CAPABILITY_ABSENT);
      }
      if |jobs| >= MAX_IN_FLIGHT {
        return Answered(message.stageID, message.traceID, STATUS_INTERNAL);
      }
      var work := Work(nextId, kind, correlation, message.stageID, message.deadlineNS, message.traceID);
      nextId := nextId + 1;
      jobs := jobs[correlation := work];
      return Started(work, body);
    }
  }

  /** The assembly and the job of a correlation. */
  ghost predicate SameEntries(t: Tables, n: Tables, c: u64) {
    && (c in n.assemblies <==> c in t.assemblies)
    && (c in t.assemblies ==> n.assemblies[c] == t.assemblies[c])
    && (c in n.jobs <==> c in t.jobs)
    && (c in t.jobs ==> n.jobs[c] == t.jobs[c])
  }

  /** An event leaves the assembly and the job of every other correlation untouched. */
  lemma OtherCorrelationsUntouched(cfg: Config, t: Tables, e: Event, now: u64, id: nat, c: u64)
    requires c != e.frame.correlationID
    ensures SameEntries(t, Handle(cfg, t, e, now, id).tables, c)
  {
    hide Decode, Wire.Has, PartOf, IsCancel, IsRequest, Grow;
    if !IsCancel(e) && IsRequest(e) && !Unacceptable(cfg, t, e) {
      var m := Decode(e.payload).message;
      var a := if e.frame.correlationID in t.assemblies then t.assemblies[e.frame.correlationID]
               else Assembly(e.frame.eventKind, m, []);
      GrowLeavesOthers(cfg, t, e, a, m, now, id, c);
    }
  }

  lemma GrowLeavesOthers(cfg: Config, t: Tables, e: Event, a: Assembly, m: Message, now: u64, id: nat, c: u64)
    requires c != e.frame.correlationID
    ensures SameEntries(t, Grow(cfg, t, e, a, m, now, id).tables, c)
  {
    hide PartOf, HasMore, Dispatch;
    var d := e.frame.correlationID;
    var body := a.body + PartOf(e);
    DispatchLeavesOthers(cfg, t.Forget(d), e.frame.eventKind, d, m, body, now, id, c);
  }

  lemma DispatchLeavesOthers(cfg: Config, t: Tables, kind: u32, d: u64, m: Message, body: seq<byte>, now: u64, id: nat, c: u64)
    requires c != d
    ensures SameEntries(t, Dispatch(cfg, t, kind, d, m, body, now, id).tables, c)
  {
    hide Message.DeadlineExpired;
  }

  /** Every polled event has exactly one fate, and its pattern decides which kinds of fate:
      cancels are noted, requests are buffered, answered or started, the rest is ignored. */
  lemma PatternDecidesFate(cfg: Config, t: Tables, e: Event, now: u64, id: nat)
    ensures var d := Handle(cfg, t, e, now, id).disposition;
      && (d == CancelSeen <==> IsCancel(e))
      && (d == Ignored <==> !IsCancel(e) && !IsRequest(e))
      && (d == Buffered || d.Answered? || d.Started? <==> IsRequest(e) && !IsCancel(e))
      && (d == Buffered ==> HasMore(e)) && (d.Started? ==> !HasMore(e))
  {
    hide Decode, Wire.Has, PartOf, Unacceptable;
  }

  /** A correlation can be answered more than once: a request for a job that is running is
      refused at once, and the job stays to be answered when it finishes. */
  lemma DuplicateIsRefusedBeside(cfg: Config, t: Tables, e: Event, now: u64, id: nat)
    requires cfg.Valid() && IsRequest(e) && !IsCancel(e) && e.frame.correlationID in t.jobs
    ensures var h := Handle(cfg, t, e, now, id);
      && h.disposition.Answered? && h.disposition.status == STATUS_INVALID_REQUEST && h.disposition.traceID == 0
      && h.tables.jobs == t.jobs
  {
    hide Decode, Wire.Has, PartOf, Accept;
  }

  /** An answer leaves nothing assembled, so the next fragment of that correlation, if one
      comes, opens a new assembly. */
  lemma AnswerForgets(cfg: Config, t: Tables, e: Event, now: u64, id: nat)
    ensures var h := Handle(cfg, t, e, now, id);
      h.disposition.Answered? || h.disposition.Started? || h.disposition == CancelSeen ==>
        e.frame.correlationID !in h.tables.assemblies
  {
    hide Decode, Wire.Has, PartOf, Accept, Tables.Forget;
    ForgetForgets(t, e.frame.correlationID);
    if IsRequest(e) && !IsCancel(e) && !Unacceptable(cfg, t, e) {
      AcceptForgets(cfg, t, e, now, id);
    }
  }

  lemma AcceptForgets(cfg: Config, t: Tables, e: Event, now: u64, id: nat)
    requires !Unacceptable(cfg, t, e)
    ensures var h := Accept(cfg, t, e, now, id);
      && h.disposition != CancelSeen
      && (h.disposition.Answered? || h.disposition.Started? ==> e.frame.correlationID !in h.tables.assemblies)
  {
    hide Decode, Wire.Has, PartOf, Dispatch, Tables.Forget;
    var c, m := e.frame.correlationID, Decode(e.payload).message;
    var a := if c in t.assemblies then t.assemblies[c] else Assembly(e.frame.eventKind, m, []);
    ForgetForgets(t, c);
    DispatchKeepsAssemblies(cfg, t.Forget(c), e.frame.eventKind, c, m, a.body + PartOf(e), now, id);
  }

  lemma ForgetForgets(t: Tables, c: u64)
    ensures c !in t.Forget(c).assemblies
  {
    assert c !in (t.assemblies - {c}).Keys;
  }

  lemma DispatchKeepsAssemblies(cfg: Config, t: Tables, kind: u32, c: u64, m: Message, body: seq<byte>, now: u64, id: nat)
    ensures Dispatch(cfg, t, kind, c, m, body, now, id).tables.assemblies == t.assemblies
    ensures Dispatch(cfg, t, kind, c, m, body, now, id).disposition != CancelSeen
  {
  }

  /** The tables the loop can reach: bounded, with each correlation in at most one of them. */
  ghost predicate TablesInv(t: Tables) {
    && |t.assemblies| <= MAX_IN_FLIGHT && |t.jobs| <= MAX_IN_FLIGHT
    && (forall c :: c in t.jobs ==> c !in t.assemblies && t.jobs[c].correlationID == c && t.jobs[c].stageID != 0)
    && (forall c :: c in t.assemblies ==> |t.assemblies[c].body| <= MAX_BODY)
  }

  lemma HandleKeepsTables(cfg: Config, t: Tables, e: Event, now: u64, id: nat)
    requires cfg.Valid() && TablesInv(t)
    ensures TablesInv(Handle(cfg, t, e, now, id).tables)
  {
    hide Decode, Wire.Has, PartOf, Accept, Unacceptable;
    RemovalShrinks(t.assemblies, e.frame.correlationID);
    if IsRequest(e) && !IsCancel(e) && !Unacceptable(cfg, t, e) {
      AcceptKeepsTables(cfg, t, e, now, id);
    }
  }

  lemma AcceptKeepsTables(cfg: Config, t: Tables, e: Event, now: u64, id: nat)
    requires cfg.Valid() && TablesInv(t) && !Unacceptable(cfg, t, e)
    ensures TablesInv(Accept(cfg, t, e, now, id).tables)
  {
    hide Decode, Wire.Has, PartOf, TablesInv, Tables.Buffer, Tables.Launch, Dispatch, Tables.Forget;
    var c, m := e.frame.correlationID, Decode(e.payload).message;
    ForgetKeepsTables(t, c);
    var a := if c in t.assemblies then t.assemblies[c] else Assembly(e.frame.eventKind, m, []);
    if c in t.assemblies || |t.assemblies| < MAX_IN_FLIGHT {
      var body := a.body + PartOf(e);
      if |body| <= MAX_BODY {
        BufferKeepsTables(t, c, a.(body := body));
        DispatchKeepsTables(cfg, t.Forget(c), e.frame.eventKind, c, m, body, now, id);
      }
    }
  }

  lemma DispatchKeepsTables(cfg: Config, t: Tables, kind: u32, c: u64, m: Message, body: seq<byte>, now: u64, id: nat)
    requires TablesInv(t) && c !in t.assemblies && m.stageID != 0
    ensures TablesInv(Dispatch(cfg, t, kind, c, m, body, now, id).tables)
  {
    hide TablesInv, Tables.Launch;
    if |t.jobs| < MAX_IN_FLIGHT {
      LaunchKeepsTables(t, c, Work(id, kind, c, m.stageID, m.deadlineNS, m.traceID));
    }
  }

  lemma ForgetKeepsTables(t: Tables, c: u64)
    requires TablesInv(t)
    ensures TablesInv(t.Forget(c)) && c !in t.Forget(c).assemblies
  {
    RemovalShrinks(t.assemblies, c);
  }

  lemma BufferKeepsTables(t: Tables, c: u64, a: Assembly)
    requires TablesInv(t) && c !in t.jobs && |a.body| <= MAX_BODY
    requires c in t.assemblies || |t.assemblies| < MAX_IN_FLIGHT
    ensures TablesInv(t.Buffer(c, a))
  {
    InsertionSize(t.assemblies, t.assemblies[c := a], c);
  }

  lemma LaunchKeepsTables(t: Tables, c: u64, w: Work)
    requires TablesInv(t) && |t.jobs| < MAX_IN_FLIGHT && w.correlationID == c && w.stageID != 0
    requires c !in t.assemblies
    ensures TablesInv(t.Launch(c, w))
  {
    var n := t.Launch(c, w);
    InsertionSize(t.jobs, n.jobs, c);
    forall d | d in n.jobs
      ensures d !in n.assemblies && n.jobs[d].correlationID == d && n.jobs[d].stageID != 0
    {
      assert d != c ==> d in t.jobs;
    }
  }

  lemma RemovalShrinks<V>(m: map<u64, V>, c: u64)
    ensures |m - {c}| == if c in m then |m| - 1 else |m|
  {
    if c in m {
      assert m == (m - {c})[c := m[c]];
    } else {
      assert m - {c} == m;
    }
  }

  lemma InsertionSize<V>(m: map<u64, V>, n: map<u64, V>, c: u64)
    requires n.Keys == m.Keys + {c}
    ensures |n| == if c in m then |m| else |m| + 1
  {
    KeysSize(m);
    KeysSize(n);
    if c in m {
      assert n.Keys == m.Keys;
    }
  }

  lemma KeysSize<V>(m: map<u64, V>)
    ensures |m| == |m.Keys|
  {
  }
}
