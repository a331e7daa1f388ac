/** The serving loop against the history of its events (server-go/bus/module_runtime.go,
    runModuleClient): what the tables make of any traffic whatever is what the fragments polled so
    far call for. */
module Reassembly {
  import opened LittleEndian
  import opened ModuleProtocol
  import opened Events
  import opened Serving
  import opened Server
  import Wire

  /** The fragments buffered for a correlation since it was last answered, started or cancelled. */
  function Held(polled: seq<Fate>, c: u64): seq<Event> {
    if polled == [] then []
    else
      var last, before := polled[|polled| - 1], Held(polled[..|polled| - 1], c);
      if last.Correlation() != c || last.disposition.Ignored? then before
      else if last.disposition.Buffered? then before + [last.event]
      else []
  }

  /** An invocation of the stage that its kind selects. */
  predicate Invokes(cfg: Config, e: Event) {
    var d := Decode(e.payload);
    && cfg.StageOf(e.frame.eventKind) != 0 && d.Message?
    && d.message.operation == OP_INVOKE && d.message.stageID == cfg.StageOf(e.frame.eventKind)
  }

  /** Two fragments agree in everything but their bodies. */
  predicate Agree(e: Event, f: Event) {
    var d, g := Decode(e.payload), Decode(f.payload);
    && d.Message? && g.Message? && e.frame.eventKind == f.frame.eventKind
    && d.message.stageID == g.message.stageID && d.message.deadlineNS == g.message.deadlineNS
    && d.message.traceID == g.message.traceID
  }

  /** The events are fragments of one invocation. */
  ghost predicate Coherent(cfg: Config, es: seq<Event>) {
    forall i :: 0 <= i < |es| ==> Invokes(cfg, es[i]) && Agree(es[0], es[i])
  }

  function Bodies(es: seq<Event>): seq<byte> {
    if es == [] then [] else Bodies(es[..|es| - 1]) + PartOf(es[|es| - 1])
  }

  /** What the next event of a correlation calls for, after the fragments held of it, in a loop with
      so many assemblies and jobs. */
  ghost function Due(cfg: Config, held: seq<Event>, assemblies: nat, jobs: nat, busy: bool, e: Event, now: u64,
                     id: nat): Disposition
  {
    var c, kind, stage := e.frame.correlationID, e.frame.eventKind, cfg.StageOf(e.frame.eventKind);
    var all := held + [e];
    if Wire.Has(e.frame.hdrFlags, Wire.F_CANCEL) then CancelSeen
    else if !Wire.Has(e.frame.hdrFlags, Wire.F_REQUEST) then Ignored
    else if busy || !Coherent(cfg, all) then Answered(if stage == 0 then 1 else stage, 0, STATUS_INVALID_REQUEST)
    else
      assert all[|held|] == e;
      var m := Decode(e.payload).message;
      if held == [] && assemblies >= MAX_IN_FLIGHT then Answered(stage, m.traceID, STATUS_INTERNAL)
      else if |Bodies(all)| > MAX_BODY then Answered(stage, m.traceID, STATUS_INTERNAL)
      else if Wire.Has(e.frame.hdrFlags, Wire.F_MORE) then Buffered
      else if m.deadlineNS != 0 && m.deadlineNS <= now then Answered(stage, m.traceID, STATUS_DEADLINE_EXCEEDED)
      else if !cfg.hasHandler then Answered(stage, m.traceID, STATUS_CAPABILITY_ABSENT)
      else if jobs >= MAX_IN_FLIGHT then Answered(stage, m.traceID, STATUS_INTERNAL)
      else Started(Work(id, kind, c, stage, m.deadlineNS, m.traceID), Bodies(all))
  }

  // ---- the tables against the history ----------------------------------------------------------

  /** The assembly of a correlation is what its held fragments add up to. */
  ghost predicate Tracks(cfg: Config, t: Tables, c: u64, held: seq<Event>) {
    && Coherent(cfg, held) && (c in t.assemblies <==> held != [])
    && (held != [] ==> t.assemblies[c] == Assembly(held[0].frame.eventKind, Decode(held[0].payload).message, Bodies(held)))
  }

  ghost predicate TracksAll(cfg: Config, s: State) {
    forall c: u64 :: Tracks(cfg, s.tables, c, Held(s.polled, c))
  }

  /** The loop refuses outright exactly what does not continue the held fragments. */
  lemma UnacceptableIsIncoherent(cfg: Config, t: Tables, e: Event, held: seq<Event>)
    requires Tracks(cfg, t, e.frame.correlationID, held)
    ensures Unacceptable(cfg, t, e) <==> e.frame.correlationID in t.jobs || !Coherent(cfg, held + [e])
  {
    hide Decode, Bodies;
    var all := held + [e];
    assert all[|held|] == e && forall i :: 0 <= i < |held| ==> all[i] == held[i];
    if held != [] {
      assert Invokes(cfg, held[0]) && Agree(held[0], held[0]);
    }
  }

  lemma BodiesOfAppend(held: seq<Event>, e: Event)
    ensures Bodies(held + [e]) == Bodies(held) + PartOf(e)
  {
    assert (held + [e])[..|held|] == held;
  }

  lemma BodiesOfOne(e: Event)
    ensures Bodies([e]) == PartOf(e)
  {
    assert [] + PartOf(e) == PartOf(e);
  }

  /** The loop does what its history calls for. */
  lemma HandleIsDue(cfg: Config, t: Tables, e: Event, now: u64, id: nat, held: seq<Event>)
    requires Tracks(cfg, t, e.frame.correlationID, held)
    ensures var c := e.frame.correlationID;
      Handle(cfg, t, e, now, id).disposition == Due(cfg, held, |t.assemblies|, |t.jobs|, c in t.jobs, e, now, id)
  {
    hide Decode, PartOf, Bodies, Wire.Has, Unacceptable, Coherent, Invokes;
    UnacceptableIsIncoherent(cfg, t, e, held);
    BodiesOfAppend(held, e);
    BodiesOfNothing();
    if !Unacceptable(cfg, t, e) {
      AcceptableStage(cfg, t, e);
    }
  }

  lemma BodiesOfNothing()
    ensures Bodies([]) == []
  {
  }

  lemma AcceptableStage(cfg: Config, t: Tables, e: Event)
    requires !Unacceptable(cfg, t, e)
    ensures Decode(e.payload).Message? && Decode(e.payload).message.stageID == cfg.StageOf(e.frame.eventKind) != 0
  {
    hide Decode;
  }

  /** What is held of the event's correlation afterwards. */
  function HeldNext(held: seq<Event>, e: Event, d: Disposition): seq<Event> {
    if d.Ignored? then held else if d.Buffered? then held + [e] else []
  }

  lemma HandleTracks(cfg: Config, t: Tables, e: Event, now: u64, id: nat, held: seq<Event>)
    requires Tracks(cfg, t, e.frame.correlationID, held)
    ensures var h := Handle(cfg, t, e, now, id);
      Tracks(cfg, h.tables, e.frame.correlationID, HeldNext(held, e, h.disposition))
  {
    hide Decode, PartOf, Bodies, Wire.Has, Unacceptable, Tracks, Grow, Coherent;
    UnacceptableIsIncoherent(cfg, t, e, held);
    ForgottenTracks(cfg, t, e.frame.correlationID);
    if !IsCancel(e) && IsRequest(e) && !Unacceptable(cfg, t, e) {
      AcceptTracks(cfg, t, e, now, id, held);
    }
  }

  lemma ForgottenTracks(cfg: Config, t: Tables, c: u64)
    ensures Tracks(cfg, t.Forget(c), c, [])
  {
  }

  lemma AcceptTracks(cfg: Config, t: Tables, e: Event, now: u64, id: nat, held: seq<Event>)
    requires Tracks(cfg, t, e.frame.correlationID, held) && !Unacceptable(cfg, t, e) && Coherent(cfg, held + [e])
    ensures var h := Accept(cfg, t, e, now, id);
      Tracks(cfg, h.tables, e.frame.correlationID, HeldNext(held, e, h.disposition))
  {
    hide Decode, PartOf, Bodies, Wire.Has, Unacceptable, Coherent, Grow;
    AcceptableStage(cfg, t, e);
    BodiesOfNothing();
    var c, m := e.frame.correlationID, Decode(e.payload).message;
    if c in t.assemblies || |t.assemblies| < MAX_IN_FLIGHT {
      var a := if c in t.assemblies then t.assemblies[c] else Assembly(e.frame.eventKind, m, []);
      FirstDecodes(cfg, held + [e]);
      assert held != [] ==> (held + [e])[0] == held[0];
      GrowTracks(cfg, t, e, a, m, now, id, held);
    }
  }

  lemma FirstDecodes(cfg: Config, es: seq<Event>)
    requires Coherent(cfg, es) && es != []
    ensures Decode(es[0].payload).Message?
  {
    hide Decode;
    assert Invokes(cfg, es[0]);
  }

  lemma GrowTracks(cfg: Config, t: Tables, e: Event, a: Assembly, m: Message, now: u64, id: nat, held: seq<Event>)
    requires Decode(e.payload) == Decoded.Message(m) && Coherent(cfg, held + [e]) && a.body == Bodies(held)
    requires if held == [] then a.eventKind == e.frame.eventKind && a.message == m
             else Decode(held[0].payload).Message? && a.eventKind == held[0].frame.eventKind
                  && a.message == Decode(held[0].payload).message
    ensures var h := Grow(cfg, t, e, a, m, now, id);
      Tracks(cfg, h.tables, e.frame.correlationID, HeldNext(held, e, h.disposition))
  {
    hide Decode, PartOf, Bodies, Wire.Has, Coherent, Dispatch;
    BodiesOfAppend(held, e);
    assert (held + [e])[0] == if held == [] then e else held[0];
    var c := e.frame.correlationID;
    DispatchTracks(cfg, t, e.frame.eventKind, c, m, a.body + PartOf(e), now, id);
    NothingIsCoherent(cfg);
  }

  lemma NothingIsCoherent(cfg: Config)
    ensures Coherent(cfg, [])
  {
  }

  lemma DispatchTracks(cfg: Config, t: Tables, kind: u32, c: u64, m: Message, body: seq<byte>, now: u64, id: nat)
    ensures var h := Dispatch(cfg, t.Forget(c), kind, c, m, body, now, id);
      c !in h.tables.assemblies && !h.disposition.Ignored? && !h.disposition.Buffered?
  {
    hide Message.DeadlineExpired;
  }

  lemma TakeTracks(cfg: Config, s: State, e: Event)
    requires s.loop.AtPoll? && TracksAll(cfg, s)
    ensures TracksAll(cfg, Take(cfg, s, e))
  {
    hide Handle, Tracks, FramesOf, Coherent;
    var n := Take(cfg, s, e);
    var h := Handle(cfg, s.tables, e, s.loop.now, s.nextId);
    assert n.polled == s.polled + [Fate(e, s.loop.now, h.disposition)] && n.polled[..|s.polled|] == s.polled;
    forall c: u64 ensures Tracks(cfg, n.tables, c, Held(n.polled, c)) {
      if c == e.frame.correlationID {
        HandleTracks(cfg, s.tables, e, s.loop.now, s.nextId, Held(s.polled, c));
      } else {
        OtherTracks(cfg, s.tables, e, s.loop.now, s.nextId, c, Held(s.polled, c));
      }
    }
  }

  lemma OtherTracks(cfg: Config, t: Tables, e: Event, now: u64, id: nat, c: u64, held: seq<Event>)
    requires c != e.frame.correlationID && Tracks(cfg, t, c, held)
    ensures Tracks(cfg, Handle(cfg, t, e, now, id).tables, c, held)
  {
    hide Handle, Coherent, Bodies;
    OtherCorrelationsUntouched(cfg, t, e, now, id, c);
  }

  /** Every step but a poll leaves assemblies and history alone. */
  lemma QuietTracks(cfg: Config, s: State, a: Action)
    requires Enabled(s, a) && !a.PollEvent? && TracksAll(cfg, s)
    ensures TracksAll(cfg, Next(cfg, s, a)) && Next(cfg, s, a).polled == s.polled
  {
    hide Held, Coherent, FramesOf, JobIds, Bodies;
    var n := Next(cfg, s, a);
    assert n.polled == s.polled && n.tables.assemblies == s.tables.assemblies;
    forall c: u64 ensures Tracks(cfg, n.tables, c, Held(n.polled, c)) {
      assert Tracks(cfg, s.tables, c, Held(s.polled, c));
    }
  }

  // ---- whole runs --------------------------------------------------------------------------------

  /** The fate is the one that the fragments held before it called for. */
  ghost predicate Explained(cfg: Config, held: seq<Event>, f: Fate) {
    exists assemblies: nat, jobs: nat, busy: bool, id: nat ::
      f.disposition == Due(cfg, held, assemblies, jobs, busy, f.event, f.at, id)
  }

  ghost predicate AllExplained(cfg: Config, polled: seq<Fate>) {
    forall i :: 0 <= i < |polled| ==> Explained(cfg, Held(polled[..i], polled[i].Correlation()), polled[i])
  }

  lemma StepExplains(cfg: Config, s: State, a: Action)
    requires Enabled(s, a) && TracksAll(cfg, s) && AllExplained(cfg, s.polled)
    ensures TracksAll(cfg, Next(cfg, s, a)) && AllExplained(cfg, Next(cfg, s, a).polled)
  {
    hide TracksAll, Take, Tracks;
    if a.PollEvent? {
      TakeTracks(cfg, s, a.event);
      TakeExplains(cfg, s, a.event);
    } else {
      QuietTracks(cfg, s, a);
    }
  }

  lemma TakeExplains(cfg: Config, s: State, e: Event)
    requires s.loop.AtPoll? && TracksAll(cfg, s) && AllExplained(cfg, s.polled)
    ensures AllExplained(cfg, Take(cfg, s, e).polled)
  {
    hide Handle, Tracks, Due, Held, FramesOf, Explained;
    var c := e.frame.correlationID;
    var h := Handle(cfg, s.tables, e, s.loop.now, s.nextId);
    var f := Fate(e, s.loop.now, h.disposition);
    HandleIsDue(cfg, s.tables, e, s.loop.now, s.nextId, Held(s.polled, c));
    DueExplains(cfg, Held(s.polled, c), f, |s.tables.assemblies|, |s.tables.jobs|, c in s.tables.jobs, s.nextId);
    var n := Take(cfg, s, e);
    assert n.polled == s.polled + [f];
    forall i | 0 <= i < |n.polled|
      ensures Explained(cfg, Held(n.polled[..i], n.polled[i].Correlation()), n.polled[i])
    {
      assert n.polled[..i] == if i < |s.polled| then s.polled[..i] else s.polled;
    }
  }

  lemma DueExplains(cfg: Config, held: seq<Event>, f: Fate, assemblies: nat, jobs: nat, busy: bool, id: nat)
    requires f.disposition == Due(cfg, held, assemblies, jobs, busy, f.event, f.at, id)
    ensures Explained(cfg, held, f)
  {
    hide Due;
  }

  lemma {:induction false} RunExplains(cfg: Config, s: State, run: seq<Action>)
    requires Legal(cfg, s, run) && TracksAll(cfg, s) && AllExplained(cfg, s.polled)
    ensures TracksAll(cfg, After(cfg, s, run)) && AllExplained(cfg, After(cfg, s, run).polled)
    decreases |run|
  {
    hide TracksAll, AllExplained, Next, Enabled;
    if run != [] {
      StepExplains(cfg, s, run[0]);
      RunExplains(cfg, Next(cfg, s, run[0]), run[1..]);
    }
  }

  lemma StartTracks(cfg: Config)
    ensures TracksAll(cfg, Start()) && AllExplained(cfg, Start().polled)
  {
  }

  /** On every run and for any traffic: each polled event met the fate that the fragments polled
      before it call for. So nothing is refused as invalid but what is no invocation, disagrees
      with the fragments before it or duplicates a running job, and a handler is started exactly
      on the bodies of one invocation's fragments, in order. */
  lemma EveryFateIsExplained(cfg: Config, run: seq<Action>)
    requires Legal(cfg, Start(), run)
    ensures AllExplained(cfg, After(cfg, Start(), run).polled)
  {
    hide Legal, After, TracksAll, AllExplained;
    StartTracks(cfg);
    RunExplains(cfg, Start(), run);
  }

  /** At every poll on every run the loop does what the history calls for, given how many
      assemblies and jobs it holds. */
  lemma EveryPollIsDue(cfg: Config, run: seq<Action>, e: Event)
    requires Legal(cfg, Start(), run) && After(cfg, Start(), run).loop.AtPoll?
    ensures var s, c := After(cfg, Start(), run), e.frame.correlationID;
      Handle(cfg, s.tables, e, s.loop.now, s.nextId).disposition
      == Due(cfg, Held(s.polled, c), |s.tables.assemblies|, |s.tables.jobs|, c in s.tables.jobs, e, s.loop.now, s.nextId)
  {
    hide Legal, After, Tracks, Due, Handle, AllExplained, Held;
    StartTracks(cfg);
    RunExplains(cfg, Start(), run);
    var s := After(cfg, Start(), run);
    HandleIsDue(cfg, s.tables, e, s.loop.now, s.nextId, Held(s.polled, e.frame.correlationID));
  }

  // ---- refusals ----------------------------------------------------------------------------------

  /** The replies that refused events call for, in their order. */
  function Refused(polled: seq<Fate>): seq<Entry> {
    if polled == [] then []
    else
      var f := polled[|polled| - 1];
      Refused(polled[..|polled| - 1]) +
      (match f.disposition
       case Answered(stageID, traceID, status) =>
         [Entry(Rejection, f.event.frame.eventKind, f.Correlation(), stageID, traceID, status, [])]
       case _ => [])
  }

  function Rejections(log: seq<Entry>): seq<Entry> {
    if log == [] then []
    else Rejections(log[..|log| - 1]) + (if log[|log| - 1].origin == Rejection then [log[|log| - 1]] else [])
  }

  lemma StepKeepsRefusals(cfg: Config, s: State, a: Action)
    requires Enabled(s, a) && Rejections(s.log) == Refused(s.polled)
    ensures Rejections(Next(cfg, s, a).log) == Refused(Next(cfg, s, a).polled)
  {
    hide Handle, FramesOf, JobIds, Rejections, Refused, NormalisedResponse;
    var n := Next(cfg, s, a);
    if a.PollEvent? {
      RefusedOfAppend(s.polled, n.polled[|s.polled|]);
      if n.polled[|s.polled|].disposition.Answered? {
        RejectionsOfAppend(s.log, n.log[|s.log|]);
      }
    } else if a.ReceiveResult? {
      RejectionsOfAppend(s.log, EntryOf(s.done[0]));
    }
  }

  lemma RefusedOfAppend(polled: seq<Fate>, f: Fate)
    ensures Refused(polled + [f]) == Refused(polled) +
      (if f.disposition.Answered?
       then [Entry(Rejection, f.event.frame.eventKind, f.Correlation(), f.disposition.stageID, f.disposition.traceID,
                   f.disposition.status, [])]
       else [])
  {
    assert (polled + [f])[..|polled|] == polled;
  }

  lemma RejectionsOfAppend(log: seq<Entry>, e: Entry)
    ensures Rejections(log + [e]) == Rejections(log) + (if e.origin == Rejection then [e] else [])
  {
    assert (log + [e])[..|log|] == log;
  }

  lemma {:induction false} RunKeepsRefusals(cfg: Config, s: State, run: seq<Action>)
    requires Legal(cfg, s, run) && Rejections(s.log) == Refused(s.polled)
    ensures Rejections(After(cfg, s, run).log) == Refused(After(cfg, s, run).polled)
    decreases |run|
  {
    hide Rejections, Refused, Next, Enabled;
    if run != [] {
      StepKeepsRefusals(cfg, s, run[0]);
      RunKeepsRefusals(cfg, Next(cfg, s, run[0]), run[1..]);
    }
  }

  /** On every run the refusals begun are those of the refused events, in their order, each with
      the kind and correlation of its event and the stage, trace and status of its fate. */
  lemma RefusalsAnswerEvents(cfg: Config, run: seq<Action>)
    requires Legal(cfg, Start(), run)
    ensures var s := After(cfg, Start(), run); Rejections(s.log) == Refused(s.polled)
  {
    hide Legal, After;
    RunKeepsRefusals(cfg, Start(), run);
  }

  /** No job is ever started by an event polled at or after its deadline, and none is refused as
      late before it. */
  lemma NothingStartsLate(cfg: Config, run: seq<Action>, i: nat)
    requires Legal(cfg, Start(), run) && i < |After(cfg, Start(), run).polled|
    ensures var f := After(cfg, Start(), run).polled[i];
      && (f.disposition.Started? ==> f.disposition.work.deadlineNS == 0 || f.at < f.disposition.work.deadlineNS)
      && (f.disposition.Answered? && f.disposition.status == STATUS_DEADLINE_EXCEEDED ==>
            && Decode(f.event.payload).Message?
            && 0 < Decode(f.event.payload).message.deadlineNS <= f.at)
  {
    hide Legal, After, Held, Bodies, Agree, Wire.Has, Decode;
    EveryFateIsExplained(cfg, run);
    var polled := After(cfg, Start(), run).polled;
    var held := Held(polled[..i], polled[i].Correlation());
    assert Explained(cfg, held, polled[i]);
    assert (held + [polled[i].event])[|held|] == polled[i].event;
  }
}
