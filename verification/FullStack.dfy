/** One call through every layer: the caller and the serving process of EndToEnd with a ring in
    each direction as their carrier, every byte of every emit and every step of every Poll on
    its own (server-go/bus/module_caller.go, server-go/bus/client.go, server-go/bus/ring.go,
    server-go/bus/module_runtime.go). The host is the lossless relay that joins the rings. */
module FullStack {
  import opened LittleEndian
  import opened ModuleProtocol
  import opened Wrappers
  import opened Fragments
  import opened Events
  import opened Serving
  import opened Requests
  import C = Caller
  import E = EndToEnd
  import M = RingEmission
  import P = RingProtocol
  import R = Reply
  import S = Server
  import SR = ServerReplies
  import Wire

  /** The abstract call, the ring from the caller to the process and the one back. */
  datatype State = State(sys: E.State, up: M.State, down: M.State)

  datatype Action =
    | Up(action: M.Action)
    | Down(action: M.Action, pause: R.Pause)
    | System(event: E.Action)

  /** emit of request fragment i. */
  function RequestEmission(r: Request, i: nat): M.Emission
    requires r.Valid() && i < |r.Fragments()|
  {
    var f := r.Fragments()[i];
    M.Emission(RequestFlags(f.more), r.kind, r.correlation, f.payload, 0)
  }

  /** emit of a reply fragment. */
  function ReplyEmission(f: R.SentReply): M.Emission {
    M.Emission(ReplyFlags(f.more), f.kind, f.correlation, f.payload, 0)
  }

  /** A step of the abstract call, if it may happen. */
  ghost function Do(cfg: Config, r: Request, s: E.State, b: E.Action): E.State
    requires r.Valid()
  {
    if E.Enabled(cfg, r, s, b) then E.Next(cfg, r, s, b) else s
  }

  ghost predicate Enabled(cfg: Config, r: Request, p: State, a: Action)
    requires r.Valid()
  {
    match a
    case Up(b) =>
      && P.Shape(p.up.ring) && M.Enabled(p.up, b)
      && (b.Begin? ==> MaySend(r, p.sys, b.emission))
      && (b == M.Consume(P.PollDecides) ==> p.sys.server.loop.AtPoll?)
    case Down(b, _) =>
      && P.Shape(p.down.ring) && M.Enabled(p.down, b)
      && (b.Begin? ==> MayReply(p.sys.server, b.emission))
      && (b.Consume? ==> !p.sys.call.Sending?)
    case System(b) => E.Enabled(cfg, r, p.sys, b) && OffTheRings(p, b)
  }

  /** The caller emits the fragment it is at; once it is back, anything for other calls, and
      after a failure also a cancel of this one. */
  ghost predicate MaySend(r: Request, s: E.State, e: M.Emission)
    requires r.Valid()
  {
    match s.call
    case Sending(i) => i < |r.Fragments()| && e == RequestEmission(r, i)
    case Awaiting(_) => false
    case Returned(_) => E.Failed(s) || e.correlation != r.correlation
  }

  /** The loop emits the fragment of the reply it is at. */
  predicate MayReply(s: S.State, e: M.Emission) {
    s.loop.Replying? && s.loop.rest != [] && e == ReplyEmission(s.loop.rest[0])
  }

  /** What happens beside the rings: everything but handing over request and reply fragments. An
      emit may also fail before it touches its ring. */
  predicate OffTheRings(p: State, b: E.Action) {
    match b
    case CallerSends(accepted) => !accepted && p.up.current == None
    case CallerIdles(_) => true
    case CallerReads(_) => false
    case RelayReply => false
    case ServerTakes(_) => false
    case ServerSteps(c) => c.Emit? ==> c.attempt != R.Accepts && p.down.current == None
  }

  /** The event a ring step hands out, if it does. */
  function Handed(was: M.State, now: M.State): Option<Event> {
    if |now.ring.delivered| > |was.ring.delivered| then Some(now.ring.delivered[|was.ring.delivered|]) else None
  }

  ghost function Next(cfg: Config, r: Request, p: State, a: Action): State
    requires r.Valid() && Enabled(cfg, r, p, a)
  {
    match a
    case Up(b) => var n := M.Next(p.up, b); p.(up := n, sys := UpStep(cfg, r, p.sys, p.up, n, b))
    case Down(b, pause) => var n := M.Next(p.down, b); p.(down := n, sys := DownStep(cfg, r, p.sys, p.down, n, b, pause))
    case System(b) => p.(sys := E.Next(cfg, r, p.sys, b))
  }

  /** The call's part of a step on the way up: emit succeeds, fails, or Poll takes an event. */
  ghost function UpStep(cfg: Config, r: Request, s: E.State, was: M.State, now: M.State, b: M.Action): E.State
    requires r.Valid()
  {
    match b
    case StoreHead => if s.call.Sending? then Do(cfg, r, s, E.CallerSends(true)) else s
    case LoadTail => if now.current == None && s.call.Sending? then Do(cfg, r, s, E.CallerSends(false)) else s
    case Refuse => if s.call.Sending? then Do(cfg, r, s, E.CallerSends(false)) else s
    case Consume(_) =>
      (match Handed(was, now)
       case None => s
       case Some(e) =>
         Do(cfg, r, s, if s.taken < |s.uplink| then E.ServerTakes(e) else E.ServerSteps(S.PollEvent(e))))
    case _ => s
  }

  /** The same on the way down. */
  ghost function DownStep(cfg: Config, r: Request, s: E.State, was: M.State, now: M.State, b: M.Action, pause: R.Pause): E.State
    requires r.Valid()
  {
    match b
    case StoreHead => Do(cfg, r, s, E.ServerSteps(S.Emit(R.Accepts)))
    case LoadTail => if now.current == None then Do(cfg, r, s, E.ServerSteps(S.Emit(R.Full(pause)))) else s
    case Refuse => Do(cfg, r, s, E.ServerSteps(S.Emit(R.Refuses)))
    case Consume(_) =>
      (match Handed(was, now)
       case None => s
       case Some(e) => Read(cfg, r, Do(cfg, r, s, E.RelayReply), e))
    case _ => s
  }

  /** A waiting caller looks at what it polled. */
  ghost function Read(cfg: Config, r: Request, s: E.State, e: Event): E.State
    requires r.Valid()
  {
    if !s.call.Awaiting? then s
    else if e.frame.correlationID == r.correlation then Do(cfg, r, s, E.CallerReads(e))
    else Do(cfg, r, s, E.CallerIdles(C.Got(e)))
  }

  // ---- the coupling ------------------------------------------------------------------------

  ghost predicate UpCoupled(r: Request, s: E.State, up: M.State)
    requires r.Valid()
  {
    && |s.uplink| <= |r.Fragments()| && |s.uplink| <= |up.emitted|
    && (forall i :: 0 <= i < |s.uplink| ==>
          RequestEmission(r, i).Sized() && up.emitted[i] == RequestEmission(r, i).Event())
    && (forall i :: |s.uplink| <= i < |up.emitted| ==>
          E.Failed(s) || up.emitted[i].frame.correlationID != r.correlation)
    && s.taken == (if |up.ring.delivered| < |s.uplink| then |up.ring.delivered| else |s.uplink|)
    && (s.call.Sending? ==> s.call.sent == |s.uplink| < |r.Fragments()|)
    && (!s.call.Returned? ==> |up.emitted| == |s.uplink|)
    && (up.current.Some? ==> MaySend(r, s, up.current.value))
  }

  ghost predicate DownCoupled(s: E.State, down: M.State) {
    && |down.emitted| == |s.server.outbox|
    && (forall i :: 0 <= i < |s.server.outbox| ==>
          ReplyEmission(s.server.outbox[i]).Sized() && down.emitted[i] == ReplyEmission(s.server.outbox[i]).Event())
    && s.relayed == |down.ring.delivered|
    && (!s.call.Returned? ==> s.read == |s.downlink|)
    && (down.current.Some? ==> MayReply(s.server, down.current.value))
  }

  ghost predicate Inv(cfg: Config, r: Request, p: State)
    requires cfg.Valid() && r.Valid()
  {
    E.SystemInv(cfg, r, p.sys) && M.Inv(p.up) && M.Inv(p.down) && UpCoupled(r, p.sys, p.up) && DownCoupled(p.sys, p.down)
  }

  /** A fragment event carries its fragment and is a valid frame. */
  lemma RequestEventCarries(r: Request, i: nat)
    requires r.Valid() && i < |r.Fragments()|
    ensures RequestEmission(r, i).Sized() && Carries(r, i, RequestEmission(r, i).Event())
    ensures Wire.Validate(RequestEmission(r, i).Event().frame) == Wire.OK
  {
    hide Cut, Wire.Has, Wire.Validate, Carries;
    FragmentFits(r, i);
    EventCarries(r, i);
    assert RequestEmission(r, i).Event() == EventOf(r, i);
  }

  /** A reply event delivers its fragment. */
  lemma ReplyEventDelivers(f: R.SentReply)
    requires ReplyEmission(f).Sized()
    ensures E.Delivers(f, ReplyEmission(f).Event()) && ReplyEmission(f).Event().frame.correlationID == f.correlation
  {
    hide Wire.Has;
    SentFlags(f.more, |f.payload| > 0);
  }

  /** What a ring hands out is the next event emitted into it, and a valid frame. */
  lemma HandedIsNext(was: M.State, now: M.State)
    requires M.Inv(was) && M.Inv(now) && now.emitted == was.emitted && Handed(was, now).Some?
    requires was.ring.delivered <= now.ring.delivered
    ensures |was.ring.delivered| < |was.emitted|
    ensures Handed(was, now).value == was.emitted[|was.ring.delivered|]
    ensures Wire.Validate(Handed(was, now).value.frame) == Wire.OK
  {
    hide P.Inv, M.Writing, Wire.Validate, EventsIn;
    M.InvCarries(now);
    var i := |was.ring.delivered|;
    assert EventsIn(now.ring.committed[i], now.ring.slotSize) == [now.emitted[i]];
    EventsAreValid(now.ring.committed[i], now.ring.slotSize);
  }

  lemma EventsAreValid(slot: seq<byte>, slotSize: u32)
    requires |slot| == slotSize && EventsIn(slot, slotSize) != []
    ensures Wire.Validate(EventsIn(slot, slotSize)[0].frame) == Wire.OK
  {
    hide Wire.Validate, Wire.Fields;
    var header := if |slot| < Wire.HDR_LEN then slot else slot[..Wire.HDR_LEN];
    Wire.EncodeOfDecode(header);
    Wire.ValidateIsWellFormed(Wire.Decode(header).frame);
  }

  lemma DoKeepsSystem(cfg: Config, r: Request, s: E.State, b: E.Action)
    requires cfg.Valid() && r.Valid() && E.SystemInv(cfg, r, s)
    ensures E.SystemInv(cfg, r, Do(cfg, r, s, b))
  {
    hide E.SystemInv, E.Enabled, E.Next;
    if E.Enabled(cfg, r, s, b) {
      E.StepKeepsSystem(cfg, r, s, b);
    }
  }

  // ---- the way up ----------------------------------------------------------------------------

  /** emit has published the fragment the caller was at, or an event of some other call. */
  lemma StoreUpKeeps(cfg: Config, r: Request, s: E.State, up: M.State, now: M.State)
    requires r.Valid() && UpCoupled(r, s, up)
    requires up.current.Some? && up.current.value.Sized() && now.emitted == up.emitted + [up.current.value.Event()]
    requires now.current == None && now.ring.delivered == up.ring.delivered && |up.ring.delivered| <= |up.emitted|
    ensures UpCoupled(r, UpStep(cfg, r, s, up, now, M.StoreHead), now)
  {
    hide Cut, Wire.Validate, S.Enabled, S.Next, Carries, RequestEmission;
  }

  lemma FailUpKeeps(cfg: Config, r: Request, s: E.State, up: M.State, now: M.State, b: M.Action)
    requires r.Valid() && UpCoupled(r, s, up) && (b == M.LoadTail || b == M.Refuse)
    requires now.emitted == up.emitted && now.ring.delivered == up.ring.delivered
    requires now.current == None || (b == M.LoadTail && now.current == up.current)
    ensures UpCoupled(r, UpStep(cfg, r, s, up, now, b), now)
  {
    hide Cut, Wire.Validate, S.Enabled, S.Next, Carries, RequestEmission;
  }

  /** Poll of the process has taken the next event. */
  lemma TakeUpKeeps(cfg: Config, r: Request, s: E.State, up: M.State, now: M.State, b: P.Action)
    requires cfg.Valid() && r.Valid() && UpCoupled(r, s, up) && M.Inv(up) && M.Inv(now)
    requires now.emitted == up.emitted && now.current == up.current && up.ring.delivered <= now.ring.delivered
    requires |now.ring.delivered| <= |up.ring.delivered| + 1 && Handed(up, now).Some? && s.server.loop.AtPoll?
    ensures UpCoupled(r, UpStep(cfg, r, s, up, now, M.Consume(b)), now)
  {
    hide Cut, Wire.Validate, S.Next, Carries, RequestEmission, M.Inv;
    HandedIsNext(up, now);
    var k := |up.ring.delivered|;
    if k < |s.uplink| {
      RequestEventCarries(r, k);
    }
  }

  /** What the way up does to the call as the way down sees it. */
  lemma UpKeepsDown(cfg: Config, r: Request, s: E.State, up: M.State, now: M.State, down: M.State, b: M.Action)
    requires r.Valid() && DownCoupled(s, down)
    requires Handed(up, now).Some? ==> s.server.loop.AtPoll?
    ensures DownCoupled(UpStep(cfg, r, s, up, now, b), down)
  {
    hide Cut, Wire.Validate, Carries, ReplyEmission, Handle, S.FramesOf;
  }

  lemma UpKeepsInv(cfg: Config, r: Request, p: State, b: M.Action)
    requires cfg.Valid() && r.Valid() && Inv(cfg, r, p) && Enabled(cfg, r, p, Up(b))
    ensures Inv(cfg, r, Next(cfg, r, p, Up(b)))
  {
    hide E.SystemInv, M.Inv, M.Enabled, M.Next, P.Shape, DownCoupled, UpCoupled, E.Enabled, E.Next, MaySend, Do;
    var n := M.Next(p.up, b);
    var sys := UpStep(cfg, r, p.sys, p.up, n, b);
    M.StepKeepsInv(p.up, b);
    M.Effects(p.up, b);
    SystemAfterUp(cfg, r, p.sys, p.up, n, b);
    UpKeepsDown(cfg, r, p.sys, p.up, n, p.down, b);
    if b.Begin? || b.WriteNext? || b.ReloadHead? || (b.Consume? && Handed(p.up, n) == None) {
      UpCarries(r, p.sys, p.up, n);
    } else if b.StoreHead? {
      DeliveredIsEmitted(p.up);
      StoreUpKeeps(cfg, r, p.sys, p.up, n);
    } else if b.Consume? {
      TakeUpKeeps(cfg, r, p.sys, p.up, n, b.action);
    } else {
      FailUpKeeps(cfg, r, p.sys, p.up, n, b);
    }
  }

  /** A call of emit that ends, either way, was under way. */
  lemma EndsWhatBegan(s: M.State, b: M.Action)
    requires M.Inv(s) && M.Enabled(s, b) && (b == M.LoadTail || b == M.Refuse || b == M.StoreHead)
    ensures s.current.Some?
  {
  }

  /** A step of emit that ends it without publishing. */
  predicate GivesUp(b: M.Action, now: M.State) {
    b == M.Refuse || (b == M.LoadTail && now.current == None)
  }

  /** What the way up does is a step of the abstract call: what is published was due, an emit that
      fails fails the send, and what is polled is the next fragment or other traffic. */
  lemma UpHandsOver(cfg: Config, r: Request, p: State, b: M.Action)
    requires cfg.Valid() && r.Valid() && Inv(cfg, r, p) && Enabled(cfg, r, p, Up(b))
    ensures b == M.StoreHead && p.sys.call.Sending? ==> E.Enabled(cfg, r, p.sys, E.CallerSends(true))
    ensures GivesUp(b, M.Next(p.up, b)) && p.sys.call.Sending? ==> E.Enabled(cfg, r, p.sys, E.CallerSends(false))
    ensures var h := Handed(p.up, M.Next(p.up, b));
      h.Some? ==>
        if p.sys.taken < |p.sys.uplink| then E.Enabled(cfg, r, p.sys, E.ServerTakes(h.value))
        else E.Enabled(cfg, r, p.sys, E.ServerSteps(S.PollEvent(h.value)))
  {
    hide Cut, Wire.Validate, Carries, RequestEmission, M.Inv, M.Next, M.Enabled, P.Shape, E.SystemInv, MaySend;
    var n := M.Next(p.up, b);
    M.StepKeepsInv(p.up, b);
    M.Effects(p.up, b);
    if Handed(p.up, n).Some? {
      HandedIsNext(p.up, n);
      var k := |p.up.ring.delivered|;
      if k < |p.sys.uplink| {
        RequestEventCarries(r, k);
      }
    }
  }

  lemma DeliveredIsEmitted(s: M.State)
    requires M.Inv(s)
    ensures |s.ring.delivered| <= |s.emitted|
  {
    hide M.Inv;
    M.InvCarries(s);
  }

  lemma UpCarries(r: Request, s: E.State, up: M.State, now: M.State)
    requires r.Valid() && UpCoupled(r, s, up) && now.emitted == up.emitted && now.ring.delivered == up.ring.delivered
    requires now.current == up.current || (now.current.Some? && MaySend(r, s, now.current.value))
    ensures UpCoupled(r, s, now)
  {
    hide MaySend, RequestEmission;
  }

  lemma SystemAfterUp(cfg: Config, r: Request, s: E.State, up: M.State, now: M.State, b: M.Action)
    requires cfg.Valid() && r.Valid() && E.SystemInv(cfg, r, s)
    ensures E.SystemInv(cfg, r, UpStep(cfg, r, s, up, now, b))
  {
    hide E.SystemInv, Do;
    DoKeepsSystem(cfg, r, s, E.CallerSends(true));
    DoKeepsSystem(cfg, r, s, E.CallerSends(false));
    if Handed(up, now).Some? {
      DoKeepsSystem(cfg, r, s, E.ServerTakes(Handed(up, now).value));
      DoKeepsSystem(cfg, r, s, E.ServerSteps(S.PollEvent(Handed(up, now).value)));
    }
  }

  // ---- the way down --------------------------------------------------------------------------

  /** emit has published the fragment the loop was at. */
  lemma StoreDownKeeps(cfg: Config, r: Request, s: E.State, down: M.State, now: M.State, pause: R.Pause)
    requires r.Valid() && DownCoupled(s, down)
    requires down.current.Some? && down.current.value.Sized() && now.emitted == down.emitted + [down.current.value.Event()]
    requires now.current == None && now.ring.delivered == down.ring.delivered
    ensures DownCoupled(DownStep(cfg, r, s, down, now, M.StoreHead, pause), now)
  {
    hide Cut, Carries, Wire.Validate, ReplyEmission, SR.ValidEntry;
  }

  lemma FailDownKeeps(cfg: Config, r: Request, s: E.State, down: M.State, now: M.State, b: M.Action, pause: R.Pause)
    requires r.Valid() && DownCoupled(s, down) && (b == M.LoadTail || b == M.Refuse)
    requires now.emitted == down.emitted && now.ring.delivered == down.ring.delivered
    requires now.current == None || (b == M.LoadTail && now.current == down.current)
    ensures DownCoupled(DownStep(cfg, r, s, down, now, b, pause), now)
  {
    hide Cut, Carries, Wire.Validate, ReplyEmission;
  }

  /** Poll of the caller has taken the next event, and a waiting call has looked at it. */
  lemma ReadDownKeeps(cfg: Config, r: Request, s: E.State, down: M.State, now: M.State, b: P.Action, pause: R.Pause)
    requires cfg.Valid() && r.Valid() && DownCoupled(s, down) && M.Inv(down) && M.Inv(now)
    requires now.emitted == down.emitted && now.current == down.current && down.ring.delivered <= now.ring.delivered
    requires |now.ring.delivered| <= |down.ring.delivered| + 1 && Handed(down, now).Some? && !s.call.Sending?
    ensures DownCoupled(DownStep(cfg, r, s, down, now, M.Consume(b), pause), now)
  {
    hide Cut, Carries, Wire.Validate, ReplyEmission, M.Inv, E.Wait;
    HandedIsNext(down, now);
    ReplyEventDelivers(s.server.outbox[s.relayed]);
  }

  lemma DownCarries(s: E.State, down: M.State, now: M.State)
    requires DownCoupled(s, down) && now.emitted == down.emitted && now.ring.delivered == down.ring.delivered
    requires now.current == down.current || (now.current.Some? && MayReply(s.server, now.current.value))
    ensures DownCoupled(s, now)
  {
    hide MayReply, ReplyEmission;
  }

  /** What the way up looks at. */
  ghost predicate SameUp(s: E.State, n: E.State) {
    && n.uplink == s.uplink && n.taken == s.taken
    && (n.call == s.call || (!s.call.Returned? && n.call.Returned? && n.call.result.Err?)
        || (s.call.Awaiting? && !n.call.Sending?))
  }

  lemma SameUpKeeps(r: Request, s: E.State, n: E.State, up: M.State)
    requires r.Valid() && UpCoupled(r, s, up) && SameUp(s, n)
    requires s.call.Sending? && n.call != s.call ==> up.current == None
    ensures UpCoupled(r, n, up)
  {
    hide Cut, RequestEmission;
  }

  lemma DownIsSameUp(cfg: Config, r: Request, s: E.State, down: M.State, now: M.State, b: M.Action, pause: R.Pause)
    requires r.Valid() && (b.Consume? ==> !s.call.Sending?)
    ensures var n := DownStep(cfg, r, s, down, now, b, pause); SameUp(s, n) && (s.call.Sending? ==> n.call == s.call)
  {
    hide Cut, Carries, Wire.Validate, E.Wait, S.Next, S.Enabled;
  }

  lemma SystemAfterDown(cfg: Config, r: Request, s: E.State, down: M.State, now: M.State, b: M.Action, pause: R.Pause)
    requires cfg.Valid() && r.Valid() && E.SystemInv(cfg, r, s)
    ensures E.SystemInv(cfg, r, DownStep(cfg, r, s, down, now, b, pause))
  {
    hide E.SystemInv, Do;
    DoKeepsSystem(cfg, r, s, E.ServerSteps(S.Emit(R.Accepts)));
    DoKeepsSystem(cfg, r, s, E.ServerSteps(S.Emit(R.Full(pause))));
    DoKeepsSystem(cfg, r, s, E.ServerSteps(S.Emit(R.Refuses)));
    if Handed(down, now).Some? {
      var e := Handed(down, now).value;
      var relayed := Do(cfg, r, s, E.RelayReply);
      DoKeepsSystem(cfg, r, s, E.RelayReply);
      DoKeepsSystem(cfg, r, relayed, E.CallerReads(e));
      DoKeepsSystem(cfg, r, relayed, E.CallerIdles(C.Got(e)));
    }
  }

  lemma DownKeepsInv(cfg: Config, r: Request, p: State, b: M.Action, pause: R.Pause)
    requires cfg.Valid() && r.Valid() && Inv(cfg, r, p) && Enabled(cfg, r, p, Down(b, pause))
    ensures Inv(cfg, r, Next(cfg, r, p, Down(b, pause)))
  {
    hide E.SystemInv, M.Inv, M.Enabled, M.Next, P.Shape, DownCoupled, UpCoupled, E.Enabled, E.Next, MayReply, Do, Read;
    var n := M.Next(p.down, b);
    M.StepKeepsInv(p.down, b);
    M.Effects(p.down, b);
    SystemAfterDown(cfg, r, p.sys, p.down, n, b, pause);
    DownIsSameUp(cfg, r, p.sys, p.down, n, b, pause);
    SameUpKeeps(r, p.sys, DownStep(cfg, r, p.sys, p.down, n, b, pause), p.up);
    if b.Begin? || b.WriteNext? || b.ReloadHead? || (b.Consume? && Handed(p.down, n) == None) {
      DownCarries(p.sys, p.down, n);
    } else if b.StoreHead? {
      StoreDownKeeps(cfg, r, p.sys, p.down, n, pause);
    } else if b.Consume? {
      ReadDownKeeps(cfg, r, p.sys, p.down, n, b.action, pause);
    } else {
      FailDownKeeps(cfg, r, p.sys, p.down, n, b, pause);
    }
  }

  /** The event is the reply the relay brings next, and a waiting call may look at it. */
  ghost predicate BringsReply(cfg: Config, r: Request, s: E.State, e: Event)
    requires r.Valid()
  {
    && s.relayed < |s.server.outbox| && E.Delivers(s.server.outbox[s.relayed], e)
    && var n := E.Next(cfg, r, s, E.RelayReply);
       n.call.Awaiting? ==>
         E.Enabled(cfg, r, n, if e.frame.correlationID == r.correlation then E.CallerReads(e) else E.CallerIdles(C.Got(e)))
  }

  /** The same on the way down: the fragment published or given up is the one the loop is at, and
      what the caller polls is the reply the relay brings next. */
  lemma DownHandsOver(cfg: Config, r: Request, p: State, b: M.Action, pause: R.Pause)
    requires cfg.Valid() && r.Valid() && Inv(cfg, r, p) && Enabled(cfg, r, p, Down(b, pause))
    ensures b == M.StoreHead ==> E.Enabled(cfg, r, p.sys, E.ServerSteps(S.Emit(R.Accepts)))
    ensures b == M.Refuse ==> E.Enabled(cfg, r, p.sys, E.ServerSteps(S.Emit(R.Refuses)))
    ensures b == M.LoadTail && M.Next(p.down, b).current == None ==>
      E.Enabled(cfg, r, p.sys, E.ServerSteps(S.Emit(R.Full(pause))))
    ensures var h := Handed(p.down, M.Next(p.down, b)); h.Some? ==> BringsReply(cfg, r, p.sys, h.value)
  {
    hide Cut, Wire.Validate, Carries, ReplyEmission, M.Inv, M.Next, M.Enabled, P.Shape, E.SystemInv;
    var n := M.Next(p.down, b);
    M.StepKeepsInv(p.down, b);
    M.Effects(p.down, b);
    if b == M.StoreHead || b == M.Refuse || b == M.LoadTail {
      EndsWhatBegan(p.down, b);
    }
    if Handed(p.down, n).Some? {
      HandedIsNext(p.down, n);
      ReplyEventDelivers(p.sys.server.outbox[p.sys.relayed]);
    }
  }

  // ---- whole runs ----------------------------------------------------------------------------

  /** A step beside the rings leaves what they carry, and a fragment under way, alone. */
  lemma SystemKeepsDown(cfg: Config, r: Request, p: State, b: E.Action)
    requires r.Valid() && DownCoupled(p.sys, p.down) && Enabled(cfg, r, p, System(b))
    ensures DownCoupled(E.Next(cfg, r, p.sys, b), p.down)
  {
    hide Cut, Carries, Wire.Validate, ReplyEmission, Handle, S.FramesOf, E.Wait, S.JobIds;
  }

  lemma SystemIsSameUp(cfg: Config, r: Request, p: State, b: E.Action)
    requires r.Valid() && Enabled(cfg, r, p, System(b))
    ensures var n := E.Next(cfg, r, p.sys, b);
      SameUp(p.sys, n) && (p.sys.call.Sending? && n.call != p.sys.call ==> p.up.current == None)
  {
    hide Cut, Carries, Wire.Validate, E.Wait, S.Next, S.Enabled;
  }

  lemma StepKeepsInv(cfg: Config, r: Request, p: State, a: Action)
    requires cfg.Valid() && r.Valid() && Inv(cfg, r, p) && Enabled(cfg, r, p, a)
    ensures Inv(cfg, r, Next(cfg, r, p, a))
  {
    match a
    case Up(b) => UpKeepsInv(cfg, r, p, b);
    case Down(b, pause) => DownKeepsInv(cfg, r, p, b, pause);
    case System(b) =>
      hide E.SystemInv, M.Inv, DownCoupled, UpCoupled, E.Enabled, E.Next;
      E.StepKeepsSystem(cfg, r, p.sys, b);
      SystemKeepsDown(cfg, r, p, b);
      SystemIsSameUp(cfg, r, p, b);
      SameUpKeeps(r, p.sys, E.Next(cfg, r, p.sys, b), p.up);
  }

  ghost predicate Legal(cfg: Config, r: Request, p: State, run: seq<Action>)
    requires r.Valid()
    decreases |run|
  {
    run == [] || (Enabled(cfg, r, p, run[0]) && Legal(cfg, r, Next(cfg, r, p, run[0]), run[1..]))
  }

  ghost function After(cfg: Config, r: Request, p: State, run: seq<Action>): State
    requires r.Valid() && Legal(cfg, r, p, run)
    decreases |run|
  {
    if run == [] then p else After(cfg, r, Next(cfg, r, p, run[0]), run[1..])
  }

  lemma {:induction false} RunKeepsInv(cfg: Config, r: Request, p: State, run: seq<Action>)
    requires cfg.Valid() && r.Valid() && Inv(cfg, r, p) && Legal(cfg, r, p, run)
    ensures Inv(cfg, r, After(cfg, r, p, run))
    decreases |run|
  {
    hide Inv, Enabled, Next;
    if run != [] {
      StepKeepsInv(cfg, r, p, run[0]);
      RunKeepsInv(cfg, r, Next(cfg, r, p, run[0]), run[1..]);
    }
  }

  /** Nothing sent yet, over any two fresh rings. */
  ghost predicate Initial(p: State) {
    p.sys == E.Start() && M.Fresh(p.up) && M.Fresh(p.down)
  }

  lemma InitialInv(cfg: Config, r: Request, p: State)
    requires cfg.Valid() && r.Valid() && Initial(p)
    ensures Inv(cfg, r, p)
  {
    hide E.SystemInv, M.Inv, RequestEmission, ReplyEmission;
    E.StartSystem(cfg, r);
    M.FreshInv(p.up);
    M.FreshInv(p.down);
    M.InvCarries(p.up);
    M.InvCarries(p.down);
  }

  /** The call over shared memory. However the byte writes, the index loads and stores, the two
      loops and the handlers interleave, a body the call returns is the OK response of a handler
      that was started on the whole request body; the rings hand over whole events, in order. */
  lemma CallOverRings(cfg: Config, r: Request, p0: State, run: seq<Action>)
    requires cfg.Valid() && r.Valid() && Initial(p0) && Legal(cfg, r, p0, run)
    ensures var p := After(cfg, r, p0, run);
      && M.Carried(p.up) && M.Carried(p.down)
      && (p.sys.call.Returned? && p.sys.call.result.Ok? ==>
            exists id :: E.AnsweredBy(p.sys.server, r, id, p.sys.call.result.body))
  {
    hide M.Inv, M.Carried, E.SystemInv, Initial, Legal, After, UpCoupled, DownCoupled, E.AnsweredBy;
    InitialInv(cfg, r, p0);
    RunKeepsInv(cfg, r, p0, run);
    var p := After(cfg, r, p0, run);
    M.InvCarries(p.up);
    M.InvCarries(p.down);
    if p.sys.call.Returned? && p.sys.call.result.Ok? {
      E.SystemAnswers(cfg, r, p.sys);
    }
  }

  // ---- refinement ------------------------------------------------------------------------------

  /** The steps of the abstract call behind one step here: none, one, or a relayed reply and the
      caller's look at it. */
  ghost function AbstractSteps(cfg: Config, r: Request, p: State, a: Action): seq<E.Action>
    requires r.Valid() && Enabled(cfg, r, p, a)
  {
    match a
    case System(b) => [b]
    case Up(b) => UpAbstract(p.sys, p.up, M.Next(p.up, b), b)
    case Down(b, pause) => DownAbstract(r, p.sys, p.down, M.Next(p.down, b), b, pause)
  }

  ghost function UpAbstract(s: E.State, was: M.State, now: M.State, b: M.Action): seq<E.Action> {
    if b == M.StoreHead && s.call.Sending? then [E.CallerSends(true)]
    else if GivesUp(b, now) && s.call.Sending? then [E.CallerSends(false)]
    else if b.Consume? && Handed(was, now).Some? then
      var e := Handed(was, now).value;
      [if s.taken < |s.uplink| then E.ServerTakes(e) else E.ServerSteps(S.PollEvent(e))]
    else []
  }

  ghost function DownAbstract(r: Request, s: E.State, was: M.State, now: M.State, b: M.Action, pause: R.Pause): seq<E.Action> {
    if b == M.StoreHead then [E.ServerSteps(S.Emit(R.Accepts))]
    else if b == M.Refuse then [E.ServerSteps(S.Emit(R.Refuses))]
    else if b == M.LoadTail && now.current == None then [E.ServerSteps(S.Emit(R.Full(pause)))]
    else if b.Consume? && Handed(was, now).Some? then
      var e := Handed(was, now).value;
      [E.RelayReply] +
      (if !s.call.Awaiting? then []
       else if e.frame.correlationID == r.correlation then [E.CallerReads(e)] else [E.CallerIdles(C.Got(e))])
    else []
  }

  lemma OneAbstract(cfg: Config, r: Request, s: E.State, b: E.Action)
    requires r.Valid() && E.Enabled(cfg, r, s, b)
    ensures E.Legal(cfg, r, s, [b]) && E.After(cfg, r, s, [b]) == E.Next(cfg, r, s, b)
  {
    hide E.Enabled, E.Next;
    assert [b][1..] == [];
  }

  lemma FirstAbstract(cfg: Config, r: Request, s: E.State, b: E.Action, rest: seq<E.Action>)
    requires r.Valid() && E.Enabled(cfg, r, s, b) && E.Legal(cfg, r, E.Next(cfg, r, s, b), rest)
    ensures E.Legal(cfg, r, s, [b] + rest)
    ensures E.After(cfg, r, s, [b] + rest) == E.After(cfg, r, E.Next(cfg, r, s, b), rest)
  {
    hide E.Enabled, E.Next;
    assert ([b] + rest)[1..] == rest;
  }

  lemma UpIsAbstract(cfg: Config, r: Request, p: State, b: M.Action)
    requires cfg.Valid() && r.Valid() && Inv(cfg, r, p) && Enabled(cfg, r, p, Up(b))
    ensures var n := M.Next(p.up, b);
      var bs := UpAbstract(p.sys, p.up, n, b);
      E.Legal(cfg, r, p.sys, bs) && E.After(cfg, r, p.sys, bs) == UpStep(cfg, r, p.sys, p.up, n, b)
  {
    hide M.Inv, M.Next, M.Enabled, P.Shape, E.SystemInv, E.Enabled, E.Next, UpCoupled, DownCoupled, MaySend;
    UpHandsOver(cfg, r, p, b);
    var bs := UpAbstract(p.sys, p.up, M.Next(p.up, b), b);
    M.Effects(p.up, b);
    if bs != [] {
      OneAbstract(cfg, r, p.sys, bs[0]);
    }
  }

  lemma DownIsAbstract(cfg: Config, r: Request, p: State, b: M.Action, pause: R.Pause)
    requires cfg.Valid() && r.Valid() && Inv(cfg, r, p) && Enabled(cfg, r, p, Down(b, pause))
    ensures var n := M.Next(p.down, b);
      var bs := DownAbstract(r, p.sys, p.down, n, b, pause);
      E.Legal(cfg, r, p.sys, bs) && E.After(cfg, r, p.sys, bs) == DownStep(cfg, r, p.sys, p.down, n, b, pause)
  {
    hide M.Inv, M.Next, M.Enabled, P.Shape, E.SystemInv, E.Enabled, E.Next, UpCoupled, DownCoupled, MayReply;
    DownHandsOver(cfg, r, p, b, pause);
    var n := M.Next(p.down, b);
    M.Effects(p.down, b);
    if b.Consume? && Handed(p.down, n).Some? {
      ReadIsAbstract(cfg, r, p.sys, Handed(p.down, n).value);
    } else {
      var bs := DownAbstract(r, p.sys, p.down, n, b, pause);
      if bs != [] {
        OneAbstract(cfg, r, p.sys, bs[0]);
      }
    }
  }

  lemma ReadIsAbstract(cfg: Config, r: Request, s: E.State, e: Event)
    requires r.Valid() && BringsReply(cfg, r, s, e)
    ensures var bs := [E.RelayReply] +
        (if !s.call.Awaiting? then []
         else if e.frame.correlationID == r.correlation then [E.CallerReads(e)] else [E.CallerIdles(C.Got(e))]);
      E.Legal(cfg, r, s, bs) && E.After(cfg, r, s, bs) == Read(cfg, r, Do(cfg, r, s, E.RelayReply), e)
  {
    hide Cut, E.Wait, E.Delivers;
    assert E.Enabled(cfg, r, s, E.RelayReply);
    var n := E.Next(cfg, r, s, E.RelayReply);
    assert n.call == s.call;
    if s.call.Awaiting? {
      var b := if e.frame.correlationID == r.correlation then E.CallerReads(e) else E.CallerIdles(C.Got(e));
      OneAbstract(cfg, r, n, b);
      FirstAbstract(cfg, r, s, E.RelayReply, [b]);
    } else {
      OneAbstract(cfg, r, s, E.RelayReply);
      assert [E.RelayReply] + [] == [E.RelayReply];
    }
  }

  lemma StepIsAbstract(cfg: Config, r: Request, p: State, a: Action)
    requires cfg.Valid() && r.Valid() && Inv(cfg, r, p) && Enabled(cfg, r, p, a)
    ensures var bs := AbstractSteps(cfg, r, p, a);
      E.Legal(cfg, r, p.sys, bs) && E.After(cfg, r, p.sys, bs) == Next(cfg, r, p, a).sys
  {
    match a
    case Up(b) => UpIsAbstract(cfg, r, p, b);
    case Down(b, pause) => DownIsAbstract(cfg, r, p, b, pause);
    case System(b) => OneAbstract(cfg, r, p.sys, b);
  }

  /** Every run over the rings is a run of the abstract call: the rings add no behaviour. */
  lemma {:induction false} RunIsAbstract(cfg: Config, r: Request, p: State, run: seq<Action>) returns (bs: seq<E.Action>)
    requires cfg.Valid() && r.Valid() && Inv(cfg, r, p) && Legal(cfg, r, p, run)
    ensures E.Legal(cfg, r, p.sys, bs) && E.After(cfg, r, p.sys, bs) == After(cfg, r, p, run).sys
    decreases |run|
  {
    hide Inv, Enabled, Next, AbstractSteps, E.Enabled, E.Next;
    if run == [] {
      bs := [];
    } else {
      StepKeepsInv(cfg, r, p, run[0]);
      StepIsAbstract(cfg, r, p, run[0]);
      var first := AbstractSteps(cfg, r, p, run[0]);
      var rest := RunIsAbstract(cfg, r, Next(cfg, r, p, run[0]), run[1..]);
      RunsJoin(cfg, r, p.sys, first, rest);
      bs := first + rest;
    }
  }

  lemma {:induction false} RunsJoin(cfg: Config, r: Request, s: E.State, first: seq<E.Action>, rest: seq<E.Action>)
    requires r.Valid() && E.Legal(cfg, r, s, first) && E.Legal(cfg, r, E.After(cfg, r, s, first), rest)
    ensures E.Legal(cfg, r, s, first + rest)
    ensures E.After(cfg, r, s, first + rest) == E.After(cfg, r, E.After(cfg, r, s, first), rest)
    decreases |first|
  {
    hide E.Enabled, E.Next;
    if first == [] {
      assert first + rest == rest;
    } else {
      RunsJoin(cfg, r, E.Next(cfg, r, s, first[0]), first[1..], rest);
      assert (first + rest)[1..] == first[1..] + rest;
    }
  }
}
