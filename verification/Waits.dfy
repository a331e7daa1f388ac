/** What ends a wait, and as what (server-go/bus/module_caller.go, awaitReply): the outcome of any
    sequence of polls, told by the first poll that decides it. */
module Waits {
  import opened LittleEndian
  import opened ModuleProtocol
  import opened Events
  import opened Caller
  import V = Serving
  import Wire

  predicate Reserved(kind: u32) {
    kind == Wire.KIND_CAPABILITY_ABSENT || kind == Wire.KIND_ERROR
  }

  /** A result message of this call. */
  predicate IsResult(kind: u32, correlation: u64, p: Polled) {
    && p.Got? && p.event.frame.correlationID == correlation && p.event.frame.eventKind == kind && !Reserved(kind)
    && Decode(p.event.payload).Message? && Decode(p.event.payload).message.operation == OP_RESULT
  }

  function StatusOf(kind: u32, correlation: u64, p: Polled): u16
    requires IsResult(kind, correlation, p)
  {
    Decode(p.event.payload).message.status
  }

  /** Nothing that concerns the call: an idle poll, an event of another call or kind, and an event
      of this one that does not decode or is no result. */
  predicate Passing(kind: u32, correlation: u64, p: Polled) {
    match p
    case Broken => false
    case Nothing(ended, expired) => !ended && !expired
    case Got(e) =>
      if e.frame.correlationID == correlation && Reserved(e.frame.eventKind) then false
      else !IsResult(kind, correlation, p)
  }

  /** The body bytes that polls have brought. */
  function Parts(kind: u32, correlation: u64, polls: seq<Polled>): seq<byte> {
    if polls == [] then []
    else
      var last := polls[|polls| - 1];
      Parts(kind, correlation, polls[..|polls| - 1]) +
      (if IsResult(kind, correlation, last) then V.PartOf(last.event) else [])
  }

  /** A fragment of an OK reply that is not the last and leaves the body within the limit. */
  ghost predicate Extends(kind: u32, correlation: u64, limit: u32, held: nat, p: Polled) {
    && IsResult(kind, correlation, p) && StatusOf(kind, correlation, p) == STATUS_OK
    && held + |V.PartOf(p.event)| <= limit && Wire.Has(p.event.frame.hdrFlags, Wire.F_MORE)
  }

  /** None of the polls decides the call, held bytes being held before them. */
  ghost predicate Undecided(kind: u32, correlation: u64, limit: u32, held: nat, polls: seq<Polled>) {
    forall i :: 0 <= i < |polls| ==>
      || Passing(kind, correlation, polls[i])
      || Extends(kind, correlation, limit, held + |Parts(kind, correlation, polls[..i])|, polls[i])
  }

  /** A poll that decides a call which holds held bytes, and what it decides. */
  ghost predicate Ends(kind: u32, correlation: u64, limit: u32, held: seq<byte>, p: Polled, r: CallResult) {
    match p
    case Broken => r == Err(PollFailed)
    case Nothing(ended, expired) =>
      (ended && r == Err(ContextEnded)) || (!ended && expired && r == Err(DeadlinePassed))
    case Got(e) =>
      || (e.frame.correlationID == correlation && e.frame.eventKind == Wire.KIND_CAPABILITY_ABSENT
          && r == Err(CapabilityAbsent))
      || (e.frame.correlationID == correlation && e.frame.eventKind == Wire.KIND_ERROR && r == Err(Rejected))
      || (IsResult(kind, correlation, p) &&
            if StatusOf(kind, correlation, p) != STATUS_OK then r == Err(StatusError(StatusOf(kind, correlation, p)))
            else if |held| + |V.PartOf(e)| > limit then r == Err(RuntimeError)
            else !Wire.Has(e.frame.hdrFlags, Wire.F_MORE) && r == Ok(held + V.PartOf(e)))
  }

  // ---- one poll ------------------------------------------------------------------------------

  lemma ReadResult(kind: u32, correlation: u64, limit: u32, held: nat, p: Polled)
    requires IsResult(kind, correlation, p) && held <= limit <= MAX_BODY
    ensures Read(kind, correlation, limit, held, p.event) ==
      var part := V.PartOf(p.event);
      if StatusOf(kind, correlation, p) != STATUS_OK then Fail(StatusError(StatusOf(kind, correlation, p)))
      else if held + |part| > limit then Fail(RuntimeError)
      else if Wire.Has(p.event.frame.hdrFlags, Wire.F_MORE) then Extend(part) else Complete(part)
  {
    hide Decode, Wire.Has;
    EncodeOfDecode(p.event.payload);
  }

  lemma PassingStep(kind: u32, correlation: u64, limit: u32, held: seq<byte>, p: Polled, rest: seq<Polled>)
    requires Passing(kind, correlation, p)
    ensures Await(kind, correlation, limit, held, [p] + rest) == Await(kind, correlation, limit, held, rest)
  {
    hide Decode, Wire.Has;
    assert ([p] + rest)[1..] == rest;
  }

  lemma ExtendingStep(kind: u32, correlation: u64, limit: u32, held: seq<byte>, p: Polled, rest: seq<Polled>)
    requires Extends(kind, correlation, limit, |held|, p) && |held| <= limit <= MAX_BODY
    ensures Await(kind, correlation, limit, held, [p] + rest)
            == Await(kind, correlation, limit, held + V.PartOf(p.event), rest)
  {
    hide Decode, Wire.Has, Read;
    ReadResult(kind, correlation, limit, |held|, p);
    assert ([p] + rest)[1..] == rest;
  }

  lemma EndingStep(kind: u32, correlation: u64, limit: u32, held: seq<byte>, p: Polled, rest: seq<Polled>, r: CallResult)
    requires Ends(kind, correlation, limit, held, p, r) && |held| <= limit <= MAX_BODY
    ensures Await(kind, correlation, limit, held, [p] + rest) == r
  {
    hide Decode, Wire.Has;
    if IsResult(kind, correlation, p) {
      hide Read;
      ReadResult(kind, correlation, limit, |held|, p);
    }
  }

  /** Every poll lets the wait go on or decides it. */
  lemma EveryPollCounts(kind: u32, correlation: u64, limit: u32, held: seq<byte>, p: Polled)
    ensures Passing(kind, correlation, p) || Extends(kind, correlation, limit, |held|, p)
            || exists r :: Ends(kind, correlation, limit, held, p, r)
  {
    hide Decode, Wire.Has;
    if p.Broken? {
      assert Ends(kind, correlation, limit, held, p, Err(PollFailed));
    } else if p.Nothing? {
      assert Ends(kind, correlation, limit, held, p, Err(ContextEnded))
             || Ends(kind, correlation, limit, held, p, Err(DeadlinePassed))
             || Passing(kind, correlation, p);
    } else if p.event.frame.correlationID == correlation && Reserved(p.event.frame.eventKind) {
      assert Ends(kind, correlation, limit, held, p, Err(CapabilityAbsent))
             || Ends(kind, correlation, limit, held, p, Err(Rejected));
    } else if IsResult(kind, correlation, p) {
      assert Ends(kind, correlation, limit, held, p, Err(StatusError(StatusOf(kind, correlation, p))))
             || Ends(kind, correlation, limit, held, p, Err(RuntimeError))
             || Ends(kind, correlation, limit, held, p, Ok(held + V.PartOf(p.event)))
             || Extends(kind, correlation, limit, |held|, p);
    }
  }

  // ---- all polls -----------------------------------------------------------------------------

  lemma PartsOfAppend(kind: u32, correlation: u64, polls: seq<Polled>, p: Polled)
    ensures Parts(kind, correlation, polls + [p])
            == Parts(kind, correlation, polls) + (if IsResult(kind, correlation, p) then V.PartOf(p.event) else [])
  {
    assert (polls + [p])[..|polls|] == polls;
  }

  lemma UndecidedFront(kind: u32, correlation: u64, limit: u32, held: nat, polls: seq<Polled>)
    requires polls != [] && Undecided(kind, correlation, limit, held, polls)
    ensures var front := polls[..|polls| - 1];
      && Undecided(kind, correlation, limit, held, front)
      && (|| Passing(kind, correlation, polls[|polls| - 1])
          || Extends(kind, correlation, limit, held + |Parts(kind, correlation, front)|, polls[|polls| - 1]))
  {
    hide Passing, Extends, Parts;
    var front := polls[..|polls| - 1];
    forall i | 0 <= i < |front|
      ensures || Passing(kind, correlation, front[i])
              || Extends(kind, correlation, limit, held + |Parts(kind, correlation, front[..i])|, front[i])
    {
      assert front[..i] == polls[..i] && front[i] == polls[i];
    }
  }

  /** Undecided polls only add their parts to what is held. */
  lemma {:induction false} AwaitGoesOn(kind: u32, correlation: u64, limit: u32, held: seq<byte>, before: seq<Polled>,
                                         rest: seq<Polled>)
    requires |held| <= limit <= MAX_BODY && Undecided(kind, correlation, limit, |held|, before)
    ensures |held + Parts(kind, correlation, before)| <= limit
    ensures Await(kind, correlation, limit, held, before + rest)
            == Await(kind, correlation, limit, held + Parts(kind, correlation, before), rest)
    decreases |before|
  {
    hide Await, Read, Undecided, Parts, Wire.Has, Decode, Passing;
    if before == [] {
      NoParts(kind, correlation);
      assert before + rest == rest && held + [] == held;
    } else {
      var k := |before| - 1;
      var front, p := before[..k], before[k];
      UndecidedFront(kind, correlation, limit, |held|, before);
      AwaitGoesOn(kind, correlation, limit, held, front, [p] + rest);
      assert before == front + [p] && before + rest == front + ([p] + rest);
      PartsOfAppend(kind, correlation, front, p);
      var now := held + Parts(kind, correlation, front);
      if Passing(kind, correlation, p) {
        PassingBringsNothing(kind, correlation, p);
        PassingStep(kind, correlation, limit, now, p, rest);
        assert Parts(kind, correlation, before) == Parts(kind, correlation, front);
      } else {
        ExtendingStep(kind, correlation, limit, now, p, rest);
        assert now + V.PartOf(p.event) == held + Parts(kind, correlation, before);
      }
    }
  }

  lemma NoParts(kind: u32, correlation: u64)
    ensures Parts(kind, correlation, []) == []
  {
  }

  lemma PassingBringsNothing(kind: u32, correlation: u64, p: Polled)
    requires Passing(kind, correlation, p)
    ensures !IsResult(kind, correlation, p)
  {
  }

  /** Idle polls, events of other calls, undecodable events and events that are no result, in any
      number, change nothing. */
  lemma PassingIsIgnored(kind: u32, correlation: u64, limit: u32, held: seq<byte>, before: seq<Polled>, rest: seq<Polled>)
    requires |held| <= limit <= MAX_BODY && forall p :: p in before ==> Passing(kind, correlation, p)
    ensures Await(kind, correlation, limit, held, before + rest) == Await(kind, correlation, limit, held, rest)
  {
    hide Await, Passing;
    AwaitGoesOn(kind, correlation, limit, held, before, rest);
    PassingPartsAreNothing(kind, correlation, before);
    assert held + [] == held;
  }

  lemma {:induction false} PassingPartsAreNothing(kind: u32, correlation: u64, polls: seq<Polled>)
    requires forall p :: p in polls ==> Passing(kind, correlation, p)
    ensures Parts(kind, correlation, polls) == []
  {
    if polls != [] {
      PassingPartsAreNothing(kind, correlation, polls[..|polls| - 1]);
      PassingBringsNothing(kind, correlation, polls[|polls| - 1]);
    }
  }

  /** An idle poll ends a wait whose context has ended, and otherwise one whose deadline has passed,
      whatever is held, whatever came to nothing before and whatever would come after. */
  lemma IdlePollEndsWait(kind: u32, correlation: u64, limit: u32, held: seq<byte>, before: seq<Polled>, expired: bool,
                         rest: seq<Polled>)
    requires |held| <= limit <= MAX_BODY && forall p :: p in before ==> Passing(kind, correlation, p)
    ensures Await(kind, correlation, limit, held, before + ([Nothing(true, expired)] + rest)) == Err(ContextEnded)
    ensures Await(kind, correlation, limit, held, before + ([Nothing(false, true)] + rest)) == Err(DeadlinePassed)
  {
    hide Await, Passing;
    PassingIsIgnored(kind, correlation, limit, held, before, [Nothing(true, expired)] + rest);
    PassingIsIgnored(kind, correlation, limit, held, before, [Nothing(false, true)] + rest);
    EndingStep(kind, correlation, limit, held, Nothing(true, expired), rest, Err(ContextEnded));
    EndingStep(kind, correlation, limit, held, Nothing(false, true), rest, Err(DeadlinePassed));
  }

  /** Poll i is the first that decides the wait, or i is past the last poll of a bus that broke. */
  ghost predicate DecidedAt(kind: u32, correlation: u64, limit: u32, held: seq<byte>, polls: seq<Polled>, i: nat,
                            r: CallResult)
  {
    && i <= |polls| && Undecided(kind, correlation, limit, |held|, polls[..i])
    && (if i == |polls| then r == Err(PollFailed)
        else Ends(kind, correlation, limit, held + Parts(kind, correlation, polls[..i]), polls[i], r))
  }

  lemma DecisionIsOutcome(kind: u32, correlation: u64, limit: u32, held: seq<byte>, polls: seq<Polled>, i: nat,
                          r: CallResult)
    requires |held| <= limit <= MAX_BODY && DecidedAt(kind, correlation, limit, held, polls, i, r)
    ensures Await(kind, correlation, limit, held, polls) == r
  {
    hide Read, Undecided, Parts, Ends;
    AwaitGoesOn(kind, correlation, limit, held, polls[..i], polls[i..]);
    assert polls == polls[..i] + polls[i..];
    if i < |polls| {
      EndingStep(kind, correlation, limit, held + Parts(kind, correlation, polls[..i]), polls[i], polls[i + 1..], r);
      assert polls[i..] == [polls[i]] + polls[i + 1..];
    }
  }

  /** Some poll decides, or none does. */
  lemma {:induction false} SomePollDecides(kind: u32, correlation: u64, limit: u32, held: seq<byte>, polls: seq<Polled>,
                                             n: nat)
    returns (i: nat, r: CallResult)
    requires n <= |polls| && Undecided(kind, correlation, limit, |held|, polls[..n])
    ensures DecidedAt(kind, correlation, limit, held, polls, i, r)
    decreases |polls| - n
  {
    hide Passing, Extends, Ends, Parts;
    if n == |polls| {
      i, r := n, Err(PollFailed);
    } else {
      var now := held + Parts(kind, correlation, polls[..n]);
      EveryPollCounts(kind, correlation, limit, now, polls[n]);
      if s :| Ends(kind, correlation, limit, now, polls[n], s) {
        i, r := n, s;
      } else {
        OneMoreUndecided(kind, correlation, limit, |held|, polls, n);
        i, r := SomePollDecides(kind, correlation, limit, held, polls, n + 1);
      }
    }
  }

  lemma OneMoreUndecided(kind: u32, correlation: u64, limit: u32, held: nat, polls: seq<Polled>, n: nat)
    requires n < |polls| && Undecided(kind, correlation, limit, held, polls[..n])
    requires Passing(kind, correlation, polls[n])
             || Extends(kind, correlation, limit, held + |Parts(kind, correlation, polls[..n])|, polls[n])
    ensures Undecided(kind, correlation, limit, held, polls[..n + 1])
  {
    hide Passing, Extends, Parts;
    var next, front := polls[..n + 1], polls[..n];
    forall i | 0 <= i < |next|
      ensures || Passing(kind, correlation, next[i])
              || Extends(kind, correlation, limit, held + |Parts(kind, correlation, next[..i])|, next[i])
    {
      assert next[..i] == polls[..i];
      if i < n {
        assert front[i] == next[i] && front[..i] == polls[..i];
      }
    }
  }

  /** The outcome of every wait is what its first deciding poll decides. */
  lemma OutcomeExactly(kind: u32, correlation: u64, limit: u32, held: seq<byte>, polls: seq<Polled>, r: CallResult)
    requires |held| <= limit <= MAX_BODY
    ensures Await(kind, correlation, limit, held, polls) == r <==>
            exists i :: DecidedAt(kind, correlation, limit, held, polls, i, r)
  {
    hide Await, DecidedAt;
    assert polls[..0] == [];
    NothingUndecided(kind, correlation, limit, |held|);
    var i, s := SomePollDecides(kind, correlation, limit, held, polls, 0);
    DecisionIsOutcome(kind, correlation, limit, held, polls, i, s);
    if j: nat :| DecidedAt(kind, correlation, limit, held, polls, j, r) {
      DecisionIsOutcome(kind, correlation, limit, held, polls, j, r);
    }
  }

  lemma NothingUndecided(kind: u32, correlation: u64, limit: u32, held: nat)
    ensures Undecided(kind, correlation, limit, held, [])
  {
  }

  ghost predicate ExpiresAt(kind: u32, correlation: u64, limit: u32, held: nat, polls: seq<Polled>, i: nat) {
    i < |polls| && polls[i] == Nothing(false, true) && Undecided(kind, correlation, limit, held, polls[..i])
  }

  /** A wait ends as past its deadline exactly when an idle poll finds it so, with the context still
      alive, before any poll that decides otherwise. */
  lemma DeadlineExactly(kind: u32, correlation: u64, limit: u32, held: seq<byte>, polls: seq<Polled>)
    requires |held| <= limit <= MAX_BODY
    ensures Await(kind, correlation, limit, held, polls) == Err(DeadlinePassed) <==>
            exists i :: ExpiresAt(kind, correlation, limit, |held|, polls, i)
  {
    hide Await, Undecided, Parts;
    OutcomeExactly(kind, correlation, limit, held, polls, Err(DeadlinePassed));
    if i: nat :| DecidedAt(kind, correlation, limit, held, polls, i, Err(DeadlinePassed)) {
      assert ExpiresAt(kind, correlation, limit, |held|, polls, i);
    }
    if i: nat :| ExpiresAt(kind, correlation, limit, |held|, polls, i) {
      assert DecidedAt(kind, correlation, limit, held, polls, i, Err(DeadlinePassed));
    }
  }
}
