/** When a buffer is released that the sound player is playing, and when one is released twice. */
module PlayerReleases {
  import opened Octets
  import opened Media
  import opened Player
  import opened PlayerControl
  import opened PlayerOwnership
  import opened Tallies

  predicate PlayingAlive(s: State) {
    s.r.lastEnqueued.Some? ==> s.r.lastEnqueued.value !in s.m.released
  }

  predicate Safe(s: State) {
    PlayingAlive(s) && Distinct(s.m.released)
  }

  // ---- the two calls

  predicate Starting(call: Call) {
    call == CCheck || call == CTry || call.CTaken?
  }

  /** Until the render thread's own call has enqueued its buffer the player does not call back, and what the calls
  have enqueued is what the player is playing. */
  predicate InTurn(r: Output, o: OutputLog) {
    && (Starting(r.direct) ==> !r.busy && r.fromPlayer == CIdle && r.current == None)
    && (Finishing(r.fromPlayer) ==> r.lastEnqueued == Some(r.fromPlayer.m.id))
    && (r.lastEnqueued.Some? ==> r.lastEnqueued.value in o.given)
    && (r.direct.CSaving? && r.current.Some? && !Finishing(r.fromPlayer) ==> r.lastEnqueued == r.current)
  }

  /** What a call has released and the field still names. */
  predicate Dangling(r: Output, o: OutputLog, m: Memory) {
    && (r.direct.CSaving? && r.fromPlayer.CStoring? && r.current.Some? ==> r.current.value in m.released)
    && (o.stale && !o.harmed ==>
          r.direct.CStoring? && r.fromPlayer.CSaving? && r.current.Some? && r.current.value in m.released)
  }

  predicate Turns(s: State) {
    InTurn(s.r, s.o) && Dangling(s.r, s.o, s.m)
  }

  /** The step is not one of the sound output's. */
  predicate Unrelated(s: State, t: State) {
    && t.r == s.r && s.m.released <= t.m.released
    && t.o.given == s.o.given && t.o.stale == s.o.stale && t.o.harmed == s.o.harmed
  }

  lemma TurnsUnrelated(s: State, t: State)
    requires Turns(s) && Unrelated(s, t)
    ensures Turns(t)
  {
  }

  lemma TurnsRender(s: State, step: RenderStep)
    requires Turns(s) && RenderShape(s.r) && RenderEnabled(s, step)
    ensures Turns(RenderApply(s, step))
  {
  }

  lemma TurnsCall(s: State, who: Caller, step: CallStep)
    requires Turns(s) && RenderShape(s.r) && CallEnabled(s, who, step)
    ensures Turns(CallApply(s, who, step))
  {
    match step
    case CCheckStep =>
    case CTryStep =>
    case CEnqueueStep =>
    case CDeleteStep => TurnsDelete(s, who, InCall(s.r, who).m);
    case CStoreStep =>
  }

  lemma TurnsDelete(s: State, who: Caller, m: Message)
    requires Turns(s) && InCall(s.r, who) == CSaving(m)
    ensures Turns(CDeleteDo(s, who, m))
  {
    if s.r.current.Some? {
      assert s.r.current.value in s.m.released + [s.r.current.value];
    }
  }

  lemma TurnsStep(c: Config, s: State, step: Step)
    requires Turns(s) && RenderShape(s.r) && Off(s) && Enabled(c, s, step)
    ensures Turns(Apply(c, s, step))
  {
    match step
    case Demuxer(d) => DemuxerLeaves(c, s, d); TurnsUnrelated(s, DemuxerApply(c, s, d));
    case Decoder(a) => DecoderLeaves(s, a); TurnsUnrelated(s, DecoderApply(s, a));
    case Render(r) => TurnsRender(s, r);
    case Callback(who, k) => TurnsCall(s, who, k);
    case _ =>
  }

  lemma ReachableTurns(c: Config, s: State)
    requires Reachable(c, s)
    ensures Turns(s)
  {
    forall s, step | Reachable(c, s) && Turns(s) && Enabled(c, s, step) ensures Turns(Apply(c, s, step)) {
      ThreadsOff(c, s);
      ReachableShape(c, s);
      TurnsStep(c, s, step);
    }
    Induction(c, s => Turns(s));
  }

  // ---- nothing is owned more often than it was allocated

  function InField(w: Tally, r: Output, o: OutputLog): nat {
    if r.fromPlayer.CStoring? || o.stale then 0 else OfId(w, r.current)
  }

  function Sounding(w: Tally, r: Output, o: OutputLog): nat {
    ByRender(w, r.pc) + ByCall(w, r.direct) + ByCall(w, r.fromPlayer) + InField(w, r, o)
  }

  function Owned(w: Tally, s: State): nat {
    InDemux(w, s.d) + InDecode(w, s.a) + Sounding(w, s.r, s.o) + InMemory(w, s.m)
  }

  ghost predicate OwnedOnce(w: Tally, s: State) {
    s.o.harmed || Owned(w, s) <= Allocated(w, s.m)
  }

  lemma SoundingRender(w: Tally, s: State, step: RenderStep)
    requires Additive(w) && RenderShape(s.r) && Turns(s) && !s.o.harmed && RenderEnabled(s, step)
    ensures Owned(w, RenderApply(s, step)) == Owned(w, s)
  {
    RenderEven(w, s, step);
    RenderFrame(s, step);
    var t := RenderApply(s, step);
    assert Sounding(w, s.r, s.o) == InOutput(w, s.r) && Sounding(w, t.r, t.o) == InOutput(w, t.r);
  }

  lemma RenderFrame(s: State, step: RenderStep)
    requires RenderShape(s.r) && RenderEnabled(s, step)
    ensures var t := RenderApply(s, step);
      && t.o.stale == s.o.stale && t.o.harmed == s.o.harmed && t.m.nextId == s.m.nextId
      && !s.r.direct.CStoring? && !t.r.direct.CStoring?
  {
  }

  lemma SoundingTry(w: Tally, s: State, who: Caller)
    requires Additive(w) && InCall(s.r, who) == CTry
    ensures Owned(w, CTryDo(s, who)) == Owned(w, s)
  {
    if s.a.outQ != [] {
      TallyPop(w, s.a.outQ);
    }
  }

  lemma SoundingDelete(w: Tally, s: State, who: Caller, m: Message)
    requires Additive(w) && Turns(s) && InCall(s.r, who) == CSaving(m)
    requires !s.o.harmed && !HarmfulDelete(s.r, s.o.stale, who)
    ensures Owned(w, CDeleteDo(s, who, m)) == Owned(w, s)
  {
    TallyReleased(w, s.m.released, s.r.current, OfOption(s.r.current));
  }

  lemma SoundingStore(w: Tally, s: State, who: Caller, m: Message)
    requires Turns(s) && InCall(s.r, who) == CStoring(m) && !s.o.harmed
    ensures Owned(w, CStoreDo(s, who, m)) <= Owned(w, s)
  {
  }

  lemma SoundingCall(w: Tally, s: State, who: Caller, step: CallStep)
    requires Additive(w) && Turns(s) && OwnedOnce(w, s) && CallEnabled(s, who, step)
    ensures OwnedOnce(w, CallApply(s, who, step))
  {
    match step
    case CCheckStep =>
    case CTryStep => SoundingTry(w, s, who);
    case CEnqueueStep =>
    case CDeleteStep =>
      if !s.o.harmed && !HarmfulDelete(s.r, s.o.stale, who) {
        SoundingDelete(w, s, who, InCall(s.r, who).m);
      }
    case CStoreStep =>
      if !s.o.harmed {
        SoundingStore(w, s, who, InCall(s.r, who).m);
      }
  }

  lemma OwnedOther(w: Tally, c: Config, s: State, step: Step)
    requires RenderShape(s.r) && Off(s) && Enabled(c, s, step) && (step.Complete? || step.Start? || step.Stop?)
    ensures var t := Apply(c, s, step); Owned(w, t) == Owned(w, s) && t.m == s.m && t.o == s.o
  {
    OtherBalanced(w, c, s, step);
  }

  lemma OwnedOnceStep(w: Tally, c: Config, s: State, step: Step)
    requires Additive(w) && OwnedOnce(w, s) && Turns(s) && Shape(s) && Off(s) && Enabled(c, s, step)
    ensures OwnedOnce(w, Apply(c, s, step))
  {
    match step
    case Demuxer(d) => DemuxerEven(w, c, s, d); DemuxerLeaves(c, s, d);
    case VideoPop => VideoPopEven(w, s);
    case Decoder(a) => DecoderEven(w, s, a); DecoderLeaves(s, a);
    case Render(r) =>
      RenderFrame(s, r);
      if !s.o.harmed {
        SoundingRender(w, s, r);
      }
    case Callback(who, k) => SoundingCall(w, s, who, k);
    case _ => OwnedOther(w, c, s, step);
  }

  lemma ReachableOwnedOnce(w: Tally, c: Config, s: State)
    requires Additive(w) && Reachable(c, s)
    ensures OwnedOnce(w, s)
  {
    forall video, audio ensures OwnedOnce(w, Init(video, audio)) {
      BalancedInit(w, video, audio);
    }
    forall s, step | Reachable(c, s) && OwnedOnce(w, s) && Enabled(c, s, step) ensures OwnedOnce(w, Apply(c, s, step)) {
      ThreadsOff(c, s);
      ReachableShape(c, s);
      ReachableTurns(c, s);
      OwnedOnceStep(w, c, s, step);
    }
    Induction(c, s => OwnedOnce(w, s));
  }

  /** Until harm is done a payload is owned at most once. */
  lemma OwnedAtMostOnce(c: Config, s: State, x: nat)
    requires Reachable(c, s) && !s.o.harmed
    ensures Owned(Counter(x), s) <= 1
  {
    CounterAdditive(x);
    ReachableOwnedOnce(Counter(x), c, s);
    CountUpto(s.m.nextId, x);
  }

  // ---- the buffer that is playing

  predicate AliveUnlessHarmed(s: State) {
    s.o.harmed || PlayingAlive(s)
  }

  lemma NotReleasedByOthers(s: State, t: State, x: nat)
    requires Even(Counter(x), s, t) && s.m.nextId <= t.m.nextId
    requires x < s.m.nextId && Up(Counter(x), s) == 0 && x !in s.m.released
    ensures x !in t.m.released
  {
    CounterAdditive(x);
    CountUpto(s.m.nextId, x);
    CountUpto(t.m.nextId, x);
    CountIn(s.m.released, x);
    CountIn(t.m.released, x);
  }

  lemma AliveOthers(s: State, t: State)
    requires GivenGone(s) && InTurn(s.r, s.o) && AliveUnlessHarmed(s)
    requires Unrelated(s, t) && s.m.nextId <= t.m.nextId
    requires s.r.lastEnqueued.Some? ==> Even(Counter(s.r.lastEnqueued.value), s, t)
    ensures AliveUnlessHarmed(t)
  {
    if !s.o.harmed && s.r.lastEnqueued.Some? {
      NotReleasedByOthers(s, t, s.r.lastEnqueued.value);
    }
  }

  lemma AliveRender(s: State, step: RenderStep)
    requires AliveUnlessHarmed(s) && RenderShape(s.r) && RenderEnabled(s, step)
    ensures AliveUnlessHarmed(RenderApply(s, step))
  {
  }

  lemma OwnedParts(s: State, x: nat)
    ensures Owned(Counter(x), s) >= Count(s.m.released, x) + ByCall(Counter(x), s.r.direct)
                                    + ByCall(Counter(x), s.r.fromPlayer) + InField(Counter(x), s.r, s.o)
  {
  }

  lemma AliveEnqueue(c: Config, s: State, who: Caller)
    requires Reachable(c, s) && CallEnabled(s, who, CEnqueueStep)
    ensures AliveUnlessHarmed(CallApply(s, who, CEnqueueStep))
  {
    if !s.o.harmed {
      var x := InCall(s.r, who).m.id;
      OwnedAtMostOnce(c, s, x);
      OwnedParts(s, x);
      assert ByCall(Counter(x), InCall(s.r, who)) == Counter(x).one(x) == Bit(x == x);
      CountIn(s.m.released, x);
    }
  }

  /** A delete that does no harm releases another buffer than the one that is playing. */
  lemma AliveDelete(c: Config, s: State, who: Caller)
    requires Reachable(c, s) && AliveUnlessHarmed(s) && CallEnabled(s, who, CDeleteStep)
    ensures AliveUnlessHarmed(CallApply(s, who, CDeleteStep))
  {
    ReachableTurns(c, s);
    if !s.o.harmed && !HarmfulDelete(s.r, s.o.stale, who) && s.r.current.Some? {
      var x := s.r.current.value;
      assert s.r.fromPlayer.CSaving? && s.r.lastEnqueued == Some(s.r.fromPlayer.m.id);
      OwnedAtMostOnce(c, s, x);
      OwnedParts(s, x);
      assert Counter(x).one(x) == Bit(x == x);
      assert s.r.fromPlayer.m.id != x;
    }
  }

  lemma AliveStep(c: Config, s: State, step: Step)
    requires Reachable(c, s) && AliveUnlessHarmed(s) && Enabled(c, s, step)
    ensures AliveUnlessHarmed(Apply(c, s, step))
  {
    ReachableShape(c, s);
    ReachableTurns(c, s);
    ReachableGivenGone(c, s);
    match step
    case Demuxer(d) => AliveDemuxer(c, s, d);
    case Decoder(a) => AliveDecoder(s, a);
    case Render(r) => AliveRender(s, r);
    case Callback(who, k) => AliveCall(c, s, who, k);
    case _ =>
  }

  lemma AliveDemuxer(c: Config, s: State, step: DemuxerStep)
    requires GivenGone(s) && InTurn(s.r, s.o) && AliveUnlessHarmed(s) && DemuxerEnabled(s, step)
    ensures AliveUnlessHarmed(DemuxerApply(c, s, step))
  {
    DemuxerLeaves(c, s, step);
    if s.r.lastEnqueued.Some? {
      CounterAdditive(s.r.lastEnqueued.value);
      DemuxerEven(Counter(s.r.lastEnqueued.value), c, s, step);
    }
    AliveOthers(s, DemuxerApply(c, s, step));
  }

  lemma AliveDecoder(s: State, step: DecoderStep)
    requires GivenGone(s) && InTurn(s.r, s.o) && AliveUnlessHarmed(s) && DecoderEnabled(s, step)
    ensures AliveUnlessHarmed(DecoderApply(s, step))
  {
    DecoderLeaves(s, step);
    if s.r.lastEnqueued.Some? {
      CounterAdditive(s.r.lastEnqueued.value);
      DecoderEven(Counter(s.r.lastEnqueued.value), s, step);
    }
    AliveOthers(s, DecoderApply(s, step));
  }

  lemma AliveCall(c: Config, s: State, who: Caller, step: CallStep)
    requires Reachable(c, s) && AliveUnlessHarmed(s) && CallEnabled(s, who, step)
    ensures AliveUnlessHarmed(CallApply(s, who, step))
  {
    match step
    case CEnqueueStep => AliveEnqueue(c, s, who);
    case CDeleteStep => AliveDelete(c, s, who);
    case _ =>
  }

  // ---- exactly the harmful deletes

  /** In every configuration: until a harmful delete the buffer that the player was given last is not released. */
  lemma PlayingBufferAlive(c: Config, s: State)
    requires Reachable(c, s) && !s.o.harmed
    ensures PlayingAlive(s)
  {
    forall s, step | Reachable(c, s) && AliveUnlessHarmed(s) && Enabled(c, s, step)
      ensures AliveUnlessHarmed(Apply(c, s, step))
    {
      AliveStep(c, s, step);
    }
    Induction(c, s => AliveUnlessHarmed(s));
  }

  /** In every configuration: no released payload is in a queue; and only a buffer that was given to the player can
  be released twice, and only after a harmful delete. */
  lemma ReleasedOnce(c: Config, s: State)
    requires Reachable(c, s)
    ensures forall x :: x in s.m.released ==> x !in Ids(s.d.videoQ) && x !in Ids(s.d.audioQ) && x !in Ids(s.a.outQ)
    ensures forall j, k :: 0 <= j < k < |s.m.released| && s.m.released[j] == s.m.released[k] ==>
              s.o.harmed && s.m.released[k] in s.o.given
  {
    forall x | x in s.m.released
      ensures x !in Ids(s.d.videoQ) && x !in Ids(s.d.audioQ) && x !in Ids(s.a.outQ)
    {
      HeldOnce(c, s, x);
      HeldCounts(s, x);
      CountIn(Ids(s.d.videoQ), x);
      CountIn(Ids(s.d.audioQ), x);
      CountIn(Ids(s.a.outQ), x);
    }
    forall j, k | 0 <= j < k < |s.m.released| && s.m.released[j] == s.m.released[k]
      ensures s.o.harmed && s.m.released[k] in s.o.given
    {
      var x := s.m.released[k];
      CountTwice(s.m.released, j, k);
      NotReleasedTwice(c, s, x);
      if !s.o.harmed {
        OwnedAtMostOnce(c, s, x);
        OwnedParts(s, x);
      }
    }
  }

  lemma SafeUnlessHarmed(c: Config, s: State)
    requires Reachable(c, s) && !s.o.harmed
    ensures Safe(s)
  {
    PlayingBufferAlive(c, s);
    ReleasedOnce(c, s);
  }

  lemma ReleasedAgain(ids: seq<nat>, x: nat)
    requires x in ids
    ensures !Distinct(ids + [x])
  {
    var k :| 0 <= k < |ids| && ids[k] == x;
    assert (ids + [x])[k] == (ids + [x])[|ids|];
  }

  /** A harmful delete does its harm at once: it releases the buffer that is playing, or one for a second time. */
  lemma HarmsAtOnce(c: Config, s: State, who: Caller)
    requires Reachable(c, s) && !s.o.harmed && CallEnabled(s, who, CDeleteStep)
    requires HarmfulDelete(s.r, s.o.stale, who)
    ensures !Safe(CallApply(s, who, CDeleteStep))
  {
    ReachableTurns(c, s);
    var t, x := CallApply(s, who, CDeleteStep), s.r.current.value;
    assert t.m.released == s.m.released + [x];
    if who == Direct && !s.r.fromPlayer.CStoring? {
      assert t.r.lastEnqueued == Some(x) && t.m.released[|s.m.released|] == x;
    } else {
      ReleasedAgain(s.m.released, x);
    }
  }

  /** What a step must not do. */
  predicate Harms(s: State, step: Step) {
    step.Callback? && step.k == CDeleteStep && HarmfulDelete(s.r, s.o.stale, step.who)
  }

  lemma HarmedNext(c: Config, s: State, step: Step)
    requires Enabled(c, s, step)
    ensures Apply(c, s, step).o.harmed == (s.o.harmed || Harms(s, step))
  {
    match step
    case Demuxer(d) => DemuxerLeaves(c, s, d);
    case Decoder(a) => DecoderLeaves(s, a);
    case _ =>
  }

  /** From a state before any harm a step leads to a safe state exactly if it is not a harmful delete. */
  lemma StepSafeIff(c: Config, s: State, step: Step)
    requires Reachable(c, s) && !s.o.harmed && Enabled(c, s, step)
    ensures Safe(Apply(c, s, step)) <==> !Harms(s, step)
  {
    HarmedNext(c, s, step);
    ReachableStep(c, s, step);
    if Harms(s, step) {
      HarmsAtOnce(c, s, step.who);
    } else {
      SafeUnlessHarmed(c, Apply(c, s, step));
    }
  }

  ghost predicate SafeThroughout(c: Config, s: State, steps: seq<Step>)
    requires Valid(c, s, steps)
    decreases |steps|
  {
    Safe(s) && (steps == [] || SafeThroughout(c, Apply(c, s, steps[0]), steps[1..]))
  }

  lemma {:induction false} StaysHarmed(c: Config, s: State, steps: seq<Step>)
    requires Valid(c, s, steps) && s.o.harmed
    ensures After(c, s, steps).o.harmed
    decreases |steps|
  {
    if steps != [] {
      HarmedNext(c, s, steps[0]);
      StaysHarmed(c, Apply(c, s, steps[0]), steps[1..]);
    }
  }

  /** Run by run, in every configuration: the playing buffer stays alive and nothing is released twice, in every
  state of the run, exactly if no harmful delete is among its steps. */
  lemma {:induction false} RunSafeIff(c: Config, s: State, steps: seq<Step>)
    requires Reachable(c, s) && !s.o.harmed && Valid(c, s, steps)
    ensures SafeThroughout(c, s, steps) <==> !After(c, s, steps).o.harmed
    decreases |steps|
  {
    SafeUnlessHarmed(c, s);
    if steps != [] {
      var t := Apply(c, s, steps[0]);
      ReachableStep(c, s, steps[0]);
      HarmedNext(c, s, steps[0]);
      StepSafeIff(c, s, steps[0]);
      if t.o.harmed {
        StaysHarmed(c, t, steps[1..]);
      } else {
        RunSafeIff(c, t, steps[1..]);
      }
    }
  }

  // ---- all runs of a configuration

  /** The render thread's own call comes to delete and finds a buffer in the field. */
  predicate Finds(r: Output) {
    r.direct.CSaving? && r.current.Some?
  }

  ghost predicate CanFind(c: Config) {
    exists s :: Reachable(c, s) && Finds(s.r)
  }

  ghost predicate Unsafe(c: Config) {
    exists s :: Reachable(c, s) && !Safe(s)
  }

  lemma HarmNeedsFinding(c: Config, s: State)
    requires Reachable(c, s) && (s.o.harmed || s.o.stale)
    ensures CanFind(c)
  {
    forall s, step | Reachable(c, s) && (s.o.harmed || s.o.stale ==> CanFind(c)) && Enabled(c, s, step)
      ensures var t := Apply(c, s, step); t.o.harmed || t.o.stale ==> CanFind(c)
    {
      FindingStep(c, s, step);
    }
    Induction(c, (s: State) => s.o.harmed || s.o.stale ==> CanFind(c));
  }

  lemma FindingStep(c: Config, s: State, step: Step)
    requires Reachable(c, s) && Enabled(c, s, step)
    ensures var t := Apply(c, s, step); (t.o.harmed || t.o.stale) && !s.o.harmed && !s.o.stale ==> Finds(s.r)
  {
    match step
    case Demuxer(d) => DemuxerLeaves(c, s, d);
    case Decoder(a) => DecoderLeaves(s, a);
    case _ =>
  }

  lemma HarmIsUnsafe(c: Config, s: State)
    requires Reachable(c, s) && s.o.harmed
    ensures Unsafe(c)
  {
    forall s, step | Reachable(c, s) && (s.o.harmed ==> Unsafe(c)) && Enabled(c, s, step)
      ensures Apply(c, s, step).o.harmed ==> Unsafe(c)
    {
      HarmedNext(c, s, step);
      if !s.o.harmed && Harms(s, step) {
        HarmsAtOnce(c, s, step.who);
        ReachableStep(c, s, step);
      }
    }
    Induction(c, (s: State) => s.o.harmed ==> Unsafe(c));
  }

  /** If the call finds a buffer, its delete does harm or the next step of the player's call does. */
  lemma FindingHarms(c: Config, s: State)
    requires Reachable(c, s) && Finds(s.r)
    ensures Unsafe(c)
  {
    if s.o.harmed {
      HarmIsUnsafe(c, s);
    } else {
      ReachableStep(c, s, Callback(Direct, CDeleteStep));
      var t := CallApply(s, Direct, CDeleteStep);
      if s.r.fromPlayer.CSaving? {
        HarmsAtOnce(c, t, FromPlayer);
        ReachableStep(c, t, Callback(FromPlayer, CDeleteStep));
      } else {
        HarmsAtOnce(c, s, Direct);
      }
    }
  }

  /** In every configuration: all reachable states are safe exactly if the render thread's own call never finds a
  buffer in the field when it comes to delete. */
  lemma SafeIff(c: Config)
    ensures (forall s :: Reachable(c, s) ==> Safe(s)) <==> (forall s :: Reachable(c, s) ==> !Finds(s.r))
  {
    forall s | Reachable(c, s) && Finds(s.r) ensures Unsafe(c) {
      FindingHarms(c, s);
    }
    forall s | Reachable(c, s) && !Safe(s) ensures CanFind(c) {
      if !s.o.harmed {
        SafeUnlessHarmed(c, s);
      }
      HarmNeedsFinding(c, s);
    }
  }

  /** If completions come only after the render thread's own call, it finds nothing. */
  lemma SerialFindsNothing(c: Config, s: State)
    requires Reachable(c, s) && c.serial
    ensures !Finds(s.r) && !s.o.harmed
  {
    forall s | Reachable(c, s) ensures !Finds(s.r) {
      SerialField(c, s);
    }
    if s.o.harmed {
      HarmNeedsFinding(c, s);
    }
  }

  predicate EmptyUntilSaved(r: Output) {
    (Starting(r.direct) || r.direct.CSaving?) ==> r.current == None
  }

  lemma SerialField(c: Config, s: State)
    requires Reachable(c, s) && c.serial
    ensures EmptyUntilSaved(s.r)
  {
    forall s, step | Reachable(c, s) && EmptyUntilSaved(s.r) && Enabled(c, s, step)
      ensures EmptyUntilSaved(Apply(c, s, step).r)
    {
      ReachableShape(c, s);
      ReachableOneCall(c, s);
      SerialFieldStep(c, s, step);
    }
    Induction(c, (s: State) => EmptyUntilSaved(s.r));
  }

  lemma SerialFieldStep(c: Config, s: State, step: Step)
    requires c.serial && OneCall(c, s.r) && RenderShape(s.r) && EmptyUntilSaved(s.r) && Enabled(c, s, step)
    ensures EmptyUntilSaved(Apply(c, s, step).r)
  {
    match step
    case Demuxer(d) => DemuxerLeaves(c, s, d);
    case Decoder(a) => DecoderLeaves(s, a);
    case _ =>
  }
}
