/** Who owns each payload. */
module PlayerOwnership {
  import opened Octets
  import opened Media
  import opened Player
  import opened PlayerControl
  import opened Tallies

  // ---- places

  function ByDemuxer(w: Tally, pc: DemuxerPc): nat {
    if pc.DResendVideo? || pc.DResendAudio? || pc.DPush? then w.one(pc.m.id) else 0
  }

  function ByDecoder(w: Tally, pc: DecoderPc): nat {
    if pc.AGot? || pc.APush? then w.one(pc.m.id) else 0
  }

  function ByRender(w: Tally, pc: RenderPc): nat {
    match pc
    case RDestroy(config) => OfMessage(w, config)
    case RDelete(config) => OfMessage(w, config)
    case RConfigure(m) => w.one(m.id)
    case _ => 0
  }

  function ByCall(w: Tally, call: Call): nat {
    if call.CTaken? || call.CSaving? || call.CStoring? then w.one(call.m.id) else 0
  }

  /** While a call stores its buffer the field still names one that has been released. */
  function ByPlayer(w: Tally, r: Output): nat {
    if r.direct.CStoring? || r.fromPlayer.CStoring? then 0 else OfId(w, r.current)
  }

  function InDemux(w: Tally, d: Demux): nat {
    w.queue(d.videoQ) + w.queue(d.audioQ) + ByDemuxer(w, d.pc)
  }

  function InDecode(w: Tally, a: Decode): nat {
    w.queue(a.outQ) + ByDecoder(w, a.pc) + OfId(w, a.codec)
  }

  function InOutput(w: Tally, r: Output): nat {
    ByRender(w, r.pc) + ByCall(w, r.direct) + ByCall(w, r.fromPlayer) + ByPlayer(w, r)
  }

  function InMemory(w: Tally, m: Memory): nat {
    w.ids(m.released) + w.ids(m.leaked) + w.queue(m.videoTaken)
  }

  /** The measure of everything, wherever it is; each release counts as a place. */
  function Places(w: Tally, s: State): nat {
    InDemux(w, s.d) + InDecode(w, s.a) + InOutput(w, s.r) + InMemory(w, s.m)
  }

  /** The measure of everything allocated so far. */
  function Allocated(w: Tally, m: Memory): nat {
    w.ids(Upto(m.nextId))
  }

  predicate BalancedFor(w: Tally, s: State) {
    Places(w, s) == Allocated(w, s.m)
  }

  /** A step of the demuxer or of a decoder: what it takes, it keeps, hands on, releases or forgets. */
  ghost predicate Even(w: Tally, s: State, t: State) {
    && InDemux(w, t.d) + InDecode(w, t.a) + InMemory(w, t.m) + Allocated(w, s.m)
       == InDemux(w, s.d) + InDecode(w, s.a) + InMemory(w, s.m) + Allocated(w, t.m)
    && t.r == s.r
  }

  lemma Fresh(w: Tally, m: Memory)
    requires Additive(w)
    ensures w.ids(Upto(m.nextId + 1)) == Allocated(w, m) + w.one(m.nextId)
  {
    UptoNext(m.nextId);
  }

  // ---- the demuxer

  lemma GateEven(w: Tally, c: Config, s: State)
    requires Additive(w) && s.d.pc == DGate
    ensures Even(w, s, DGateDo(c, s))
  {
    var video, audio := s.d.videoQ, s.d.audioQ;
    if Over(c, video, audio) && c.skip {
      TallyNewest(w, video);
      TallyNewest(w, audio);
      TallyTwo(w, s.m.released, Newest(video), Newest(audio));
    } else {
      assert s.m.released + [] == s.m.released;
    }
  }

  lemma ConfigEven(w: Tally, c: Config, s: State, step: DemuxerStep)
    requires Additive(w) && (step.DConfigVideoStep? || step.DConfigAudioStep?) && DemuxerEnabled(s, step)
    ensures Even(w, s, DemuxerApply(c, s, step))
  {
    Fresh(w, s.m);
  }

  lemma PushQueued(w: Tally, s: State, p: Message)
    requires Additive(w) && s.d.pc == DPush(p) && (p.kind == AudioPkt || p.kind == VideoPkt)
    ensures InDemux(w, DPushDo(s, p).d) == InDemux(w, s.d)
  {
  }

  lemma PushEven(w: Tally, s: State, p: Message)
    requires Additive(w) && s.d.pc == DPush(p)
    ensures Even(w, s, DPushDo(s, p))
  {
    if p.kind == AudioPkt || p.kind == VideoPkt {
      PushQueued(w, s, p);
    }
  }

  lemma DemuxerEven(w: Tally, c: Config, s: State, step: DemuxerStep)
    requires Additive(w) && DemuxerEnabled(s, step)
    ensures Even(w, s, DemuxerApply(c, s, step))
  {
    match step
    case DCheckStep =>
    case DGateStep => GateEven(w, c, s);
    case DReadStep(_) => Fresh(w, s.m);
    case DEofStep(_, _) =>
    case DConfigVideoStep => ConfigEven(w, c, s, step);
    case DConfigAudioStep => ConfigEven(w, c, s, step);
    case DPushStep => PushEven(w, s, s.d.pc.m);
    case DFlushVideoStep =>
    case DFlushAudioStep =>
  }

  // ---- the decoders

  lemma VideoPopEven(w: Tally, s: State)
    requires Additive(w) && s.d.videoQ != []
    ensures Even(w, s, VideoPopDo(s))
  {
    TallyPop(w, s.d.videoQ);
  }

  lemma HandleEven(w: Tally, s: State, p: Message)
    requires Additive(w) && s.a.pc == AGot(p)
    ensures Even(w, s, AHandle(s, p))
  {
    Fresh(w, s.m);
    TallyReleased(w, s.m.released, s.a.codec, OfOption(s.a.codec));
  }

  lemma DecoderEven(w: Tally, s: State, step: DecoderStep)
    requires Additive(w) && DecoderEnabled(s, step)
    ensures Even(w, s, DecoderApply(s, step))
  {
    match step
    case ACheckStep =>
    case APopStep =>
      if s.d.audioQ != [] {
        TallyPop(w, s.d.audioQ);
      }
    case AHandleStep => HandleEven(w, s, s.a.pc.m);
    case APushStep =>
    case AClearStep => TallyReleased(w, s.m.released, s.a.codec, OfOption(s.a.codec));
    case AFlushStep =>
  }

  // ---- the render thread and the calls

  /** If completions come only after the render thread's own call, one call at a time is past its check. */
  predicate OneCall(c: Config, r: Output) {
    && (r.direct == CCheck || r.direct == CTry || r.direct.CTaken? ==> !r.busy && r.fromPlayer == CIdle)
    && (c.serial && r.direct != CIdle ==> r.fromPlayer == CIdle)
    && (Finishing(r.direct) && c.serial ==> r.lastEnqueued == Some(r.direct.m.id))
    && (Finishing(r.fromPlayer) && c.serial ==> r.lastEnqueued == Some(r.fromPlayer.m.id))
    && (c.serial && !Finishing(r.direct) && !Finishing(r.fromPlayer) && r.lastEnqueued.Some? ==>
          r.current == r.lastEnqueued)
  }

  lemma OneCallRender(c: Config, s: State, step: RenderStep)
    requires OneCall(c, s.r) && RenderShape(s.r) && RenderEnabled(s, step)
    ensures OneCall(c, RenderApply(s, step).r)
  {
  }

  lemma OneCallCall(c: Config, s: State, who: Caller, step: CallStep)
    requires OneCall(c, s.r) && RenderShape(s.r) && CallEnabled(s, who, step)
    ensures OneCall(c, CallApply(s, who, step).r)
  {
  }

  lemma OneCallStep(c: Config, s: State, step: Step)
    requires OneCall(c, s.r) && RenderShape(s.r) && Off(s) && Enabled(c, s, step)
    ensures OneCall(c, Apply(c, s, step).r)
  {
    match step
    case Render(r) => OneCallRender(c, s, r);
    case Callback(who, k) => OneCallCall(c, s, who, k);
    case Demuxer(_) =>
    case Decoder(_) =>
    case _ =>
  }

  lemma ReachableOneCall(c: Config, s: State)
    requires Reachable(c, s)
    ensures OneCall(c, s.r)
  {
    forall s, step | Reachable(c, s) && OneCall(c, s.r) && Enabled(c, s, step) ensures OneCall(c, Apply(c, s, step).r) {
      ThreadsOff(c, s);
      ReachableShape(c, s);
      OneCallStep(c, s, step);
    }
    Induction(c, (s: State) => OneCall(c, s.r));
  }

  /** A step of the render thread or of a call. */
  ghost predicate EvenOut(w: Tally, s: State, t: State) {
    && InDecode(w, t.a) + InOutput(w, t.r) + InMemory(w, t.m)
       == InDecode(w, s.a) + InOutput(w, s.r) + InMemory(w, s.m)
    && t.d == s.d && t.m.nextId == s.m.nextId
  }

  lemma PeekEven(w: Tally, s: State)
    requires Additive(w) && s.r.pc == RPeek
    ensures EvenOut(w, s, RPeekDo(s))
  {
    if s.a.outQ != [] {
      TallyPop(w, s.a.outQ);
    }
  }

  lemma RenderEven(w: Tally, s: State, step: RenderStep)
    requires Additive(w) && RenderShape(s.r) && RenderEnabled(s, step)
    ensures EvenOut(w, s, RenderApply(s, step))
  {
    match step
    case RCheckStep =>
    case RPeekStep => PeekEven(w, s);
    case RDestroyStep =>
    case RDeleteStep => TallyReleased(w, s.m.released, s.r.current, OfOption(s.r.current));
    case RConfigureStep =>
    case RReturnStep =>
  }

  /** A buffer that a call has enqueued, and the one in the field, have been given to the player. */
  predicate GivenMarked(r: Output, o: OutputLog) {
    && (Finishing(r.direct) ==> r.direct.m.id in o.given)
    && (Finishing(r.fromPlayer) ==> r.fromPlayer.m.id in o.given)
    && (r.current.Some? ==> r.current.value in o.given)
  }

  lemma GivenMarkedStep(c: Config, s: State, step: Step)
    requires GivenMarked(s.r, s.o) && Enabled(c, s, step)
    ensures var t := Apply(c, s, step); GivenMarked(t.r, t.o)
  {
    match step
    case Callback(who, k) => GivenMarkedCall(s, who, k);
    case Demuxer(d) => DemuxerLeaves(c, s, d);
    case Render(r) => GivenMarkedRender(s, r);
    case Decoder(_) =>
    case _ =>
  }

  lemma GivenMarkedRender(s: State, step: RenderStep)
    requires GivenMarked(s.r, s.o) && RenderEnabled(s, step)
    ensures var t := RenderApply(s, step); GivenMarked(t.r, t.o)
  {
  }

  lemma GivenMarkedCall(s: State, who: Caller, step: CallStep)
    requires GivenMarked(s.r, s.o) && CallEnabled(s, who, step)
    ensures var t := CallApply(s, who, step); GivenMarked(t.r, t.o)
  {
  }

  lemma ReachableGivenMarked(c: Config, s: State)
    requires Reachable(c, s)
    ensures GivenMarked(s.r, s.o)
  {
    forall s: State, step | GivenMarked(s.r, s.o) && Enabled(c, s, step)
      ensures var t := Apply(c, s, step); GivenMarked(t.r, t.o)
    {
      GivenMarkedStep(c, s, step);
    }
    Induction(c, (s: State) => GivenMarked(s.r, s.o));
  }

  /** The measure is exact: completions never overlap the render thread's own call, or the measure does not see
  the buffers that have been given to the player. */
  ghost predicate Exact(w: Tally, c: Config, s: State) {
    c.serial || forall g :: g in s.o.given ==> w.one(g) == 0
  }

  lemma DeleteEven(w: Tally, c: Config, s: State, who: Caller, m: Message)
    requires Additive(w) && OneCall(c, s.r) && GivenMarked(s.r, s.o) && Exact(w, c, s)
    requires InCall(s.r, who) == CSaving(m)
    ensures EvenOut(w, s, CDeleteDo(s, who, m))
  {
    TallyReleased(w, s.m.released, s.r.current, OfOption(s.r.current));
  }

  lemma StoreEven(w: Tally, c: Config, s: State, who: Caller, m: Message)
    requires Additive(w) && OneCall(c, s.r) && GivenMarked(s.r, s.o) && Exact(w, c, s)
    requires InCall(s.r, who) == CStoring(m)
    ensures EvenOut(w, s, CStoreDo(s, who, m))
  {
  }

  lemma TryEven(w: Tally, s: State, who: Caller)
    requires Additive(w) && InCall(s.r, who) == CTry
    ensures EvenOut(w, s, CTryDo(s, who))
  {
    if s.a.outQ != [] {
      TallyPop(w, s.a.outQ);
    }
  }

  lemma CallEven(w: Tally, c: Config, s: State, who: Caller, step: CallStep)
    requires Additive(w) && OneCall(c, s.r) && GivenMarked(s.r, s.o) && Exact(w, c, s) && CallEnabled(s, who, step)
    ensures EvenOut(w, s, CallApply(s, who, step))
  {
    match step
    case CCheckStep =>
    case CTryStep => TryEven(w, s, who);
    case CEnqueueStep =>
    case CDeleteStep => DeleteEven(w, c, s, who, InCall(s.r, who).m);
    case CStoreStep => StoreEven(w, c, s, who, InCall(s.r, who).m);
  }

  // ---- all runs

  lemma OtherBalanced(w: Tally, c: Config, s: State, step: Step)
    requires RenderShape(s.r) && Off(s) && Enabled(c, s, step) && (step.Complete? || step.Start? || step.Stop?)
    ensures var t := Apply(c, s, step);
      InDemux(w, t.d) == InDemux(w, s.d) && InDecode(w, t.a) == InDecode(w, s.a)
      && InOutput(w, t.r) == InOutput(w, s.r) && t.m == s.m
  {
  }

  lemma BalancedStep(w: Tally, c: Config, s: State, step: Step)
    requires Additive(w) && OneCall(c, s.r) && GivenMarked(s.r, s.o) && Shape(s) && Off(s) && Enabled(c, s, step)
    requires Exact(w, c, s) && BalancedFor(w, s)
    ensures BalancedFor(w, Apply(c, s, step))
  {
    match step
    case Demuxer(d) => DemuxerEven(w, c, s, d);
    case VideoPop => VideoPopEven(w, s);
    case Decoder(a) => DecoderEven(w, s, a);
    case Render(r) => RenderEven(w, s, r);
    case Callback(who, k) => CallEven(w, c, s, who, k);
    case _ => OtherBalanced(w, c, s, step);
  }

  lemma BalancedInit(w: Tally, video: bool, audio: bool)
    requires Additive(w)
    ensures BalancedFor(w, Init(video, audio))
  {
    var v, a := Message(VideoCodecConfig, 0, 0, 0), Message(AudioCodecConfig, Bit(video), Bit(video), 0);
    assert w.queue([] + [v]) == w.one(0) && w.queue([] + [a]) == w.one(Bit(video));
    UptoNext(0);
    UptoNext(1);
    assert Upto(0) == [];
  }

  /** The histories of released and given buffers only grow, and so do the numbers of payloads. */
  lemma HistoriesGrow(c: Config, s: State, step: Step)
    requires Enabled(c, s, step)
    ensures var t := Apply(c, s, step);
      s.o.given <= t.o.given && s.m.released <= t.m.released && s.m.nextId <= t.m.nextId <= s.m.nextId + 1
  {
    match step
    case Demuxer(d) => DemuxerLeaves(c, s, d);
    case Decoder(a) => DecoderLeaves(s, a);
    case Render(r) => RenderLeaves(s, r);
    case Callback(who, k) => CallLeaves(s, who, k);
    case _ =>
  }

  ghost predicate BalancedIfExact(w: Tally, c: Config, s: State) {
    Exact(w, c, s) ==> BalancedFor(w, s)
  }

  /** Whatever additive measure is taken: the payloads in the queues, in the threads' hands, in the codec, in
  the field of the playing buffer, and among the released and forgotten ones add up to all that were ever
  allocated; if completions can overlap the render thread's own call, for every measure that does not see the
  buffers given to the player. */
  lemma PayloadsConserved(w: Tally, c: Config, s: State)
    requires Additive(w) && Reachable(c, s) && Exact(w, c, s)
    ensures Places(w, s) == w.ids(Upto(s.m.nextId))
  {
    forall video, audio ensures BalancedIfExact(w, c, Init(video, audio)) {
      BalancedInit(w, video, audio);
    }
    forall s, step | Reachable(c, s) && BalancedIfExact(w, c, s) && Enabled(c, s, step)
      ensures BalancedIfExact(w, c, Apply(c, s, step))
    {
      ThreadsOff(c, s);
      ReachableShape(c, s);
      ReachableOneCall(c, s);
      ReachableGivenMarked(c, s);
      HistoriesGrow(c, s, step);
      if Exact(w, c, Apply(c, s, step)) {
        ExactBefore(w, c, s, Apply(c, s, step));
        BalancedStep(w, c, s, step);
      }
    }
    Induction(c, s => BalancedIfExact(w, c, s));
  }

  lemma ExactBefore(w: Tally, c: Config, s: State, t: State)
    requires s.o.given <= t.o.given && Exact(w, c, t)
    ensures Exact(w, c, s)
  {
    forall g | !c.serial && g in s.o.given ensures w.one(g) == 0 {
      assert g in t.o.given;
    }
  }

  /** In how many places payload x is. */
  function PlacesOf(s: State, x: nat): nat {
    Places(Counter(x), s)
  }

  /** Every payload ever allocated is in exactly one place, and nothing else is anywhere: always for a payload
  that has not been given to the player, and for every one if completions come only after the render thread's
  own call. */
  lemma SingleOwner(c: Config, s: State, x: nat)
    requires Reachable(c, s) && (c.serial || x !in s.o.given)
    ensures PlacesOf(s, x) == if x < s.m.nextId then 1 else 0
  {
    CounterAdditive(x);
    forall g | g in s.o.given && !c.serial ensures Counter(x).one(g) == 0 {
      assert Counter(x).one(g) == Bit(g == x);
    }
    PayloadsConserved(Counter(x), c, s);
    CountUpto(s.m.nextId, x);
  }

  // ---- buffers that have been given to the player

  function Taken(w: Tally, call: Call): nat {
    if call.CTaken? then w.one(call.m.id) else 0
  }

  /** In a queue, in a thread's hands, in the codec, or taken by a call that has not enqueued it yet. */
  function Held(w: Tally, s: State): nat {
    InDemux(w, s.d) + InDecode(w, s.a) + ByRender(w, s.r.pc) + Taken(w, s.r.direct) + Taken(w, s.r.fromPlayer)
  }

  /** Held, or forgotten, or taken by the video decoder. */
  function Up(w: Tally, s: State): nat {
    Held(w, s) + w.ids(s.m.leaked) + w.queue(s.m.videoTaken)
  }

  lemma UpRender(w: Tally, s: State, step: RenderStep)
    requires Additive(w) && RenderEnabled(s, step)
    ensures Up(w, RenderApply(s, step)) <= Up(w, s)
  {
    if step.RPeekStep? && s.a.outQ != [] {
      TallyPop(w, s.a.outQ);
    }
  }

  lemma UpCall(w: Tally, s: State, who: Caller, step: CallStep)
    requires Additive(w) && CallEnabled(s, who, step)
    ensures var t := CallApply(s, who, step);
      Up(w, t) == if step.CEnqueueStep? then Up(w, s) - w.one(InCall(s.r, who).m.id) else Up(w, s)
  {
    if step.CTryStep? && s.a.outQ != [] {
      TallyPop(w, s.a.outQ);
    }
  }

  /** No step but an allocation puts payload x where it was not before. */
  lemma UpStep(c: Config, s: State, step: Step, x: nat)
    requires Enabled(c, s, step) && RenderShape(s.r) && Off(s) && x < s.m.nextId
    ensures Up(Counter(x), Apply(c, s, step)) <= Up(Counter(x), s)
  {
    var w, t := Counter(x), Apply(c, s, step);
    CounterAdditive(x);
    HistoriesGrow(c, s, step);
    CountPrefix(s.m.released, t.m.released, x);
    CountUpto(s.m.nextId, x);
    CountUpto(t.m.nextId, x);
    match step
    case Demuxer(d) => DemuxerEven(w, c, s, d);
    case VideoPop => VideoPopEven(w, s);
    case Decoder(a) => DecoderEven(w, s, a);
    case Render(r) => UpRender(w, s, r);
    case Callback(who, k) => UpCall(w, s, who, k);
    case _ => OtherUp(w, c, s, step);
  }

  lemma OtherUp(w: Tally, c: Config, s: State, step: Step)
    requires RenderShape(s.r) && Off(s) && Enabled(c, s, step) && (step.Complete? || step.Start? || step.Stop?)
    ensures Up(w, Apply(c, s, step)) == Up(w, s)
  {
    match step
    case Complete =>
    case Start => StartUp(w, s);
    case Stop =>
  }

  lemma StartUp(w: Tally, s: State)
    requires RenderShape(s.r) && Off(s) && (s.mpc == Stopped || s.mpc == DemuxerStarted || s.mpc == DecoderStarted)
    ensures Up(w, MStart(s)) == Up(w, s)
  {
  }

  ghost predicate GivenGone(s: State) {
    forall x :: x in s.o.given ==> x < s.m.nextId && Up(Counter(x), s) == 0
  }

  /** A buffer that is given to the player was nowhere else. */
  lemma EnqueuedGone(c: Config, s: State, who: Caller)
    requires Reachable(c, s) && GivenGone(s) && CallEnabled(s, who, CEnqueueStep)
    ensures var x, t := InCall(s.r, who).m.id, CallApply(s, who, CEnqueueStep);
      x < s.m.nextId && Up(Counter(x), t) == 0
  {
    var x := InCall(s.r, who).m.id;
    var w := Counter(x);
    assert w.one(x) == Bit(x == x);
    assert Up(w, s) >= Taken(w, InCall(s.r, who)) == 1;
    CounterAdditive(x);
    SingleOwner(c, s, x);
    assert Up(w, s) <= Places(w, s);
    UpCall(w, s, who, CEnqueueStep);
  }

  lemma GivenGoneStep(c: Config, s: State, step: Step)
    requires Reachable(c, s) && GivenGone(s) && Enabled(c, s, step)
    ensures GivenGone(Apply(c, s, step))
  {
    var t := Apply(c, s, step);
    ReachableShape(c, s);
    ThreadsOff(c, s);
    HistoriesGrow(c, s, step);
    forall x | x in t.o.given ensures x < t.m.nextId && Up(Counter(x), t) == 0 {
      if x in s.o.given {
        UpStep(c, s, step, x);
      } else {
        NewlyGiven(c, s, step, x);
        EnqueuedGone(c, s, step.who);
      }
    }
  }

  lemma NewlyGiven(c: Config, s: State, step: Step, x: nat)
    requires Enabled(c, s, step) && x in Apply(c, s, step).o.given && x !in s.o.given
    ensures step.Callback? && step.k == CEnqueueStep && InCall(s.r, step.who).m.id == x
  {
    match step
    case Demuxer(d) => DemuxerLeaves(c, s, d);
    case _ =>
  }

  lemma ReachableGivenGone(c: Config, s: State)
    requires Reachable(c, s)
    ensures GivenGone(s)
  {
    forall s, step | Reachable(c, s) && GivenGone(s) && Enabled(c, s, step) ensures GivenGone(Apply(c, s, step)) {
      GivenGoneStep(c, s, step);
    }
    Induction(c, s => GivenGone(s));
  }

  // ---- what holds whether or not completions overlap

  predicate Distinct(ids: seq<nat>) {
    forall j, k :: 0 <= j < k < |ids| ==> ids[j] != ids[k]
  }

  lemma PlacesSplit(s: State, x: nat)
    ensures PlacesOf(s, x) >= Held(Counter(x), s) + Count(s.m.released, x) + Count(s.m.leaked, x)
                              + Count(Ids(s.m.videoTaken), x)
  {
  }

  /** In every configuration: a payload is held at most once, in a queue, in a thread's hands, in the codec or by
  a call that has not enqueued it yet; and while it is, it is neither released nor forgotten nor with the video
  decoder. */
  lemma HeldOnce(c: Config, s: State, x: nat)
    requires Reachable(c, s)
    ensures Held(Counter(x), s) <= 1
    ensures Held(Counter(x), s) == 1 ==>
              x < s.m.nextId && x !in s.m.released && x !in s.m.leaked && x !in Ids(s.m.videoTaken)
  {
    ReachableGivenGone(c, s);
    if x !in s.o.given {
      SingleOwner(c, s, x);
      PlacesSplit(s, x);
      CountIn(s.m.released, x);
      CountIn(s.m.leaked, x);
      CountIn(Ids(s.m.videoTaken), x);
    }
  }

  lemma HeldCounts(s: State, x: nat)
    ensures Held(Counter(x), s) >= Count(Ids(s.d.videoQ), x) + Count(Ids(s.d.audioQ), x) + Count(Ids(s.a.outQ), x)
  {
  }

  lemma NotReleasedTwice(c: Config, s: State, x: nat)
    requires Reachable(c, s)
    ensures Count(s.m.released, x) >= 2 ==> !c.serial && x in s.o.given
  {
    if c.serial || x !in s.o.given {
      SingleOwner(c, s, x);
      PlacesSplit(s, x);
    }
  }

  // ---- what is forgotten

  /** The payload that a step forgets: a packet of another stream, or one that meets no codec. */
  function Forgets(s: State, step: Step): seq<nat> {
    if step == Demuxer(DPushStep) && s.d.pc.DPush? && s.d.pc.m.kind != AudioPkt && s.d.pc.m.kind != VideoPkt
    then [s.d.pc.m.id]
    else if step == Decoder(AHandleStep) && s.a.pc.AGot? && s.a.pc.m.kind != AudioCodecConfig && s.a.codec == None
    then [s.a.pc.m.id]
    else []
  }

  function AllForgotten(c: Config, s: State, steps: seq<Step>): seq<nat>
    requires Valid(c, s, steps)
    decreases |steps|
  {
    if steps == [] then [] else Forgets(s, steps[0]) + AllForgotten(c, Apply(c, s, steps[0]), steps[1..])
  }

  lemma StepForgets(c: Config, s: State, step: Step)
    requires Enabled(c, s, step)
    ensures Apply(c, s, step).m.leaked == s.m.leaked + Forgets(s, step)
  {
    match step
    case Demuxer(d) => DemuxerForgets(c, s, d);
    case Decoder(a) =>
    case Render(r) => RenderLeaves(s, r);
    case Callback(who, k) => CallLeaves(s, who, k);
    case _ =>
  }

  lemma DemuxerForgets(c: Config, s: State, step: DemuxerStep)
    requires DemuxerEnabled(s, step)
    ensures DemuxerApply(c, s, step).m.leaked == s.m.leaked + Forgets(s, Demuxer(step))
  {
  }

  lemma IdsAssociate(a: seq<nat>, b: seq<nat>, c: seq<nat>)
    ensures (a + b) + c == a + (b + c)
  {
  }

  /** Over a run exactly the packets of other streams and the packets that met no codec are forgotten; so everything
  else that has left the queues and the threads' hands has been released. */
  lemma {:induction false} ForgottenExactly(c: Config, s: State, steps: seq<Step>)
    requires Valid(c, s, steps)
    ensures After(c, s, steps).m.leaked == s.m.leaked + AllForgotten(c, s, steps)
    decreases |steps|
  {
    if steps == [] {
      assert s.m.leaked + [] == s.m.leaked;
    } else {
      var t := Apply(c, s, steps[0]);
      StepForgets(c, s, steps[0]);
      ForgottenExactly(c, t, steps[1..]);
      IdsAssociate(s.m.leaked, Forgets(s, steps[0]), AllForgotten(c, t, steps[1..]));
    }
  }
}
