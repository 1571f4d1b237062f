/** What CVideoSource::read meets in front of the video queue, and what that does to the mutexes. */
module PlayerVideoSource {
  import opened Media
  import opened Player
  import opened PlayerControl
  import opened PlayerRuns
  import opened NativeVideo
  import LockOrder

  // ---- without a loop and before a flush: packets only

  predicate OnlyPackets(q: Queue) {
    forall k :: 0 <= k < |q| ==> q[k].kind == VideoPkt
  }

  /** The config of the first opening is the only one, and it is in front. */
  predicate OneConfig(s: State) {
    || s.i.flushed
    || (&& !s.d.resend && !s.d.pc.DOpenVideo? && !s.d.pc.DOpenAudio? && !s.d.pc.DFlushAudio?
        && (s.d.videoQ != [] ==> OnlyPackets(s.d.videoQ[1..]))
        && (s.m.videoTaken != [] ==> OnlyPackets(s.d.videoQ)))
  }

  lemma OneConfigPush(q: Queue, m: Message)
    requires m.kind == VideoPkt
    ensures OnlyPackets(q) ==> OnlyPackets(q + [m])
    ensures (q != [] ==> OnlyPackets(q[1..])) ==> OnlyPackets((q + [m])[1..])
  {
    if q == [] {
      assert (q + [m])[1..] == [];
    } else {
      assert (q + [m])[1..] == q[1..] + [m];
    }
  }

  lemma OneConfigGate(c: Config, s: State)
    requires OneConfig(s) && s.d.pc == DGate
    ensures OneConfig(DGateDo(c, s))
  {
    var q := s.d.videoQ;
    if q != [] && WithoutNewest(q) != [] {
      assert WithoutNewest(q)[1..] == q[1..][..|q| - 2];
    }
  }

  lemma OneConfigDemuxer(c: Config, s: State, step: DemuxerStep)
    requires !c.loop && OneConfig(s) && DemuxKinds(s.d) && DemuxerEnabled(s, step)
    ensures OneConfig(DemuxerApply(c, s, step))
  {
    match step
    case DGateStep => OneConfigGate(c, s);
    case DPushStep =>
      if s.d.pc.m.kind == VideoPkt {
        OneConfigPush(s.d.videoQ, s.d.pc.m);
      }
    case _ =>
  }

  lemma OneConfigStep(c: Config, s: State, step: Step)
    requires !c.loop && OneConfig(s) && DemuxKinds(s.d) && Enabled(c, s, step)
    ensures OneConfig(Apply(c, s, step))
  {
    match step
    case Demuxer(d) => OneConfigDemuxer(c, s, d);
    case VideoPop =>
    case Decoder(_) =>
    case Render(_) =>
    case Callback(_, _) =>
    case _ =>
  }

  /** Outside a loop and before any flush, once the first config has been taken, the front of the video queue is
  always a packet. */
  lemma SourceMeetsPackets(c: Config, s: State)
    requires Reachable(c, s) && !c.loop && !s.i.flushed && s.m.videoTaken != []
    ensures FrontOf(s.d.videoQ) != LockOrder.Other
  {
    forall s, step | Reachable(c, s) && OneConfig(s) && Enabled(c, s, step) ensures OneConfig(Apply(c, s, step)) {
      ReachableShape(c, s);
      OneConfigStep(c, s, step);
    }
    Induction(c, s => OneConfig(s));
  }

  // ---- in a loop or after a restart: a config

  /** The video decoder may be asking its source for more: what was taken last is a packet. */
  predicate Reading(m: Memory) {
    m.videoTaken != [] && m.videoTaken[|m.videoTaken| - 1].kind == VideoPkt
  }

  predicate Empty(d: Demux) {
    d.pc == DTop && !d.cancel && d.hasVideo && d.videoQ == [] && d.audioQ == []
  }

  /** With empty queues the gate lets the demuxer read, whatever the limit. */
  lemma GateOpens(c: Config, s0: State) returns (s: State)
    requires Reachable(c, s0) && Empty(s0.d)
    ensures Reachable(c, s) && s.d == s0.d.(pc := DRead) && s.m.videoTaken == s0.m.videoTaken && s.i == s0.i
  {
    s := Take(c, s0, Demuxer(DCheckStep));
    s := Take(c, s, Demuxer(DGateStep));
  }

  lemma FirstPacket(c: Config) returns (s: State)
    ensures Reachable(c, s) && Empty(s.d) && Reading(s.m) && !s.i.flushed
  {
    ReachableInit(c, true, false);
    s := Take(c, Init(true, false), Start);
    s := Take(c, s, VideoPop);
    s := GateOpens(c, s);
    s := Take(c, s, Demuxer(DReadStep(Video)));
    s := Take(c, s, Demuxer(DPushStep));
    s := Take(c, s, VideoPop);
  }

  lemma LoopMeetsConfig(c: Config) returns (s: State)
    requires c.loop
    ensures Reachable(c, s) && !s.i.flushed && Reading(s.m) && FrontOf(s.d.videoQ) == LockOrder.Other
  {
    s := FirstPacket(c);
    s := GateOpens(c, s);
    s := Take(c, s, Demuxer(DEofStep(true, false)));
    s := Take(c, s, Demuxer(DConfigVideoStep));
  }

  /** With the resend flag set, a packet that has been read puts a config in front of it. */
  lemma ConfigResent(c: Config, s0: State) returns (s: State)
    requires Reachable(c, s0) && s0.d.pc == DRead && s0.d.resend && s0.d.hasVideo && s0.d.videoQ == []
    ensures Reachable(c, s) && s.d == s0.d.(pc := s.d.pc, videoQ := s.d.videoQ) && s.m.videoTaken == s0.m.videoTaken
    ensures s.d.pc.DResendAudio? && s.d.pc.m.kind == VideoPkt
    ensures |s.d.videoQ| == 1 && s.d.videoQ[0].kind == VideoCodecConfig
  {
    s := Take(c, s0, Demuxer(DReadStep(Video)));
    s := Take(c, s, Demuxer(DConfigVideoStep));
  }

  lemma PacketTaken(c: Config) returns (s: State)
    ensures Reachable(c, s) && Empty(s.d) && s.d.resend && Reading(s.m)
  {
    s := Restarted(c, false);
    s := GateOpens(c, s);
    s := ConfigResent(c, s);
    s := Take(c, s, Demuxer(DConfigAudioStep));
    s := Take(c, s, Demuxer(DPushStep));
    s := Take(c, s, VideoPop);
    s := Take(c, s, VideoPop);
  }

  lemma RestartMeetsConfig(c: Config) returns (s: State)
    ensures Reachable(c, s) && Reading(s.m) && FrontOf(s.d.videoQ) == LockOrder.Other
  {
    s := PacketTaken(c);
    s := GateOpens(c, s);
    s := ConfigResent(c, s);
  }

  // ---- the mutexes

  /** The source meets front in a run with that config, without any flush unless restarts are allowed. */
  ghost predicate Meets(c: Config, restarts: bool, front: LockOrder.Front) {
    exists s :: Reachable(c, s) && (restarts || !s.i.flushed) && Reading(s.m) && FrontOf(s.d.videoQ) == front
  }

  /** The same, for any look at the queue after the first config was taken. */
  ghost predicate CouldMeet(c: Config, restarts: bool, front: LockOrder.Front) {
    exists s ::
      Reachable(c, s) && (restarts || !s.i.flushed) && s.m.videoTaken != [] && FrontOf(s.d.videoQ) == front
  }

  /** Let fronts hold what the source meets, and nothing that it could not meet. Then the mutexes never deadlock
  exactly if the file is not played in a loop and the player is never restarted. */
  lemma SourceDeadlockFreeIff(c: Config, restarts: bool, fronts: set<LockOrder.Front>)
    requires forall front :: Meets(c, restarts, front) ==> front in fronts
    requires forall front :: front in fronts ==> CouldMeet(c, restarts, front)
    ensures (forall s :: LockOrder.Reachable(fronts, s) ==> !LockOrder.Deadlocked(s)) <==> !c.loop && !restarts
  {
    LockOrder.DeadlockFreeIff(fronts);
    if c.loop {
      var s := LoopMeetsConfig(c);
      assert Meets(c, restarts, LockOrder.Other);
    } else if restarts {
      var s := RestartMeetsConfig(c);
      assert Meets(c, restarts, LockOrder.Other);
    } else if LockOrder.Other in fronts {
      var s :| Reachable(c, s) && !s.i.flushed && s.m.videoTaken != [] && FrontOf(s.d.videoQ) == LockOrder.Other;
      SourceMeetsPackets(c, s);
      assert false;
    }
  }
}
