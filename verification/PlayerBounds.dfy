/** How many messages the demuxer can have waiting. */
module PlayerBounds {
  import opened Media
  import opened Player
  import opened PlayerControl
  import opened PlayerRuns

  function VideoCap(n: nat, pc: DemuxerPc, resend: bool): nat {
    match pc
    case DRead => n
    case DOpenVideo => n
    case DResendVideo(_) => n
    case DOpenAudio => n + 1
    case DResendAudio(_) => n + 1
    case DPush(_) => if resend then n + 1 else n
    case _ => if resend then n + 2 else n + 1
  }

  function AudioCap(n: nat, pc: DemuxerPc, resend: bool): nat {
    match pc
    case DRead => n
    case DOpenVideo => n
    case DResendVideo(_) => n
    case DOpenAudio => n
    case DResendAudio(_) => n
    case DPush(_) => if resend then n + 1 else n
    case _ => if resend then n + 2 else n + 1
  }

  /** In skip mode nothing is claimed while configs are sent with every packet, nor after a reopening in that
  time. */
  predicate Bounded(c: Config, s: State) {
    || (c.skip && s.i.reopened)
    || (c.skip && s.d.resend && !s.d.pc.DOpenVideo? && !s.d.pc.DOpenAudio?)
    || (&& |s.d.videoQ| <= VideoCap(c.size, s.d.pc, s.d.resend)
        && |s.d.audioQ| <= AudioCap(c.size, s.d.pc, s.d.resend))
  }

  lemma BoundedSame(c: Config, s: State, t: State)
    requires Bounded(c, s) && DemuxerRests(s, t)
    ensures Bounded(c, t)
  {
  }

  lemma BoundedGate(c: Config, s: State)
    requires Bounded(c, s) && s.d.pc == DGate
    ensures Bounded(c, DGateDo(c, s))
  {
  }

  lemma BoundedConfig(c: Config, s: State, step: DemuxerStep)
    requires Bounded(c, s) && DemuxKinds(s.d) && DemuxerEnabled(s, step)
    requires step.DConfigVideoStep? || step.DConfigAudioStep?
    ensures Bounded(c, DemuxerApply(c, s, step))
  {
  }

  lemma BoundedDemuxer(c: Config, s: State, step: DemuxerStep)
    requires Bounded(c, s) && DemuxKinds(s.d) && DemuxerEnabled(s, step)
    ensures Bounded(c, DemuxerApply(c, s, step))
  {
    match step
    case DGateStep => BoundedGate(c, s);
    case DConfigVideoStep => BoundedConfig(c, s, step);
    case DConfigAudioStep => BoundedConfig(c, s, step);
    case _ =>
  }

  lemma BoundedMain(c: Config, s: State)
    requires Bounded(c, s)
    ensures s.mpc == Stopped && s.d.pc == DOff ==> Bounded(c, MStart(s))
    ensures s.mpc != Stopped ==> Bounded(c, MStart(s))
    ensures Bounded(c, MStop(s))
  {
  }

  lemma BoundedStep(c: Config, s: State, step: Step)
    requires Bounded(c, s) && DemuxKinds(s.d) && Off(s) && Enabled(c, s, step)
    ensures Bounded(c, Apply(c, s, step))
  {
    match step
    case Demuxer(d) => BoundedDemuxer(c, s, d);
    case Start => BoundedMain(c, s);
    case Stop => BoundedMain(c, s);
    case _ =>
      OthersRest(c, s, step);
      BoundedSame(c, s, Apply(c, s, step));
  }

  lemma ReachableBounded(c: Config, s: State)
    requires Reachable(c, s)
    ensures Bounded(c, s)
  {
    forall s, step | Reachable(c, s) && Bounded(c, s) && Enabled(c, s, step) ensures Bounded(c, Apply(c, s, step)) {
      ThreadsOff(c, s);
      ReachableShape(c, s);
      BoundedStep(c, s, step);
    }
    Induction(c, s => Bounded(c, s));
  }

  /** Configs are resent, and the file reopened at that time, only after a flush and in a loop. */
  predicate ResendMarked(c: Config, s: State) {
    && (s.d.resend || s.d.pc.DFlushAudio? || s.i.reopened ==> s.i.flushed)
    && (s.i.reopened ==> c.loop)
  }

  lemma ResendMarkedDemuxer(c: Config, s: State, step: DemuxerStep)
    requires ResendMarked(c, s) && DemuxerEnabled(s, step)
    ensures ResendMarked(c, DemuxerApply(c, s, step))
  {
  }

  lemma ResendMarkedStep(c: Config, s: State, step: Step)
    requires ResendMarked(c, s) && Enabled(c, s, step)
    ensures ResendMarked(c, Apply(c, s, step))
  {
    match step
    case Demuxer(d) => ResendMarkedDemuxer(c, s, d);
    case Start =>
    case Stop =>
    case _ => OthersRest(c, s, step);
  }

  lemma ReachableResendMarked(c: Config, s: State)
    requires Reachable(c, s)
    ensures ResendMarked(c, s)
  {
    forall s, step | ResendMarked(c, s) && Enabled(c, s, step) ensures ResendMarked(c, Apply(c, s, step)) {
      ResendMarkedStep(c, s, step);
    }
    Induction(c, s => ResendMarked(c, s));
  }

  predicate Within(d: Demux, n: nat) {
    |d.videoQ| <= n && |d.audioQ| <= n
  }

  lemma WaitModeBounded(c: Config, s: State)
    requires Reachable(c, s) && !c.skip
    ensures Within(s.d, c.size + 2) && (!s.d.resend ==> Within(s.d, c.size + 1))
  {
    ReachableBounded(c, s);
  }

  /** In every mode, up to the first flush, the queues hold at most one message over the limit. */
  lemma BoundedBeforeFlush(c: Config, s: State)
    requires Reachable(c, s) && !s.i.flushed
    ensures Within(s.d, c.size + 1)
  {
    ReachableBounded(c, s);
    ReachableResendMarked(c, s);
  }

  /** In every mode, while the resend flag is clear, more than that can be waiting only if in skip mode the file
  was once opened again while configs were sent with every packet. */
  lemma BoundBrokenOnlyByReopening(c: Config, s: State)
    requires Reachable(c, s) && !s.d.resend && !Within(s.d, c.size + 1)
    ensures c.skip && c.loop && s.i.reopened && s.i.flushed
  {
    ReachableBounded(c, s);
    ReachableResendMarked(c, s);
  }

  // ---- skip mode with a loop: no bound

  /** Started, stopped and started again: the demuxer sends its configs with every packet. */
  predicate Resending(d: Demux) {
    d.pc == DTop && d.resend && !d.cancel && d.hasVideo && d.hasAudio
  }

  lemma PassedGate(c: Config, s: State) returns (t: State)
    requires Reachable(c, s) && Resending(s.d) && c.skip
    ensures Reachable(c, t) && t.d == s.d.(videoQ := t.d.videoQ, audioQ := t.d.audioQ, pc := DRead)
    ensures |t.d.audioQ| >= |s.d.audioQ| - 1
  {
    t := Take(c, s, Demuxer(DCheckStep));
    t := Take(c, t, Demuxer(DGateStep));
  }

  /** One turn drops at most one audio message and adds two. */
  lemma Turn(c: Config, s: State) returns (t: State)
    requires Reachable(c, s) && Resending(s.d) && c.skip
    ensures Reachable(c, t) && Resending(t.d) && |t.d.audioQ| > |s.d.audioQ|
  {
    t := PassedGate(c, s);
    t := Take(c, t, Demuxer(DReadStep(Audio)));
    t := Take(c, t, Demuxer(DConfigVideoStep));
    t := Take(c, t, Demuxer(DConfigAudioStep));
    t := Take(c, t, Demuxer(DPushStep));
  }

  lemma {:induction false} Turns(c: Config, k: nat) returns (s: State)
    requires c.skip
    ensures Reachable(c, s) && Resending(s.d) && |s.d.audioQ| >= k
    decreases k
  {
    if k == 0 {
      s := Restarted(c, true);
    } else {
      s := Turns(c, k - 1);
      s := Turn(c, s);
    }
  }

  /** In skip mode with a loop, a restart lets the audio queue outgrow every bound, and reopening the file then
  clears the resend flag. */
  lemma SkipLoopUnbounded(c: Config, k: nat) returns (s: State)
    requires c.skip && c.loop
    ensures Reachable(c, s) && !s.d.resend && s.i.reopened && |s.d.audioQ| > k
  {
    s := Turns(c, k + 1);
    s := PassedGate(c, s);
    s := Take(c, s, Demuxer(DEofStep(true, true)));
    s := Take(c, s, Demuxer(DConfigVideoStep));
    s := Take(c, s, Demuxer(DConfigAudioStep));
  }

  /** While the resend flag is clear the queues hold at most one message over the limit, except in skip mode
  with a loop. */
  lemma BoundIff(c: Config)
    ensures (forall s :: Reachable(c, s) && !s.d.resend ==> Within(s.d, c.size + 1)) <==> !(c.skip && c.loop)
  {
    if c.skip && c.loop {
      var s := SkipLoopUnbounded(c, c.size + 1);
      assert !Within(s.d, c.size + 1);
    } else {
      forall s | Reachable(c, s) && !s.d.resend ensures Within(s.d, c.size + 1) {
        if !Within(s.d, c.size + 1) {
          BoundBrokenOnlyByReopening(c, s);
          assert false;
        }
      }
    }
  }
}
