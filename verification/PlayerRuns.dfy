/** Building blocks for concrete runs. */
module PlayerRuns {
  import opened Octets
  import opened Media
  import opened Player

  lemma Take(c: Config, s: State, step: Step) returns (t: State)
    requires Reachable(c, s) && Enabled(c, s, step)
    ensures t == Apply(c, s, step) && Reachable(c, t)
  {
    ReachableStep(c, s, step);
    t := Apply(c, s, step);
  }

  /** With the demuxer gone, the decoder thread leaves its loop and clears itself. */
  lemma StopDecoder(c: Config, s0: State) returns (s: State)
    requires Reachable(c, s0) && s0.mpc == StoppingDecoder && s0.a.pc == ATop && s0.a.cancel
    ensures Reachable(c, s) && s.d == s0.d && s.r == s0.r.(cancel := true) && s.mpc == StoppingRender
    ensures s.a.codec == None && s.a.outQ == []
  {
    s := Take(c, s0, Decoder(ACheckStep));
    s := Take(c, s, Decoder(AClearStep));
    s := Take(c, s, Decoder(AFlushStep));
    s := Take(c, s, Stop);
  }

  /** Then the render thread leaves, and the demuxer can be started again. */
  lemma StopRender(c: Config, s0: State) returns (s: State)
    requires Reachable(c, s0) && s0.mpc == StoppingRender && s0.r.pc == RTop && s0.r.cancel && s0.r.fromPlayer == CIdle
    ensures Reachable(c, s) && s.d == s0.d && s.a == s0.a && s.mpc == Stopped
  {
    s := Take(c, s0, Render(RCheckStep));
    s := Take(c, s, Render(RDestroyStep));
    s := Take(c, s, Render(RDeleteStep));
    s := Take(c, s, Stop);
  }

  /** All threads started, and the demuxer stopped again. */
  lemma StartStop(c: Config, audio: bool) returns (s: State)
    ensures Reachable(c, s) && s.mpc == StoppingDecoder && s.a.pc == ATop && s.a.cancel && s.r.pc == RTop
    ensures s.d.pc == DOff && s.d.resend && s.d.hasVideo && s.d.hasAudio == audio && s.r.fromPlayer == CIdle
    ensures s.d.videoQ == [] && s.d.audioQ == []
  {
    ReachableInit(c, true, audio);
    s := Take(c, Init(true, audio), Start);
    s := Take(c, s, Start);
    s := Take(c, s, Start);
    s := Take(c, s, Stop);
    s := Take(c, s, Demuxer(DCheckStep));
    s := Take(c, s, Demuxer(DFlushVideoStep));
    s := Take(c, s, Demuxer(DFlushAudioStep));
    s := Take(c, s, Stop);
  }

  /** Stopped and started again: the demuxer sends its configs with every packet. */
  lemma Restarted(c: Config, audio: bool) returns (s: State)
    ensures Reachable(c, s) && s.d.pc == DTop && s.d.resend && !s.d.cancel
    ensures s.d.hasVideo && s.d.hasAudio == audio && s.d.videoQ == [] && s.d.audioQ == []
  {
    s := StartStop(c, audio);
    s := StopDecoder(c, s);
    s := StopRender(c, s);
    s := Take(c, s, Start);
  }

  /** Everything runs, the demuxer's queues are empty and the decoder is configured. */
  predicate Flowing(s: State) {
    && s.mpc == Playing && s.d.pc == DTop && !s.d.cancel && !s.d.resend && s.d.hasAudio
    && s.d.videoQ == [] && s.d.audioQ == []
    && s.a.pc == ATop && !s.a.cancel && s.a.codec.Some? && !s.o.harmed
  }

  lemma FlowStarts(c: Config) returns (s: State)
    ensures Reachable(c, s) && Flowing(s) && |s.a.outQ| == 1 && s.a.outQ[0].kind == AudioRenderConfig
    ensures s.r == Output(RTop, CIdle, CIdle, false, false, None, None, false)
  {
    ReachableInit(c, false, true);
    s := Take(c, Init(false, true), Start);
    s := Take(c, s, Start);
    s := Take(c, s, Start);
    s := Take(c, s, Decoder(ACheckStep));
    s := Take(c, s, Decoder(APopStep));
    s := Take(c, s, Decoder(AHandleStep));
    s := Take(c, s, Decoder(APushStep));
  }
}
