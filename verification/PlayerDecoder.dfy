/** Whether the audio decoder is configured when a packet reaches it. */
module PlayerDecoder {
  import opened Octets
  import opened Media
  import opened Player
  import opened PlayerControl
  import opened PlayerRuns
  import opened PlayerConfigs

  /** Once started, the demuxer is off only with an empty audio queue and the resend flag set, or after the end
  of the file. */
  predicate LeftClean(mpc: MainPc, d: Demux) {
    mpc != Stopped && d.pc == DOff ==> d.eof || (d.audioQ == [] && d.resend)
  }

  lemma LeftCleanDemuxer(c: Config, s: State, step: DemuxerStep)
    requires LeftClean(s.mpc, s.d) && DemuxerEnabled(s, step)
    ensures var t := DemuxerApply(c, s, step); LeftClean(t.mpc, t.d)
  {
  }

  lemma LeftCleanStep(c: Config, s: State, step: Step)
    requires LeftClean(s.mpc, s.d) && Off(s) && Enabled(c, s, step)
    ensures var t := Apply(c, s, step); LeftClean(t.mpc, t.d)
  {
    match step
    case Demuxer(d) => LeftCleanDemuxer(c, s, d);
    case Decoder(_) =>
    case _ =>
  }

  lemma ReachableLeftClean(c: Config, s: State)
    requires Reachable(c, s)
    ensures LeftClean(s.mpc, s.d)
  {
    forall s, step | Reachable(c, s) && LeftClean(s.mpc, s.d) && Enabled(c, s, step)
      ensures var t := Apply(c, s, step); LeftClean(t.mpc, t.d)
    {
      ThreadsOff(c, s);
      LeftCleanStep(c, s, step);
    }
    Induction(c, (s: State) => LeftClean(s.mpc, s.d));
  }

  /** A decoder without a codec will next meet a config. */
  predicate ConfigNext(d: Demux, a: Decode) {
    a.codec == None ==>
      if a.pc.AGot? then a.pc.m.kind == AudioCodecConfig
      else if d.audioQ != [] then d.audioQ[0].kind == AudioCodecConfig
      else !d.hasAudio || AudioConfigDue(d)
  }

  lemma ConfigNextDemuxer(c: Config, s: State, step: DemuxerStep)
    requires !c.skip && ConfigNext(s.d, s.a) && DemuxKinds(s.d) && DemuxerEnabled(s, step)
    ensures var t := DemuxerApply(c, s, step); ConfigNext(t.d, t.a)
  {
  }

  lemma ConfigNextDecoder(s: State, step: DecoderStep)
    requires ConfigNext(s.d, s.a) && DecodeKinds(s.a) && DecoderEnabled(s, step)
    requires s.a.pc == AClear ==> s.d.pc == DOff && (s.d.eof || (s.d.audioQ == [] && s.d.resend))
    ensures var t := DecoderApply(s, step); t.o.clearedAtEof || ConfigNext(t.d, t.a)
  {
  }

  predicate Ready(s: State) {
    s.o.clearedAtEof || ConfigNext(s.d, s.a)
  }

  lemma ReadyStep(c: Config, s: State, step: Step)
    requires !c.skip && Ready(s) && Off(s) && Shape(s) && LeftClean(s.mpc, s.d) && Enabled(c, s, step)
    ensures Ready(Apply(c, s, step))
  {
    if s.o.clearedAtEof {
      ClearedAtEofStays(c, s, step);
    } else {
      match step
      case Demuxer(d) => ConfigNextDemuxer(c, s, d);
      case Decoder(a) => ConfigNextDecoder(s, a);
      case Render(r) => RenderLeaves(s, r);
      case Callback(who, k) => CallLeaves(s, who, k);
      case _ =>
    }
  }

  lemma ClearedAtEofStays(c: Config, s: State, step: Step)
    requires s.o.clearedAtEof && Enabled(c, s, step)
    ensures Apply(c, s, step).o.clearedAtEof
  {
  }

  /** In wait mode a packet reaches an unconfigured decoder only if the decoder was once stopped after the
  demuxer had left at the end of the file. */
  lemma DecoderConfigured(c: Config, s: State)
    requires Reachable(c, s) && !c.skip && !s.o.clearedAtEof
    ensures ConfigNext(s.d, s.a)
    ensures s.a.pc.AGot? && s.a.pc.m.kind == AudioPkt ==> s.a.codec.Some?
  {
    forall s, step | Reachable(c, s) && Ready(s) && Enabled(c, s, step) ensures Ready(Apply(c, s, step)) {
      ThreadsOff(c, s);
      ReachableShape(c, s);
      ReachableLeftClean(c, s);
      ReadyStep(c, s, step);
    }
    Induction(c, s => Ready(s));
  }

  predicate NoEof(s: State) {
    !s.d.eof && !s.o.clearedAtEof
  }

  lemma NoEofStep(c: Config, s: State, step: Step)
    requires c.loop && NoEof(s) && Enabled(c, s, step)
    ensures NoEof(Apply(c, s, step))
  {
    match step
    case Demuxer(d) => assert !DemuxerApply(c, s, d).d.eof;
    case _ =>
  }

  /** In a loop the demuxer never leaves at the end of the file. */
  lemma LoopNeverAtEof(c: Config, s: State)
    requires Reachable(c, s) && c.loop
    ensures !s.d.eof && !s.o.clearedAtEof
  {
    forall s, step | NoEof(s) && Enabled(c, s, step) ensures NoEof(Apply(c, s, step)) {
      NoEofStep(c, s, step);
    }
    Induction(c, s => NoEof(s));
  }

  // ---- a restart after the end of the file

  lemma LeftAtEof(c: Config) returns (s: State)
    requires !c.skip && !c.loop
    ensures Reachable(c, s) && s.d.pc == DOff && s.d.audioQ == [] && s.d.videoQ == [] && !s.d.resend && s.d.hasAudio
    ensures s.mpc == Playing && s.a.pc == ATop && s.r.pc == RTop && s.r.fromPlayer == CIdle
  {
    s := FlowStarts(c);
    s := Take(c, s, Demuxer(DCheckStep));
    s := Take(c, s, Demuxer(DGateStep));
    s := Take(c, s, Demuxer(DEofStep(false, false)));
  }

  lemma RestartedAfterEof(c: Config, s0: State) returns (s: State)
    requires Reachable(c, s0) && s0.d.pc == DOff && s0.mpc == Playing
    requires s0.a.pc == ATop && s0.r.pc == RTop && s0.r.fromPlayer == CIdle
    ensures Reachable(c, s) && s.d == s0.d.(pc := DTop, cancel := false) && s.a.pc == ATop && s.a.codec == None
    ensures !s.a.cancel
  {
    s := Take(c, s0, Stop);
    s := Take(c, s, Stop);
    s := StopDecoder(c, s);
    s := StopRender(c, s);
    s := Take(c, s, Start);
    s := Take(c, s, Start);
  }

  predicate Unconfigured(a: Decode) {
    a.pc.AGot? && a.pc.m.kind == AudioPkt && a.codec == None
  }

  /** A read fails, the player is stopped and started, and a packet that is read afterwards meets a decoder
  without a codec: nobody has sent a config since. */
  lemma PacketMeetsNoCodec(c: Config) returns (s: State)
    requires !c.skip && !c.loop
    ensures Reachable(c, s) && Unconfigured(s.a)
  {
    s := LeftAtEof(c);
    s := RestartedAfterEof(c, s);
    s := Take(c, s, Demuxer(DCheckStep));
    s := Take(c, s, Demuxer(DGateStep));
    s := Take(c, s, Demuxer(DReadStep(Audio)));
    s := Take(c, s, Demuxer(DPushStep));
    s := Take(c, s, Decoder(ACheckStep));
    s := Take(c, s, Decoder(APopStep));
  }

  /** In wait mode every packet meets a configured decoder exactly if the file is played in a loop. */
  lemma DecoderConfiguredIff(c: Config)
    requires !c.skip
    ensures (forall s :: Reachable(c, s) ==> !Unconfigured(s.a)) <==> c.loop
  {
    if c.loop {
      forall s | Reachable(c, s) ensures !Unconfigured(s.a) {
        LoopNeverAtEof(c, s);
        DecoderConfigured(c, s);
      }
    } else {
      var s := PacketMeetsNoCodec(c);
    }
  }
}
