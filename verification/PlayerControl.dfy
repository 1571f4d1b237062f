/** Where the threads can be together, and which kinds of messages are where. */
module PlayerControl {
  import opened Octets
  import opened Media
  import opened Player

  // ---- which threads can be running

  predicate Off(s: State) {
    && (s.mpc.Stopped? || s.mpc.StoppingDecoder? || s.mpc.StoppingRender? ==> s.d.pc == DOff)
    && (s.mpc.Stopped? || s.mpc.DemuxerStarted? || s.mpc.StoppingRender? ==> s.a.pc == AOff)
    && (s.mpc.Stopped? || s.mpc.DemuxerStarted? || s.mpc.DecoderStarted? ==> s.r.pc == ROff)
    && (s.a.pc == AClear || s.a.pc == AFlush ==> s.a.cancel)
    && (s.a.cancel ==> s.mpc.StoppingDecoder? || s.mpc.StoppingRender? || s.mpc.Stopped? || s.mpc.DemuxerStarted?)
  }

  lemma OffMain(s: State)
    requires Off(s)
    ensures s.mpc == Stopped || s.mpc == DemuxerStarted || s.mpc == DecoderStarted ==> Off(MStart(s))
    ensures StopEnabled(s) ==> Off(MStop(s))
  {
  }

  lemma OffThreads(c: Config, s: State, step: Step)
    requires Off(s) && Enabled(c, s, step) && (step.Demuxer? || step.Decoder? || step.Render?)
    ensures Off(Apply(c, s, step))
  {
    match step
    case Demuxer(d) =>
    case Decoder(a) =>
    case Render(r) =>
  }

  lemma OffStep(c: Config, s: State, step: Step)
    requires Off(s) && Enabled(c, s, step)
    ensures Off(Apply(c, s, step))
  {
    match step
    case VideoPop =>
    case Callback(_, _) =>
    case Complete =>
    case Start => OffMain(s);
    case Stop => OffMain(s);
    case _ => OffThreads(c, s, step);
  }

  /** The threads run only while the player has started them; when the decoder clears its codec the demuxer
  has left its loop. */
  lemma ThreadsOff(c: Config, s: State)
    requires Reachable(c, s)
    ensures Off(s)
    ensures s.a.pc == AClear || s.a.pc == AFlush ==> s.d.pc == DOff
  {
    forall s, step | Off(s) && Enabled(c, s, step) ensures Off(Apply(c, s, step)) {
      OffStep(c, s, step);
    }
    Induction(c, s => Off(s));
  }

  // ---- what a thread leaves alone

  lemma DemuxerLeaves(c: Config, s: State, step: DemuxerStep)
    requires DemuxerEnabled(s, step)
    ensures var t := DemuxerApply(c, s, step);
      && t.a == s.a && t.r == s.r && t.o == s.o && t.mpc == s.mpc
      && t.m.videoTaken == s.m.videoTaken && t.i.taken == s.i.taken
      && s.m.released <= t.m.released && s.m.nextId <= t.m.nextId <= s.m.nextId + 1
  {
  }

  lemma DecoderLeaves(s: State, step: DecoderStep)
    requires DecoderEnabled(s, step)
    ensures var t := DecoderApply(s, step);
      && t.r == s.r && t.mpc == s.mpc && t.m.videoTaken == s.m.videoTaken
      && t.o.given == s.o.given && t.o.stale == s.o.stale && t.o.harmed == s.o.harmed
      && s.m.released <= t.m.released && s.m.nextId <= t.m.nextId <= s.m.nextId + 1
  {
  }

  lemma DecoderTakes(s: State, step: DecoderStep)
    requires DecoderEnabled(s, step)
    ensures var t := DecoderApply(s, step);
      && t.d == s.d.(audioQ := t.d.audioQ) && t.i == s.i.(poppedAudio := t.i.poppedAudio, taken := t.i.taken)
      && t.d.audioQ == if step.APopStep? && s.d.audioQ != [] then s.d.audioQ[1..] else s.d.audioQ
  {
  }

  lemma RenderLeaves(s: State, step: RenderStep)
    requires RenderEnabled(s, step)
    ensures var t := RenderApply(s, step);
      && t.d == s.d && t.i == s.i && t.mpc == s.mpc && t.a == s.a.(outQ := t.a.outQ)
      && t.o == s.o.(popped := t.o.popped, byRender := t.o.byRender) && t.m == s.m.(released := t.m.released)
      && s.m.released <= t.m.released
      && (!step.RPeekStep? ==> t.a == s.a && t.o == s.o)
  {
  }

  lemma CallLeaves(s: State, who: Caller, step: CallStep)
    requires CallEnabled(s, who, step)
    ensures var t := CallApply(s, who, step);
      && t.d == s.d && t.i == s.i && t.mpc == s.mpc && t.a == s.a.(outQ := t.a.outQ)
      && t.m == s.m.(released := t.m.released) && s.m.released <= t.m.released
      && t.o.cleared == s.o.cleared && t.o.clearedAtEof == s.o.clearedAtEof && s.o.given <= t.o.given
      && (!step.CTryStep? ==> t.a == s.a && t.o.played == s.o.played)
  {
  }

  /** The demuxer is where it was, nothing was read or pushed, and the queues are no longer. */
  predicate DemuxerRests(s: State, t: State) {
    && t.d == s.d.(videoQ := t.d.videoQ, audioQ := t.d.audioQ)
    && |t.d.videoQ| <= |s.d.videoQ| && |t.d.audioQ| <= |s.d.audioQ|
    && t.i.pushedVideo == s.i.pushedVideo && t.i.pushedAudio == s.i.pushedAudio
    && t.i.audioRead == s.i.audioRead && t.i.videoRead == s.i.videoRead && s.m.nextId <= t.m.nextId
    && t.i.flushed == s.i.flushed && t.i.reopened == s.i.reopened
  }

  lemma OthersRest(c: Config, s: State, step: Step)
    requires Enabled(c, s, step) && !step.Demuxer? && !step.Start? && !step.Stop?
    ensures DemuxerRests(s, Apply(c, s, step))
  {
    match step
    case Decoder(a) => DecoderLeaves(s, a); DecoderTakes(s, a);
    case Render(r) => RenderLeaves(s, r);
    case Callback(who, k) => CallLeaves(s, who, k);
    case VideoPop =>
    case Complete =>
  }

  // ---- kinds of messages

  predicate InputKinds(q: Queue, packet: Kind, config: Kind) {
    forall k :: 0 <= k < |q| ==> q[k].kind == packet || q[k].kind == config
  }

  predicate PacketInHand(pc: DemuxerPc, kind: Kind) {
    (pc.DResendVideo? || pc.DResendAudio? || pc.DPush?) && pc.m.kind == kind
  }

  predicate DemuxKinds(d: Demux) {
    && InputKinds(d.videoQ, VideoPkt, VideoCodecConfig) && InputKinds(d.audioQ, AudioPkt, AudioCodecConfig)
    && (d.pc.DResendVideo? || d.pc.DResendAudio? ==> d.resend)
    && (d.pc.DResendVideo? || d.pc.DResendAudio? || d.pc.DPush? ==>
          d.pc.m.gen == d.gen && d.pc.m.kind in {AudioPkt, VideoPkt, EmptyMessage})
    && (PacketInHand(d.pc, AudioPkt) ==> d.hasAudio) && (PacketInHand(d.pc, VideoPkt) ==> d.hasVideo)
  }

  predicate DecodeKinds(a: Decode) {
    && InputKinds(a.outQ, AudioFrame, AudioRenderConfig)
    && (a.pc.AGot? ==> a.pc.m.kind == AudioPkt || a.pc.m.kind == AudioCodecConfig)
    && (a.pc.APush? ==> a.pc.m.kind == AudioFrame || a.pc.m.kind == AudioRenderConfig)
  }

  predicate CallShape(call: Call, player: bool) {
    && (call != CIdle ==> player)
    && (call.CTaken? || call.CSaving? || call.CStoring? ==> call.m.kind == AudioFrame)
  }

  predicate RenderShape(r: Output) {
    && CallShape(r.direct, r.player) && CallShape(r.fromPlayer, r.player)
    && (r.pc != RCalling ==> r.direct == CIdle)
    && (r.pc == ROff || r.pc.RDelete? || r.pc.RConfigure? ==> !r.player)
    && (r.pc == ROff || r.pc.RConfigure? ==> r.current == None)
    && (!r.player ==> r.lastEnqueued == None && !r.busy)
    && (r.pc.RDestroy? || r.pc.RDelete? ==> r.pc.config.Some? ==> r.pc.config.value.kind == AudioRenderConfig)
    && (r.pc.RConfigure? ==> r.pc.m.kind == AudioRenderConfig)
  }

  predicate Shape(s: State) {
    DemuxKinds(s.d) && DecodeKinds(s.a) && RenderShape(s.r)
  }

  lemma ShapeGate(c: Config, s: State)
    requires DemuxKinds(s.d) && s.d.pc == DGate
    ensures DemuxKinds(DGateDo(c, s).d)
  {
  }

  lemma ShapeDemuxer(c: Config, s: State, step: DemuxerStep)
    requires DemuxKinds(s.d) && DemuxerEnabled(s, step)
    ensures DemuxKinds(DemuxerApply(c, s, step).d)
  {
    match step
    case DGateStep => ShapeGate(c, s);
    case _ =>
  }

  lemma ShapeDecoder(s: State, step: DecoderStep)
    requires DemuxKinds(s.d) && DecodeKinds(s.a) && DecoderEnabled(s, step)
    ensures DemuxKinds(DecoderApply(s, step).d) && DecodeKinds(DecoderApply(s, step).a)
  {
  }

  lemma ShapeRender(s: State, step: RenderStep)
    requires DecodeKinds(s.a) && RenderShape(s.r) && RenderEnabled(s, step)
    ensures DecodeKinds(RenderApply(s, step).a) && RenderShape(RenderApply(s, step).r)
  {
  }

  lemma ShapeCall(s: State, who: Caller, step: CallStep)
    requires DecodeKinds(s.a) && RenderShape(s.r) && CallEnabled(s, who, step)
    ensures DecodeKinds(CallApply(s, who, step).a) && RenderShape(CallApply(s, who, step).r)
  {
  }

  lemma ShapeStep(c: Config, s: State, step: Step)
    requires Shape(s) && Off(s) && Enabled(c, s, step)
    ensures Shape(Apply(c, s, step))
  {
    match step
    case Demuxer(d) => ShapeDemuxer(c, s, d);
    case Decoder(a) => ShapeDecoder(s, a);
    case Render(r) => ShapeRender(s, r);
    case Callback(who, k) => ShapeCall(s, who, k);
    case _ =>
  }

  lemma ReachableShape(c: Config, s: State)
    requires Reachable(c, s)
    ensures Shape(s)
  {
    forall s, step | Reachable(c, s) && Shape(s) && Enabled(c, s, step) ensures Shape(Apply(c, s, step)) {
      ThreadsOff(c, s);
      ShapeStep(c, s, step);
    }
    Induction(c, s => Shape(s));
  }
}
