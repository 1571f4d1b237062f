/** Every packet taken from a demuxer queue was preceded by a codec config of its own opening of the file. */
module PlayerConfigs {
  import opened Media
  import opened Player
  import opened PlayerControl

  predicate HasConfig(q: Queue, config: Kind, gen: nat) {
    exists k :: 0 <= k < |q| && q[k].kind == config && q[k].gen == gen
  }

  predicate Announced(q: Queue, packet: Kind, config: Kind) {
    forall k :: 0 <= k < |q| && q[k].kind == packet ==> HasConfig(q[..k], config, q[k].gen)
  }

  lemma HasConfigAppend(q: Queue, m: Message, config: Kind, gen: nat)
    ensures HasConfig(q + [m], config, gen) <==> HasConfig(q, config, gen) || (m.kind == config && m.gen == gen)
  {
    if HasConfig(q, config, gen) {
      var k :| 0 <= k < |q| && q[k].kind == config && q[k].gen == gen;
      assert (q + [m])[k] == q[k];
    }
    assert (q + [m])[|q|] == m;
  }

  lemma AnnouncedAppend(q: Queue, m: Message, packet: Kind, config: Kind)
    requires Announced(q, packet, config)
    requires m.kind == packet ==> HasConfig(q, config, m.gen)
    ensures Announced(q + [m], packet, config)
  {
    forall k | 0 <= k < |q + [m]| && (q + [m])[k].kind == packet
      ensures HasConfig((q + [m])[..k], config, (q + [m])[k].gen)
    {
      assert (q + [m])[..k] == q[..k];
      assert q[..|q|] == q;
    }
  }

  lemma AnnouncedPrefix(p: Queue, q: Queue, packet: Kind, config: Kind)
    requires p <= q && Announced(q, packet, config)
    ensures Announced(p, packet, config)
  {
    forall k | 0 <= k < |p| && p[k].kind == packet ensures HasConfig(p[..k], config, p[k].gen) {
      assert p[..k] == q[..k];
    }
  }

  // ---- what was pushed since the last flush

  /** The demuxer will send a config before it pushes another packet. */
  predicate VideoConfigDue(d: Demux) {
    d.pc.DOpenVideo? || d.pc.DFlushAudio? || (d.resend && !d.pc.DPush? && !d.pc.DResendAudio? && !d.pc.DOpenAudio?)
  }

  predicate AudioConfigDue(d: Demux) {
    d.pc.DOpenVideo? || d.pc.DOpenAudio? || (d.resend && !d.pc.DPush?)
  }

  predicate VideoSent(d: Demux, pushed: Queue) {
    && Announced(pushed, VideoPkt, VideoCodecConfig)
    && (d.hasVideo ==> VideoConfigDue(d) || HasConfig(pushed, VideoCodecConfig, d.gen))
  }

  predicate AudioSent(d: Demux, pushed: Queue) {
    && Announced(pushed, AudioPkt, AudioCodecConfig)
    && (d.hasAudio ==> AudioConfigDue(d) || HasConfig(pushed, AudioCodecConfig, d.gen))
  }

  lemma VideoSentConfig(s: State)
    requires VideoSent(s.d, s.i.pushedVideo) && (s.d.pc == DOpenVideo || s.d.pc.DResendVideo?)
    ensures var t := DConfigVideoDo(s); VideoSent(t.d, t.i.pushedVideo)
  {
    if s.d.hasVideo {
      var p := Message(VideoCodecConfig, s.m.nextId, s.m.nextId, s.d.gen);
      AnnouncedAppend(s.i.pushedVideo, p, VideoPkt, VideoCodecConfig);
      HasConfigAppend(s.i.pushedVideo, p, VideoCodecConfig, s.d.gen);
    }
  }

  lemma VideoSentPush(s: State)
    requires VideoSent(s.d, s.i.pushedVideo) && DemuxKinds(s.d) && s.d.pc.DPush?
    ensures var t := DPushDo(s, s.d.pc.m); VideoSent(t.d, t.i.pushedVideo)
  {
    if PacketInHand(s.d.pc, VideoPkt) {
      AnnouncedAppend(s.i.pushedVideo, s.d.pc.m, VideoPkt, VideoCodecConfig);
      HasConfigAppend(s.i.pushedVideo, s.d.pc.m, VideoCodecConfig, s.d.gen);
    }
  }

  lemma VideoSentDemuxer(c: Config, s: State, step: DemuxerStep)
    requires VideoSent(s.d, s.i.pushedVideo) && DemuxKinds(s.d) && DemuxerEnabled(s, step)
    ensures var t := DemuxerApply(c, s, step); VideoSent(t.d, t.i.pushedVideo)
  {
    match step
    case DConfigVideoStep => VideoSentConfig(s);
    case DPushStep => VideoSentPush(s);
    case _ =>
  }

  lemma AudioSentConfig(s: State)
    requires AudioSent(s.d, s.i.pushedAudio) && (s.d.pc == DOpenAudio || s.d.pc.DResendAudio?)
    ensures var t := DConfigAudioDo(s); AudioSent(t.d, t.i.pushedAudio)
  {
    if s.d.hasAudio {
      var p := Message(AudioCodecConfig, s.m.nextId, s.m.nextId, s.d.gen);
      AnnouncedAppend(s.i.pushedAudio, p, AudioPkt, AudioCodecConfig);
      HasConfigAppend(s.i.pushedAudio, p, AudioCodecConfig, s.d.gen);
    }
  }

  lemma AudioSentPush(s: State)
    requires AudioSent(s.d, s.i.pushedAudio) && DemuxKinds(s.d) && s.d.pc.DPush?
    ensures var t := DPushDo(s, s.d.pc.m); AudioSent(t.d, t.i.pushedAudio)
  {
    if PacketInHand(s.d.pc, AudioPkt) {
      AnnouncedAppend(s.i.pushedAudio, s.d.pc.m, AudioPkt, AudioCodecConfig);
      HasConfigAppend(s.i.pushedAudio, s.d.pc.m, AudioCodecConfig, s.d.gen);
    }
  }

  lemma AudioSentDemuxer(c: Config, s: State, step: DemuxerStep)
    requires AudioSent(s.d, s.i.pushedAudio) && DemuxKinds(s.d) && DemuxerEnabled(s, step)
    ensures var t := DemuxerApply(c, s, step); AudioSent(t.d, t.i.pushedAudio)
  {
    match step
    case DConfigAudioStep => AudioSentConfig(s);
    case DPushStep => AudioSentPush(s);
    case _ =>
  }

  predicate Sent(s: State) {
    VideoSent(s.d, s.i.pushedVideo) && AudioSent(s.d, s.i.pushedAudio)
  }

  lemma SentSame(s: State, t: State)
    requires Sent(s) && DemuxerRests(s, t)
    ensures Sent(t)
  {
  }

  lemma SentMain(s: State)
    requires Sent(s) && (s.mpc == Stopped ==> s.d.pc == DOff)
    ensures Sent(MStart(s)) && Sent(MStop(s))
  {
  }

  lemma SentStep(c: Config, s: State, step: Step)
    requires Sent(s) && DemuxKinds(s.d) && Off(s) && Enabled(c, s, step)
    ensures Sent(Apply(c, s, step))
  {
    match step
    case Demuxer(d) =>
      VideoSentDemuxer(c, s, d);
      AudioSentDemuxer(c, s, d);
    case Start => SentMain(s);
    case Stop => SentMain(s);
    case _ =>
      OthersRest(c, s, step);
      SentSame(s, Apply(c, s, step));
  }

  lemma SentInit(video: bool, audio: bool)
    ensures Sent(Init(video, audio))
  {
    var s := Init(video, audio);
    if video {
      assert s.i.pushedVideo[0].kind == VideoCodecConfig;
    }
    if audio {
      assert s.i.pushedAudio[0].kind == AudioCodecConfig;
    }
  }

  lemma ReachableSent(c: Config, s: State)
    requires Reachable(c, s)
    ensures Sent(s)
  {
    forall video, audio ensures Sent(Init(video, audio)) {
      SentInit(video, audio);
    }
    forall s, step | Reachable(c, s) && Sent(s) && Enabled(c, s, step) ensures Sent(Apply(c, s, step)) {
      ThreadsOff(c, s);
      ReachableShape(c, s);
      SentStep(c, s, step);
    }
    Induction(c, (s: State) => Sent(s));
  }

  // ---- wait mode: the queues are FIFOs

  predicate Fifo(d: Demux, i: InputLog) {
    i.poppedVideo + d.videoQ == i.pushedVideo && i.poppedAudio + d.audioQ == i.pushedAudio
  }

  lemma FifoPush(popped: Queue, q: Queue, pushed: Queue, m: Message)
    requires popped + q == pushed
    ensures popped + (q + [m]) == pushed + [m]
  {
  }

  lemma FifoPop(popped: Queue, q: Queue, pushed: Queue)
    requires popped + q == pushed && q != []
    ensures (popped + [q[0]]) + q[1..] == pushed
  {
  }

  lemma FifoPacket(s: State)
    requires Fifo(s.d, s.i) && s.d.pc.DPush?
    ensures var t := DPushDo(s, s.d.pc.m); Fifo(t.d, t.i)
  {
    FifoPush(s.i.poppedVideo, s.d.videoQ, s.i.pushedVideo, s.d.pc.m);
    FifoPush(s.i.poppedAudio, s.d.audioQ, s.i.pushedAudio, s.d.pc.m);
  }

  lemma FifoDemuxer(c: Config, s: State, step: DemuxerStep)
    requires !c.skip && Fifo(s.d, s.i) && DemuxerEnabled(s, step)
    ensures var t := DemuxerApply(c, s, step); Fifo(t.d, t.i)
  {
    match step
    case DConfigVideoStep =>
      FifoPush(s.i.poppedVideo, s.d.videoQ, s.i.pushedVideo,
               Message(VideoCodecConfig, s.m.nextId, s.m.nextId, s.d.gen));
    case DConfigAudioStep =>
      FifoPush(s.i.poppedAudio, s.d.audioQ, s.i.pushedAudio,
               Message(AudioCodecConfig, s.m.nextId, s.m.nextId, s.d.gen));
    case DPushStep => FifoPacket(s);
    case _ =>
  }

  lemma FifoStep(c: Config, s: State, step: Step)
    requires !c.skip && Fifo(s.d, s.i) && Enabled(c, s, step)
    ensures var t := Apply(c, s, step); Fifo(t.d, t.i)
  {
    match step
    case Demuxer(d) => FifoDemuxer(c, s, d);
    case VideoPop => FifoPop(s.i.poppedVideo, s.d.videoQ, s.i.pushedVideo);
    case Decoder(a) =>
      if a.APopStep? && s.d.audioQ != [] {
        FifoPop(s.i.poppedAudio, s.d.audioQ, s.i.pushedAudio);
      }
    case Render(r) => RenderLeaves(s, r);
    case Callback(who, k) => CallLeaves(s, who, k);
    case _ =>
  }

  lemma ReachableFifo(c: Config, s: State)
    requires Reachable(c, s) && !c.skip
    ensures Fifo(s.d, s.i)
  {
    forall s, step | Reachable(c, s) && Fifo(s.d, s.i) && Enabled(c, s, step)
      ensures var t := Apply(c, s, step); Fifo(t.d, t.i)
    {
      FifoStep(c, s, step);
    }
    Induction(c, (s: State) => Fifo(s.d, s.i));
  }

  /** In wait mode what the consumers have taken since the last flush is what was pushed first, and before each
  packet there is a config of the packet's own generation. */
  lemma ConfigBeforePacket(c: Config, s: State)
    requires Reachable(c, s) && !c.skip
    ensures s.i.poppedAudio + s.d.audioQ == s.i.pushedAudio && s.i.poppedVideo + s.d.videoQ == s.i.pushedVideo
    ensures Announced(s.i.poppedAudio, AudioPkt, AudioCodecConfig)
    ensures Announced(s.i.poppedVideo, VideoPkt, VideoCodecConfig)
  {
    ReachableFifo(c, s);
    ReachableSent(c, s);
    AnnouncedPrefix(s.i.poppedAudio, s.i.pushedAudio, AudioPkt, AudioCodecConfig);
    AnnouncedPrefix(s.i.poppedVideo, s.i.pushedVideo, VideoPkt, VideoCodecConfig);
  }
}
