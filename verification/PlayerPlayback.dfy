/** What is played, against what was read: the whole way of the audio packets, and of the video packets up to
the video decoder. */
module PlayerPlayback {
  import opened Octets
  import opened Media
  import opened Player
  import opened PlayerControl
  import opened PlayerDecoder
  import opened PlayerOrder
  import opened Subsequences

  /** Played, then decoded, then in the decoder's hands, then waiting, then in the demuxer's hands. */
  function AudioLine(s: State): seq<nat> {
    s.o.played + Tail(s.d, s.a)
  }

  function TakenLine(s: State): seq<nat> {
    s.i.taken + PendingOf(s.d, AudioPkt)
  }

  function VideoLine(s: State): seq<nat> {
    Sources(s.m.videoTaken, VideoPkt) + PendingOf(s.d, VideoPkt)
  }

  // ---- one step

  predicate FlushStep(step: Step) {
    step == Demuxer(DFlushVideoStep) || step == Demuxer(DFlushAudioStep)
  }

  lemma AudioDemuxer(c: Config, s: State, step: DemuxerStep)
    requires DemuxerEnabled(s, step)
    ensures var t := DemuxerApply(c, s, step);
      Moves(AudioLine(s), AudioLine(t), s.i.audioRead, t.i.audioRead, !c.skip && !FlushStep(Demuxer(step)))
  {
    PendingDemuxer(c, s, step, AudioPkt);
    DemuxerLeaves(c, s, step);
    var t := DemuxerApply(c, s, step);
    var exact := !c.skip && !FlushStep(Demuxer(step));
    var p, p' := PendingOf(s.d, AudioPkt), PendingOf(t.d, AudioPkt);
    MovesBehind(Onward(s.a), p, p', s.i.audioRead, t.i.audioRead, exact);
    MovesBehind(s.o.played, Onward(s.a) + p, Onward(s.a) + p', s.i.audioRead, t.i.audioRead, exact);
  }

  lemma AudioDecoder(s: State, step: DecoderStep)
    requires Shape(s) && DecoderEnabled(s, step)
    ensures var t := DecoderApply(s, step);
      Moves(AudioLine(s), AudioLine(t), s.i.audioRead, t.i.audioRead, !Unconfigured(s.a) && step != AFlushStep)
  {
    TailDecoder(s, step);
    var t := DecoderApply(s, step);
    MovesBehind(s.o.played, Tail(s.d, s.a), Tail(t.d, t.a), s.i.audioRead, t.i.audioRead,
                !Unconfigured(s.a) && step != AFlushStep);
  }

  lemma AudioPlays(s: State, who: Caller)
    requires InCall(s.r, who) == CTry
    ensures AudioLine(CTryDo(s, who)) == AudioLine(s)
  {
    var t := CTryDo(s, who);
    if s.a.outQ != [] && s.a.outQ[0].kind == AudioFrame {
      var x := s.a.outQ[0].src;
      OutputPops(s.a, t.a);
      Regroup([x], Onward(t.a), PendingOf(s.d, AudioPkt));
      Regroup(s.o.played, [x], Tail(t.d, t.a));
    }
  }

  lemma AudioCall(s: State, who: Caller, step: CallStep)
    requires CallEnabled(s, who, step)
    ensures var t := CallApply(s, who, step); AudioLine(t) == AudioLine(s) && t.i == s.i
  {
    CallLeaves(s, who, step);
    if step.CTryStep? {
      AudioPlays(s, who);
    }
  }

  lemma AudioPeeks(s: State)
    requires s.r.pc == RPeek
    ensures AudioLine(RPeekDo(s)) == AudioLine(s)
  {
    if s.a.outQ != [] && s.a.outQ[0].kind != AudioFrame {
      OutputPops(s.a, RPeekDo(s).a);
      assert [] + Onward(RPeekDo(s).a) == Onward(RPeekDo(s).a);
    }
  }

  lemma AudioRender(s: State, step: RenderStep)
    requires RenderEnabled(s, step)
    ensures var t := RenderApply(s, step); AudioLine(t) == AudioLine(s) && t.i == s.i
  {
    RenderLeaves(s, step);
    if step.RPeekStep? {
      AudioPeeks(s);
    }
  }

  /** In wait mode, with a configured decoder, nothing is lost but by a flush. */
  predicate Calm(c: Config, s: State, step: Step) {
    !c.skip && !FlushStep(step) && !Unconfigured(s.a) && step != Decoder(AFlushStep)
  }

  /** The player starting or stopping a thread, or finishing a buffer, moves no message. */
  lemma OtherStep(c: Config, s: State, step: Step)
    requires Off(s) && Enabled(c, s, step) && (step.Complete? || step.Start? || step.Stop?)
    ensures var t := Apply(c, s, step);
      AudioLine(t) == AudioLine(s) && TakenLine(t) == TakenLine(s) && VideoLine(t) == VideoLine(s) && t.i == s.i
  {
    match step
    case Start => StartStep(s);
    case _ =>
  }

  lemma StartStep(s: State)
    requires Off(s) && (s.mpc == Stopped || s.mpc == DemuxerStarted || s.mpc == DecoderStarted)
    ensures var t := MStart(s);
      AudioLine(t) == AudioLine(s) && TakenLine(t) == TakenLine(s) && VideoLine(t) == VideoLine(s) && t.i == s.i
  {
    match s.mpc
    case Stopped => assert HeldByDemuxer(MStart(s).d.pc, AudioPkt) == HeldByDemuxer(s.d.pc, AudioPkt);
    case DemuxerStarted => assert HeldByDecoder(MStart(s).a.pc) == HeldByDecoder(s.a.pc);
    case _ =>
  }

  lemma AudioStep(c: Config, s: State, step: Step)
    requires Shape(s) && Off(s) && Enabled(c, s, step)
    ensures var t := Apply(c, s, step);
      Moves(AudioLine(s), AudioLine(t), s.i.audioRead, t.i.audioRead, Calm(c, s, step))
  {
    MovesSame(AudioLine(s), s.i.audioRead, true);
    match step
    case Demuxer(d) => AudioDemuxer(c, s, d);
    case VideoPop =>
    case Decoder(a) => AudioDecoder(s, a);
    case Render(r) => AudioRender(s, r);
    case Callback(who, k) => AudioCall(s, who, k);
    case _ => OtherStep(c, s, step);
  }

  lemma TakenDemuxer(c: Config, s: State, step: DemuxerStep)
    requires DemuxerEnabled(s, step)
    ensures var t := DemuxerApply(c, s, step);
      Moves(TakenLine(s), TakenLine(t), s.i.audioRead, t.i.audioRead, !c.skip && !FlushStep(Demuxer(step)))
  {
    PendingDemuxer(c, s, step, AudioPkt);
    DemuxerLeaves(c, s, step);
    var t := DemuxerApply(c, s, step);
    MovesBehind(s.i.taken, PendingOf(s.d, AudioPkt), PendingOf(t.d, AudioPkt), s.i.audioRead, t.i.audioRead,
                !c.skip && !FlushStep(Demuxer(step)));
  }

  lemma TakenDecoder(s: State, step: DecoderStep)
    requires DemuxKinds(s.d) && DecoderEnabled(s, step)
    ensures var t := DecoderApply(s, step); TakenLine(t) == TakenLine(s) && t.i.audioRead == s.i.audioRead
  {
    if step.APopStep? && s.d.audioQ != [] {
      TailPop(s);
    }
  }

  lemma TakenStep(c: Config, s: State, step: Step)
    requires Shape(s) && Off(s) && Enabled(c, s, step)
    ensures var t := Apply(c, s, step);
      Moves(TakenLine(s), TakenLine(t), s.i.audioRead, t.i.audioRead, !c.skip && !FlushStep(step))
  {
    MovesSame(TakenLine(s), s.i.audioRead, true);
    match step
    case Demuxer(d) => TakenDemuxer(c, s, d);
    case VideoPop =>
    case Decoder(a) => TakenDecoder(s, a);
    case Render(r) => RenderLeaves(s, r);
    case Callback(who, k) => CallLeaves(s, who, k);
    case _ => OtherStep(c, s, step);
  }

  lemma VideoTakes(s: State)
    requires s.d.videoQ != []
    ensures VideoLine(VideoPopDo(s)) == VideoLine(s)
  {
    PendingTaken(s.m.videoTaken, s.d.videoQ, s.d.pc);
  }

  lemma PendingTaken(taken: Queue, q: Queue, pc: DemuxerPc)
    requires q != []
    ensures Sources(taken + [q[0]], VideoPkt) + Pending(q[1..], pc, VideoPkt)
         == Sources(taken, VideoPkt) + Pending(q, pc, VideoPkt)
  {
    var x := if q[0].kind == VideoPkt then [q[0].src] else [];
    SourcesHead(q, VideoPkt);
    PendingPush(taken, q[0], VideoPkt);
    Regroup(Sources(taken, VideoPkt), x, Pending(q[1..], pc, VideoPkt));
    Regroup(x, Sources(q[1..], VideoPkt), HeldByDemuxer(pc, VideoPkt));
  }

  lemma VideoDemuxer(c: Config, s: State, step: DemuxerStep)
    requires DemuxerEnabled(s, step)
    ensures var t := DemuxerApply(c, s, step);
      Moves(VideoLine(s), VideoLine(t), s.i.videoRead, t.i.videoRead, !c.skip && !FlushStep(Demuxer(step)))
  {
    PendingDemuxer(c, s, step, VideoPkt);
    DemuxerLeaves(c, s, step);
    var t := DemuxerApply(c, s, step);
    MovesBehind(Sources(s.m.videoTaken, VideoPkt), PendingOf(s.d, VideoPkt), PendingOf(t.d, VideoPkt),
                s.i.videoRead, t.i.videoRead, !c.skip && !FlushStep(Demuxer(step)));
  }

  lemma VideoStep(c: Config, s: State, step: Step)
    requires Shape(s) && Off(s) && Enabled(c, s, step)
    ensures var t := Apply(c, s, step);
      Moves(VideoLine(s), VideoLine(t), s.i.videoRead, t.i.videoRead, !c.skip && !FlushStep(step))
  {
    MovesSame(VideoLine(s), s.i.videoRead, true);
    match step
    case Demuxer(d) => VideoDemuxer(c, s, d);
    case VideoPop => VideoTakes(s);
    case Start => OtherStep(c, s, step);
    case Stop => OtherStep(c, s, step);
    case _ => VideoOthers(c, s, step);
  }

  lemma VideoOthers(c: Config, s: State, step: Step)
    requires Enabled(c, s, step) && (step.Decoder? || step.Render? || step.Callback? || step.Complete?)
    ensures var t := Apply(c, s, step); VideoLine(t) == VideoLine(s) && t.i.videoRead == s.i.videoRead
  {
    match step
    case Decoder(a) => DecoderLeaves(s, a); DecoderTakes(s, a);
    case Render(r) => RenderLeaves(s, r);
    case Callback(who, k) => CallLeaves(s, who, k);
    case Complete =>
  }

  // ---- all runs

  /** A flush leaves its mark before anything is lost by it. */
  predicate Marked(s: State) {
    && (s.d.pc == DFlushAudio ==> s.i.flushed)
    && (s.a.pc == AFlush || s.o.clearedAtEof ==> s.o.cleared)
  }

  predicate StaysMarked(s: State, t: State) {
    Marked(t) && (s.i.flushed ==> t.i.flushed) && (s.o.cleared ==> t.o.cleared)
  }

  lemma MarkedDemuxer(c: Config, s: State, step: DemuxerStep)
    requires Marked(s) && DemuxerEnabled(s, step)
    ensures var t := DemuxerApply(c, s, step); StaysMarked(s, t) && (FlushStep(Demuxer(step)) ==> t.i.flushed)
  {
    DemuxerLeaves(c, s, step);
  }

  lemma MarkedDecoder(s: State, step: DecoderStep)
    requires Marked(s) && DecoderEnabled(s, step)
    ensures var t := DecoderApply(s, step); StaysMarked(s, t) && (step == AFlushStep ==> t.o.cleared)
  {
  }

  lemma MarkedStep(c: Config, s: State, step: Step)
    requires Marked(s) && Enabled(c, s, step)
    ensures var t := Apply(c, s, step);
      StaysMarked(s, t) && (FlushStep(step) ==> t.i.flushed) && (step == Decoder(AFlushStep) ==> t.o.cleared)
  {
    match step
    case Demuxer(d) => MarkedDemuxer(c, s, d);
    case Decoder(a) => MarkedDecoder(s, a);
    case _ =>
  }

  ghost predicate Lines(c: Config, s: State) {
    && Marked(s)
    && Sub(AudioLine(s), s.i.audioRead) && Sub(TakenLine(s), s.i.audioRead) && Sub(VideoLine(s), s.i.videoRead)
    && (!c.skip && !s.i.flushed ==> TakenLine(s) == s.i.audioRead && VideoLine(s) == s.i.videoRead)
    && (!c.skip && !s.i.flushed && !s.o.cleared ==> AudioLine(s) == s.i.audioRead)
  }

  lemma LinesStep(c: Config, s: State, step: Step)
    requires Lines(c, s) && Reachable(c, s) && Enabled(c, s, step)
    ensures Lines(c, Apply(c, s, step))
  {
    ReachableShape(c, s);
    ThreadsOff(c, s);
    MarkedStep(c, s, step);
    AudioStep(c, s, step);
    TakenStep(c, s, step);
    VideoStep(c, s, step);
    if !c.skip && !s.o.cleared {
      DecoderConfigured(c, s);
    }
    var t := Apply(c, s, step);
    MovesKeep(AudioLine(s), AudioLine(t), s.i.audioRead, t.i.audioRead, Calm(c, s, step));
    MovesKeep(TakenLine(s), TakenLine(t), s.i.audioRead, t.i.audioRead, !c.skip && !FlushStep(step));
    MovesKeep(VideoLine(s), VideoLine(t), s.i.videoRead, t.i.videoRead, !c.skip && !FlushStep(step));
  }

  lemma NoPackets(stream: bool, config: Message, kind: Kind)
    requires config.kind != kind
    ensures Sources(WithConfig([], stream, config), kind) == []
  {
    if stream {
      assert [] + [config] == [config];
      SourcesOne(config, kind);
    }
  }

  lemma LinesInit(c: Config, video: bool, audio: bool)
    ensures Lines(c, Init(video, audio))
  {
    var ids := if video then 1 else 0;
    NoPackets(video, Message(VideoCodecConfig, 0, 0, 0), VideoPkt);
    NoPackets(audio, Message(AudioCodecConfig, ids, ids, 0), AudioPkt);
    var s := Init(video, audio);
    assert AudioLine(s) == [] && TakenLine(s) == [] && VideoLine(s) == [];
    SubSame([]);
  }

  lemma ReachableLines(c: Config, s: State)
    requires Reachable(c, s)
    ensures Lines(c, s)
  {
    forall video, audio ensures Lines(c, Init(video, audio)) {
      LinesInit(c, video, audio);
    }
    forall s, step | Reachable(c, s) && Lines(c, s) && Enabled(c, s, step) ensures Lines(c, Apply(c, s, step)) {
      LinesStep(c, s, step);
    }
    Induction(c, s => Lines(c, s));
  }

  /** In wait mode, up to the first flush, every audio packet read is accounted for, in order: those played come
  first, then those decoded, held, waiting, and the one in the demuxer's hands. */
  lemma PlaybackInOrder(c: Config, s: State)
    requires Reachable(c, s) && !c.skip && !s.i.flushed && !s.o.cleared
    ensures s.o.played + (Onward(s.a) + PendingOf(s.d, AudioPkt)) == s.i.audioRead
    ensures s.o.played <= s.i.audioRead
    ensures Sources(s.m.videoTaken, VideoPkt) + PendingOf(s.d, VideoPkt) == s.i.videoRead
  {
    ReachableLines(c, s);
  }

  predicate Fresh(read: seq<nat>, nextId: nat) {
    Ascending(read) && forall k :: 0 <= k < |read| ==> read[k] < nextId
  }

  lemma FreshAppend(read: seq<nat>, nextId: nat)
    requires Fresh(read, nextId)
    ensures Fresh(read + [nextId], nextId + 1)
  {
  }

  predicate ReadInOrder(s: State) {
    Fresh(s.i.audioRead, s.m.nextId) && Fresh(s.i.videoRead, s.m.nextId)
  }

  lemma ReadInOrderDemuxer(c: Config, s: State, step: DemuxerStep)
    requires ReadInOrder(s) && DemuxerEnabled(s, step)
    ensures ReadInOrder(DemuxerApply(c, s, step))
  {
    FreshAppend(s.i.audioRead, s.m.nextId);
    FreshAppend(s.i.videoRead, s.m.nextId);
  }

  lemma ReadInOrderStep(c: Config, s: State, step: Step)
    requires ReadInOrder(s) && Enabled(c, s, step)
    ensures ReadInOrder(Apply(c, s, step))
  {
    match step
    case Demuxer(d) => ReadInOrderDemuxer(c, s, d);
    case Start =>
    case Stop =>
    case _ => OthersRest(c, s, step);
  }

  lemma ReachableReadInOrder(c: Config, s: State)
    requires Reachable(c, s)
    ensures ReadInOrder(s)
  {
    forall s, step | ReadInOrder(s) && Enabled(c, s, step) ensures ReadInOrder(Apply(c, s, step)) {
      ReadInOrderStep(c, s, step);
    }
    Induction(c, s => ReadInOrder(s));
  }

  /** In every mode and over every stop, flush and reopening: no packet overtakes another, and none is taken or
  played twice. */
  lemma NeverReordered(c: Config, s: State)
    requires Reachable(c, s)
    ensures Sub(s.i.taken + PendingOf(s.d, AudioPkt), s.i.audioRead)
    ensures Sub(Sources(s.m.videoTaken, VideoPkt) + PendingOf(s.d, VideoPkt), s.i.videoRead)
    ensures Sub(s.o.played + (Onward(s.a) + PendingOf(s.d, AudioPkt)), s.i.audioRead)
    ensures Ascending(s.o.played)
  {
    ReachableLines(c, s);
    ReachableReadInOrder(c, s);
    SubAscending(AudioLine(s), s.i.audioRead);
    assert s.o.played <= AudioLine(s);
  }
}
