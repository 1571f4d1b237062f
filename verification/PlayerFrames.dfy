/** Every frame in the decoder's output queue is preceded by a render config of its own opening of the file. */
module PlayerFrames {
  import opened Media
  import opened Player
  import opened PlayerControl
  import opened PlayerConfigs
  import opened PlayerDecoder
  import opened PlayerOutput

  /** Once started, the demuxer is off only after the end of the file or with nothing pushed since. */
  predicate LeftEmpty(s: State) {
    s.mpc != Stopped && s.d.pc == DOff ==> s.d.eof || s.i.pushedAudio == []
  }

  lemma LeftEmptyDemuxer(c: Config, s: State, step: DemuxerStep)
    requires LeftEmpty(s) && DemuxerEnabled(s, step)
    ensures LeftEmpty(DemuxerApply(c, s, step))
  {
  }

  lemma LeftEmptyStep(c: Config, s: State, step: Step)
    requires LeftEmpty(s) && Off(s) && Enabled(c, s, step)
    ensures LeftEmpty(Apply(c, s, step))
  {
    match step
    case Demuxer(d) => LeftEmptyDemuxer(c, s, d);
    case Start =>
    case Stop =>
    case _ => LeftEmptyRest(c, s, step);
  }

  lemma LeftEmptyRest(c: Config, s: State, step: Step)
    requires LeftEmpty(s) && Enabled(c, s, step) && !step.Demuxer? && !step.Start? && !step.Stop?
    ensures LeftEmpty(Apply(c, s, step))
  {
    OthersRest(c, s, step);
    match step
    case Decoder(a) => DecoderLeaves(s, a);
    case Render(r) => RenderLeaves(s, r);
    case Callback(who, k) => CallLeaves(s, who, k);
    case VideoPop =>
    case Complete =>
  }

  lemma ReachableLeftEmpty(c: Config, s: State)
    requires Reachable(c, s)
    ensures LeftEmpty(s)
  {
    forall s, step | Reachable(c, s) && LeftEmpty(s) && Enabled(c, s, step) ensures LeftEmpty(Apply(c, s, step)) {
      ThreadsOff(c, s);
      LeftEmptyStep(c, s, step);
    }
    Induction(c, s => LeftEmpty(s));
  }

  // ---- the output

  predicate InPush(pc: DecoderPc, kind: Kind, gen: nat) {
    pc.APush? && pc.m.kind == kind && pc.m.gen == gen
  }

  predicate InGot(pc: DecoderPc, kind: Kind, gen: nat) {
    pc.AGot? && pc.m.kind == kind && pc.m.gen == gen
  }

  /** A render config of that opening has been pushed, or is on its way. */
  ghost predicate Rendered(a: Decode, pushed: Queue, gen: nat) {
    || HasConfig(pushed, AudioRenderConfig, gen)
    || InPush(a.pc, AudioRenderConfig, gen) || InGot(a.pc, AudioCodecConfig, gen)
  }

  /** Every config taken from the input has become a render config, and every frame comes behind one of its own. */
  ghost predicate Covered(a: Decode, popped: Queue, pushed: Queue) {
    && (forall k :: 0 <= k < |popped| && popped[k].kind == AudioCodecConfig ==> Rendered(a, pushed, popped[k].gen))
    && (a.pc.AGot? && a.pc.m.kind == AudioPkt ==> HasConfig(pushed, AudioRenderConfig, a.pc.m.gen))
    && (a.pc.APush? && a.pc.m.kind == AudioFrame ==> HasConfig(pushed, AudioRenderConfig, a.pc.m.gen))
    && Announced(pushed, AudioFrame, AudioRenderConfig)
  }

  lemma CoveredPop(s: State)
    requires Covered(s.a, s.i.poppedAudio, s.o.pushed) && s.a.pc == APop && s.d.audioQ != []
    requires Announced(s.i.poppedAudio + [s.d.audioQ[0]], AudioPkt, AudioCodecConfig)
    ensures var t := APopDo(s); Covered(t.a, t.i.poppedAudio, t.o.pushed)
  {
    var popped, m := s.i.poppedAudio, s.d.audioQ[0];
    var t := APopDo(s);
    forall k | 0 <= k < |t.i.poppedAudio| && t.i.poppedAudio[k].kind == AudioCodecConfig
      ensures Rendered(t.a, t.o.pushed, t.i.poppedAudio[k].gen)
    {
      if k < |popped| {
        assert Rendered(s.a, s.o.pushed, popped[k].gen);
      }
    }
    if m.kind == AudioPkt {
      var all := popped + [m];
      assert all[|popped|] == m && all[..|popped|] == popped;
      assert HasConfig(popped, AudioCodecConfig, m.gen);
      var k :| 0 <= k < |popped| && popped[k].kind == AudioCodecConfig && popped[k].gen == m.gen;
      assert Rendered(s.a, s.o.pushed, popped[k].gen);
    }
  }

  lemma CoveredHandle(s: State)
    requires Covered(s.a, s.i.poppedAudio, s.o.pushed) && DecodeKinds(s.a) && s.a.pc.AGot?
    ensures var t := AHandle(s, s.a.pc.m); Covered(t.a, t.i.poppedAudio, t.o.pushed)
  {
    var t := AHandle(s, s.a.pc.m);
    forall k | 0 <= k < |t.i.poppedAudio| && t.i.poppedAudio[k].kind == AudioCodecConfig
      ensures Rendered(t.a, t.o.pushed, t.i.poppedAudio[k].gen)
    {
      assert Rendered(s.a, s.o.pushed, s.i.poppedAudio[k].gen);
    }
  }

  lemma CoveredPush(s: State)
    requires Covered(s.a, s.i.poppedAudio, s.o.pushed) && DecodeKinds(s.a) && s.a.pc.APush?
    ensures var t := APushDo(s, s.a.pc.m); Covered(t.a, t.i.poppedAudio, t.o.pushed)
  {
    var m, pushed := s.a.pc.m, s.o.pushed;
    var t := APushDo(s, m);
    AnnouncedAppend(pushed, m, AudioFrame, AudioRenderConfig);
    forall k | 0 <= k < |t.i.poppedAudio| && t.i.poppedAudio[k].kind == AudioCodecConfig
      ensures Rendered(t.a, t.o.pushed, t.i.poppedAudio[k].gen)
    {
      assert Rendered(s.a, pushed, s.i.poppedAudio[k].gen);
      HasConfigAppend(pushed, m, AudioRenderConfig, s.i.poppedAudio[k].gen);
    }
  }

  /** Between its sections the decoder moves on with nothing in its hands. */
  lemma CoveredSame(a: Decode, b: Decode, popped: Queue, pushed: Queue)
    requires Covered(a, popped, pushed) && !a.pc.AGot? && !a.pc.APush? && !b.pc.AGot? && !b.pc.APush?
    ensures Covered(b, popped, pushed)
  {
    forall k | 0 <= k < |popped| && popped[k].kind == AudioCodecConfig ensures Rendered(b, pushed, popped[k].gen) {
      assert Rendered(a, pushed, popped[k].gen);
    }
  }

  lemma CoveredDecoder(s: State, step: DecoderStep)
    requires Covered(s.a, s.i.poppedAudio, s.o.pushed) && DecodeKinds(s.a) && DecoderEnabled(s, step)
    requires s.d.audioQ != [] ==> Announced(s.i.poppedAudio + [s.d.audioQ[0]], AudioPkt, AudioCodecConfig)
    requires s.a.pc == AFlush ==> s.i.poppedAudio == []
    ensures var t := DecoderApply(s, step); Covered(t.a, t.i.poppedAudio, t.o.pushed)
  {
    match step
    case ACheckStep => CoveredSame(s.a, ACheck(s).a, s.i.poppedAudio, s.o.pushed);
    case APopStep =>
      if s.d.audioQ == [] {
        CoveredSame(s.a, APopDo(s).a, s.i.poppedAudio, s.o.pushed);
      } else {
        CoveredPop(s);
      }
    case AHandleStep => CoveredHandle(s);
    case APushStep => CoveredPush(s);
    case AClearStep => CoveredSame(s.a, AClearDo(s).a, s.i.poppedAudio, s.o.pushed);
    case AFlushStep =>
  }

  lemma CoveredDemuxer(c: Config, s: State, step: DemuxerStep)
    requires Covered(s.a, s.i.poppedAudio, s.o.pushed) && DemuxerEnabled(s, step)
    ensures var t := DemuxerApply(c, s, step); Covered(t.a, t.i.poppedAudio, t.o.pushed)
  {
    DemuxerLeaves(c, s, step);
    PoppedByDemuxer(c, s, step);
  }

  lemma PoppedByDemuxer(c: Config, s: State, step: DemuxerStep)
    requires DemuxerEnabled(s, step)
    ensures DemuxerApply(c, s, step).i.poppedAudio
         == if step.DFlushAudioStep? then [] else s.i.poppedAudio
  {
  }

  ghost predicate Frames(s: State) {
    s.o.clearedAtEof || Covered(s.a, s.i.poppedAudio, s.o.pushed)
  }

  lemma FramesOther(c: Config, s: State, step: Step)
    requires Off(s) && Enabled(c, s, step) && !step.Demuxer? && !step.Decoder?
    requires Covered(s.a, s.i.poppedAudio, s.o.pushed)
    ensures var t := Apply(c, s, step); Covered(t.a, t.i.poppedAudio, t.o.pushed)
  {
    if step.Start? {
      FramesStart(s);
    } else if step.Stop? {
      FramesStop(s);
    } else {
      OutputOnly(c, s, step);
      CoveredQueue(s.a, Apply(c, s, step).a, s.i.poppedAudio, s.o.pushed);
    }
  }

  lemma OutputOnly(c: Config, s: State, step: Step)
    requires Enabled(c, s, step) && (step.VideoPop? || step.Render? || step.Callback? || step.Complete?)
    ensures var t := Apply(c, s, step);
      t.a.pc == s.a.pc && t.i.poppedAudio == s.i.poppedAudio && t.o.pushed == s.o.pushed
  {
    match step
    case Render(r) => RenderLeaves(s, r);
    case Callback(who, k) => CallLeaves(s, who, k); PushedByCall(s, who, k);
    case VideoPop =>
    case Complete =>
  }

  lemma PushedByCall(s: State, who: Caller, step: CallStep)
    requires CallEnabled(s, who, step)
    ensures CallApply(s, who, step).o.pushed == s.o.pushed
  {
  }

  lemma CoveredQueue(a: Decode, b: Decode, popped: Queue, pushed: Queue)
    requires Covered(a, popped, pushed) && b.pc == a.pc
    ensures Covered(b, popped, pushed)
  {
    forall k | 0 <= k < |popped| && popped[k].kind == AudioCodecConfig ensures Rendered(b, pushed, popped[k].gen) {
      assert Rendered(a, pushed, popped[k].gen);
    }
  }

  lemma FramesStart(s: State)
    requires Off(s) && (s.mpc == Stopped || s.mpc == DemuxerStarted || s.mpc == DecoderStarted)
    requires Covered(s.a, s.i.poppedAudio, s.o.pushed)
    ensures var t := MStart(s); Covered(t.a, t.i.poppedAudio, t.o.pushed)
  {
    if s.mpc == DemuxerStarted {
      CoveredSame(s.a, MStart(s).a, s.i.poppedAudio, s.o.pushed);
    }
  }

  lemma FramesStop(s: State)
    requires StopEnabled(s) && Covered(s.a, s.i.poppedAudio, s.o.pushed)
    ensures var t := MStop(s); Covered(t.a, t.i.poppedAudio, t.o.pushed)
  {
    CoveredQueue(s.a, MStop(s).a, s.i.poppedAudio, s.o.pushed);
  }

  lemma FramesStep(c: Config, s: State, step: Step)
    requires Reachable(c, s) && !c.skip && Frames(s) && Enabled(c, s, step)
    ensures Frames(Apply(c, s, step))
  {
    if s.o.clearedAtEof {
      ClearedAtEofStays(c, s, step);
    } else {
      ReachableShape(c, s);
      ThreadsOff(c, s);
      match step
      case Demuxer(d) => CoveredDemuxer(c, s, d);
      case Decoder(a) =>
        if s.d.audioQ != [] {
          NextAnnounced(c, s);
        }
        FlushedClean(c, s);
        CoveredDecoder(s, a);
      case _ => FramesOther(c, s, step);
    }
  }

  lemma NextAnnounced(c: Config, s: State)
    requires Reachable(c, s) && !c.skip && s.d.audioQ != []
    ensures Announced(s.i.poppedAudio + [s.d.audioQ[0]], AudioPkt, AudioCodecConfig)
  {
    ReachableFifo(c, s);
    ReachableSent(c, s);
    var front := s.i.poppedAudio + [s.d.audioQ[0]];
    assert front + s.d.audioQ[1..] == s.i.pushedAudio;
    AnnouncedPrefix(front, s.i.pushedAudio, AudioPkt, AudioCodecConfig);
  }

  /** When the decoder flushes its output, nothing it has taken since the demuxer's flush is left to be remembered. */
  lemma FlushedClean(c: Config, s: State)
    requires Reachable(c, s) && !c.skip && !s.o.clearedAtEof
    ensures s.a.pc == AFlush ==> s.i.poppedAudio == []
  {
    ThreadsOff(c, s);
    ReachableLeftEmpty(c, s);
    ReachableFifo(c, s);
    ReachableFlushing(c, s);
  }

  /** A decoder that flushes has noted whether the demuxer had met the end of the file. */
  predicate Flushing(s: State) {
    && (s.a.pc == AFlush ==> s.d.pc == DOff && (s.d.eof ==> s.o.clearedAtEof))
    && (s.a.pc == AFlush || s.a.pc == AClear ==> s.mpc != Stopped && s.mpc != DemuxerStarted)
  }

  lemma FlushingStep(c: Config, s: State, step: Step)
    requires Flushing(s) && Off(s) && Enabled(c, s, step)
    requires s.a.pc == AClear || s.a.pc == AFlush ==> s.d.pc == DOff
    ensures Flushing(Apply(c, s, step))
  {
    match step
    case Demuxer(d) => DemuxerLeaves(c, s, d);
    case Decoder(a) => FlushingDecoder(s, a);
    case Render(r) => RenderLeaves(s, r);
    case Callback(who, k) => CallLeaves(s, who, k);
    case _ =>
  }

  lemma FlushingDecoder(s: State, step: DecoderStep)
    requires Flushing(s) && Off(s) && DecoderEnabled(s, step)
    requires s.a.pc == AClear || s.a.pc == AFlush ==> s.d.pc == DOff
    ensures Flushing(DecoderApply(s, step))
  {
    DecoderLeaves(s, step);
    DecoderTakes(s, step);
  }

  lemma ReachableFlushing(c: Config, s: State)
    requires Reachable(c, s)
    ensures Flushing(s)
  {
    forall s, step | Reachable(c, s) && Flushing(s) && Enabled(c, s, step) ensures Flushing(Apply(c, s, step)) {
      ThreadsOff(c, s);
      FlushingStep(c, s, step);
    }
    Induction(c, s => Flushing(s));
  }

  /** In wait mode, unless the decoder was once stopped after the end of the file: since the decoder's last flush each
  frame in its output was preceded by a render config of the frame's own opening, so the render thread has taken
  that config before a call takes the frame. */
  lemma FramesAnnounced(c: Config, s: State)
    requires Reachable(c, s) && !c.skip && !s.o.clearedAtEof
    ensures Announced(s.o.pushed, AudioFrame, AudioRenderConfig)
    ensures Announced(s.o.popped, AudioFrame, AudioRenderConfig)
    ensures forall k :: 0 <= k < |s.o.popped| && s.o.popped[k].kind == AudioFrame ==>
              HasConfig(s.o.byRender, AudioRenderConfig, s.o.popped[k].gen)
  {
    forall s, step | Reachable(c, s) && Frames(s) && Enabled(c, s, step) ensures Frames(Apply(c, s, step)) {
      FramesStep(c, s, step);
    }
    Induction(c, s => Frames(s));
    TwoConsumersOneFifo(c, s);
    AnnouncedPrefix(s.o.popped, s.o.pushed, AudioFrame, AudioRenderConfig);
    forall k | 0 <= k < |s.o.popped| && s.o.popped[k].kind == AudioFrame
      ensures HasConfig(s.o.byRender, AudioRenderConfig, s.o.popped[k].gen)
    {
      var gen := s.o.popped[k].gen;
      assert HasConfig(s.o.popped[..k], AudioRenderConfig, gen);
      var j :| 0 <= j < k && s.o.popped[..k][j].kind == AudioRenderConfig && s.o.popped[..k][j].gen == gen;
      assert s.o.popped[j] == s.o.popped[..k][j];
      OnlyKeeps(s.o.popped, AudioRenderConfig, j);
    }
  }

  lemma {:induction false} OnlyKeeps(q: Queue, kind: Kind, j: nat)
    requires j < |q| && q[j].kind == kind
    ensures HasConfig(Only(q, kind), kind, q[j].gen)
    decreases |q|
  {
    var front, last := q[..|q| - 1], q[|q| - 1];
    if j < |front| {
      OnlyKeeps(front, kind, j);
      HasConfigAppend(Only(front, kind), last, kind, q[j].gen);
      assert Only(front, kind) + [] == Only(front, kind);
    } else {
      HasConfigAppend(Only(front, kind), last, kind, last.gen);
    }
  }
}
