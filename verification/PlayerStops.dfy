/** What a stop brings to an end, and what counts the openings of the file. */
module PlayerStops {
  import opened Media
  import opened Player
  import opened PlayerControl

  /** The render thread is cancelled, and no call is about to look for a frame. */
  predicate Cancelled(r: Output) {
    r.cancel && r.direct != CTry && r.fromPlayer != CTry
  }

  lemma CancelledStep(c: Config, s: State, step: Step)
    requires Cancelled(s.r) && Enabled(c, s, step) && step != Start
    ensures var t := Apply(c, s, step); Cancelled(t.r) && t.o.played == s.o.played
  {
    match step
    case Demuxer(d) => DemuxerLeaves(c, s, d);
    case Decoder(a) => CancelledDecoder(s, a);
    case Render(r) => CancelledRender(s, r);
    case Callback(who, k) => CancelledCall(s, who, k);
    case _ =>
  }

  lemma CancelledDecoder(s: State, step: DecoderStep)
    requires DecoderEnabled(s, step)
    ensures var t := DecoderApply(s, step); t.r == s.r && t.o.played == s.o.played
  {
  }

  lemma CancelledRender(s: State, step: RenderStep)
    requires Cancelled(s.r) && RenderEnabled(s, step)
    ensures var t := RenderApply(s, step); Cancelled(t.r) && t.o.played == s.o.played
  {
  }

  lemma CancelledCall(s: State, who: Caller, step: CallStep)
    requires Cancelled(s.r) && CallEnabled(s, who, step)
    ensures var t := CallApply(s, who, step); Cancelled(t.r) && t.o.played == s.o.played
  {
  }

  /** Until it is started again, a cancelled render thread and the player's calls take no frame but the one they may
  have been looking for. */
  lemma {:induction false} NoFrameAfterCancel(c: Config, s: State, steps: seq<Step>)
    requires Valid(c, s, steps) && Cancelled(s.r) && forall i :: 0 <= i < |steps| ==> steps[i] != Start
    ensures After(c, s, steps).o.played == s.o.played
    decreases |steps|
  {
    if steps != [] {
      CancelledStep(c, s, steps[0]);
      assert forall i :: 0 <= i < |steps[1..]| ==> steps[1..][i] == steps[i + 1];
      NoFrameAfterCancel(c, Apply(c, s, steps[0]), steps[1..]);
    }
  }

  // ---- openings

  /** How often the end of the file was met in a loop. */
  function Reopenings(c: Config, steps: seq<Step>): nat
    decreases |steps|
  {
    if steps == [] then 0
    else (if c.loop && steps[0].Demuxer? && steps[0].d.DEofStep? then 1 else 0) + Reopenings(c, steps[1..])
  }

  /** Every reopening of the file starts a new generation of messages, and nothing else does. */
  lemma {:induction false} GenerationsCount(c: Config, s: State, steps: seq<Step>)
    requires Valid(c, s, steps)
    ensures After(c, s, steps).d.gen == s.d.gen + Reopenings(c, steps)
    decreases |steps|
  {
    if steps != [] {
      GenerationStep(c, s, steps[0]);
      GenerationsCount(c, Apply(c, s, steps[0]), steps[1..]);
    }
  }

  lemma GenerationStep(c: Config, s: State, step: Step)
    requires Enabled(c, s, step)
    ensures Apply(c, s, step).d.gen
         == s.d.gen + if c.loop && step.Demuxer? && step.d.DEofStep? then 1 else 0
  {
    match step
    case Demuxer(d) => GenerationDemuxer(c, s, d);
    case Start =>
    case Stop =>
    case _ => OthersRest(c, s, step);
  }

  lemma GenerationDemuxer(c: Config, s: State, step: DemuxerStep)
    requires DemuxerEnabled(s, step)
    ensures DemuxerApply(c, s, step).d.gen == s.d.gen + if c.loop && step.DEofStep? then 1 else 0
  {
    match step
    case DGateStep =>
    case DConfigVideoStep =>
    case DConfigAudioStep =>
    case DPushStep =>
    case _ =>
  }
}
