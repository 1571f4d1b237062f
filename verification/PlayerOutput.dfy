/** The decoder's output queue and its two consumers. */
module PlayerOutput {
  import opened Media
  import opened Player
  import opened PlayerControl

  function Only(q: Queue, kind: Kind): Queue {
    if q == [] then []
    else Only(q[..|q| - 1], kind) + (if q[|q| - 1].kind == kind then [q[|q| - 1]] else [])
  }

  lemma OnlyAppend(q: Queue, m: Message, kind: Kind)
    ensures Only(q + [m], kind) == if m.kind == kind then Only(q, kind) + [m] else Only(q, kind)
  {
    assert (q + [m])[..|q|] == q;
  }

  /** Since the last flush: what was popped, by whichever consumer, is what was pushed first; the calls popped
  its frames and the render thread the rest. */
  predicate OneFifo(a: Decode, o: OutputLog) {
    && o.popped + a.outQ == o.pushed
    && o.byCalls == Only(o.popped, AudioFrame)
    && o.byRender == Only(o.popped, AudioRenderConfig)
    && |o.byCalls| + |o.byRender| == |o.popped|
  }

  lemma OneFifoPush(s: State, p: Message)
    requires OneFifo(s.a, s.o)
    ensures OneFifo(APushDo(s, p).a, APushDo(s, p).o)
  {
    assert s.o.popped + (s.a.outQ + [p]) == (s.o.popped + s.a.outQ) + [p];
  }

  lemma OneFifoPop(a: Decode, o: OutputLog, b: Decode, u: OutputLog)
    requires OneFifo(a, o) && DecodeKinds(a) && a.outQ != [] && b.outQ == a.outQ[1..]
    requires u.pushed == o.pushed && u.popped == o.popped + [a.outQ[0]]
    requires u.byCalls == if a.outQ[0].kind == AudioFrame then o.byCalls + [a.outQ[0]] else o.byCalls
    requires u.byRender == if a.outQ[0].kind == AudioFrame then o.byRender else o.byRender + [a.outQ[0]]
    ensures OneFifo(b, u)
  {
    assert (o.popped + [a.outQ[0]]) + a.outQ[1..] == o.popped + a.outQ;
    OnlyAppend(o.popped, a.outQ[0], AudioFrame);
    OnlyAppend(o.popped, a.outQ[0], AudioRenderConfig);
  }

  lemma OneFifoPeek(s: State)
    requires OneFifo(s.a, s.o) && DecodeKinds(s.a) && s.r.pc == RPeek
    ensures OneFifo(RPeekDo(s).a, RPeekDo(s).o)
  {
    if s.a.outQ != [] && s.a.outQ[0].kind != AudioFrame {
      OneFifoPop(s.a, s.o, RPeekDo(s).a, RPeekDo(s).o);
    }
  }

  lemma OneFifoTry(s: State, who: Caller)
    requires OneFifo(s.a, s.o) && DecodeKinds(s.a) && InCall(s.r, who) == CTry
    ensures OneFifo(CTryDo(s, who).a, CTryDo(s, who).o)
  {
    if s.a.outQ != [] && s.a.outQ[0].kind == AudioFrame {
      OneFifoPop(s.a, s.o, CTryDo(s, who).a, CTryDo(s, who).o);
    }
  }

  lemma OneFifoDecoder(s: State, step: DecoderStep)
    requires OneFifo(s.a, s.o) && DecoderEnabled(s, step)
    ensures var t := DecoderApply(s, step); OneFifo(t.a, t.o)
  {
    if step.APushStep? {
      OneFifoPush(s, s.a.pc.m);
    }
  }

  lemma OneFifoStep(c: Config, s: State, step: Step)
    requires OneFifo(s.a, s.o) && DecodeKinds(s.a) && Enabled(c, s, step)
    ensures var t := Apply(c, s, step); OneFifo(t.a, t.o)
  {
    match step
    case Demuxer(d) => DemuxerLeaves(c, s, d);
    case Decoder(a) => OneFifoDecoder(s, a);
    case Render(r) =>
      if r.RPeekStep? {
        OneFifoPeek(s);
      }
    case Callback(who, k) =>
      if k.CTryStep? {
        OneFifoTry(s, who);
      }
    case _ =>
  }

  /** The two consumers together pop the output queue first in, first out: the calls take exactly the frames,
  the render thread exactly the rest, each in queue order. */
  lemma TwoConsumersOneFifo(c: Config, s: State)
    requires Reachable(c, s)
    ensures s.o.popped + s.a.outQ == s.o.pushed
    ensures s.o.byCalls == Only(s.o.popped, AudioFrame) && s.o.byRender == Only(s.o.popped, AudioRenderConfig)
    ensures |s.o.byCalls| + |s.o.byRender| == |s.o.popped|
  {
    forall s, step | Reachable(c, s) && OneFifo(s.a, s.o) && Enabled(c, s, step)
      ensures var t := Apply(c, s, step); OneFifo(t.a, t.o)
    {
      ReachableShape(c, s);
      OneFifoStep(c, s, step);
    }
    Induction(c, (s: State) => OneFifo(s.a, s.o));
  }
}
