/** The order of packets and frames, from the file to the player. */
module PlayerOrder {
  import opened Media
  import opened Player
  import opened PlayerControl
  import opened PlayerDecoder
  import opened Subsequences

  function HeldByDemuxer(pc: DemuxerPc, kind: Kind): seq<nat> {
    if PacketInHand(pc, kind) then [pc.m.src] else []
  }

  function HeldByDecoder(pc: DecoderPc): seq<nat> {
    if pc.AGot? && pc.m.kind == AudioPkt then [pc.m.src]
    else if pc.APush? && pc.m.kind == AudioFrame then [pc.m.src]
    else []
  }

  /** The packets of one kind that have been read and not yet taken. */
  function Pending(q: Queue, pc: DemuxerPc, kind: Kind): seq<nat> {
    Sources(q, kind) + HeldByDemuxer(pc, kind)
  }

  // ---- queues

  lemma PendingPush(q: Queue, m: Message, kind: Kind)
    ensures Sources(q + [m], kind) == if m.kind == kind then Sources(q, kind) + [m.src] else Sources(q, kind)
  {
    SourcesAppend(q, [m], kind);
    SourcesOne(m, kind);
  }

  lemma PendingDropNewest(q: Queue, kind: Kind)
    ensures Sub(Sources(WithoutNewest(q), kind), Sources(q, kind))
  {
    NewestSplit(q);
    SourcesAppend(WithoutNewest(q), Newest(q), kind);
    SubPrefix(Sources(WithoutNewest(q), kind), Sources(Newest(q), kind));
  }

  lemma PendingShrinks(q: Queue, p: Queue, pc: DemuxerPc, pc': DemuxerPc, kind: Kind)
    requires p == q || p == WithoutNewest(q) || p == []
    requires HeldByDemuxer(pc, kind) == HeldByDemuxer(pc', kind)
    ensures Sub(Pending(p, pc', kind), Pending(q, pc, kind))
  {
    SubSame(Pending(q, pc, kind));
    PendingDropNewest(q, kind);
    SubNone(Sources(q, kind));
    SubSame(HeldByDemuxer(pc, kind));
    if p == [] {
      SubConcat([], Sources(q, kind), HeldByDemuxer(pc, kind), HeldByDemuxer(pc, kind));
    } else if p != q {
      SubConcat(Sources(p, kind), Sources(q, kind), HeldByDemuxer(pc, kind), HeldByDemuxer(pc, kind));
    }
  }

  // ---- the demuxer

  function QueueOf(d: Demux, kind: Kind): Queue {
    if kind == AudioPkt then d.audioQ else d.videoQ
  }

  function PendingOf(d: Demux, kind: Kind): seq<nat> {
    Pending(QueueOf(d, kind), d.pc, kind)
  }

  predicate Reads(step: DemuxerStep, kind: Kind) {
    step.DReadStep? && PacketKind(step.stream) == kind
  }

  predicate Packet(kind: Kind) {
    kind == AudioPkt || kind == VideoPkt
  }

  lemma PendingRead(c: Config, s: State, step: DemuxerStep, kind: Kind)
    requires Packet(kind) && step.DReadStep? && DemuxerEnabled(s, step)
    ensures var t := DemuxerApply(c, s, step);
      PendingOf(t.d, kind) == if Reads(step, kind) then PendingOf(s.d, kind) + [s.m.nextId] else PendingOf(s.d, kind)
  {
  }

  lemma PendingConfig(c: Config, s: State, step: DemuxerStep, kind: Kind)
    requires Packet(kind) && (step.DConfigVideoStep? || step.DConfigAudioStep?) && DemuxerEnabled(s, step)
    ensures PendingOf(DemuxerApply(c, s, step).d, kind) == PendingOf(s.d, kind)
  {
    var t := DemuxerApply(c, s, step);
    assert HeldByDemuxer(t.d.pc, kind) == HeldByDemuxer(s.d.pc, kind);
    if step.DConfigVideoStep? {
      PendingPush(s.d.videoQ, Message(VideoCodecConfig, s.m.nextId, s.m.nextId, s.d.gen), kind);
    } else {
      PendingPush(s.d.audioQ, Message(AudioCodecConfig, s.m.nextId, s.m.nextId, s.d.gen), kind);
    }
  }

  lemma PushedHere(q: Queue, p: Message)
    ensures Pending(q + [p], DTop, p.kind) == Pending(q, DPush(p), p.kind)
  {
    PendingPush(q, p, p.kind);
    assert HeldByDemuxer(DTop, p.kind) == [] && HeldByDemuxer(DPush(p), p.kind) == [p.src];
  }

  lemma PushedElsewhere(q: Queue, p: Message, kind: Kind)
    requires p.kind != kind
    ensures Pending(q, DTop, kind) == Pending(q, DPush(p), kind)
  {
  }

  lemma PendingPacket(s: State, p: Message, kind: Kind)
    requires Packet(kind) && s.d.pc == DPush(p)
    ensures PendingOf(DPushDo(s, p).d, kind) == PendingOf(s.d, kind)
  {
    PushedQueue(s, p, kind);
    if p.kind == kind {
      PushedHere(QueueOf(s.d, kind), p);
    } else {
      PushedElsewhere(QueueOf(s.d, kind), p, kind);
    }
  }

  lemma PushedQueue(s: State, p: Message, kind: Kind)
    requires Packet(kind)
    ensures var d := DPushDo(s, p).d;
      d.pc == DTop && QueueOf(d, kind) == if p.kind == kind then QueueOf(s.d, kind) + [p] else QueueOf(s.d, kind)
  {
  }

  function ReadOf(i: InputLog, kind: Kind): seq<nat> {
    if kind == AudioPkt then i.audioRead else i.videoRead
  }

  /** Reading a packet appends it; any other step of the demuxer only takes packets away, and in wait mode
  only a flush does. */
  lemma PendingDemuxer(c: Config, s: State, step: DemuxerStep, kind: Kind)
    requires Packet(kind) && DemuxerEnabled(s, step)
    ensures var t := DemuxerApply(c, s, step);
      Moves(PendingOf(s.d, kind), PendingOf(t.d, kind), ReadOf(s.i, kind), ReadOf(t.i, kind),
            !c.skip && !step.DFlushVideoStep? && !step.DFlushAudioStep?)
  {
    match step
    case DReadStep(_) => PendingMovesRead(c, s, step, kind);
    case DConfigVideoStep => PendingMovesSent(c, s, step, kind);
    case DConfigAudioStep => PendingMovesSent(c, s, step, kind);
    case DPushStep => PendingMovesSent(c, s, step, kind);
    case DCheckStep => PendingMovesLess(c, s, step, kind);
    case DGateStep => PendingMovesLess(c, s, step, kind);
    case DEofStep(_, _) => PendingMovesLess(c, s, step, kind);
    case DFlushVideoStep => PendingMovesLess(c, s, step, kind);
    case DFlushAudioStep => PendingMovesLess(c, s, step, kind);
  }

  lemma PendingMovesRead(c: Config, s: State, step: DemuxerStep, kind: Kind)
    requires Packet(kind) && step.DReadStep? && DemuxerEnabled(s, step)
    ensures var t := DemuxerApply(c, s, step);
      Moves(PendingOf(s.d, kind), PendingOf(t.d, kind), ReadOf(s.i, kind), ReadOf(t.i, kind), true)
  {
    PendingRead(c, s, step, kind);
    MovesSame(PendingOf(s.d, kind), ReadOf(s.i, kind), true);
  }

  lemma PendingMovesSent(c: Config, s: State, step: DemuxerStep, kind: Kind)
    requires Packet(kind) && (step.DConfigVideoStep? || step.DConfigAudioStep? || step.DPushStep?)
    requires DemuxerEnabled(s, step)
    ensures var t := DemuxerApply(c, s, step);
      Moves(PendingOf(s.d, kind), PendingOf(t.d, kind), ReadOf(s.i, kind), ReadOf(t.i, kind), true)
  {
    SentReadsNothing(c, s, step);
    MovesSame(PendingOf(s.d, kind), ReadOf(s.i, kind), true);
    if step.DPushStep? {
      PendingPacket(s, s.d.pc.m, kind);
    } else {
      PendingConfig(c, s, step, kind);
    }
  }

  lemma SentReadsNothing(c: Config, s: State, step: DemuxerStep)
    requires step.DConfigVideoStep? || step.DConfigAudioStep? || step.DPushStep?
    requires DemuxerEnabled(s, step)
    ensures var t := DemuxerApply(c, s, step); t.i.audioRead == s.i.audioRead && t.i.videoRead == s.i.videoRead
  {
  }

  lemma PendingMovesLess(c: Config, s: State, step: DemuxerStep, kind: Kind)
    requires Packet(kind) && DemuxerEnabled(s, step)
    requires !step.DReadStep? && !step.DConfigVideoStep? && !step.DConfigAudioStep? && !step.DPushStep?
    ensures var t := DemuxerApply(c, s, step);
      Moves(PendingOf(s.d, kind), PendingOf(t.d, kind), ReadOf(s.i, kind), ReadOf(t.i, kind),
            !c.skip && !step.DFlushVideoStep? && !step.DFlushAudioStep?)
  {
    var t := DemuxerApply(c, s, step);
    PendingShrinks(QueueOf(s.d, kind), QueueOf(t.d, kind), s.d.pc, t.d.pc, kind);
  }

  // ---- the decoder and its output queue

  /** Decoded and not yet played, then the packet in the decoder's hands. */
  function Onward(a: Decode): seq<nat> {
    Sources(a.outQ, AudioFrame) + HeldByDecoder(a.pc)
  }

  /** Every audio packet on its way, the oldest first. */
  function Tail(d: Demux, a: Decode): seq<nat> {
    Onward(a) + PendingOf(d, AudioPkt)
  }

  /** What is popped goes from the front of the queue to the decoder's hands. */
  lemma PoppedHeld(q: Queue, pc: DemuxerPc)
    requires q != [] && InputKinds(q, AudioPkt, AudioCodecConfig)
    ensures HeldByDecoder(AGot(q[0])) + Pending(q[1..], pc, AudioPkt) == Pending(q, pc, AudioPkt)
  {
    SourcesHead(q, AudioPkt);
    Regroup(HeldByDecoder(AGot(q[0])), Sources(q[1..], AudioPkt), HeldByDemuxer(pc, AudioPkt));
  }

  lemma TailPop(s: State)
    requires s.a.pc == APop && s.d.audioQ != [] && DemuxKinds(s.d)
    ensures Tail(APopDo(s).d, APopDo(s).a) == Tail(s.d, s.a)
    ensures APopDo(s).i.taken + PendingOf(APopDo(s).d, AudioPkt) == s.i.taken + PendingOf(s.d, AudioPkt)
  {
    var q, held := s.d.audioQ, HeldByDecoder(AGot(s.d.audioQ[0]));
    PoppedHeld(q, s.d.pc);
    Regroup(Sources(s.a.outQ, AudioFrame), held, Pending(q[1..], s.d.pc, AudioPkt));
    Regroup(s.i.taken, held, Pending(q[1..], s.d.pc, AudioPkt));
    NothingHeld(s.a);
    assert APopDo(s).i.taken == s.i.taken + held;
  }

  lemma NothingHeld(a: Decode)
    requires a.pc == APop
    ensures Onward(a) == Sources(a.outQ, AudioFrame)
  {
    assert HeldByDecoder(a.pc) == [];
  }

  lemma PushedOn(q: Queue, p: Message)
    ensures Sources(q + [p], AudioFrame) + HeldByDecoder(ATop) == Sources(q, AudioFrame) + HeldByDecoder(APush(p))
  {
    PendingPush(q, p, AudioFrame);
    assert HeldByDecoder(ATop) == [];
  }

  lemma TailPush(s: State, p: Message)
    requires s.a.pc == APush(p)
    ensures Tail(APushDo(s, p).d, APushDo(s, p).a) == Tail(s.d, s.a)
  {
    PushedOn(s.a.outQ, p);
  }

  lemma TailLoses(s: State, t: State)
    requires t.d == s.d && HeldByDecoder(t.a.pc) == [] && (t.a.outQ == s.a.outQ || t.a.outQ == [])
    ensures Sub(Tail(t.d, t.a), Tail(s.d, s.a))
  {
    var q, q', h := Sources(s.a.outQ, AudioFrame), Sources(t.a.outQ, AudioFrame), HeldByDecoder(s.a.pc);
    SubNone(h);
    SubNone(q);
    SubSame(q);
    SubConcat(q', q, [], h);
    SubSame(PendingOf(s.d, AudioPkt));
    SubConcat(q' + [], q + h, PendingOf(s.d, AudioPkt), PendingOf(s.d, AudioPkt));
  }

  /** The decoder keeps the order; it loses a packet only when it has no codec or when it is stopped. */
  lemma TailDecoder(s: State, step: DecoderStep)
    requires DemuxKinds(s.d) && DecodeKinds(s.a) && DecoderEnabled(s, step)
    ensures var t := DecoderApply(s, step);
      Sub(Tail(t.d, t.a), Tail(s.d, s.a))
      && (!Unconfigured(s.a) && step != AFlushStep ==> Tail(t.d, t.a) == Tail(s.d, s.a))
  {
    SubSame(Tail(s.d, s.a));
    match step
    case APopStep => if s.d.audioQ != [] { TailPop(s); }
    case APushStep => TailPush(s, s.a.pc.m);
    case AFlushStep => TailLoses(s, AFlushDo(s));
    case AHandleStep =>
      if Unconfigured(s.a) {
        TailLoses(s, AHandle(s, s.a.pc.m));
      } else {
        assert HeldByDecoder(AHandle(s, s.a.pc.m).a.pc) == HeldByDecoder(s.a.pc);
      }
    case _ =>
  }

  lemma OutputPops(a: Decode, b: Decode)
    requires a.outQ != [] && b == a.(outQ := a.outQ[1..])
    ensures (if a.outQ[0].kind == AudioFrame then [a.outQ[0].src] else []) + Onward(b) == Onward(a)
  {
    SourcesHead(a.outQ, AudioFrame);
    Regroup(if a.outQ[0].kind == AudioFrame then [a.outQ[0].src] else [], Sources(b.outQ, AudioFrame),
            HeldByDecoder(a.pc));
  }
}
