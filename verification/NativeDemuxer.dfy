/** CDemuxer: its fields, its lock-protected sections and its loop, against the transition system. */
module NativeDemuxer {
  import opened Media
  import opened Player
  import opened PlayerControl
  import opened Queues
  import LockOrder

  /** What av_read_frame delivers; when it fails, the streams found if the file is opened again. */
  datatype Frame = Packet(stream: Stream) | NoFrame(video: bool, audio: bool)

  class CDemuxer {
    const videoQueue: CQueue
    const audioQueue: CQueue
    const thread: CThread
    const heap: CHeap
    ghost const trace: CTrace
    const isSkipPacket: bool
    const isLoop: bool
    const packetBufferSize: nat
    var isResentConfig: bool
    var eof: bool
    var hasVideo: bool
    var hasAudio: bool
    var openings: nat

    /** Two queues and a cancel flag, each with its own mutex, and none taken. */
    ghost predicate AtRest()
      reads videoQueue, audioQueue, thread
    {
      && thread.name == LockOrder.DemuxerThread && !thread.locked
      && videoQueue.name == LockOrder.VideoQueue && audioQueue.name == LockOrder.AudioQueue
      && !videoQueue.locked && !audioQueue.locked
    }

    /** The object's part of a state of the system, at a point where no mutex is held. */
    ghost predicate Agrees(c: Config, s: State)
      reads this, videoQueue, audioQueue, thread, heap
    {
      && AtRest()
      && c.skip == isSkipPacket && c.loop == isLoop && c.size == packetBufferSize
      && s.d == Demux(videoQueue.items, audioQueue.items, isResentConfig, eof, hasVideo, hasAudio, openings,
                      s.d.pc, thread.cancel)
      && s.m == s.m.(nextId := heap.next, released := heap.released, leaked := heap.leaked)
      && DemuxKinds(s.d)
    }

    /** The section with both locks; go says whether the loop leaves it to read. */
    method CheckRoom(ghost c: Config) returns (go: bool)
      requires AtRest()
      requires InputKinds(videoQueue.items, VideoPkt, VideoCodecConfig)
      requires InputKinds(audioQueue.items, AudioPkt, AudioCodecConfig)
      requires c.skip == isSkipPacket && c.size == packetBufferSize
      modifies videoQueue, audioQueue, heap`released, trace
      ensures var g := Media.PassGate(c, old(videoQueue.items), old(audioQueue.items));
        && go == g.go && videoQueue.items == g.video && audioQueue.items == g.audio
        && heap.released == old(heap.released) + g.released
      ensures AtRest() && trace.ops == old(trace.ops) + LockOrder.Both()
    {
      audioQueue.Acquire(trace);
      videoQueue.Acquire(trace);
      go := true;
      if |videoQueue.items| > packetBufferSize || |audioQueue.items| > packetBufferSize {
        if isSkipPacket {
          DropBoth();
        } else {
          go := false;
        }
      }
      videoQueue.Release(trace);
      audioQueue.Release(trace);
    }

    method PassGate(ghost c: Config, ghost s: State) returns (go: bool)
      requires Agrees(c, s) && s.d.pc == DGate
      modifies videoQueue, audioQueue, heap`released, trace
      ensures trace.ops == old(trace.ops) + LockOrder.Both()
      ensures Agrees(c, DGateDo(c, s)) && go == (DGateDo(c, s).d.pc == DRead)
    {
      ShapeDemuxer(c, s, DGateStep);
      go := CheckRoom(c);
    }

    method DropBoth()
      requires videoQueue.name != audioQueue.name && videoQueue.locked && audioQueue.locked
      requires InputKinds(videoQueue.items, VideoPkt, VideoCodecConfig)
      requires InputKinds(audioQueue.items, AudioPkt, AudioCodecConfig)
      modifies videoQueue`items, audioQueue`items, heap`released
      ensures videoQueue.items == WithoutNewest(old(videoQueue.items))
      ensures audioQueue.items == WithoutNewest(old(audioQueue.items))
      ensures heap.released == old(heap.released)
              + (Ids(Newest(old(videoQueue.items))) + Ids(Newest(old(audioQueue.items))))
    {
      DropNewest(videoQueue, heap);
      DropNewest(audioQueue, heap);
    }

    method SendVideoConfig()
      requires !videoQueue.locked
      modifies videoQueue, heap`next, trace
      ensures trace.ops == old(trace.ops) + LockOrder.Alone(videoQueue.name)
      ensures !videoQueue.locked && heap.next == old(heap.next) + (if hasVideo then 1 else 0)
      ensures videoQueue.items == WithConfig(old(videoQueue.items), hasVideo,
                                             Message(VideoCodecConfig, old(heap.next), old(heap.next), openings))
    {
      videoQueue.Acquire(trace);
      if hasVideo {
        var id := heap.Allocate();
        videoQueue.PushBack(Message(VideoCodecConfig, id, id, openings));
      }
      videoQueue.Release(trace);
    }

    method SendAudioConfig()
      requires !audioQueue.locked
      modifies audioQueue, heap`next, trace
      ensures trace.ops == old(trace.ops) + LockOrder.Alone(audioQueue.name)
      ensures !audioQueue.locked && heap.next == old(heap.next) + (if hasAudio then 1 else 0)
      ensures audioQueue.items == WithConfig(old(audioQueue.items), hasAudio,
                                             Message(AudioCodecConfig, old(heap.next), old(heap.next), openings))
    {
      audioQueue.Acquire(trace);
      if hasAudio {
        var id := heap.Allocate();
        audioQueue.PushBack(Message(AudioCodecConfig, id, id, openings));
      }
      audioQueue.Release(trace);
    }

    constructor (heap: CHeap, ghost trace: CTrace, loop: bool, skip: bool, size: nat)
      ensures this.heap == heap && this.trace == trace
      ensures isLoop == loop && isSkipPacket == skip && packetBufferSize == size
      ensures fresh(videoQueue) && fresh(audioQueue) && AtRest()
      ensures videoQueue.items == [] && audioQueue.items == []
      ensures !isResentConfig && !eof && !hasVideo && !hasAudio && openings == 0 && fresh(thread) && !thread.cancel
    {
      this.trace := trace;
      this.heap, isLoop, isSkipPacket, packetBufferSize := heap, loop, skip, size;
      isResentConfig, eof, hasVideo, hasAudio, openings := false, false, false, false, 0;
      thread := new CThread(LockOrder.DemuxerThread);
      videoQueue := new CQueue(LockOrder.VideoQueue);
      audioQueue := new CQueue(LockOrder.AudioQueue);
    }

    /** openFile: the streams of the file, and the codec configs for the two decoders. */
    method OpenFile(video: bool, audio: bool)
      requires AtRest()
      modifies this`eof, this`hasVideo, this`hasAudio, videoQueue, audioQueue, heap`next, trace
      ensures !eof && hasVideo == video && hasAudio == audio && AtRest()
      ensures trace.ops == old(trace.ops) + ConfigOps()
      ensures var a := old(heap.next) + if video then 1 else 0;
        && heap.next == a + (if audio then 1 else 0)
        && videoQueue.items == WithConfig(old(videoQueue.items), video,
                                          Message(VideoCodecConfig, old(heap.next), old(heap.next), openings))
        && audioQueue.items == WithConfig(old(audioQueue.items), audio, Message(AudioCodecConfig, a, a, openings))
    {
      eof := false;
      hasVideo, hasAudio := video, audio;
      SendVideoConfig();
      SendAudioConfig();
    }

    /** With a packet in hand and the resend flag set: the configs again. */
    method Resend(ghost c: Config, ghost s: State)
      requires Agrees(c, s) && s.d.pc.DResendVideo?
      modifies videoQueue, audioQueue, heap`next, trace
      ensures Agrees(c, DConfigAudioDo(DConfigVideoDo(s))) && trace.ops == old(trace.ops) + ConfigOps()
    {
      SendVideoConfig();
      SendAudioConfig();
    }

    /** A failed read in a loop: the file is opened again and the resend flag cleared. */
    method Reopen(ghost c: Config, ghost s: State, video: bool, audio: bool)
      requires Agrees(c, s) && s.d.pc == DRead && isLoop
      modifies this`eof, this`hasVideo, this`hasAudio, this`openings, this`isResentConfig
      modifies videoQueue, audioQueue, heap`next, trace
      ensures Agrees(c, DConfigAudioDo(DConfigVideoDo(DEofDo(c, s, video, audio))))
      ensures trace.ops == old(trace.ops) + ConfigOps()
    {
      ReopenedState(c, s, video, audio);
      OpenAnew(c, s, AfterFailure(c, s, video, audio), video, audio);
    }

    method OpenAnew(ghost c: Config, ghost s: State, ghost t: State, video: bool, audio: bool)
      requires Agrees(c, s) && Reopened(s, t, video, audio)
      modifies this`eof, this`hasVideo, this`hasAudio, this`openings, this`isResentConfig
      modifies videoQueue, audioQueue, heap`next, trace
      ensures Agrees(c, t) && trace.ops == old(trace.ops) + ConfigOps()
    {
      openings := openings + 1;
      OpenFile(video, audio);
      isResentConfig := false;
    }

    method Push(ghost c: Config, ghost s: State, p: Message)
      requires Agrees(c, s) && s.d.pc == DPush(p)
      modifies videoQueue, audioQueue, heap`leaked, trace
      ensures Agrees(c, DPushDo(s, p))
      ensures trace.ops == old(trace.ops) + PushOps(p.kind)
    {
      if p.kind == AudioPkt {
        audioQueue.Acquire(trace);
        audioQueue.PushBack(p);
        audioQueue.Release(trace);
      } else if p.kind == VideoPkt {
        videoQueue.Acquire(trace);
        videoQueue.PushBack(p);
        videoQueue.Release(trace);
      } else {
        heap.Forget(p.id);
      }
    }

    method Flush(ghost c: Config, ghost s: State)
      requires Agrees(c, s) && s.d.pc == DFlushVideo
      modifies this`isResentConfig, videoQueue, audioQueue, heap`released, trace
      ensures Agrees(c, DFlushAudioDo(DFlushVideoDo(s)))
      ensures trace.ops == old(trace.ops) + ConfigOps()
    {
      Drain(videoQueue, heap, trace);
      Drain(audioQueue, heap, trace);
      isResentConfig := true;
    }

    /** A failed read. */
    method ReadFails(ghost c: Config, ghost s: State, video: bool, audio: bool) returns (again: bool)
      requires Agrees(c, s) && s.d.pc == DRead
      modifies this`eof, this`hasVideo, this`hasAudio, this`openings, this`isResentConfig
      modifies videoQueue, audioQueue, heap`next, trace
      ensures again == isLoop && Agrees(c, AfterFailure(c, s, video, audio))
      ensures trace.ops == old(trace.ops) + if isLoop then ConfigOps() else []
    {
      again := isLoop;
      if isLoop {
        Reopen(c, s, video, audio);
      } else {
        eof := true;
      }
    }

    /** A packet: the configs first if they are to be sent again, then the packet itself. */
    method ReadSucceeds(ghost c: Config, ghost s: State, stream: Stream)
      requires Agrees(c, s) && s.d.pc == DRead
      requires (stream == Audio ==> hasAudio) && (stream == Video ==> hasVideo)
      modifies videoQueue, audioQueue, heap, trace
      ensures Agrees(c, AfterPacket(s, stream))
      ensures trace.ops == old(trace.ops) + PacketOps(old(isResentConfig), stream)
    {
      var p := Take(c, s, stream);
      ghost var before := trace.ops;
      ghost var configs := if isResentConfig then ConfigOps() else [];
      if isResentConfig {
        Resend(c, DReadDo(s, stream));
      }
      assert trace.ops == before + configs;
      Push(c, Announced(s, stream), p);
      OpsAssociate(before, configs, PushOps(p.kind));
    }

    method Take(ghost c: Config, ghost s: State, stream: Stream) returns (p: Message)
      requires Agrees(c, s) && s.d.pc == DRead
      requires (stream == Audio ==> hasAudio) && (stream == Video ==> hasVideo)
      modifies heap`next
      ensures Agrees(c, DReadDo(s, stream)) && p == Message(PacketKind(stream), s.m.nextId, s.m.nextId, s.d.gen)
    {
      var id := heap.Allocate();
      p := Message(PacketKind(stream), id, id, openings);
    }

    /** av_read_frame and what follows it. */
    method ReadFrame(ghost c: Config, ghost s: State, frame: Frame) returns (again: bool)
      requires Agrees(c, s) && s.d.pc == DRead && Possible(s.d, frame)
      modifies this`eof, this`hasVideo, this`hasAudio, this`openings, this`isResentConfig
      modifies videoQueue, audioQueue, heap, trace
      ensures Agrees(c, AfterFrame(c, s, frame)) && AfterFrame(c, s, frame).d.pc == if again then DTop else DOff
      ensures Went(old(trace.ops), trace.ops)
    {
      LockOrder.WentNowhere({}, LockOrder.DemuxerThread, trace.ops);
      match frame
      case NoFrame(video, audio) =>
        ConfigSections();
        WentBy(trace.ops, trace.ops, ConfigOps());
        again := ReadFails(c, s, video, audio);
      case Packet(stream) =>
        PacketSections(isResentConfig, stream);
        WentBy(trace.ops, trace.ops, PacketOps(isResentConfig, stream));
        ReadSucceeds(c, s, stream);
        again := true;
    }

    /** The gate and, if it opens, the read. */
    method TryToRead(ghost c: Config, ghost s: State, frame: Frame) returns (again: bool)
      requires Agrees(c, s) && s.d.pc == DGate && Possible(s.d, frame)
      modifies this`eof, this`hasVideo, this`hasAudio, this`openings, this`isResentConfig
      modifies videoQueue, audioQueue, heap, trace
      ensures Agrees(c, AfterTry(c, s, frame)) && AfterTry(c, s, frame).d.pc == if again then DTop else DOff
      ensures Went(old(trace.ops), trace.ops)
    {
      LockOrder.WentNowhere({}, LockOrder.DemuxerThread, trace.ops);
      LockOrder.WentThrough({}, LockOrder.DemuxerThread, trace.ops, trace.ops, LockOrder.Both());
      var go := PassGate(c, s);
      ghost var mid := trace.ops;
      again := true;
      if go {
        again := ReadFrame(c, DGateDo(c, s), frame);
        LockOrder.WentOn({}, LockOrder.DemuxerThread, old(trace.ops), mid, trace.ops);
      }
    }

    /** One pass of fileReading's loops with nobody else at the queues in between; again says whether the thread
    goes on. The pass is a run of the transition system, and takes mutexes in whole sections only. */
    method Pass(ghost c: Config, ghost s: State, frame: Frame) returns (again: bool, ghost steps: seq<Step>)
      requires Agrees(c, s) && s.d.pc == DTop && Possible(s.d, frame)
      modifies this`eof, this`hasVideo, this`hasAudio, this`openings, this`isResentConfig
      modifies videoQueue, audioQueue, thread`locked, heap, trace
      ensures Valid(c, s, steps) && Agrees(c, After(c, s, steps))
      ensures After(c, s, steps).d.pc == if again then DTop else DOff
      ensures Went(old(trace.ops), trace.ops)
    {
      steps := PassSteps(c, s, frame);
      PassRuns(c, s, frame);
      LockOrder.WentNowhere({}, LockOrder.DemuxerThread, trace.ops);
      LockOrder.WentThrough({}, LockOrder.DemuxerThread, trace.ops, trace.ops,
                            LockOrder.Alone(LockOrder.CancelOf(LockOrder.DemuxerThread)));
      var cancelled := thread.IsCancel(trace);
      ghost var mid := trace.ops;
      if cancelled {
        ConfigSections();
        WentBy(old(trace.ops), trace.ops, ConfigOps());
        Flush(c, DCheck(s));
        again := false;
      } else {
        again := TryToRead(c, DCheck(s), frame);
        LockOrder.WentOn({}, LockOrder.DemuxerThread, old(trace.ops), mid, trace.ops);
      }
    }

    /** fileReading, one pass after the other with nobody else at the queues: it stops when it is cancelled or
    meets the end of the file outside a loop, and all of it is one run of the transition system. A frame is
    read only if the gate is open in its pass. */
    method FileReading(ghost c: Config, ghost s: State, frames: seq<Frame>)
      returns (passes: nat, again: bool, ghost steps: seq<Step>)
      requires Agrees(c, s) && s.d.pc == DTop
      modifies this`eof, this`hasVideo, this`hasAudio, this`openings, this`isResentConfig
      modifies videoQueue, audioQueue, thread`locked, heap, trace
      ensures passes <= |frames| && (again ==> passes == |frames|)
      ensures Valid(c, s, steps) && Agrees(c, After(c, s, steps))
      ensures After(c, s, steps).d.pc == if again then DTop else DOff
      ensures Went(old(trace.ops), trace.ops)
    {
      passes, again, steps := 0, true, [];
      LockOrder.WentNowhere({}, LockOrder.DemuxerThread, trace.ops);
      while again && passes < |frames|
        invariant passes <= |frames|
        invariant Valid(c, s, steps) && Agrees(c, After(c, s, steps))
        invariant After(c, s, steps).d.pc == if again then DTop else DOff
        invariant Went(old(trace.ops), trace.ops)
        decreases |frames| - passes, again
      {
        ghost var t, mid := After(c, s, steps), trace.ops;
        ghost var more;
        again, more := Pass(c, t, Seen(frames[passes], hasVideo, hasAudio));
        RunsJoin(c, s, steps, t, more);
        LockOrder.WentOn({}, LockOrder.DemuxerThread, old(trace.ops), mid, trace.ops);
        steps := steps + more;
        passes := passes + 1;
      }
    }
  }

  /** CPlayer::open as far as the demuxer is concerned: a new demuxer whose file has been opened is where every
  run of the transition system starts. */
  method Opened(ghost c: Config, ghost trace: CTrace, heap: CHeap, video: bool, audio: bool, loop: bool, skip: bool,
                size: nat) returns (demuxer: CDemuxer)
    requires heap.next == 0 && heap.released == [] && heap.leaked == []
    requires c.loop == loop && c.skip == skip && c.size == size
    modifies heap`next, trace
    ensures fresh(demuxer) && demuxer.heap == heap && demuxer.trace == trace
    ensures demuxer.Agrees(c, Init(video, audio))
    ensures LockOrder.Went({}, LockOrder.MainThread, old(trace.ops), trace.ops)
  {
    demuxer := new CDemuxer(heap, trace, loop, skip, size);
    demuxer.OpenFile(video, audio);
    var t, v, a := LockOrder.MainThread, LockOrder.VideoQueue, LockOrder.AudioQueue;
    LockOrder.SectionedOne({}, t, LockOrder.Alone(v));
    LockOrder.SectionedOne({}, t, LockOrder.Alone(a));
    LockOrder.SectionedAppend({}, t, LockOrder.Alone(v), LockOrder.Alone(a));
    assert trace.ops[|old(trace.ops)|..] == ConfigOps();
  }

  /** A packet counts as audio or video only if it is of the stream chosen when the file was opened. */
  function Seen(frame: Frame, video: bool, audio: bool): Frame {
    match frame
    case Packet(Audio) => if audio then frame else Packet(Other)
    case Packet(Video) => if video then frame else Packet(Other)
    case _ => frame
  }

  // ---- the mutexes of a pass

  /** Both queues, one after the other: sending configs, and flushing. */
  function ConfigOps(): seq<LockOrder.Op> {
    LockOrder.Alone(LockOrder.VideoQueue) + LockOrder.Alone(LockOrder.AudioQueue)
  }

  /** Pushing a packet. */
  function PushOps(kind: Kind): seq<LockOrder.Op> {
    match kind
    case AudioPkt => LockOrder.Alone(LockOrder.AudioQueue)
    case VideoPkt => LockOrder.Alone(LockOrder.VideoQueue)
    case _ => []
  }

  function PacketOps(resend: bool, stream: Stream): seq<LockOrder.Op> {
    (if resend then ConfigOps() else []) + PushOps(PacketKind(stream))
  }

  ghost predicate Sections(ops: seq<LockOrder.Op>) {
    LockOrder.Sectioned({}, LockOrder.DemuxerThread, ops)
  }

  ghost predicate Went(before: seq<LockOrder.Op>, now: seq<LockOrder.Op>) {
    LockOrder.Went({}, LockOrder.DemuxerThread, before, now)
  }

  lemma ConfigSections()
    ensures Sections(ConfigOps())
  {
    var t, v, a := LockOrder.DemuxerThread, LockOrder.VideoQueue, LockOrder.AudioQueue;
    LockOrder.SectionedOne({}, t, LockOrder.Alone(v));
    LockOrder.SectionedOne({}, t, LockOrder.Alone(a));
    LockOrder.SectionedAppend({}, t, LockOrder.Alone(v), LockOrder.Alone(a));
  }

  lemma PushSections(kind: Kind)
    ensures Sections(PushOps(kind))
  {
    if PushOps(kind) == [] {
      LockOrder.SectionedNone({}, LockOrder.DemuxerThread);
    } else {
      LockOrder.SectionedOne({}, LockOrder.DemuxerThread, PushOps(kind));
    }
  }

  lemma PacketSections(resend: bool, stream: Stream)
    ensures Sections(PacketOps(resend, stream))
  {
    ConfigSections();
    PushSections(PacketKind(stream));
    LockOrder.SectionedNone({}, LockOrder.DemuxerThread);
    LockOrder.SectionedAppend({}, LockOrder.DemuxerThread, if resend then ConfigOps() else [],
                              PushOps(PacketKind(stream)));
  }

  lemma OpsAssociate(a: seq<LockOrder.Op>, b: seq<LockOrder.Op>, c: seq<LockOrder.Op>)
    ensures (a + b) + c == a + (b + c)
  {
  }

  lemma WentBy(before: seq<LockOrder.Op>, mid: seq<LockOrder.Op>, ops: seq<LockOrder.Op>)
    requires Went(before, mid) && Sections(ops)
    ensures Went(before, mid + ops)
  {
    LockOrder.WentFurther({}, LockOrder.DemuxerThread, before, mid, ops);
  }

  // ---- a pass as a run

  function AfterFailure(c: Config, s: State, video: bool, audio: bool): State {
    var t := DEofDo(c, s, video, audio);
    if c.loop then DConfigAudioDo(DConfigVideoDo(t)) else t
  }

  /** t is s with the file opened once more. */
  predicate Reopened(s: State, t: State, video: bool, audio: bool) {
    var n, g := s.m.nextId, s.d.gen + 1;
    var a := n + if video then 1 else 0;
    && t.d == Demux(WithConfig(s.d.videoQ, video, Message(VideoCodecConfig, n, n, g)),
                    WithConfig(s.d.audioQ, audio, Message(AudioCodecConfig, a, a, g)),
                    false, false, video, audio, g, DTop, s.d.cancel)
    && t.m == s.m.(nextId := a + if audio then 1 else 0)
    && DemuxKinds(t.d)
  }

  lemma ReopenedState(c: Config, s: State, video: bool, audio: bool)
    requires c.loop && s.d.pc == DRead && DemuxKinds(s.d)
    ensures Reopened(s, AfterFailure(c, s, video, audio), video, audio)
  {
  }

  /** With the packet in hand, after any configs. */
  function Announced(s: State, stream: Stream): State {
    var t := DReadDo(s, stream);
    if s.d.resend then DConfigAudioDo(DConfigVideoDo(t)) else t
  }

  function AfterPacket(s: State, stream: Stream): State {
    DPushDo(Announced(s, stream), Message(PacketKind(stream), s.m.nextId, s.m.nextId, s.d.gen))
  }

  const CONFIG_STEPS: seq<Step> := [Demuxer(DConfigVideoStep), Demuxer(DConfigAudioStep)]

  function FrameSteps(c: Config, s: State, frame: Frame): seq<Step> {
    match frame
    case NoFrame(video, audio) => [Demuxer(DEofStep(video, audio))] + if c.loop then CONFIG_STEPS else []
    case Packet(stream) =>
      [Demuxer(DReadStep(stream))] + (if s.d.resend then CONFIG_STEPS else []) + [Demuxer(DPushStep)]
  }

  function TrySteps(c: Config, s: State, frame: Frame): seq<Step> {
    [Demuxer(DGateStep)] + if DGateDo(c, s).d.pc == DRead then FrameSteps(c, DGateDo(c, s), frame) else []
  }

  function AfterFrame(c: Config, s: State, frame: Frame): State {
    match frame
    case NoFrame(video, audio) => AfterFailure(c, s, video, audio)
    case Packet(stream) => AfterPacket(s, stream)
  }

  function AfterTry(c: Config, s: State, frame: Frame): State {
    var t := DGateDo(c, s);
    if t.d.pc != DRead then t else AfterFrame(c, t, frame)
  }

  function PassSteps(c: Config, s: State, frame: Frame): seq<Step> {
    [Demuxer(DCheckStep)]
    + if s.d.cancel then [Demuxer(DFlushVideoStep), Demuxer(DFlushAudioStep)] else TrySteps(c, DCheck(s), frame)
  }

  function AfterPass(c: Config, s: State, frame: Frame): State {
    if s.d.cancel then DFlushAudioDo(DFlushVideoDo(DCheck(s))) else AfterTry(c, DCheck(s), frame)
  }

  predicate Possible(d: Demux, frame: Frame) {
    frame.Packet? ==> (frame.stream == Audio ==> d.hasAudio) && (frame.stream == Video ==> d.hasVideo)
  }

  lemma PacketRuns(c: Config, s: State, stream: Stream)
    requires s.d.pc == DRead && Possible(s.d, Packet(stream))
    ensures Valid(c, s, FrameSteps(c, s, Packet(stream)))
    ensures After(c, s, FrameSteps(c, s, Packet(stream))) == AfterPacket(s, stream)
  {
    var t := DReadDo(s, stream);
    var read: seq<Step> := [Demuxer(DReadStep(stream))];
    RunOne(c, s, Demuxer(DReadStep(stream)));
    if s.d.resend {
      RunTo(c, s, read, t, Demuxer(DConfigVideoStep));
      RunTo(c, s, read + [Demuxer(DConfigVideoStep)], DConfigVideoDo(t), Demuxer(DConfigAudioStep));
      assert (read + [Demuxer(DConfigVideoStep)]) + [Demuxer(DConfigAudioStep)] == read + CONFIG_STEPS;
      RunTo(c, s, read + CONFIG_STEPS, Announced(s, stream), Demuxer(DPushStep));
    } else {
      RunTo(c, s, read, t, Demuxer(DPushStep));
      assert read + [] == read;
    }
  }

  lemma FailureRuns(c: Config, s: State, video: bool, audio: bool)
    requires s.d.pc == DRead
    ensures Valid(c, s, FrameSteps(c, s, NoFrame(video, audio)))
    ensures After(c, s, FrameSteps(c, s, NoFrame(video, audio))) == AfterFailure(c, s, video, audio)
  {
    var t := DEofDo(c, s, video, audio);
    var eof: seq<Step> := [Demuxer(DEofStep(video, audio))];
    RunOne(c, s, Demuxer(DEofStep(video, audio)));
    assert eof + [] == eof;
    if c.loop {
      RunTo(c, s, eof, t, Demuxer(DConfigVideoStep));
      RunTo(c, s, eof + [Demuxer(DConfigVideoStep)], DConfigVideoDo(t), Demuxer(DConfigAudioStep));
      assert (eof + [Demuxer(DConfigVideoStep)]) + [Demuxer(DConfigAudioStep)] == eof + CONFIG_STEPS;
    }
  }

  lemma TryRuns(c: Config, s: State, frame: Frame)
    requires s.d.pc == DGate && Possible(s.d, frame)
    ensures Valid(c, s, TrySteps(c, s, frame)) && After(c, s, TrySteps(c, s, frame)) == AfterTry(c, s, frame)
  {
    var gate: seq<Step> := [Demuxer(DGateStep)];
    var t := DGateDo(c, s);
    RunOne(c, s, Demuxer(DGateStep));
    assert gate + [] == gate;
    if t.d.pc == DRead {
      match frame
      case NoFrame(video, audio) => FailureRuns(c, t, video, audio);
      case Packet(stream) => PacketRuns(c, t, stream);
      RunsJoin(c, s, gate, t, FrameSteps(c, t, frame));
    }
  }

  lemma FlushRuns(c: Config, s: State)
    requires s.d.pc == DFlushVideo
    ensures var steps: seq<Step> := [Demuxer(DFlushVideoStep), Demuxer(DFlushAudioStep)];
      Valid(c, s, steps) && After(c, s, steps) == DFlushAudioDo(DFlushVideoDo(s))
  {
    RunOne(c, s, Demuxer(DFlushVideoStep));
    RunTo(c, s, [Demuxer(DFlushVideoStep)], DFlushVideoDo(s), Demuxer(DFlushAudioStep));
  }

  lemma PassRuns(c: Config, s: State, frame: Frame)
    requires s.d.pc == DTop && Possible(s.d, frame)
    ensures Valid(c, s, PassSteps(c, s, frame)) && After(c, s, PassSteps(c, s, frame)) == AfterPass(c, s, frame)
  {
    var check: seq<Step> := [Demuxer(DCheckStep)];
    RunOne(c, s, Demuxer(DCheckStep));
    if s.d.cancel {
      FlushRuns(c, DCheck(s));
      RunsJoin(c, s, check, DCheck(s), [Demuxer(DFlushVideoStep), Demuxer(DFlushAudioStep)]);
    } else {
      TryRuns(c, DCheck(s), frame);
      RunsJoin(c, s, check, DCheck(s), TrySteps(c, DCheck(s), frame));
    }
  }
}
