/** The player as a transition system. An atomic step is one lock-protected section of a thread, or what the
thread does on its own data between two sections. */
module Player {
  import opened Octets
  import opened Media

  datatype Stream = Audio | Video | Other

  /** Where the demuxer thread is; a message in hand is a packet that has been read. */
  datatype DemuxerPc =
    | DOff
    | DTop
    | DGate
    | DRead
    | DOpenVideo
    | DOpenAudio
    | DResendVideo(m: Message)
    | DResendAudio(m: Message)
    | DPush(m: Message)
    | DFlushVideo
    | DFlushAudio

  datatype DecoderPc = AOff | ATop | APop | AGot(m: Message) | APush(m: Message) | AClear | AFlush

  datatype RenderPc =
    | ROff
    | RTop
    | RPeek
    | RDestroy(config: Option<Message>)
    | RDelete(config: Option<Message>)
    | RConfigure(m: Message)
    | RCalling

  /** A run of bufferQueuePlayerCallBack: called by the render thread itself, or by the player. */
  datatype Call = CIdle | CCheck | CTry | CTaken(m: Message) | CSaving(m: Message) | CStoring(m: Message)

  datatype Caller = Direct | FromPlayer

  /** CPlayer::start and CPlayer::stop, thread by thread. */
  datatype MainPc =
    | Stopped
    | DemuxerStarted
    | DecoderStarted
    | Playing
    | StoppingDemuxer
    | StoppingDecoder
    | StoppingRender

  /** CDemuxer. */
  datatype Demux = Demux(
    videoQ: Queue, audioQ: Queue, resend: bool, eof: bool, hasVideo: bool, hasAudio: bool, gen: nat,
    pc: DemuxerPc, cancel: bool)

  /** CAudioDecoder. */
  datatype Decode = Decode(outQ: Queue, codec: Option<nat>, pc: DecoderPc, cancel: bool)

  /** CAudioRender and its one-slot player. */
  datatype Output = Output(
    pc: RenderPc, direct: Call, fromPlayer: Call, player: bool, busy: bool,
    lastEnqueued: Option<nat>, current: Option<nat>, cancel: bool)

  /** Payloads: the next fresh one, the released ones, the ones nobody will release, and those the video
  decoder has taken. */
  datatype Memory = Memory(nextId: nat, released: seq<nat>, leaked: seq<nat>, videoTaken: Queue)

  /** What has passed the demuxer's queues. pushed and popped restart with a flush; the packets read and taken
  never do. reopened tells whether the file was ever opened again while configs were sent with every packet. */
  datatype InputLog = InputLog(
    audioRead: seq<nat>, videoRead: seq<nat>, pushedAudio: Queue, poppedAudio: Queue,
    pushedVideo: Queue, poppedVideo: Queue, taken: seq<nat>, flushed: bool, reopened: bool)

  /** What has passed the decoder's output queue since it was last flushed, also by consumer, and the source of
  every frame taken for playing. given are the buffers ever given to the player. cleared and clearedAtEof tell
  whether the decoder was ever stopped, and stopped after the demuxer had met the end of the file. stale: the
  field names a buffer that the render thread's own call has released. harmed: a call ever made a harmful
  release. */
  datatype OutputLog = OutputLog(
    pushed: Queue, popped: Queue, byRender: Queue, byCalls: Queue, played: seq<nat>, given: seq<nat>,
    cleared: bool, clearedAtEof: bool, stale: bool, harmed: bool)

  datatype State = State(
    d: Demux, a: Decode, r: Output, m: Memory, mpc: MainPc, i: InputLog, o: OutputLog)

  datatype DemuxerStep =
    | DCheckStep
    | DGateStep
    | DReadStep(stream: Stream)
    | DEofStep(video: bool, audio: bool)
    | DConfigVideoStep
    | DConfigAudioStep
    | DPushStep
    | DFlushVideoStep
    | DFlushAudioStep

  datatype DecoderStep = ACheckStep | APopStep | AHandleStep | APushStep | AClearStep | AFlushStep

  datatype RenderStep = RCheckStep | RPeekStep | RDestroyStep | RDeleteStep | RConfigureStep | RReturnStep

  datatype CallStep = CCheckStep | CTryStep | CEnqueueStep | CDeleteStep | CStoreStep

  datatype Step =
    | Demuxer(d: DemuxerStep)
    | VideoPop
    | Decoder(a: DecoderStep)
    | Render(r: RenderStep)
    | Callback(who: Caller, k: CallStep)
    | Complete
    | Start
    | Stop

  // ---- helpers

  function InCall(r: Output, who: Caller): Call {
    match who case Direct => r.direct case FromPlayer => r.fromPlayer
  }

  function SetCall(r: Output, who: Caller, call: Call): Output {
    match who case Direct => r.(direct := call) case FromPlayer => r.(fromPlayer := call)
  }

  /** Between enqueueing a buffer and the end of the call. */
  predicate Finishing(call: Call) {
    call.CSaving? || call.CStoring?
  }

  function OfOption(o: Option<nat>): seq<nat> {
    match o case None => [] case Some(id) => [id]
  }

  function Release(m: Memory, ids: seq<nat>): Memory {
    m.(released := m.released + ids)
  }

  /** The message a packet becomes; a packet of another stream becomes none. */
  function PacketKind(stream: Stream): Kind {
    match stream case Audio => AudioPkt case Video => VideoPkt case Other => EmptyMessage
  }

  // ---- CDemuxer::fileReading

  function DCheck(s: State): State {
    s.(d := s.d.(pc := if s.d.cancel then DFlushVideo else DGate))
  }

  function DGateDo(c: Config, s: State): State {
    var g := PassGate(c, s.d.videoQ, s.d.audioQ);
    s.(d := s.d.(videoQ := g.video, audioQ := g.audio, pc := if g.go then DRead else DTop),
       m := Release(s.m, g.released))
  }

  /** av_read_frame delivers a packet. */
  function DReadDo(s: State, stream: Stream): State {
    var p := Message(PacketKind(stream), s.m.nextId, s.m.nextId, s.d.gen);
    s.(d := s.d.(pc := if s.d.resend then DResendVideo(p) else DPush(p)),
       m := s.m.(nextId := s.m.nextId + 1),
       i := match stream
            case Audio => s.i.(audioRead := s.i.audioRead + [p.id])
            case Video => s.i.(videoRead := s.i.videoRead + [p.id])
            case Other => s.i)
  }

  /** av_read_frame fails: reopen the file in a loop, or leave. */
  function DEofDo(c: Config, s: State, video: bool, audio: bool): State {
    s.(d := if c.loop
            then s.d.(hasVideo := video, hasAudio := audio, gen := s.d.gen + 1, eof := false, pc := DOpenVideo)
            else s.d.(eof := true, pc := DOff),
       i := s.i.(reopened := s.i.reopened || (c.loop && s.d.resend)))
  }

  /** sendConfigMessage, the section on the video queue. */
  function DConfigVideoDo(s: State): State {
    var p := Message(VideoCodecConfig, s.m.nextId, s.m.nextId, s.d.gen);
    var pc := if s.d.pc.DResendVideo? then DResendAudio(s.d.pc.m) else DOpenAudio;
    if s.d.hasVideo then
      s.(d := s.d.(videoQ := s.d.videoQ + [p], pc := pc), m := s.m.(nextId := s.m.nextId + 1),
         i := s.i.(pushedVideo := s.i.pushedVideo + [p]))
    else s.(d := s.d.(pc := pc))
  }

  /** The section on the audio queue; after openFile the resend flag is cleared, after a resend it is not. */
  function DConfigAudioDo(s: State): State {
    var p := Message(AudioCodecConfig, s.m.nextId, s.m.nextId, s.d.gen);
    var resending := s.d.pc.DResendAudio?;
    var d := s.d.(resend := s.d.resend && resending, pc := if resending then DPush(s.d.pc.m) else DTop);
    if s.d.hasAudio then
      s.(d := d.(audioQ := s.d.audioQ + [p]), m := s.m.(nextId := s.m.nextId + 1),
         i := s.i.(pushedAudio := s.i.pushedAudio + [p]))
    else s.(d := d)
  }

  /** The packet goes to its queue; one of another stream is dropped and never released. */
  function DPushDo(s: State, p: Message): State {
    match p.kind
    case AudioPkt =>
      s.(d := s.d.(audioQ := s.d.audioQ + [p], pc := DTop), i := s.i.(pushedAudio := s.i.pushedAudio + [p]))
    case VideoPkt =>
      s.(d := s.d.(videoQ := s.d.videoQ + [p], pc := DTop), i := s.i.(pushedVideo := s.i.pushedVideo + [p]))
    case _ => s.(d := s.d.(pc := DTop), m := s.m.(leaked := s.m.leaked + [p.id]))
  }

  function DFlushVideoDo(s: State): State {
    s.(d := s.d.(videoQ := [], pc := DFlushAudio), m := Release(s.m, Ids(s.d.videoQ)),
       i := s.i.(pushedVideo := [], poppedVideo := [], flushed := true))
  }

  function DFlushAudioDo(s: State): State {
    s.(d := s.d.(audioQ := [], resend := true, pc := DOff), m := Release(s.m, Ids(s.d.audioQ)),
       i := s.i.(pushedAudio := [], poppedAudio := []))
  }

  /** CDecoder or its source takes the front message of the video queue. */
  function VideoPopDo(s: State): State
    requires s.d.videoQ != []
  {
    s.(d := s.d.(videoQ := s.d.videoQ[1..]),
       m := s.m.(videoTaken := s.m.videoTaken + [s.d.videoQ[0]]),
       i := s.i.(poppedVideo := s.i.poppedVideo + [s.d.videoQ[0]]))
  }

  // ---- CAudioDecoder::queueAudioDecoding

  function ACheck(s: State): State {
    s.(a := s.a.(pc := if s.a.cancel then AClear else APop))
  }

  function APopDo(s: State): State {
    if s.d.audioQ == [] then s.(a := s.a.(pc := ATop))
    else
      var p := s.d.audioQ[0];
      s.(d := s.d.(audioQ := s.d.audioQ[1..]), a := s.a.(pc := AGot(p)),
         i := s.i.(poppedAudio := s.i.poppedAudio + [p],
                   taken := if p.kind == AudioPkt then s.i.taken + [p.src] else s.i.taken))
  }

  /** A config replaces the codec and becomes a render config; a packet becomes a frame, or is forgotten
  when no codec is configured. */
  function AHandle(s: State, p: Message): State {
    if p.kind == AudioCodecConfig then
      s.(a := s.a.(codec := Some(p.id), pc := APush(Message(AudioRenderConfig, s.m.nextId, s.m.nextId, p.gen))),
         m := Release(s.m, OfOption(s.a.codec)).(nextId := s.m.nextId + 1))
    else if s.a.codec == None then
      s.(a := s.a.(pc := ATop), m := s.m.(leaked := s.m.leaked + [p.id]))
    else
      s.(a := s.a.(pc := APush(Message(AudioFrame, s.m.nextId, p.src, p.gen))),
         m := Release(s.m, [p.id]).(nextId := s.m.nextId + 1))
  }

  function APushDo(s: State, p: Message): State {
    s.(a := s.a.(outQ := s.a.outQ + [p], pc := ATop), o := s.o.(pushed := s.o.pushed + [p]))
  }

  function AClearDo(s: State): State {
    s.(a := s.a.(codec := None, pc := AFlush), m := Release(s.m, OfOption(s.a.codec)),
       o := s.o.(cleared := true, clearedAtEof := s.o.clearedAtEof || s.d.eof))
  }

  function AFlushDo(s: State): State {
    s.(a := s.a.(outQ := [], pc := AOff), m := Release(s.m, Ids(s.a.outQ)),
       o := s.o.(pushed := [], popped := [], byRender := [], byCalls := []))
  }

  // ---- CAudioRender::queueAudioRender

  function RCheck(s: State): State {
    s.(r := s.r.(pc := if s.r.cancel then RDestroy(None) else RPeek))
  }

  /** Pops the front message unless it is a frame. */
  function RPeekDo(s: State): State {
    if s.a.outQ == [] || s.a.outQ[0].kind == AudioFrame then s.(r := s.r.(pc := RTop))
    else
      s.(a := s.a.(outQ := s.a.outQ[1..]), r := s.r.(pc := RDestroy(Some(s.a.outQ[0]))),
         o := s.o.(popped := s.o.popped + [s.a.outQ[0]], byRender := s.o.byRender + [s.a.outQ[0]]))
  }

  /** clear(), first half: destroying the player ends its use of the buffer last enqueued. */
  function RDestroyDo(s: State, config: Option<Message>): State {
    s.(r := s.r.(player := false, busy := false, lastEnqueued := None, pc := RDelete(config)))
  }

  /** clear(), second half. */
  function RDeleteDo(s: State, config: Option<Message>): State {
    s.(r := s.r.(current := None, pc := match config case None => ROff case Some(p) => RConfigure(p)),
       m := Release(s.m, OfOption(s.r.current)))
  }

  /** A new player, and the first call of the callback. */
  function RConfigureDo(s: State, p: Message): State {
    s.(r := s.r.(player := true, direct := CCheck, pc := RCalling), m := Release(s.m, [p.id]))
  }

  function RReturnDo(s: State): State {
    s.(r := s.r.(pc := RTop))
  }

  // ---- CAudioRender::bufferQueuePlayerCallBack

  function CCheckDo(s: State, who: Caller): State {
    s.(r := SetCall(s.r, who, if s.r.cancel then CIdle else CTry))
  }

  /** Pops the front message if it is a frame. */
  function CTryDo(s: State, who: Caller): State {
    if s.a.outQ == [] || s.a.outQ[0].kind != AudioFrame then s.(r := SetCall(s.r, who, CCheck))
    else
      var p := s.a.outQ[0];
      s.(a := s.a.(outQ := s.a.outQ[1..]), r := SetCall(s.r, who, CTaken(p)),
         o := s.o.(popped := s.o.popped + [p], byCalls := s.o.byCalls + [p], played := s.o.played + [p.src]))
  }

  function CEnqueueDo(s: State, who: Caller, p: Message): State {
    s.(r := SetCall(s.r, who, CSaving(p)).(busy := true, lastEnqueued := Some(p.id)),
       o := s.o.(given := s.o.given + [p.id]))
  }

  /** The delete of a call that overlaps the other one: the render thread's own call finds a buffer in the field
  that the player's call is not about to release, or the player's call finds the one that the render thread's
  own call has just released. */
  predicate HarmfulDelete(r: Output, stale: bool, who: Caller) {
    r.current.Some? && match who case Direct => !r.fromPlayer.CSaving? case FromPlayer => stale
  }

  /** Releases the buffer of the previous call; the field still names it. */
  function CDeleteDo(s: State, who: Caller, p: Message): State {
    s.(r := SetCall(s.r, who, CStoring(p)), m := Release(s.m, OfOption(s.r.current)),
       o := s.o.(stale := s.o.stale || (who == Direct && s.r.current.Some?),
                 harmed := s.o.harmed || HarmfulDelete(s.r, s.o.stale, who)))
  }

  function CStoreDo(s: State, who: Caller, p: Message): State {
    s.(r := SetCall(s.r, who, CIdle).(current := Some(p.id)), o := s.o.(stale := s.o.stale && who != Direct))
  }

  /** The player has played the buffer and calls back. */
  function CompleteDo(s: State): State {
    s.(r := s.r.(busy := false, fromPlayer := CCheck))
  }

  // ---- CPlayer::start and CPlayer::stop

  function MStart(s: State): State {
    match s.mpc
    case Stopped => s.(d := s.d.(cancel := false, pc := DTop), mpc := DemuxerStarted)
    case DemuxerStarted => s.(a := s.a.(cancel := false, pc := ATop), mpc := DecoderStarted)
    case _ => s.(r := s.r.(cancel := false, pc := RTop), mpc := Playing)
  }

  function MStop(s: State): State {
    match s.mpc
    case Playing => s.(d := s.d.(cancel := true), mpc := StoppingDemuxer)
    case StoppingDemuxer => s.(a := s.a.(cancel := true), mpc := StoppingDecoder)
    case StoppingDecoder => s.(r := s.r.(cancel := true), mpc := StoppingRender)
    case _ => s.(mpc := Stopped)
  }

  // ---- the system

  predicate DemuxerEnabled(s: State, step: DemuxerStep) {
    match step
    case DCheckStep => s.d.pc == DTop
    case DGateStep => s.d.pc == DGate
    case DReadStep(stream) =>
      s.d.pc == DRead && (stream == Audio ==> s.d.hasAudio) && (stream == Video ==> s.d.hasVideo)
    case DEofStep(_, _) => s.d.pc == DRead
    case DConfigVideoStep => s.d.pc == DOpenVideo || s.d.pc.DResendVideo?
    case DConfigAudioStep => s.d.pc == DOpenAudio || s.d.pc.DResendAudio?
    case DPushStep => s.d.pc.DPush?
    case DFlushVideoStep => s.d.pc == DFlushVideo
    case DFlushAudioStep => s.d.pc == DFlushAudio
  }

  function DemuxerApply(c: Config, s: State, step: DemuxerStep): State
    requires DemuxerEnabled(s, step)
  {
    match step
    case DCheckStep => DCheck(s)
    case DGateStep => DGateDo(c, s)
    case DReadStep(stream) => DReadDo(s, stream)
    case DEofStep(video, audio) => DEofDo(c, s, video, audio)
    case DConfigVideoStep => DConfigVideoDo(s)
    case DConfigAudioStep => DConfigAudioDo(s)
    case DPushStep => DPushDo(s, s.d.pc.m)
    case DFlushVideoStep => DFlushVideoDo(s)
    case DFlushAudioStep => DFlushAudioDo(s)
  }

  predicate DecoderEnabled(s: State, step: DecoderStep) {
    match step
    case ACheckStep => s.a.pc == ATop
    case APopStep => s.a.pc == APop
    case AHandleStep => s.a.pc.AGot?
    case APushStep => s.a.pc.APush?
    case AClearStep => s.a.pc == AClear
    case AFlushStep => s.a.pc == AFlush
  }

  function DecoderApply(s: State, step: DecoderStep): State
    requires DecoderEnabled(s, step)
  {
    match step
    case ACheckStep => ACheck(s)
    case APopStep => APopDo(s)
    case AHandleStep => AHandle(s, s.a.pc.m)
    case APushStep => APushDo(s, s.a.pc.m)
    case AClearStep => AClearDo(s)
    case AFlushStep => AFlushDo(s)
  }

  /** Destroying the player waits for a callback that is running. */
  predicate RenderEnabled(s: State, step: RenderStep) {
    match step
    case RCheckStep => s.r.pc == RTop
    case RPeekStep => s.r.pc == RPeek
    case RDestroyStep => s.r.pc.RDestroy? && s.r.fromPlayer == CIdle
    case RDeleteStep => s.r.pc.RDelete?
    case RConfigureStep => s.r.pc.RConfigure?
    case RReturnStep => s.r.pc == RCalling && s.r.direct == CIdle
  }

  function RenderApply(s: State, step: RenderStep): State
    requires RenderEnabled(s, step)
  {
    match step
    case RCheckStep => RCheck(s)
    case RPeekStep => RPeekDo(s)
    case RDestroyStep => RDestroyDo(s, s.r.pc.config)
    case RDeleteStep => RDeleteDo(s, s.r.pc.config)
    case RConfigureStep => RConfigureDo(s, s.r.pc.m)
    case RReturnStep => RReturnDo(s)
  }

  predicate CallEnabled(s: State, who: Caller, step: CallStep) {
    match step
    case CCheckStep => InCall(s.r, who) == CCheck
    case CTryStep => InCall(s.r, who) == CTry
    case CEnqueueStep => InCall(s.r, who).CTaken?
    case CDeleteStep => InCall(s.r, who).CSaving?
    case CStoreStep => InCall(s.r, who).CStoring?
  }

  function CallApply(s: State, who: Caller, step: CallStep): State
    requires CallEnabled(s, who, step)
  {
    match step
    case CCheckStep => CCheckDo(s, who)
    case CTryStep => CTryDo(s, who)
    case CEnqueueStep => CEnqueueDo(s, who, InCall(s.r, who).m)
    case CDeleteStep => CDeleteDo(s, who, InCall(s.r, who).m)
    case CStoreStep => CStoreDo(s, who, InCall(s.r, who).m)
  }

  predicate StopEnabled(s: State) {
    match s.mpc
    case Playing => true
    case StoppingDemuxer => s.d.pc == DOff
    case StoppingDecoder => s.a.pc == AOff
    case StoppingRender => s.r.pc == ROff
    case _ => false
  }

  predicate Enabled(c: Config, s: State, step: Step) {
    match step
    case Demuxer(d) => DemuxerEnabled(s, d)
    case VideoPop => s.d.videoQ != []
    case Decoder(a) => DecoderEnabled(s, a)
    case Render(r) => RenderEnabled(s, r)
    case Callback(who, k) => CallEnabled(s, who, k)
    case Complete => s.r.player && s.r.busy && s.r.fromPlayer == CIdle && (c.serial ==> !Finishing(s.r.direct))
    case Start => s.mpc == Stopped || s.mpc == DemuxerStarted || s.mpc == DecoderStarted
    case Stop => StopEnabled(s)
  }

  function Apply(c: Config, s: State, step: Step): State
    requires Enabled(c, s, step)
  {
    match step
    case Demuxer(d) => DemuxerApply(c, s, d)
    case VideoPop => VideoPopDo(s)
    case Decoder(a) => DecoderApply(s, a)
    case Render(r) => RenderApply(s, r)
    case Callback(who, k) => CallApply(s, who, k)
    case Complete => CompleteDo(s)
    case Start => MStart(s)
    case Stop => MStop(s)
  }

  /** After CPlayer::open: the file is open and its configs are in the queues. */
  function Init(video: bool, audio: bool): State {
    var ids := if video then 1 else 0;
    var v, a := Message(VideoCodecConfig, 0, 0, 0), Message(AudioCodecConfig, ids, ids, 0);
    var vq, aq := WithConfig([], video, v), WithConfig([], audio, a);
    State(Demux(vq, aq, false, false, video, audio, 0, DOff, false),
          Decode([], None, AOff, false),
          Output(ROff, CIdle, CIdle, false, false, None, None, false),
          Memory(if audio then ids + 1 else ids, [], [], []),
          Stopped,
          InputLog([], [], aq, [], vq, [], [], false, false),
          OutputLog([], [], [], [], [], [], false, false, false, false))
  }

  /** A run: every step is enabled where it is taken. */
  ghost predicate Valid(c: Config, s: State, steps: seq<Step>)
    decreases |steps|
  {
    steps == [] || (Enabled(c, s, steps[0]) && Valid(c, Apply(c, s, steps[0]), steps[1..]))
  }

  function After(c: Config, s: State, steps: seq<Step>): State
    requires Valid(c, s, steps)
    decreases |steps|
  {
    if steps == [] then s else After(c, Apply(c, s, steps[0]), steps[1..])
  }

  ghost predicate Reachable(c: Config, s: State) {
    exists video, audio, steps :: Valid(c, Init(video, audio), steps) && After(c, Init(video, audio), steps) == s
  }

  lemma {:induction false} RunExtends(c: Config, s: State, steps: seq<Step>, step: Step)
    requires Valid(c, s, steps) && Enabled(c, After(c, s, steps), step)
    ensures Valid(c, s, steps + [step]) && After(c, s, steps + [step]) == Apply(c, After(c, s, steps), step)
    decreases |steps|
  {
    if steps == [] {
      assert steps + [step] == [step] && [step][1..] == [];
    } else {
      assert (steps + [step])[1..] == steps[1..] + [step];
      RunExtends(c, Apply(c, s, steps[0]), steps[1..], step);
    }
  }

  /** A run to t, and one step more. */
  lemma RunTo(c: Config, s: State, steps: seq<Step>, t: State, step: Step)
    requires Valid(c, s, steps) && After(c, s, steps) == t && Enabled(c, t, step)
    ensures Valid(c, s, steps + [step]) && After(c, s, steps + [step]) == Apply(c, t, step)
  {
    RunExtends(c, s, steps, step);
  }

  lemma {:induction false} RunsJoin(c: Config, s: State, front: seq<Step>, t: State, back: seq<Step>)
    requires Valid(c, s, front) && After(c, s, front) == t && Valid(c, t, back)
    ensures Valid(c, s, front + back) && After(c, s, front + back) == After(c, t, back)
    decreases |front|
  {
    if front == [] {
      assert front + back == back;
    } else {
      assert (front + back)[1..] == front[1..] + back;
      RunsJoin(c, Apply(c, s, front[0]), front[1..], t, back);
    }
  }

  /** A run of one step. */
  lemma RunOne(c: Config, s: State, step: Step)
    requires Enabled(c, s, step)
    ensures Valid(c, s, [step]) && After(c, s, [step]) == Apply(c, s, step)
  {
    RunTo(c, s, [], s, step);
    assert [] + [step] == [step];
  }

  lemma ReachableStep(c: Config, s: State, step: Step)
    requires Reachable(c, s) && Enabled(c, s, step)
    ensures Reachable(c, Apply(c, s, step))
  {
    var video, audio, steps :| Valid(c, Init(video, audio), steps) && After(c, Init(video, audio), steps) == s;
    RunExtends(c, Init(video, audio), steps, step);
  }

  lemma ReachableInit(c: Config, video: bool, audio: bool)
    ensures Reachable(c, Init(video, audio))
  {
    assert Valid(c, Init(video, audio), []) && After(c, Init(video, audio), []) == Init(video, audio);
  }

  lemma RunSplits(c: Config, s: State, steps: seq<Step>)
    requires Valid(c, s, steps) && steps != []
    ensures Valid(c, s, steps[..|steps| - 1])
    ensures var t := After(c, s, steps[..|steps| - 1]);
      Enabled(c, t, steps[|steps| - 1]) && After(c, s, steps) == Apply(c, t, steps[|steps| - 1])
    decreases |steps|
  {
    var front, last := steps[..|steps| - 1], steps[|steps| - 1];
    if front == [] {
      assert steps == [last] && steps[1..] == [];
    } else {
      assert steps[1..][..|steps| - 2] == front[1..];
      RunSplits(c, Apply(c, s, steps[0]), steps[1..]);
    }
  }

  lemma {:induction false} InductionOverRuns(c: Config, p: State -> bool, video: bool, audio: bool, steps: seq<Step>)
    requires p(Init(video, audio)) && Valid(c, Init(video, audio), steps)
    requires forall s, step :: Reachable(c, s) && p(s) && Enabled(c, s, step) ==> p(Apply(c, s, step))
    ensures p(After(c, Init(video, audio), steps))
    decreases |steps|
  {
    if steps != [] {
      RunSplits(c, Init(video, audio), steps);
      InductionOverRuns(c, p, video, audio, steps[..|steps| - 1]);
      var s := After(c, Init(video, audio), steps[..|steps| - 1]);
      assert Reachable(c, s);
    }
  }

  /** What holds at first and is kept by every step of a reachable state holds in every reachable state. */
  lemma Induction(c: Config, p: State -> bool)
    requires forall video, audio :: p(Init(video, audio))
    requires forall s, step :: Reachable(c, s) && p(s) && Enabled(c, s, step) ==> p(Apply(c, s, step))
    ensures forall s :: Reachable(c, s) ==> p(s)
  {
    forall s | Reachable(c, s) ensures p(s) {
      var video, audio, steps :| Valid(c, Init(video, audio), steps) && After(c, Init(video, audio), steps) == s;
      InductionOverRuns(c, p, video, audio, steps);
    }
  }
}
