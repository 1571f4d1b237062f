/** CAudioRender: the render thread's loop and the callback it shares with the sound player. */
module NativeRender {
  import opened Octets
  import opened Media
  import opened Player
  import opened PlayerControl
  import opened Queues
  import LockOrder

  class CAudioRender {
    const inputQueue: CQueue
    const thread: CThread
    const heap: CHeap
    var currentPlayingBuff: Option<nat>
    // The player object: whether it exists, whether it has a buffer to play, and the last one it was given.
    var player: bool
    var busy: bool
    ghost var lastEnqueued: Option<nat>

    constructor (inputQueue: CQueue, heap: CHeap)
      ensures this.inputQueue == inputQueue && this.heap == heap
      ensures currentPlayingBuff == None
      ensures !player && !busy && lastEnqueued == None
      ensures fresh(thread) && thread.name == LockOrder.AudioRenderThread && !thread.cancel && !thread.locked
    {
      this.inputQueue, this.heap, currentPlayingBuff := inputQueue, heap, None;
      thread := new CThread(LockOrder.AudioRenderThread);
      player, busy, lastEnqueued := false, false, None;
    }

    /** The object's part of a state, at a point where the mutex is not held. */
    ghost predicate Agrees(s: State)
      reads this, inputQueue, thread, heap
    {
      && thread.name == LockOrder.AudioRenderThread && !thread.locked
      && inputQueue.name == LockOrder.AudioOut && !inputQueue.locked && s.a.outQ == inputQueue.items
      && s.r == Output(s.r.pc, s.r.direct, s.r.fromPlayer, player, busy, lastEnqueued, currentPlayingBuff,
                       thread.cancel)
      && s.m == s.m.(nextId := heap.next, released := heap.released, leaked := heap.leaked)
    }

    /** The render thread looks at the front message and takes it unless it is a frame. */
    method Peek(ghost s: State, ghost trace: CTrace) returns (config: Option<Message>)
      requires Agrees(s) && s.r.pc == RPeek
      modifies inputQueue, trace
      ensures Agrees(RPeekDo(s)) && trace.ops == old(trace.ops) + LockOrder.Alone(LockOrder.AudioOut)
      ensures RPeekDo(s).r.pc == if config.Some? then RDestroy(config) else RTop
    {
      config := None;
      inputQueue.Acquire(trace);
      if inputQueue.items != [] && inputQueue.items[0].kind != AudioFrame {
        var m := inputQueue.PopFront();
        config := Some(m);
      }
      inputQueue.Release(trace);
    }

    method DeletePlaying()
      modifies heap`released
      ensures heap.released == old(heap.released) + OfOption(currentPlayingBuff)
    {
      match currentPlayingBuff
      case None =>
      case Some(id) => heap.Clear(Message(AudioFrame, id, id, 0));
    }

    /** clear: the player is destroyed before its buffer is released. */
    method Clear(ghost s: State, ghost config: Option<Message>)
      requires Agrees(s) && s.r.pc == RDestroy(config)
      modifies this`player, this`busy, this`lastEnqueued, this`currentPlayingBuff, heap`released
      ensures Agrees(RDeleteDo(RDestroyDo(s, config), config))
    {
      player, busy, lastEnqueued := false, false, None;
      DeletePlaying();
      currentPlayingBuff := None;
    }

    method Configure(ghost s: State, m: Message)
      requires Agrees(s) && s.r.pc == RConfigure(m) && m.kind != EmptyMessage
      modifies this`player, heap`released
      ensures Agrees(RConfigureDo(s, m))
    {
      player := true;
      heap.Clear(m);
    }

    /** Makes the new player from a render config. */
    method Renew(ghost s: State, m: Message)
      requires Agrees(s) && s.r.pc == RDestroy(Some(m)) && m.kind != EmptyMessage
      modifies this`player, this`busy, this`lastEnqueued, this`currentPlayingBuff, heap`released
      ensures Agrees(RConfigureDo(RDeleteDo(RDestroyDo(s, Some(m)), Some(m)), m))
    {
      Clear(s, Some(m));
      Configure(RDeleteDo(RDestroyDo(s, Some(m)), Some(m)), m);
    }

    /** One pass of queueAudioRender's loop, up to its own call of the callback: a run of the transition system,
    with mutexes taken in whole sections only. If the pass destroys a player, no callback of it is running. */
    method Pass(ghost c: Config, ghost s: State, ghost trace: CTrace) returns (again: bool, ghost steps: seq<Step>)
      requires Agrees(s) && s.r.pc == RTop && DecodeKinds(s.a) && (Clears(s) ==> s.r.fromPlayer == CIdle)
      modifies this`player, this`busy, this`lastEnqueued, this`currentPlayingBuff
      modifies inputQueue, thread`locked, heap`released, trace
      ensures Valid(c, s, steps) && Agrees(After(c, s, steps))
      ensures !again <==> After(c, s, steps).r.pc == ROff
      ensures LockOrder.Went({}, LockOrder.AudioRenderThread, old(trace.ops), trace.ops)
    {
      steps := RenderSteps(s);
      RenderRuns(c, s);
      FlagAndQueue(LockOrder.AudioRenderThread, trace.ops);
      var cancelled := thread.IsCancel(trace);
      again := !cancelled;
      if cancelled {
        Clear(RCheck(s), None);
      } else {
        var config := Peek(RCheck(s), trace);
        match config
        case None =>
        case Some(m) => Renew(RPeekDo(RCheck(s)), m);
      }
    }

    // ---- the callback

    /** The callback looks at the front message and takes it if it is a frame. */
    method TryFrame(ghost s: State, ghost who: Caller, ghost trace: CTrace) returns (frame: Option<Message>)
      requires Agrees(s) && InCall(s.r, who) == CTry
      modifies inputQueue, trace
      ensures Agrees(CTryDo(s, who)) && trace.ops == old(trace.ops) + LockOrder.Alone(LockOrder.AudioOut)
      ensures InCall(CTryDo(s, who).r, who) == match frame case None => CCheck case Some(m) => CTaken(m)
    {
      frame := None;
      inputQueue.Acquire(trace);
      if inputQueue.items != [] && inputQueue.items[0].kind == AudioFrame {
        var m := inputQueue.PopFront();
        frame := Some(m);
      }
      inputQueue.Release(trace);
    }

    /** The frame is given to the player, and only then the buffer of the previous call is released. */
    method Play(ghost s: State, ghost who: Caller, m: Message)
      requires Agrees(s) && InCall(s.r, who) == CTaken(m)
      modifies this`busy, this`lastEnqueued, this`currentPlayingBuff, heap`released
      ensures Agrees(CStoreDo(CDeleteDo(CEnqueueDo(s, who, m), who, m), who, m))
    {
      busy, lastEnqueued := true, Some(m.id);
      DeletePlaying();
      currentPlayingBuff := Some(m.id);
    }

    /** One pass of the callback's loop with nobody else at the queue: a run of the transition system, with
    mutexes taken in whole sections only. */
    method CallPass(ghost c: Config, ghost s: State, ghost who: Caller, ghost trace: CTrace)
      returns (done: bool, ghost steps: seq<Step>)
      requires Agrees(s) && InCall(s.r, who) == CCheck
      modifies this`busy, this`lastEnqueued, this`currentPlayingBuff, inputQueue, thread`locked, heap`released, trace
      ensures Valid(c, s, steps) && Agrees(After(c, s, steps))
      ensures InCall(After(c, s, steps).r, who) == if done then CIdle else CCheck
      ensures LockOrder.Went({}, Runner(who), old(trace.ops), trace.ops)
    {
      steps := CallSteps(s, who);
      CallRuns(c, s, who);
      FlagAndQueue(Runner(who), trace.ops);
      done := thread.IsCancel(trace);
      if !done {
        var frame := TryFrame(CCheckDo(s, who), who, trace);
        if frame.Some? {
          Play(CTryDo(CCheckDo(s, who), who), who, frame.value);
          done := true;
        }
      }
    }
  }

  // ---- the mutexes of a pass

  /** The thread that runs a call. */
  function Runner(who: Caller): LockOrder.Thread {
    match who case Direct => LockOrder.AudioRenderThread case FromPlayer => LockOrder.AudioCallback
  }

  /** The render thread's flag, and then the queue. */
  lemma FlagAndQueue(t: LockOrder.Thread, before: seq<LockOrder.Op>)
    requires t == LockOrder.AudioRenderThread || t == LockOrder.AudioCallback
    ensures var flag := before + LockOrder.Alone(LockOrder.CancelOf(LockOrder.AudioRenderThread));
      && LockOrder.Went({}, t, before, flag)
      && LockOrder.Went({}, t, before, flag + LockOrder.Alone(LockOrder.AudioOut))
  {
    var flag := LockOrder.Alone(LockOrder.CancelOf(LockOrder.AudioRenderThread));
    LockOrder.WentNowhere({}, t, before);
    LockOrder.WentThrough({}, t, before, before, flag);
    LockOrder.WentThrough({}, t, before, before + flag, LockOrder.Alone(LockOrder.AudioOut));
  }

  /** The pass destroys the player: the thread leaves, or makes a new one. */
  predicate Clears(s: State) {
    s.r.cancel || (s.a.outQ != [] && s.a.outQ[0].kind != AudioFrame)
  }

  // ---- a pass of the render thread as a run

  function AfterRender(s: State): State {
    if s.r.cancel then RDeleteDo(RDestroyDo(RCheck(s), None), None)
    else
      var t := RPeekDo(RCheck(s));
      match t.r.pc
      case RDestroy(Some(m)) => RConfigureDo(RDeleteDo(RDestroyDo(t, Some(m)), Some(m)), m)
      case _ => t
  }

  function RenderSteps(s: State): seq<Step> {
    if s.r.cancel then [Render(RCheckStep), Render(RDestroyStep), Render(RDeleteStep)]
    else
      [Render(RCheckStep), Render(RPeekStep)]
      + if RPeekDo(RCheck(s)).r.pc.RDestroy?
        then [Render(RDestroyStep), Render(RDeleteStep), Render(RConfigureStep)] else []
  }

  lemma ClearRuns(c: Config, s: State, config: Option<Message>)
    requires s.r.pc == RDestroy(config) && s.r.fromPlayer == CIdle
    ensures var steps: seq<Step> := [Render(RDestroyStep), Render(RDeleteStep)];
      Valid(c, s, steps) && After(c, s, steps) == RDeleteDo(RDestroyDo(s, config), config)
  {
    RunOne(c, s, Render(RDestroyStep));
    RunTo(c, s, [Render(RDestroyStep)], RDestroyDo(s, config), Render(RDeleteStep));
    assert [Render(RDestroyStep)] + [Render(RDeleteStep)] == [Render(RDestroyStep), Render(RDeleteStep)];
  }

  lemma RenderRuns(c: Config, s: State)
    requires s.r.pc == RTop && (Clears(s) ==> s.r.fromPlayer == CIdle)
    ensures Valid(c, s, RenderSteps(s)) && After(c, s, RenderSteps(s)) == AfterRender(s)
  {
    var check, clear: seq<Step> := [Render(RCheckStep)], [Render(RDestroyStep), Render(RDeleteStep)];
    RunOne(c, s, Render(RCheckStep));
    if s.r.cancel {
      ClearRuns(c, RCheck(s), None);
      RunsJoin(c, s, check, RCheck(s), clear);
      assert check + clear == RenderSteps(s);
    } else {
      var t := RPeekDo(RCheck(s));
      RunTo(c, s, check, RCheck(s), Render(RPeekStep));
      var two := check + [Render(RPeekStep)];
      if t.r.pc.RDestroy? {
        var config := t.r.pc.config;
        ClearRuns(c, t, config);
        RunTo(c, t, clear, RDeleteDo(RDestroyDo(t, config), config), Render(RConfigureStep));
        RunsJoin(c, s, two, t, clear + [Render(RConfigureStep)]);
        assert clear + [Render(RConfigureStep)] == [Render(RDestroyStep), Render(RDeleteStep), Render(RConfigureStep)];
      } else {
        assert two + [] == two;
      }
    }
  }

  function CallSteps(s: State, who: Caller): seq<Step> {
    if s.r.cancel then [Callback(who, CCheckStep)]
    else
      [Callback(who, CCheckStep), Callback(who, CTryStep)]
      + if InCall(CTryDo(CCheckDo(s, who), who).r, who).CTaken?
        then [Callback(who, CEnqueueStep), Callback(who, CDeleteStep), Callback(who, CStoreStep)] else []
  }

  function AfterCall(s: State, who: Caller): State {
    if s.r.cancel then CCheckDo(s, who)
    else
      var t := CTryDo(CCheckDo(s, who), who);
      match InCall(t.r, who)
      case CTaken(m) => CStoreDo(CDeleteDo(CEnqueueDo(t, who, m), who, m), who, m)
      case _ => t
  }

  lemma PlayRuns(c: Config, s: State, who: Caller, m: Message)
    requires InCall(s.r, who) == CTaken(m)
    ensures var steps := [Callback(who, CEnqueueStep), Callback(who, CDeleteStep), Callback(who, CStoreStep)];
      Valid(c, s, steps) && After(c, s, steps) == CStoreDo(CDeleteDo(CEnqueueDo(s, who, m), who, m), who, m)
  {
    var one := [Callback(who, CEnqueueStep)];
    var two := one + [Callback(who, CDeleteStep)];
    var t := CEnqueueDo(s, who, m);
    RunOne(c, s, Callback(who, CEnqueueStep));
    RunTo(c, s, one, t, Callback(who, CDeleteStep));
    RunTo(c, s, two, CDeleteDo(t, who, m), Callback(who, CStoreStep));
    assert two + [Callback(who, CStoreStep)]
        == [Callback(who, CEnqueueStep), Callback(who, CDeleteStep), Callback(who, CStoreStep)];
  }

  lemma CallRuns(c: Config, s: State, who: Caller)
    requires InCall(s.r, who) == CCheck
    ensures Valid(c, s, CallSteps(s, who)) && After(c, s, CallSteps(s, who)) == AfterCall(s, who)
  {
    var check := [Callback(who, CCheckStep)];
    RunOne(c, s, Callback(who, CCheckStep));
    if !s.r.cancel {
      var t := CTryDo(CCheckDo(s, who), who);
      RunTo(c, s, check, CCheckDo(s, who), Callback(who, CTryStep));
      var two := check + [Callback(who, CTryStep)];
      if InCall(t.r, who).CTaken? {
        PlayRuns(c, t, who, InCall(t.r, who).m);
        RunsJoin(c, s, two, t, [Callback(who, CEnqueueStep), Callback(who, CDeleteStep), Callback(who, CStoreStep)]);
      } else {
        assert two + [] == two;
      }
    }
  }
}
