/** CAudioDecoder: its fields, its sections and its loop, against the transition system. */
module NativeAudio {
  import opened Octets
  import opened Media
  import opened Player
  import opened PlayerControl
  import opened Queues
  import LockOrder

  class CAudioDecoder {
    const inputQueue: CQueue
    const outQueue: CQueue
    const thread: CThread
    const heap: CHeap
    ghost const trace: CTrace
    var codecContext: Option<nat>

    constructor (inputQueue: CQueue, heap: CHeap, ghost trace: CTrace)
      ensures this.inputQueue == inputQueue && this.heap == heap && this.trace == trace
      ensures codecContext == None
      ensures fresh(thread) && thread.name == LockOrder.AudioDecoderThread && !thread.cancel && !thread.locked
      ensures fresh(outQueue) && outQueue.name == LockOrder.AudioOut && outQueue.items == [] && !outQueue.locked
    {
      this.trace := trace;
      this.inputQueue, this.heap, codecContext := inputQueue, heap, None;
      thread := new CThread(LockOrder.AudioDecoderThread);
      outQueue := new CQueue(LockOrder.AudioOut);
    }

    /** The object's part of a state, at a point where no mutex is held. */
    ghost predicate Agrees(s: State)
      reads this, inputQueue, outQueue, thread, heap
    {
      && inputQueue.name == LockOrder.AudioQueue && outQueue.name == LockOrder.AudioOut
      && thread.name == LockOrder.AudioDecoderThread
      && !inputQueue.locked && !outQueue.locked && !thread.locked
      && s.d.audioQ == inputQueue.items
      && s.a == Decode(outQueue.items, codecContext, s.a.pc, thread.cancel)
      && s.m == s.m.(nextId := heap.next, released := heap.released, leaked := heap.leaked)
      && DecodeKinds(s.a)
    }

    method Pop(ghost s: State) returns (front: Option<Message>)
      requires Agrees(s) && s.a.pc == APop && InputKinds(inputQueue.items, AudioPkt, AudioCodecConfig)
      modifies inputQueue, trace
      ensures Agrees(APopDo(s)) && trace.ops == old(trace.ops) + LockOrder.Alone(LockOrder.AudioQueue)
      ensures APopDo(s).a.pc == match front case None => ATop case Some(m) => AGot(m)
    {
      inputQueue.Acquire(trace);
      if inputQueue.items == [] {
        inputQueue.Release(trace);
        return None;
      }
      var m := inputQueue.PopFront();
      inputQueue.Release(trace);
      front := Some(m);
    }

    /** clear: frees the codec, if there is one. */
    method Clear()
      modifies this`codecContext, heap`released
      ensures codecContext == None && heap.released == old(heap.released) + OfOption(old(codecContext))
    {
      match codecContext
      case None =>
      case Some(id) =>
        heap.Clear(Message(AudioCodecConfig, id, id, 0));
        codecContext := None;
    }

    /** What becomes of a message: the message for the output queue, if any. */
    method Handle(ghost s: State, m: Message) returns (out: Option<Message>)
      requires Agrees(s) && s.a.pc == AGot(m)
      modifies this`codecContext, heap
      ensures Agrees(AHandle(s, m))
      ensures AHandle(s, m).a.pc == match out case None => ATop case Some(p) => APush(p)
    {
      if m.kind == AudioCodecConfig {
        Clear();
        codecContext := Some(m.id);
        var id := heap.Allocate();
        out := Some(Message(AudioRenderConfig, id, id, m.gen));
      } else if codecContext == None {
        heap.Forget(m.id);
        out := None;
      } else {
        var id := heap.Allocate();
        heap.Clear(m);
        out := Some(Message(AudioFrame, id, m.src, m.gen));
      }
    }

    method Push(ghost s: State, p: Message)
      requires Agrees(s) && s.a.pc == APush(p)
      modifies outQueue, trace
      ensures Agrees(APushDo(s, p)) && trace.ops == old(trace.ops) + LockOrder.Alone(LockOrder.AudioOut)
    {
      outQueue.Acquire(trace);
      outQueue.PushBack(p);
      outQueue.Release(trace);
    }

    /** Leaving the loop: clear and flush. */
    method Leave(ghost s: State)
      requires Agrees(s) && s.a.pc == AClear
      modifies this`codecContext, outQueue, heap`released, trace
      ensures Agrees(AFlushDo(AClearDo(s))) && trace.ops == old(trace.ops) + LockOrder.Alone(LockOrder.AudioOut)
    {
      Clear();
      Drain(outQueue, heap, trace);
    }

    /** Handles a message and pushes what comes of it. */
    method Process(ghost s: State, m: Message)
      requires Agrees(s) && s.a.pc == AGot(m)
      modifies this`codecContext, outQueue, heap, trace
      ensures Agrees(AfterHandling(s))
      ensures Went(old(trace.ops), trace.ops)
    {
      LockOrder.WentNowhere({}, LockOrder.AudioDecoderThread, trace.ops);
      LockOrder.WentThrough({}, LockOrder.AudioDecoderThread, trace.ops, trace.ops,
                            LockOrder.Alone(LockOrder.AudioOut));
      var out := Handle(s, m);
      if out.Some? {
        Push(AHandle(s, m), out.value);
      }
    }

    /** One pass of queueAudioDecoding's loop with nobody else at the queues: a run of the transition system, with
    mutexes taken in whole sections only. */
    method Pass(ghost c: Config, ghost s: State) returns (again: bool, ghost steps: seq<Step>)
      requires Agrees(s) && s.a.pc == ATop && InputKinds(inputQueue.items, AudioPkt, AudioCodecConfig)
      modifies this`codecContext, inputQueue, outQueue, thread`locked, heap, trace
      ensures Valid(c, s, steps) && Agrees(After(c, s, steps))
      ensures After(c, s, steps).a.pc == if again then ATop else AOff
      ensures Went(old(trace.ops), trace.ops)
    {
      steps := DecoderSteps(s);
      DecoderRuns(c, s);
      PassOps(trace.ops);
      var cancelled := thread.IsCancel(trace);
      again := !cancelled;
      if cancelled {
        Leave(ACheck(s));
      } else {
        var front := Pop(ACheck(s));
        ghost var mid := trace.ops;
        if front.Some? {
          Process(APopDo(ACheck(s)), front.value);
          LockOrder.WentOn({}, LockOrder.AudioDecoderThread, old(trace.ops), mid, trace.ops);
        }
      }
    }
  }

  // ---- the mutexes of a pass

  ghost predicate Went(before: seq<LockOrder.Op>, now: seq<LockOrder.Op>) {
    LockOrder.Went({}, LockOrder.AudioDecoderThread, before, now)
  }

  /** The flag, and then either queue. */
  lemma PassOps(before: seq<LockOrder.Op>)
    ensures var flag := before + LockOrder.Alone(LockOrder.CancelOf(LockOrder.AudioDecoderThread));
      && Went(before, flag + LockOrder.Alone(LockOrder.AudioOut))
      && Went(before, flag + LockOrder.Alone(LockOrder.AudioQueue))
  {
    var t, flag := LockOrder.AudioDecoderThread, LockOrder.Alone(LockOrder.CancelOf(LockOrder.AudioDecoderThread));
    LockOrder.WentNowhere({}, t, before);
    LockOrder.WentThrough({}, t, before, before, flag);
    LockOrder.WentThrough({}, t, before, before + flag, LockOrder.Alone(LockOrder.AudioOut));
    LockOrder.WentThrough({}, t, before, before + flag, LockOrder.Alone(LockOrder.AudioQueue));
  }

  // ---- a pass of the decoder as a run

  function AfterHandling(s: State): State
    requires s.a.pc.AGot?
  {
    var u := AHandle(s, s.a.pc.m);
    if u.a.pc.APush? then APushDo(u, u.a.pc.m) else u
  }

  function AfterDecoding(s: State): State {
    var t := APopDo(ACheck(s));
    if t.a.pc.AGot? then AfterHandling(t) else t
  }

  function AfterDecoder(s: State): State {
    if s.a.cancel then AFlushDo(AClearDo(ACheck(s))) else AfterDecoding(s)
  }

  function DecoderSteps(s: State): seq<Step> {
    if s.a.cancel then [Decoder(ACheckStep), Decoder(AClearStep), Decoder(AFlushStep)]
    else
      var t := APopDo(ACheck(s));
      [Decoder(ACheckStep), Decoder(APopStep)]
      + if !t.a.pc.AGot? then []
        else [Decoder(AHandleStep)] + if AHandle(t, t.a.pc.m).a.pc.APush? then [Decoder(APushStep)] else []
  }

  lemma HandledRuns(c: Config, s: State)
    requires s.a.pc.AGot?
    ensures var u := AHandle(s, s.a.pc.m);
      var steps: seq<Step> := [Decoder(AHandleStep)] + if u.a.pc.APush? then [Decoder(APushStep)] else [];
      Valid(c, s, steps) && After(c, s, steps) == if u.a.pc.APush? then APushDo(u, u.a.pc.m) else u
  {
    var u := AHandle(s, s.a.pc.m);
    var one: seq<Step> := [Decoder(AHandleStep)];
    RunOne(c, s, Decoder(AHandleStep));
    if u.a.pc.APush? {
      RunTo(c, s, one, u, Decoder(APushStep));
    } else {
      assert one + [] == one;
    }
  }

  lemma DecoderRuns(c: Config, s: State)
    requires s.a.pc == ATop
    ensures Valid(c, s, DecoderSteps(s)) && After(c, s, DecoderSteps(s)) == AfterDecoder(s)
  {
    var check: seq<Step> := [Decoder(ACheckStep)];
    RunOne(c, s, Decoder(ACheckStep));
    if s.a.cancel {
      RunTo(c, s, check, ACheck(s), Decoder(AClearStep));
      RunTo(c, s, check + [Decoder(AClearStep)], AClearDo(ACheck(s)), Decoder(AFlushStep));
      assert (check + [Decoder(AClearStep)]) + [Decoder(AFlushStep)] == DecoderSteps(s);
    } else {
      var t := APopDo(ACheck(s));
      RunTo(c, s, check, ACheck(s), Decoder(APopStep));
      var two := check + [Decoder(APopStep)];
      if t.a.pc.AGot? {
        HandledRuns(c, t);
        RunsJoin(c, s, two, t, [Decoder(AHandleStep)]
                               + if AHandle(t, t.a.pc.m).a.pc.APush? then [Decoder(APushStep)] else []);
      } else {
        assert two + [] == two;
      }
    }
  }
}
