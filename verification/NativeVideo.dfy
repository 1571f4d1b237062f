/** CDecoder and CVideoSource: the two places where messages leave the demuxer's video queue. */
module NativeVideo {
  import opened Octets
  import opened Media
  import opened Player
  import opened Queues
  import LockOrder

  datatype Sample = Sample(m: Message) | EndOfStream | NotYet

  function FrontOf(q: Queue): LockOrder.Front {
    if q == [] then LockOrder.Nothing else if q[0].kind == VideoPkt then LockOrder.Packet else LockOrder.Other
  }

  class CVideoInput {
    const inputQueue: CQueue
    ghost const trace: CTrace
    ghost var taken: Queue

    constructor (inputQueue: CQueue, ghost trace: CTrace)
      ensures this.inputQueue == inputQueue && this.trace == trace && taken == []
    {
      this.trace := trace;
      this.inputQueue, taken := inputQueue, [];
    }

    /** The part of a state that the video decoder thread sees. */
    ghost predicate Agrees(s: State)
      reads this, inputQueue
    {
      inputQueue.name == LockOrder.VideoQueue && s.d.videoQ == inputQueue.items && s.m.videoTaken == taken
    }

    /** queueVideoDecoding looks at the front message and takes it unless it is a packet. */
    method TakeConfig(ghost s: State) returns (config: Option<Message>)
      requires Agrees(s) && !inputQueue.locked
      modifies this`taken, inputQueue, trace
      ensures !inputQueue.locked && trace.ops == old(trace.ops) + LockOrder.Alone(LockOrder.VideoQueue)
      ensures config.Some? <==> s.d.videoQ != [] && s.d.videoQ[0].kind != VideoPkt
      ensures if config.Some? then config.value == s.d.videoQ[0] && Agrees(VideoPopDo(s)) else Agrees(s)
    {
      config := None;
      inputQueue.Acquire(trace);
      if inputQueue.items == [] {
        inputQueue.Release(trace);
        return;
      }
      if inputQueue.items[0].kind != VideoPkt {
        var m := inputQueue.PopFront();
        taken := taken + [m];
        config := Some(m);
      }
      inputQueue.Release(trace);
    }

    /** One pass of CVideoSource::read's loop. It takes the front message only if it is a packet; on any other
    it returns without giving the mutex back. */
    method Read(ghost s: State) returns (r: Sample)
      requires Agrees(s) && !inputQueue.locked
      modifies this`taken, inputQueue, trace
      ensures r.Sample? <==> s.d.videoQ != [] && s.d.videoQ[0].kind == VideoPkt
      ensures if r.Sample? then r.m == s.d.videoQ[0] && Agrees(VideoPopDo(s)) else Agrees(s)
      ensures r == NotYet <==> s.d.videoQ == []
      ensures inputQueue.locked <==> r == EndOfStream
      ensures trace.ops == old(trace.ops) + LockOrder.ReadOps(FrontOf(s.d.videoQ))
    {
      inputQueue.Acquire(trace);
      if inputQueue.items != [] {
        if inputQueue.items[0].kind == VideoPkt {
          var m := inputQueue.PopFront();
          taken := taken + [m];
          inputQueue.Release(trace);
          return Sample(m);
        }
        return EndOfStream;
      }
      inputQueue.Release(trace);
      r := NotYet;
    }
  }
}
