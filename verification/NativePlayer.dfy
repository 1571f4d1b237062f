/** CPlayer: opening a file and starting the threads, against the transition system. */
module NativePlayer {
  import opened Media
  import opened Player
  import opened PlayerControl
  import opened Queues
  import opened NativeDemuxer
  import opened NativeAudio
  import opened NativeRender
  import opened NativeVideo
  import LockOrder

  class CPlayer {
    const demuxer: CDemuxer
    const decoder: CVideoInput
    const audioDecoder: CAudioDecoder
    const audioRender: CAudioRender

    /** Every object agrees with its part of the state, and they share the queues. */
    ghost predicate Agrees(c: Config, s: State)
      reads demuxer, demuxer.videoQueue, demuxer.audioQueue, demuxer.thread, demuxer.heap
      reads decoder, decoder.inputQueue
      reads audioDecoder, audioDecoder.inputQueue, audioDecoder.outQueue, audioDecoder.thread, audioDecoder.heap
      reads audioRender, audioRender.inputQueue, audioRender.thread, audioRender.heap
    {
      && decoder.inputQueue == demuxer.videoQueue && audioDecoder.inputQueue == demuxer.audioQueue
      && audioRender.inputQueue == audioDecoder.outQueue
      && audioDecoder.heap == demuxer.heap && audioRender.heap == demuxer.heap
      && demuxer.Agrees(c, s) && decoder.Agrees(s) && audioDecoder.Agrees(s) && audioRender.Agrees(s)
    }

    /** The player of an opened file is where every run of the transition system starts. */
    constructor Open(ghost c: Config, ghost trace: CTrace, heap: CHeap, video: bool, audio: bool, loop: bool,
                     skip: bool, size: nat)
      requires heap.next == 0 && heap.released == [] && heap.leaked == []
      requires c.loop == loop && c.skip == skip && c.size == size
      modifies heap`next, trace
      ensures Agrees(c, Init(video, audio))
      ensures LockOrder.Went({}, LockOrder.MainThread, old(trace.ops), trace.ops)
    {
      var d := Opened(c, trace, heap, video, audio, loop, skip, size);
      var v := new CVideoInput(d.videoQueue, trace);
      var a := new CAudioDecoder(d.audioQueue, heap, trace);
      var r := new CAudioRender(a.outQueue, heap);
      demuxer, decoder, audioDecoder, audioRender := d, v, a, r;
    }

    /** start: thread by thread. */
    method Start(ghost c: Config, ghost s: State)
      requires Agrees(c, s) && s.mpc == Stopped && Off(s)
      modifies demuxer.thread`cancel, audioDecoder.thread`cancel, audioRender.thread`cancel
      ensures Enabled(c, s, Step.Start) && Enabled(c, MStart(s), Player.Start)
      ensures Enabled(c, MStart(MStart(s)), Step.Start)
      ensures Agrees(c, MStart(MStart(MStart(s)))) && MStart(MStart(MStart(s))).mpc == Playing
    {
      demuxer.thread.Start();
      audioDecoder.thread.Start();
      audioRender.thread.Start();
    }
  }
}
