/** Messages of the playback pipeline and what the lock-protected sections of its threads do to the queues. */
module Media {

  datatype Kind =
    | EmptyMessage
    | AudioPkt
    | VideoPkt
    | AudioFrame
    | AudioCodecConfig
    | VideoCodecConfig
    | AudioRenderConfig

  /** A message: id names its payload, src the packet a frame was decoded from, gen the opening of the file
  its payload comes from. */
  datatype Message = Message(kind: Kind, id: nat, src: nat, gen: nat)

  type Queue = seq<Message>

  /** mIsSkipPacket, mIsLoop and mPacketBufferSize of the demuxer, and whether the player's completion
  callback runs only after the render thread's own call of the callback has returned. */
  datatype Config = Config(skip: bool, loop: bool, size: nat, serial: bool)

  function Ids(q: Queue): seq<nat> {
    seq(|q|, i requires 0 <= i < |q| => q[i].id)
  }

  /** The sources of the messages of one kind, in queue order. */
  function Sources(q: Queue, kind: Kind): seq<nat> {
    if q == [] then []
    else Sources(q[..|q| - 1], kind) + (if q[|q| - 1].kind == kind then [q[|q| - 1].src] else [])
  }

  // ---- sections of CDemuxer

  predicate Over(c: Config, video: Queue, audio: Queue) {
    |video| > c.size || |audio| > c.size
  }

  function WithoutNewest(q: Queue): Queue {
    if q == [] then [] else q[..|q| - 1]
  }

  function Newest(q: Queue): Queue {
    if q == [] then [] else [q[|q| - 1]]
  }

  /** What the section with both locks does: go on, go on after dropping the newest messages, or wait. */
  datatype Gate = Gate(go: bool, video: Queue, audio: Queue, released: seq<nat>)

  function PassGate(c: Config, video: Queue, audio: Queue): Gate {
    if !Over(c, video, audio) then Gate(true, video, audio, [])
    else if c.skip then
      Gate(true, WithoutNewest(video), WithoutNewest(audio), Ids(Newest(video)) + Ids(Newest(audio)))
    else Gate(false, video, audio, [])
  }

  /** The section takes away at most the newest message of each queue, and in skip mode over the limit the newest of
  both; it releases exactly what it takes away, and in wait mode lets the demuxer go on exactly with room in both
  queues. */
  lemma GateDropsNewest(c: Config, video: Queue, audio: Queue)
    ensures var g := PassGate(c, video, audio);
      && g.video <= video && |video| <= |g.video| + 1 && g.audio <= audio && |audio| <= |g.audio| + 1
      && g.released == Ids(video[|g.video|..]) + Ids(audio[|g.audio|..])
      && (g.released != [] ==> c.skip && (|video| > c.size || |audio| > c.size))
      && (!c.skip ==> (g.go <==> |video| <= c.size && |audio| <= c.size))
      && (c.skip ==> g.go)
      && (c.skip && (|video| > c.size || |audio| > c.size) ==>
            (video != [] ==> g.video != video) && (audio != [] ==> g.audio != audio))
  {
    var g := PassGate(c, video, audio);
    if Over(c, video, audio) && c.skip {
      assert video[|g.video|..] == Newest(video) && audio[|g.audio|..] == Newest(audio);
    } else {
      assert video[|g.video|..] == [] && audio[|g.audio|..] == [];
      assert Ids(video[|g.video|..]) + Ids(audio[|g.audio|..]) == [];
    }
  }

  /** The queue after a section that sends a codec config, if there is a stream. */
  function WithConfig(q: Queue, stream: bool, config: Message): Queue {
    if stream then q + [config] else q
  }

  // ---- algebra of queues

  lemma IdsOne(m: Message)
    ensures Ids([m]) == [m.id]
  {
  }

  lemma SourcesOne(m: Message, kind: Kind)
    ensures Sources([m], kind) == if m.kind == kind then [m.src] else []
  {
    assert [m][..0] == [];
  }

  lemma {:induction false} SourcesAppend(a: Queue, b: Queue, kind: Kind)
    ensures Sources(a + b, kind) == Sources(a, kind) + Sources(b, kind)
    decreases |b|
  {
    if b == [] {
      assert a + b == a;
    } else {
      var front := b[..|b| - 1];
      assert (a + b)[..|a + b| - 1] == a + front;
      SourcesAppend(a, front, kind);
    }
  }

  /** A queue, head first. */
  lemma HeadTail(q: Queue)
    requires q != []
    ensures q == [q[0]] + q[1..] && Ids(q) == [q[0].id] + Ids(q[1..])
  {
  }

  lemma SourcesHead(q: Queue, kind: Kind)
    requires q != []
    ensures Sources(q, kind) == (if q[0].kind == kind then [q[0].src] else []) + Sources(q[1..], kind)
  {
    HeadTail(q);
    SourcesAppend([q[0]], q[1..], kind);
    SourcesOne(q[0], kind);
  }

  lemma NewestSplit(q: Queue)
    ensures q == WithoutNewest(q) + Newest(q) && Ids(q) == Ids(WithoutNewest(q)) + Ids(Newest(q))
  {
  }
}
