/** What happens when the player's completion callback overlaps the render thread's own call of it. */
module PlayerOverlap {
  import opened Octets
  import opened Media
  import opened Player
  import opened PlayerOwnership
  import opened PlayerReleases
  import opened PlayerRuns

  /** One packet on its way from the file to the output queue. */
  lemma OneFrame(c: Config, s0: State) returns (s: State)
    requires Reachable(c, s0) && Flowing(s0)
    ensures Reachable(c, s) && Flowing(s) && s.r == s0.r
    ensures s.a.outQ != [] && s.a.outQ == s0.a.outQ + [s.a.outQ[|s.a.outQ| - 1]]
    ensures s.a.outQ[|s.a.outQ| - 1].kind == AudioFrame
  {
    s := OnePacket(c, s0);
    s := Take(c, s, Decoder(ACheckStep));
    s := Take(c, s, Decoder(APopStep));
    s := Take(c, s, Decoder(AHandleStep));
    s := Take(c, s, Decoder(APushStep));
  }

  lemma OnePacket(c: Config, s0: State) returns (s: State)
    requires Reachable(c, s0) && Flowing(s0)
    ensures Reachable(c, s) && s.a == s0.a && s.r == s0.r && s.mpc == s0.mpc && s.o == s0.o
    ensures |s.d.audioQ| == 1 && s.d.audioQ[0].kind == AudioPkt && s.d == s0.d.(audioQ := s.d.audioQ)
  {
    s := Take(c, s0, Demuxer(DCheckStep));
    s := Take(c, s, Demuxer(DGateStep));
    s := Take(c, s, Demuxer(DReadStep(Audio)));
    s := Take(c, s, Demuxer(DPushStep));
  }

  /** A render config and behind it n frames. */
  predicate Frames(q: Queue, n: nat) {
    |q| == n + 1 && q[0].kind == AudioRenderConfig && forall k :: 1 <= k <= n ==> q[k].kind == AudioFrame
  }

  lemma FrameMore(c: Config, s0: State, n: nat) returns (s: State)
    requires Reachable(c, s0) && Flowing(s0) && Frames(s0.a.outQ, n)
    ensures Reachable(c, s) && Flowing(s) && Frames(s.a.outQ, n + 1) && s.r == s0.r
  {
    s := OneFrame(c, s0);
    FramesAppend(s0.a.outQ, s.a.outQ[|s.a.outQ| - 1], n);
  }

  lemma FramesAppend(q: Queue, m: Message, n: nat)
    requires Frames(q, n) && m.kind == AudioFrame
    ensures Frames(q + [m], n + 1)
  {
  }

  /** A render config and three frames in the output queue, the render thread at its loop. */
  lemma ThreeFrames(c: Config) returns (s: State)
    ensures Reachable(c, s) && Frames(s.a.outQ, 3) && !s.o.harmed
    ensures s.r == Output(RTop, CIdle, CIdle, false, false, None, None, false)
  {
    s := FlowStarts(c);
    s := FrameMore(c, s, 0);
    s := FrameMore(c, s, 1);
    s := FrameMore(c, s, 2);
  }

  lemma PlayerMade(c: Config) returns (s: State)
    ensures Reachable(c, s) && |s.a.outQ| == 3 && forall k :: 0 <= k < 3 ==> s.a.outQ[k].kind == AudioFrame
    ensures s.r == Output(RCalling, CCheck, CIdle, true, false, None, None, false) && !s.o.harmed
  {
    s := ThreeFrames(c);
    s := Take(c, s, Render(RCheckStep));
    s := Take(c, s, Render(RPeekStep));
    s := Take(c, s, Render(RDestroyStep));
    s := Take(c, s, Render(RDeleteStep));
    s := Take(c, s, Render(RConfigureStep));
  }

  /** The render thread's own call enqueues the first frame. */
  lemma DirectEnqueued(c: Config) returns (s: State)
    ensures Reachable(c, s) && |s.a.outQ| == 2 && s.a.outQ[0].kind == AudioFrame && s.a.outQ[1].kind == AudioFrame
    ensures s.r.player && s.r.busy && s.r.direct.CSaving? && s.r.fromPlayer == CIdle && s.r.current == None
    ensures !s.r.cancel && !s.o.harmed
  {
    s := PlayerMade(c);
    s := Take(c, s, Callback(Direct, CCheckStep));
    s := Take(c, s, Callback(Direct, CTryStep));
    s := Take(c, s, Callback(Direct, CEnqueueStep));
  }

  /** The player calls back and its call gets as far as releasing the buffer of the previous one. */
  lemma Completes(c: Config, s0: State) returns (s: State)
    requires Reachable(c, s0) && !c.serial && s0.r.player && s0.r.busy && s0.r.fromPlayer == CIdle && !s0.r.cancel
    requires s0.a.outQ != [] && s0.a.outQ[0].kind == AudioFrame
    ensures Reachable(c, s)
    ensures s.a.outQ == s0.a.outQ[1..]
    ensures s.r == s0.r.(fromPlayer := CStoring(s0.a.outQ[0]), lastEnqueued := Some(s0.a.outQ[0].id))
    ensures s.m.released == s0.m.released + OfOption(s0.r.current)
    ensures s.o.stale == s0.o.stale && s.o.harmed == (s0.o.harmed || (s0.o.stale && s0.r.current.Some?))
  {
    s := Take(c, s0, Complete);
    s := Take(c, s, Callback(FromPlayer, CCheckStep));
    s := Take(c, s, Callback(FromPlayer, CTryStep));
    s := Take(c, s, Callback(FromPlayer, CEnqueueStep));
    s := Take(c, s, Callback(FromPlayer, CDeleteStep));
  }

  /** While the render thread's call is still saving its buffer, the player's call enqueues and keeps another. */
  lemma Overlapped(c: Config) returns (s: State)
    requires !c.serial
    ensures Reachable(c, s) && |s.a.outQ| == 1 && s.a.outQ[0].kind == AudioFrame && !s.r.cancel
    ensures s.r.player && s.r.busy && s.r.direct.CSaving? && s.r.fromPlayer == CIdle
    ensures s.r.lastEnqueued.Some? && s.r.current == s.r.lastEnqueued
  {
    s := DirectEnqueued(c);
    s := Completes(c, s);
    s := Take(c, s, Callback(FromPlayer, CStoreStep));
  }

  /** Then the render thread's call releases that buffer, which the player is playing. */
  lemma ReleasedWhilePlaying(c: Config) returns (s: State)
    requires !c.serial
    ensures Reachable(c, s) && !PlayingAlive(s)
  {
    var before := Overlapped(c);
    s := Take(c, before, Callback(Direct, CDeleteStep));
    assert s.m.released == before.m.released + [before.r.current.value];
    assert s.m.released[|before.m.released|] == s.r.lastEnqueued.value;
  }

  /** With one more completion in between, both calls release it. */
  lemma ReleasedTwice(c: Config) returns (s: State)
    requires !c.serial
    ensures Reachable(c, s) && !Distinct(s.m.released)
  {
    var one := Overlapped(c);
    var two := Completes(c, one);
    s := Take(c, two, Callback(Direct, CDeleteStep));
    var x, n := one.r.current.value, |one.m.released|;
    assert s.m.released == (one.m.released + [x]) + [x];
    assert s.m.released[n] == x && s.m.released[n + 1] == x;
  }

  /** An overlap that does no harm: the player's call has not stored its buffer when the other comes to delete. */
  lemma HarmlessOverlap(c: Config) returns (mid: State, steps: seq<Step>)
    requires !c.serial
    ensures Reachable(c, mid) && mid.r.direct.CSaving? && mid.r.fromPlayer.CStoring?
    ensures Valid(c, mid, steps)
    ensures var s := After(c, mid, steps); s.r.direct == CIdle && s.r.fromPlayer == CIdle && !s.o.harmed
  {
    mid := DirectEnqueued(c);
    mid := Completes(c, mid);
    var one := CallApply(mid, Direct, CDeleteStep);
    var two := CallApply(one, Direct, CStoreStep);
    steps := [Callback(Direct, CDeleteStep)];
    RunOne(c, mid, Callback(Direct, CDeleteStep));
    RunTo(c, mid, steps, one, Callback(Direct, CStoreStep));
    steps := steps + [Callback(Direct, CStoreStep)];
    RunTo(c, mid, steps, two, Callback(FromPlayer, CStoreStep));
    steps := steps + [Callback(FromPlayer, CStoreStep)];
  }

  /** In terms of the configuration: the buffer being played always stays alive, no payload is ever released twice,
  and the render thread's own call never finds a buffer, exactly if no completion may overlap that call. */
  lemma SerialIff(c: Config)
    ensures (forall s :: Reachable(c, s) ==> PlayingAlive(s)) <==> c.serial
    ensures (forall s :: Reachable(c, s) ==> Distinct(s.m.released)) <==> c.serial
    ensures (forall s :: Reachable(c, s) ==> !Finds(s.r)) <==> c.serial
  {
    if c.serial {
      forall s | Reachable(c, s) ensures !Finds(s.r) && PlayingAlive(s) && Distinct(s.m.released) {
        SerialFindsNothing(c, s);
        SafeUnlessHarmed(c, s);
      }
    } else {
      var found := Overlapped(c);
      var one := ReleasedWhilePlaying(c);
      var two := ReleasedTwice(c);
      assert Finds(found.r);
    }
  }
}
