/** The mutexes of the native player, acquisition by acquisition. */
module LockOrder {

  datatype Thread = DemuxerThread | AudioDecoderThread | AudioRenderThread | AudioCallback
                  | VideoDecoderThread | VideoRenderThread | MainThread

  /** The four message queues, and each thread's own mutex around its cancel flag. */
  datatype Lock = AudioQueue | VideoQueue | AudioOut | VideoOut | CancelOf(t: Thread)

  datatype Op = Acquire(l: Lock) | Release(l: Lock)

  /** One queue, or one cancel flag, for as long as it takes to look at it or change it. */
  function Alone(l: Lock): seq<Op> {
    [Acquire(l), Release(l)]
  }

  /** The demuxer's look at both queues; the branches that wait, skip and pass release alike. */
  function Both(): seq<Op> {
    [Acquire(AudioQueue), Acquire(VideoQueue), Release(VideoQueue), Release(AudioQueue)]
  }

  /** What is in front of the video queue: nothing, a packet, or another message. */
  datatype Front = Nothing | Packet | Other

  /** A look of CVideoSource::read at the video queue: on a message that is not a packet it returns with the
  mutex. */
  function ReadOps(front: Front): seq<Op> {
    if front == Other then [Acquire(VideoQueue)] else Alone(VideoQueue)
  }

  /** What a thread can do between two points where it holds nothing; fronts is what the video source can
  meet. */
  predicate Section(fronts: set<Front>, t: Thread, ops: seq<Op>) {
    match t
    case DemuxerThread =>
      ops == Both() || ops == Alone(AudioQueue) || ops == Alone(VideoQueue) || ops == Alone(CancelOf(t))
    case AudioDecoderThread => ops == Alone(AudioQueue) || ops == Alone(AudioOut) || ops == Alone(CancelOf(t))
    case AudioRenderThread => ops == Alone(AudioOut) || ops == Alone(CancelOf(t))
    case AudioCallback => ops == Alone(AudioOut) || ops == Alone(CancelOf(AudioRenderThread))
    case VideoDecoderThread =>
      ops == Alone(VideoQueue) || ops == Alone(VideoOut) || ops == Alone(CancelOf(t))
      || exists front :: front in fronts && ops == ReadOps(front)
    case VideoRenderThread => ops == Alone(VideoOut) || ops == Alone(CancelOf(t))
    case MainThread => ops == Alone(AudioQueue) || ops == Alone(VideoQueue) || exists u :: ops == Alone(CancelOf(u))
  }

  function Joined(parts: seq<seq<Op>>): seq<Op> {
    if parts == [] then [] else Joined(parts[..|parts| - 1]) + parts[|parts| - 1]
  }

  predicate AllSections(fronts: set<Front>, t: Thread, parts: seq<seq<Op>>) {
    forall k :: 0 <= k < |parts| ==> Section(fronts, t, parts[k])
  }

  /** A thread's trace: one section after the other. */
  ghost predicate Sectioned(fronts: set<Front>, t: Thread, ops: seq<Op>) {
    exists parts :: AllSections(fronts, t, parts) && Joined(parts) == ops
  }

  lemma {:induction false} JoinedAppend(a: seq<seq<Op>>, b: seq<seq<Op>>)
    ensures Joined(a + b) == Joined(a) + Joined(b)
    decreases |b|
  {
    if b == [] {
      assert a + b == a;
    } else {
      assert (a + b)[..|a + b| - 1] == a + b[..|b| - 1];
      JoinedAppend(a, b[..|b| - 1]);
    }
  }

  lemma SectionedAppend(fronts: set<Front>, t: Thread, a: seq<Op>, b: seq<Op>)
    requires Sectioned(fronts, t, a) && Sectioned(fronts, t, b)
    ensures Sectioned(fronts, t, a + b)
  {
    var x :| AllSections(fronts, t, x) && Joined(x) == a;
    var y :| AllSections(fronts, t, y) && Joined(y) == b;
    JoinedAppend(x, y);
    AllSectionsAppend(fronts, t, x, y);
  }

  lemma AllSectionsAppend(fronts: set<Front>, t: Thread, x: seq<seq<Op>>, y: seq<seq<Op>>)
    requires AllSections(fronts, t, x) && AllSections(fronts, t, y)
    ensures AllSections(fronts, t, x + y)
  {
  }

  lemma SectionedNone(fronts: set<Front>, t: Thread)
    ensures Sectioned(fronts, t, [])
  {
    assert AllSections(fronts, t, []) && Joined([]) == [];
  }

  lemma SectionedOne(fronts: set<Front>, t: Thread, ops: seq<Op>)
    requires Section(fronts, t, ops)
    ensures Sectioned(fronts, t, ops)
  {
    assert [ops][..0] == [];
    assert AllSections(fronts, t, [ops]) && Joined([ops]) == ops;
  }

  /** From before to now a thread has gone through whole sections only. */
  ghost predicate Went(fronts: set<Front>, t: Thread, before: seq<Op>, now: seq<Op>) {
    before <= now && Sectioned(fronts, t, now[|before|..])
  }

  lemma WentFurther(fronts: set<Front>, t: Thread, before: seq<Op>, mid: seq<Op>, ops: seq<Op>)
    requires Went(fronts, t, before, mid) && Sectioned(fronts, t, ops)
    ensures Went(fronts, t, before, mid + ops)
  {
    SectionedAppend(fronts, t, mid[|before|..], ops);
    assert (mid + ops)[|before|..] == mid[|before|..] + ops;
  }

  lemma WentNowhere(fronts: set<Front>, t: Thread, before: seq<Op>)
    ensures Went(fronts, t, before, before)
  {
    SectionedNone(fronts, t);
    assert before[|before|..] == [];
  }

  lemma WentThrough(fronts: set<Front>, t: Thread, before: seq<Op>, mid: seq<Op>, ops: seq<Op>)
    requires Went(fronts, t, before, mid) && Section(fronts, t, ops)
    ensures Went(fronts, t, before, mid + ops)
  {
    SectionedOne(fronts, t, ops);
    WentFurther(fronts, t, before, mid, ops);
  }

  lemma WentOn(fronts: set<Front>, t: Thread, before: seq<Op>, mid: seq<Op>, now: seq<Op>)
    requires Went(fronts, t, before, mid) && Went(fronts, t, mid, now)
    ensures Went(fronts, t, before, now)
  {
    WentFurther(fronts, t, before, mid, now[|mid|..]);
    assert mid + now[|mid|..] == now;
  }

  /** What each thread has yet to do of its section, and who has each lock. */
  datatype Locks = Locks(todo: map<Thread, seq<Op>>, owner: map<Lock, Thread>)

  datatype Move = Enter(t: Thread, ops: seq<Op>) | Next(t: Thread)

  function Todo(s: Locks, t: Thread): seq<Op> {
    if t in s.todo then s.todo[t] else []
  }

  predicate Can(fronts: set<Front>, s: Locks, move: Move) {
    match move
    case Enter(t, ops) => Todo(s, t) == [] && Section(fronts, t, ops)
    case Next(t) =>
      Todo(s, t) != [] && (Todo(s, t)[0].Acquire? ==> Todo(s, t)[0].l !in s.owner)
  }

  function Do(s: Locks, move: Move): Locks
    requires move.Next? ==> Todo(s, move.t) != []
  {
    match move
    case Enter(t, ops) => s.(todo := s.todo[t := ops])
    case Next(t) =>
      var op := Todo(s, t)[0];
      Locks(s.todo[t := Todo(s, t)[1..]],
            if op.Acquire? then s.owner[op.l := t] else s.owner - {op.l})
  }

  const AT_REST := Locks(map[], map[])

  ghost predicate Valid(fronts: set<Front>, s: Locks, moves: seq<Move>)
    decreases |moves|
  {
    moves == [] || (Can(fronts, s, moves[0]) && Valid(fronts, Do(s, moves[0]), moves[1..]))
  }

  function After(fronts: set<Front>, s: Locks, moves: seq<Move>): Locks
    requires Valid(fronts, s, moves)
    decreases |moves|
  {
    if moves == [] then s else After(fronts, Do(s, moves[0]), moves[1..])
  }

  ghost predicate Leads(fronts: set<Front>, s: Locks, t: Locks) {
    exists moves :: Valid(fronts, s, moves) && After(fronts, s, moves) == t
  }

  ghost predicate Reachable(fronts: set<Front>, s: Locks) {
    Leads(fronts, AT_REST, s)
  }

  // ---- the order

  /** Audio before video; every other mutex is taken alone. */
  function Rank(l: Lock): nat {
    if l == AudioQueue then 0 else 1
  }

  function Held(s: Locks, t: Thread): set<Lock> {
    set l | l in s.owner && s.owner[l] == t
  }

  /** From holding held, ops acquires upwards only, releases what it holds, and ends holding nothing. */
  predicate Disciplined(ops: seq<Op>, held: set<Lock>)
    decreases |ops|
  {
    if ops == [] then held == {}
    else if ops[0].Acquire? then
      (forall l :: l in held ==> Rank(l) < Rank(ops[0].l)) && Disciplined(ops[1..], held + {ops[0].l})
    else ops[0].l in held && Disciplined(ops[1..], held - {ops[0].l})
  }

  ghost predicate Orderly(s: Locks) {
    forall t :: Disciplined(Todo(s, t), Held(s, t))
  }

  lemma SectionDisciplined(fronts: set<Front>, t: Thread, ops: seq<Op>)
    requires Section(fronts, t, ops) && Other !in fronts
    ensures Disciplined(ops, {})
  {
    if ops == Both() {
      var a, v := Acquire(AudioQueue), Acquire(VideoQueue);
      assert ops[1..] == [v, Release(VideoQueue), Release(AudioQueue)];
      assert ops[1..][1..] == [Release(VideoQueue), Release(AudioQueue)];
      assert ops[1..][1..][1..] == [Release(AudioQueue)];
      assert {} + {AudioQueue} == {AudioQueue} && {AudioQueue} + {VideoQueue} - {VideoQueue} == {AudioQueue};
    } else {
      var l := ops[0].l;
      assert ops == Alone(l) && ops[1..] == [Release(l)];
      assert {} + {l} == {l} && {l} - {l} == {};
    }
  }

  lemma OrderlyMove(fronts: set<Front>, s: Locks, move: Move)
    requires Orderly(s) && Can(fronts, s, move) && Other !in fronts
    ensures Orderly(Do(s, move))
  {
    var s' := Do(s, move);
    forall t ensures Disciplined(Todo(s', t), Held(s', t)) {
      assert Disciplined(Todo(s, t), Held(s, t));
      assert Disciplined(Todo(s, move.t), Held(s, move.t));
      match move
      case Enter(u, ops) =>
        assert Held(s', t) == Held(s, t);
        if t == u {
          SectionDisciplined(fronts, u, ops);
        }
      case Next(u) =>
        var op := Todo(s, u)[0];
        if t != u {
          assert Held(s', t) == Held(s, t);
        } else if op.Acquire? {
          assert Held(s', t) == Held(s, t) + {op.l};
        } else {
          assert Held(s', t) == Held(s, t) - {op.l};
        }
    }
  }

  lemma {:induction false} OrderlyRun(fronts: set<Front>, s: Locks, moves: seq<Move>)
    requires Orderly(s) && Valid(fronts, s, moves) && Other !in fronts
    ensures Orderly(After(fronts, s, moves))
    decreases |moves|
  {
    if moves != [] {
      OrderlyMove(fronts, s, moves[0]);
      OrderlyRun(fronts, Do(s, moves[0]), moves[1..]);
    }
  }

  lemma ReachableOrderly(fronts: set<Front>, s: Locks)
    requires Reachable(fronts, s) && Other !in fronts
    ensures Orderly(s)
  {
    var moves :| Valid(fronts, AT_REST, moves) && After(fronts, AT_REST, moves) == s;
    forall t ensures Disciplined(Todo(AT_REST, t), Held(AT_REST, t)) {
      assert Held(AT_REST, t) == {};
    }
    OrderlyRun(fronts, AT_REST, moves);
  }

  // ---- no deadlock

  predicate Inside(s: Locks, t: Thread) {
    Todo(s, t) != []
  }

  predicate Blocked(s: Locks, t: Thread) {
    Inside(s, t) && Todo(s, t)[0].Acquire? && Todo(s, t)[0].l in s.owner
  }

  /** The thread that has the lock a blocked thread waits for. */
  function WaitsFor(s: Locks, t: Thread): Thread
    requires Blocked(s, t)
  {
    s.owner[Todo(s, t)[0].l]
  }

  /** Whoever holds a lock is inside a section, and waits, if at all, for a lock of higher rank. */
  lemma WaitingClimbs(s: Locks, t: Thread)
    requires Orderly(s) && Blocked(s, t)
    ensures Inside(s, WaitsFor(s, t)) && WaitsFor(s, t) != t
    ensures Blocked(s, WaitsFor(s, t)) ==> Rank(Todo(s, t)[0].l) < Rank(Todo(s, WaitsFor(s, t))[0].l)
  {
    var l, u := Todo(s, t)[0].l, WaitsFor(s, t);
    assert l in Held(s, u);
    assert Disciplined(Todo(s, u), Held(s, u)) && Disciplined(Todo(s, t), Held(s, t));
  }

  /** Waiting has no cycle: a blocked thread waits for one that can go on, or for one that waits for such a
  thread. */
  lemma WaitingEnds(fronts: set<Front>, s: Locks, t: Thread)
    requires Reachable(fronts, s) && Other !in fronts && Blocked(s, t)
    ensures var u := WaitsFor(s, t);
      Inside(s, u) && (Blocked(s, u) ==> Inside(s, WaitsFor(s, u)) && !Blocked(s, WaitsFor(s, u)))
  {
    ReachableOrderly(fronts, s);
    WaitingClimbs(s, t);
    var u := WaitsFor(s, t);
    if Blocked(s, u) {
      WaitingClimbs(s, u);
    }
  }

  ghost predicate Deadlocked(s: Locks) {
    (exists t :: Inside(s, t)) && (forall t :: Inside(s, t) ==> Blocked(s, t))
  }

  lemma NoDeadlock(fronts: set<Front>, s: Locks)
    requires Reachable(fronts, s) && Other !in fronts
    ensures !Deadlocked(s)
  {
    if Deadlocked(s) {
      var t :| Inside(s, t);
      WaitingEnds(fronts, s, t);
    }
  }

  // ---- a thread that leaves the video queue locked

  /** The first thing ops does with l is to release it. */
  predicate ReleasesFirst(ops: seq<Op>, l: Lock)
    decreases |ops|
  {
    ops != [] && if ops[0].l == l then ops[0].Release? else ReleasesFirst(ops[1..], l)
  }

  /** The video queue is locked, and no thread is about to release it. */
  ghost predicate Lost(s: Locks) {
    VideoQueue in s.owner && forall t :: !ReleasesFirst(Todo(s, t), VideoQueue)
  }

  lemma SectionAcquiresFirst(fronts: set<Front>, t: Thread, ops: seq<Op>)
    requires Section(fronts, t, ops)
    ensures !ReleasesFirst(ops, VideoQueue)
  {
    if ops == Both() {
      assert ops[1..][0] == Acquire(VideoQueue);
    } else if ops != [Acquire(VideoQueue)] {
      var l := ops[0].l;
      assert ops == Alone(l) && ops[1..] == [Release(l)];
    }
  }

  lemma LostMove(fronts: set<Front>, s: Locks, move: Move)
    requires Lost(s) && Can(fronts, s, move)
    ensures Lost(Do(s, move))
  {
    var s' := Do(s, move);
    forall t ensures !ReleasesFirst(Todo(s', t), VideoQueue) {
      assert !ReleasesFirst(Todo(s, t), VideoQueue);
      if move.Enter? && t == move.t {
        SectionAcquiresFirst(fronts, t, move.ops);
      }
    }
    assert !ReleasesFirst(Todo(s, move.t), VideoQueue);
  }

  lemma {:induction false} LostRun(fronts: set<Front>, s: Locks, moves: seq<Move>)
    requires Lost(s) && Valid(fronts, s, moves)
    ensures Lost(After(fronts, s, moves))
    decreases |moves|
  {
    if moves != [] {
      LostMove(fronts, s, moves[0]);
      LostRun(fronts, Do(s, moves[0]), moves[1..]);
    }
  }

  /** Once CVideoSource::read has returned with the mutex, no run ever frees the video queue. */
  lemma LostForGood(fronts: set<Front>, s: Locks, t: Locks)
    requires Lost(s) && Leads(fronts, s, t)
    ensures VideoQueue in t.owner
  {
    var moves :| Valid(fronts, s, moves) && After(fronts, s, moves) == t;
    LostRun(fronts, s, moves);
  }

  lemma {:induction false} RunExtends(fronts: set<Front>, s: Locks, moves: seq<Move>, move: Move)
    requires Valid(fronts, s, moves) && Can(fronts, After(fronts, s, moves), move)
    ensures Valid(fronts, s, moves + [move])
    ensures After(fronts, s, moves + [move]) == Do(After(fronts, s, moves), move)
    decreases |moves|
  {
    if moves == [] {
      assert moves + [move] == [move] && [move][1..] == [];
    } else {
      assert (moves + [move])[1..] == moves[1..] + [move];
      RunExtends(fronts, Do(s, moves[0]), moves[1..], move);
    }
  }

  lemma Take(fronts: set<Front>, s0: Locks, s: Locks, move: Move) returns (t: Locks)
    requires Leads(fronts, s0, s) && Can(fronts, s, move)
    ensures t == Do(s, move) && Leads(fronts, s0, t)
  {
    var moves :| Valid(fronts, s0, moves) && After(fronts, s0, moves) == s;
    RunExtends(fronts, s0, moves, move);
    t := Do(s, move);
  }

  lemma LeadsToItself(fronts: set<Front>, s: Locks)
    ensures Leads(fronts, s, s)
  {
    assert Valid(fronts, s, []) && After(fronts, s, []) == s;
  }

  /** If the source can meet a message that is not a packet, it can lose the video queue, and the demuxer then
  waits for it with the audio queue. */
  lemma OtherDeadlocks(fronts: set<Front>) returns (lost: Locks, dead: Locks)
    requires Other in fronts
    ensures Reachable(fronts, lost) && Lost(lost)
    ensures Reachable(fronts, dead) && Deadlocked(dead)
  {
    var r := AT_REST;
    LeadsToItself(fronts, r);
    var one := Take(fronts, r, r, Enter(VideoDecoderThread, ReadOps(Other)));
    lost := Take(fronts, r, one, Next(VideoDecoderThread));
    forall t ensures !ReleasesFirst(Todo(lost, t), VideoQueue) {
    }
    var three := Take(fronts, r, lost, Enter(DemuxerThread, Both()));
    dead := Take(fronts, r, three, Next(DemuxerThread));
    assert Blocked(dead, DemuxerThread);
  }

  /** The mutexes never deadlock exactly if what the video source meets in front of its queue is always a
  packet or nothing. */
  lemma DeadlockFreeIff(fronts: set<Front>)
    ensures (forall s :: Reachable(fronts, s) ==> !Deadlocked(s)) <==> Other !in fronts
  {
    if Other in fronts {
      var lost, dead := OtherDeadlocks(fronts);
    } else {
      forall s | Reachable(fronts, s) ensures !Deadlocked(s) {
        NoDeadlock(fronts, s);
      }
    }
  }

  // ---- every section can be finished

  function Total(s: Locks): nat {
    |Todo(s, DemuxerThread)| + |Todo(s, AudioDecoderThread)| + |Todo(s, AudioRenderThread)|
    + |Todo(s, AudioCallback)| + |Todo(s, VideoDecoderThread)| + |Todo(s, VideoRenderThread)|
    + |Todo(s, MainThread)|
  }

  lemma TotalNext(s: Locks, t: Thread)
    requires Inside(s, t)
    ensures Total(Do(s, Next(t))) == Total(s) - 1
  {
    var s' := Do(s, Next(t));
    assert |Todo(s', t)| == |Todo(s, t)| - 1;
    assert forall u :: u != t ==> Todo(s', u) == Todo(s, u);
  }

  lemma TotalZero(s: Locks)
    requires Total(s) == 0
    ensures forall u :: !Inside(s, u)
  {
    forall u ensures !Inside(s, u) {
      match u
      case DemuxerThread =>
      case AudioDecoderThread =>
      case AudioRenderThread =>
      case AudioCallback =>
      case VideoDecoderThread =>
      case VideoRenderThread =>
      case MainThread =>
    }
  }

  lemma TotalPositive(s: Locks) returns (u: Thread)
    requires Total(s) > 0
    ensures Inside(s, u)
  {
    u := if Todo(s, DemuxerThread) != [] then DemuxerThread
         else if Todo(s, AudioDecoderThread) != [] then AudioDecoderThread
         else if Todo(s, AudioRenderThread) != [] then AudioRenderThread
         else if Todo(s, AudioCallback) != [] then AudioCallback
         else if Todo(s, VideoDecoderThread) != [] then VideoDecoderThread
         else if Todo(s, VideoRenderThread) != [] then VideoRenderThread
         else MainThread;
  }

  lemma HolderInside(s: Locks, l: Lock)
    requires Orderly(s) && l in s.owner
    ensures Inside(s, s.owner[l])
  {
    assert l in Held(s, s.owner[l]);
    assert Disciplined(Todo(s, s.owner[l]), Held(s, s.owner[l]));
  }

  lemma NobodyInside(s: Locks)
    requires Orderly(s) && forall u :: !Inside(s, u)
    ensures s.owner == map[]
  {
    if s.owner != map[] {
      var l :| l in s.owner;
      HolderInside(s, l);
      assert false;
    }
  }

  /** From every reachable state the threads can finish their sections, and then no mutex is taken. */
  lemma {:induction false} AllCanFinish(fronts: set<Front>, s: Locks) returns (t: Locks)
    requires Reachable(fronts, s) && Other !in fronts
    ensures Leads(fronts, s, t) && Reachable(fronts, t) && t.owner == map[] && forall u :: !Inside(t, u)
    decreases Total(s)
  {
    LeadsToItself(fronts, s);
    if Total(s) == 0 {
      t := s;
      TotalZero(s);
      ReachableOrderly(fronts, s);
      NobodyInside(s);
    } else {
      var someone := TotalPositive(s);
      NoDeadlock(fronts, s);
      var u :| Inside(s, u) && !Blocked(s, u);
      TotalNext(s, u);
      var next := Take(fronts, AT_REST, s, Next(u));
      t := AllCanFinish(fronts, next);
      var moves :| Valid(fronts, next, moves) && After(fronts, next, moves) == t;
      assert ([Next(u)] + moves)[1..] == moves;
      assert Valid(fronts, s, [Next(u)] + moves);
    }
  }
}
