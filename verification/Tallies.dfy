/** Additive measures on payloads. What the player's steps conserve, they conserve for every such measure;
counting one payload is one of them. */
module Tallies {
  import opened Octets
  import opened Media

  /** A measure of queues, of lists of payloads and of single payloads. */
  datatype Tally = Tally(queue: Queue -> nat, ids: seq<nat> -> nat, one: nat -> nat)

  ghost predicate Additive(t: Tally) {
    && t.queue([]) == 0 && t.ids([]) == 0
    && (forall q, m :: t.queue(q + [m]) == t.queue(q) + t.one(m.id))
    && (forall m, q :: t.queue([m] + q) == t.one(m.id) + t.queue(q))
    && (forall ids, id :: t.ids(ids + [id]) == t.ids(ids) + t.one(id))
    && (forall ids, q :: t.ids(ids + Ids(q)) == t.ids(ids) + t.queue(q))
  }

  function OfMessage(t: Tally, m: Option<Message>): nat {
    match m case None => 0 case Some(p) => t.one(p.id)
  }

  function OfId(t: Tally, o: Option<nat>): nat {
    match o case None => 0 case Some(id) => t.one(id)
  }

  lemma TallyPop(t: Tally, q: Queue)
    requires Additive(t) && q != []
    ensures t.queue(q) == t.one(q[0].id) + t.queue(q[1..])
  {
    assert q == [q[0]] + q[1..];
  }

  lemma TallyNewest(t: Tally, q: Queue)
    requires Additive(t)
    ensures t.queue(q) == t.queue(WithoutNewest(q)) + t.queue(Newest(q))
  {
    if q != [] {
      assert q == WithoutNewest(q) + [q[|q| - 1]];
      assert Newest(q) == [] + [q[|q| - 1]];
    }
  }

  lemma TallyReleased(t: Tally, ids: seq<nat>, o: Option<nat>, more: seq<nat>)
    requires Additive(t) && more == (match o case None => [] case Some(id) => [id])
    ensures t.ids(ids + more) == t.ids(ids) + OfId(t, o)
  {
    if o == None {
      assert ids + [] == ids;
    }
  }

  lemma TallyTwo(t: Tally, ids: seq<nat>, a: Queue, b: Queue)
    requires Additive(t)
    ensures t.ids(ids + (Ids(a) + Ids(b))) == t.ids(ids) + t.queue(a) + t.queue(b)
  {
    assert ids + (Ids(a) + Ids(b)) == (ids + Ids(a)) + Ids(b);
  }

  // ---- counting one payload

  function Bit(b: bool): nat {
    if b then 1 else 0
  }

  function Count(ids: seq<nat>, x: nat): nat {
    if ids == [] then 0 else Count(ids[..|ids| - 1], x) + Bit(ids[|ids| - 1] == x)
  }

  function Counter(x: nat): Tally {
    Tally(q => Count(Ids(q), x), ids => Count(ids, x), id => Bit(id == x))
  }

  lemma {:induction false} CountAppend(p: seq<nat>, q: seq<nat>, x: nat)
    ensures Count(p + q, x) == Count(p, x) + Count(q, x)
    decreases |q|
  {
    if q == [] {
      assert p + q == p;
    } else {
      assert (p + q)[..|p + q| - 1] == p + q[..|q| - 1];
      CountAppend(p, q[..|q| - 1], x);
    }
  }

  lemma CountOne(id: nat, x: nat)
    ensures Count([id], x) == Bit(id == x)
  {
    assert [id][..0] == [];
  }

  lemma CounterAdditive(x: nat)
    ensures Additive(Counter(x))
  {
    var t := Counter(x);
    assert Ids([]) == [];
    forall q: Queue, m: Message ensures t.queue(q + [m]) == t.queue(q) + t.one(m.id) {
      assert Ids(q + [m]) == Ids(q) + [m.id];
      CountAppend(Ids(q), [m.id], x);
      CountOne(m.id, x);
    }
    forall m: Message, q: Queue ensures t.queue([m] + q) == t.one(m.id) + t.queue(q) {
      assert Ids([m] + q) == [m.id] + Ids(q);
      CountAppend([m.id], Ids(q), x);
      CountOne(m.id, x);
    }
    forall ids: seq<nat>, id: nat ensures t.ids(ids + [id]) == t.ids(ids) + t.one(id) {
      CountAppend(ids, [id], x);
      CountOne(id, x);
    }
    forall ids: seq<nat>, q: Queue ensures t.ids(ids + Ids(q)) == t.ids(ids) + t.queue(q) {
      CountAppend(ids, Ids(q), x);
    }
  }

  lemma CountPrefix(p: seq<nat>, q: seq<nat>, x: nat)
    requires p <= q
    ensures Count(p, x) <= Count(q, x)
  {
    assert q == p + q[|p|..];
    CountAppend(p, q[|p|..], x);
  }

  lemma {:induction false} CountIn(ids: seq<nat>, x: nat)
    ensures x in ids <==> Count(ids, x) > 0
  {
    if ids != [] {
      CountIn(ids[..|ids| - 1], x);
    }
  }

  lemma {:induction false} CountTwice(ids: seq<nat>, j: nat, k: nat)
    requires j < k < |ids| && ids[j] == ids[k]
    ensures Count(ids, ids[k]) >= 2
  {
    if k == |ids| - 1 {
      CountIn(ids[..k], ids[j]);
    } else {
      CountTwice(ids[..|ids| - 1], j, k);
    }
  }

  function Upto(n: nat): seq<nat> {
    seq(n, i => i)
  }

  lemma UptoNext(n: nat)
    ensures Upto(n + 1) == Upto(n) + [n]
  {
  }

  lemma {:induction false} CountUpto(n: nat, x: nat)
    ensures Count(Upto(n), x) == Bit(x < n)
    decreases n
  {
    if n > 0 {
      UptoNext(n - 1);
      CountUpto(n - 1, x);
      CountAppend(Upto(n - 1), [n - 1], x);
      CountOne(n - 1, x);
    } else {
      assert Upto(0) == [];
    }
  }
}
