/** The buffer queues of an IL component (in_list and out_list): buffer headers linked
    through pAppPrivate, appended by the buffer-done callbacks and taken by port. */
module IlBuffers {
  import opened Sequences

  class Buffer {
    const port: int
    var pAppPrivate: Buffer?

    constructor (port: int)
      ensures this.port == port && pAppPrivate == null
    {
      this.port, pAppPrivate := port, null;
    }
  }

  // ---- The queue on values ----

  /** Index of the first buffer of a port, |q| when there is none. */
  function FirstOf(q: seq<Buffer>, port: int): (k: nat)
    ensures k <= |q|
    ensures forall j :: 0 <= j < k ==> q[j].port != port
    ensures k < |q| ==> q[k].port == port
  {
    if q == [] || q[0].port == port then 0 else 1 + FirstOf(q[1..], port)
  }

  lemma FirstOfIs(q: seq<Buffer>, port: int, k: nat)
    requires k <= |q|
    requires forall j :: 0 <= j < k ==> q[j].port != port
    requires k == |q| || q[k].port == port
    ensures FirstOf(q, port) == k
  {
  }

  function Without(q: seq<Buffer>, k: nat): (r: seq<Buffer>)
    requires k < |q|
    ensures |r| == |q| - 1
    ensures forall i :: 0 <= i < |r| ==> r[i] == q[if i < k then i else i + 1]
  {
    q[..k] + q[k + 1..]
  }

  function OfPort(q: seq<Buffer>, port: int): seq<Buffer> {
    if q == [] then []
    else if q[0].port == port then [q[0]] + OfPort(q[1..], port)
    else OfPort(q[1..], port)
  }

  lemma {:induction false} OfPortConcat(a: seq<Buffer>, b: seq<Buffer>, port: int)
    ensures OfPort(a + b, port) == OfPort(a, port) + OfPort(b, port)
  {
    if a == [] {
      assert a + b == b;
    } else {
      var c := a + b;
      assert c[0] == a[0] && c[1..] == a[1..] + b;
      OfPortConcat(a[1..], b, port);
      if a[0].port == port {
        assert [a[0]] + (OfPort(a[1..], port) + OfPort(b, port)) == OfPort(a, port) + OfPort(b, port);
      }
    }
  }

  lemma {:induction false} OfPortNone(q: seq<Buffer>, port: int)
    requires forall j :: 0 <= j < |q| ==> q[j].port != port
    ensures OfPort(q, port) == []
  {
    if q != [] {
      OfPortNone(q[1..], port);
    }
  }

  /** Taking a port's first buffer takes the head of that port's sub-queue and leaves the
      sub-queues of the other ports alone. */
  lemma TakeFirst(q: seq<Buffer>, port: int, other: int)
    requires FirstOf(q, port) < |q|
    ensures var k := FirstOf(q, port);
            OfPort(q, other) == (if other == port then [q[k]] else []) + OfPort(Without(q, k), other)
  {
    var k := FirstOf(q, port);
    assert q == q[..k] + ([q[k]] + q[k + 1..]);
    OfPortConcat(q[..k], [q[k]] + q[k + 1..], other);
    OfPortConcat([q[k]], q[k + 1..], other);
    OfPortConcat(q[..k], q[k + 1..], other);
    assert OfPort([q[k]], other) == if other == port then [q[k]] else [];
    if other == port {
      OfPortNone(q[..k], port);
    }
  }

  // Everything that happens to one queue: a buffer-done callback, a get.
  datatype Op = Done(b: Buffer) | Get(port: int)

  datatype Log = Log(queue: seq<Buffer>, completed: seq<Buffer>, handedOut: seq<Buffer>)

  function Apply(s: Log, op: Op): Log {
    match op
    case Done(b) => s.(queue := s.queue + [b], completed := s.completed + [b])
    case Get(port) =>
      var k := FirstOf(s.queue, port);
      if k == |s.queue| then s
      else s.(queue := Without(s.queue, k), handedOut := s.handedOut + [s.queue[k]])
  }

  function Run(s: Log, ops: seq<Op>): Log
    decreases |ops|
  {
    if ops == [] then s else Run(Apply(s, ops[0]), ops[1..])
  }

  ghost predicate Conserved(s: Log) {
    && (forall port :: OfPort(s.handedOut, port) + OfPort(s.queue, port) == OfPort(s.completed, port))
    && multiset(s.handedOut) + multiset(s.queue) == multiset(s.completed)
  }

  lemma DoneConserves(s: Log, b: Buffer)
    requires Conserved(s)
    ensures Conserved(Apply(s, Done(b)))
  {
    var s' := Apply(s, Done(b));
    forall port
      ensures OfPort(s'.handedOut, port) + OfPort(s'.queue, port) == OfPort(s'.completed, port)
    {
      OfPortConcat(s.queue, [b], port);
      OfPortConcat(s.completed, [b], port);
    }
  }

  lemma GetConserves(s: Log, p: int)
    requires Conserved(s)
    ensures Conserved(Apply(s, Get(p)))
  {
    var s' := Apply(s, Get(p));
    if FirstOf(s.queue, p) < |s.queue| {
      TakenOnce(s.queue, FirstOf(s.queue, p));
    }
    forall port
      ensures OfPort(s'.handedOut, port) + OfPort(s'.queue, port) == OfPort(s'.completed, port)
    {
      GetConservesPort(s, p, port);
    }
  }

  lemma TakenOnce(q: seq<Buffer>, k: nat)
    requires k < |q|
    ensures multiset(q) == multiset(Without(q, k)) + multiset{q[k]}
  {
    assert q == q[..k] + ([q[k]] + q[k + 1..]);
  }

  lemma GetConservesPort(s: Log, p: int, port: int)
    requires OfPort(s.handedOut, port) + OfPort(s.queue, port) == OfPort(s.completed, port)
    ensures var s' := Apply(s, Get(p));
            OfPort(s'.handedOut, port) + OfPort(s'.queue, port) == OfPort(s.completed, port)
  {
    var k := FirstOf(s.queue, p);
    if k < |s.queue| {
      var b, rest := s.queue[k], OfPort(Without(s.queue, k), port);
      var mine := if p == port then [b] else [];
      TakeFirst(s.queue, p, port);
      OfPortConcat(s.handedOut, [b], port);
      OfPortOne(b, port);
      Regrouped(OfPort(s.handedOut, port), mine, rest);
    }
  }

  lemma OfPortOne(b: Buffer, port: int)
    ensures OfPort([b], port) == if b.port == port then [b] else []
  {
    assert [b][1..] == [];
  }

  /** In any mix of callbacks and gets the buffers of each port are handed out in completion
      order, every completed buffer once, and what is not handed out is still queued. */
  lemma {:induction false} PerPortFifo(s: Log, ops: seq<Op>)
    requires Conserved(s)
    ensures Conserved(Run(s, ops))
    decreases |ops|
  {
    if ops != [] {
      match ops[0] {
        case Done(b) => DoneConserves(s, b);
        case Get(port) => GetConserves(s, port);
      }
      PerPortFifo(Apply(s, ops[0]), ops[1..]);
    }
  }

  lemma FifoFromTheStart(ops: seq<Op>, port: int)
    ensures var s := Run(Log([], [], []), ops);
            OfPort(s.handedOut, port) <= OfPort(s.completed, port)
  {
    assert Conserved(Log([], [], []));
    PerPortFifo(Log([], [], []), ops);
  }

  // ---- A blocked getter and the buffer-done flag ----

  datatype Getter = Away | Looking(port: int) | Asleep(port: int)

  // unannounced: appended by callbacks that have not yet come to set the flag.
  datatype Queue = Queue(queue: seq<Buffer>, unannounced: seq<Buffer>, flag: bool, getter: Getter)

  datatype Move =
    | Append(b: Buffer)     // the locked part of a callback
    | Announce(i: nat)      // the callback sets the flag
    | Poll(port: int)       // a getter that does not block
    | Enter(port: int)      // a getter that does
    | Look                  // one of its locked passes
    | Wake                  // it comes back from the flag wait

  predicate CanMove(s: Queue, m: Move) {
    match m
    case Append(_) => true
    case Announce(i) => i < |s.unannounced|
    case Poll(_) => s.getter.Away?
    case Enter(_) => s.getter.Away?
    case Look => s.getter.Looking?
    case Wake => s.getter.Asleep? && s.flag
  }

  function TakenFrom(q: seq<Buffer>, port: int): seq<Buffer> {
    var k := FirstOf(q, port);
    if k < |q| then Without(q, k) else q
  }

  function Moved(s: Queue, m: Move): Queue
    requires CanMove(s, m)
  {
    match m
    case Append(b) => s.(queue := s.queue + [b], unannounced := s.unannounced + [b])
    case Announce(i) => s.(unannounced := Without(s.unannounced, i), flag := true)
    case Poll(port) => s.(queue := TakenFrom(s.queue, port))
    case Enter(port) => s.(getter := Looking(port))
    case Look =>
      var port := s.getter.port;
      if FirstOf(s.queue, port) < |s.queue| then s.(queue := TakenFrom(s.queue, port), getter := Away)
      else s.(getter := Asleep(port))
    case Wake => s.(flag := false, getter := Looking(s.getter.port))
  }

  /** With the flag down, whatever is there for a sleeping getter is about to be announced. */
  ghost predicate NothingMissed(s: Queue) {
    s.getter.Asleep? && !s.flag ==>
      forall b :: b in s.queue && b.port == s.getter.port ==> b in s.unannounced
  }

  ghost predicate IsRun(s: Queue, ms: seq<Move>, end: Queue)
    decreases |ms|
  {
    if ms == [] then s == end else CanMove(s, ms[0]) && IsRun(Moved(s, ms[0]), ms[1..], end)
  }

  lemma MoveMissesNothing(s: Queue, m: Move)
    requires NothingMissed(s) && CanMove(s, m)
    ensures NothingMissed(Moved(s, m))
  {
    if m.Look? {
      var k := FirstOf(s.queue, s.getter.port);
      assert k == |s.queue| ==> forall b :: b in s.queue ==> b.port != s.getter.port;
    }
  }

  /** In every interleaving of callbacks and one consumer, a getter asleep with the flag down
      misses nothing: every buffer of its port that is queued belongs to a callback that has
      yet to set the flag. */
  lemma {:induction false} SleepersMissNothing(s: Queue, ms: seq<Move>, end: Queue)
    requires NothingMissed(s) && IsRun(s, ms, end)
    ensures NothingMissed(end)
    decreases |ms|
  {
    if ms != [] {
      MoveMissesNothing(s, ms[0]);
      SleepersMissNothing(Moved(s, ms[0]), ms[1..], end);
    }
  }

  lemma NoLostBuffer(ms: seq<Move>, s: Queue)
    requires IsRun(Queue([], [], false, Away), ms, s)
    requires s.getter.Asleep? && !s.flag && s.unannounced == []
    ensures FirstOf(s.queue, s.getter.port) == |s.queue|
  {
    SleepersMissNothing(Queue([], [], false, Away), ms, s);
    FirstOfIs(s.queue, s.getter.port, |s.queue|);
  }

  // ---- The queue as linked headers ----

  ghost function At(q: seq<Buffer>, k: int): Buffer? {
    if 0 <= k < |q| then q[k] else null
  }

  /** Following pAppPrivate from head visits exactly q and stops. */
  ghost predicate Linked(head: Buffer?, q: seq<Buffer>)
    reads set b | b in q
  {
    && head == At(q, 0)
    && (forall i, j :: 0 <= i < j < |q| ==> q[i] != q[j])
    && (forall i {:trigger q[i].pAppPrivate} :: 0 <= i < |q| ==> q[i].pAppPrivate == At(q, i + 1))
  }

  function Flat(batches: seq<seq<Buffer>>): seq<Buffer> {
    if batches == [] then [] else batches[0] + Flat(batches[1..])
  }

  /** A header is in one place at a time. */
  ghost predicate AllDifferent(q: seq<Buffer>) {
    forall i, j :: 0 <= i < j < |q| ==> q[i] != q[j]
  }

  lemma DifferentPrefix(q: seq<Buffer>, r: seq<Buffer>)
    requires AllDifferent(q + r)
    ensures AllDifferent(q)
  {
    assert forall i :: 0 <= i < |q| ==> (q + r)[i] == q[i];
  }

  /** ret is the first buffer of the port in all, and left is what remains of all. */
  predicate Serves(all: seq<Buffer>, port: int, ret: Buffer?, left: seq<Buffer>) {
    var k := FirstOf(all, port);
    if k < |all| then ret == all[k] && left == Without(all, k) else ret == null && left == all
  }

  lemma ServesPrefix(q: seq<Buffer>, r: seq<Buffer>, port: int, ret: Buffer, left: seq<Buffer>)
    requires Serves(q, port, ret, left)
    ensures Serves(q + r, port, ret, left + r)
  {
    FirstOfPrefix(q, r, port);
  }

  lemma FirstOfPrefix(q: seq<Buffer>, r: seq<Buffer>, port: int)
    ensures FirstOf(q, port) < |q| ==> FirstOf(q + r, port) == FirstOf(q, port)
    ensures FirstOf(q, port) < |q| ==> Without(q + r, FirstOf(q, port)) == Without(q, FirstOf(q, port)) + r
  {
    var k := FirstOf(q, port);
    if k < |q| {
      assert (q + r)[..k] == q[..k];
      assert forall j :: 0 <= j < k ==> (q + r)[j] == q[j];
      FirstOfIs(q + r, port, k);
    }
  }

  function Bufs(q: seq<Buffer>): set<Buffer> {
    set b | b in q
  }

  lemma BufsConcat(q: seq<Buffer>, r: seq<Buffer>)
    ensures Bufs(q + r) == Bufs(q) + Bufs(r)
  {
  }

  ghost function Stale(prev: Buffer?): set<Buffer> {
    if prev == null then {} else {prev}
  }

  class BufferQueue {
    var list: Buffer?
    ghost var queue: seq<Buffer>

    ghost predicate Valid()
      reads this, set b | b in queue
    {
      Linked(list, queue)
    }

    constructor ()
      ensures Valid() && queue == []
    {
      list, queue := null, [];
    }

    /** ilclient_empty_buffer_done, ilclient_fill_buffer_done: hang the buffer at the end. */
    method BufferDone(b: Buffer)
      requires Valid() && b !in queue
      modifies this, b, queue
      ensures Valid() && queue == old(queue) + [b]
    {
      var last := list;
      ghost var k := 0;
      while last != null && last.pAppPrivate != null
        invariant queue == [] ==> last == null
        invariant queue != [] ==> k < |queue| && last == queue[k]
        decreases |queue| - k
      {
        assert last.pAppPrivate == At(queue, k + 1);
        last, k := last.pAppPrivate, k + 1;
      }
      if last == null {
        list := b;
      } else {
        assert last.pAppPrivate == At(queue, k + 1) && k + 1 == |queue|;
        last.pAppPrivate := b;
      }
      b.pAppPrivate := null;
      queue := queue + [b];
    }

    /** Unlink the k-th header, given the one the scan saw last. */
    method CutOut(ret: Buffer, prev: Buffer?, ghost k: nat)
      requires Valid() && k < |queue| && ret == queue[k]
      requires k > 0 ==> prev == queue[k - 1]
      modifies this, Bufs(queue), Stale(prev)
      ensures ret.pAppPrivate == null
      ensures k > 0 || prev == null ==> Valid() && queue == Without(old(queue), k)
      ensures k == 0 && prev != null ==> list == ret
    {
      assert ret.pAppPrivate == At(queue, k + 1);
      if prev == null {
        list := ret.pAppPrivate;
      } else {
        prev.pAppPrivate := ret.pAppPrivate;
      }
      ret.pAppPrivate := null;
      queue := Without(queue, k);
    }

    /** One pass of ilclient_get_output_buffer or ilclient_get_input_buffer.  prev comes in
        from the previous pass: it does no harm exactly when it is null or the head of the
        queue is not of this port; otherwise the buffer handed out stays at the head of the
        list and everything behind it is lost. */
    method GetPass(port: int, prev: Buffer?) returns (ret: Buffer?, prev': Buffer?)
      requires Valid()
      modifies this, Bufs(queue), Stale(prev)
      ensures prev == null || old(queue) == [] || old(queue)[0].port != port ==>
                && Valid() && Serves(old(queue), port, ret, queue)
                && (ret != null ==> ret.pAppPrivate == null)
                && prev' == if FirstOf(old(queue), port) > 0 then old(queue)[FirstOf(old(queue), port) - 1] else prev
      ensures prev != null && old(queue) != [] && old(queue)[0].port == port ==>
                ret == old(queue)[0] == list && ret.pAppPrivate == null
    {
      ret, prev' := list, prev;
      ghost var k := 0;
      while ret != null && ret.port != port
        invariant k <= |queue| && ret == At(queue, k)
        invariant prev' == if k > 0 then queue[k - 1] else prev
        invariant forall j :: 0 <= j < k ==> queue[j].port != port
        decreases |queue| - k
      {
        assert ret.pAppPrivate == At(queue, k + 1);
        prev', ret, k := ret, ret.pAppPrivate, k + 1;
      }
      FirstOfIs(queue, port, k);
      if ret != null {
        CutOut(ret, prev', k);
      }
    }

    /** What one batch of callbacks adds while the getter is blocked. */
    method Deliver(batch: seq<Buffer>)
      requires Valid() && AllDifferent(queue + batch)
      modifies this, Bufs(queue + batch)
      ensures Valid() && queue == old(queue) + batch
    {
      var i := 0;
      while i < |batch|
        invariant 0 <= i <= |batch|
        invariant Valid() && queue == old(queue) + batch[..i]
      {
        assert batch[i] == (old(queue) + batch)[|queue|];
        assert forall j :: 0 <= j < |queue| ==> queue[j] == (old(queue) + batch)[j];
        assert forall x :: x in queue ==> x in old(queue) || x in batch;
        BufferDone(batch[i]);
        i := i + 1;
      }
    }

    /** Where a getter stands between two passes: nothing queued for its port, and prev
        harmless. */
    ghost predicate Unserved(port: int, prev: Buffer?)
      reads this
    {
      && FirstOf(queue, port) == |queue|
      && (prev != null ==> prev in queue && queue[0].port != port)
    }

    /** One more turn of the do-loop: callbacks while blocked, then a pass. */
    method NextPass(port: int, prev: Buffer?, batch: seq<Buffer>) returns (ret: Buffer?, prev': Buffer?)
      requires Valid() && AllDifferent(queue + batch) && Unserved(port, prev)
      modifies this, Bufs(queue + batch)
      ensures Valid() && Serves(old(queue) + batch, port, ret, queue)
      ensures ret == null ==> Unserved(port, prev')
    {
      Deliver(batch);
      ret, prev' := GetPass(port, prev);
    }

    /** ilclient_get_output_buffer, ilclient_get_input_buffer: the whole do-loop, with the
        callbacks between its passes given as batches, one for each wake-up.  This thread is
        the only one that takes buffers.  rest is what had not arrived when it returned. */
    method GetBuffer(port: int, block: bool, batches: seq<seq<Buffer>>) returns (ret: Buffer?, rest: seq<seq<Buffer>>)
      requires Valid() && AllDifferent(queue + Flat(batches))
      modifies this, Bufs(queue + Flat(batches))
      ensures Valid()
      ensures !block ==> rest == batches && Serves(old(queue), port, ret, queue)
      ensures block ==> Serves(old(queue) + Flat(batches), port, ret, queue + Flat(rest))
      ensures block && ret == null ==> rest == []
    {
      var prev: Buffer?;
      prev, rest := null, batches;
      ret, prev := GetPass(port, prev);
      if !block {
        return;
      }
      ghost var all := old(queue) + Flat(batches);
      if ret != null {
        ServesPrefix(old(queue), Flat(batches), port, ret, queue);
      }
      while ret == null && rest != []
        invariant Valid()
        invariant if ret == null then queue + Flat(rest) == all && Unserved(port, prev)
                  else Serves(all, port, ret, queue + Flat(rest))
        decreases |rest|
      {
        ghost var q, tail := queue + rest[0], Flat(rest[1..]);
        assert all == q + tail;
        DifferentPrefix(q, tail);
        BufsConcat(q, tail);
        ret, prev := NextPass(port, prev, rest[0]);
        rest := rest[1..];
        if ret != null {
          ServesPrefix(q, tail, port, ret, queue);
        }
      }
      if ret == null {
        assert all == queue;
      }
    }
  }

  lemma FirstOfOne(b: Buffer)
    ensures forall port :: FirstOf([b], port) == if port == b.port then 0 else 1
    ensures Without([b], 0) == []
  {
  }

  /** A getter for another port has slept with b as its prev, and another consumer has taken b. */
  method SleepOn(b: Buffer, port: int) returns (q: BufferQueue, prev: Buffer?, taken: Buffer?)
    requires port != b.port
    modifies b
    ensures fresh(q) && q.Valid() && q.queue == [] && prev == taken == b
  {
    q := new BufferQueue();
    q.BufferDone(b);
    var other;
    FirstOfOne(b);
    other, prev := q.GetPass(port, null);
    taken, other := q.GetPass(b.port, null);
  }

  /** The next buffer of the port is handed out to the sleeper, and then to anybody else. */
  method HandOutTwice(q: BufferQueue, stale: Buffer, b: Buffer) returns (first: Buffer?, again: Buffer?)
    requires q.Valid() && q.queue == [] && stale != b
    modifies q, b, stale
    ensures first == again == b
  {
    q.BufferDone(b);
    var prev;
    first, prev := q.GetPass(b.port, stale);
    q.queue := [b];
    again, prev := q.GetPass(b.port, null);
  }

  /** Why one consumer: the getter for port 1 sleeps with the buffer of port 0 as its prev,
      another getter takes that buffer, and the next buffer of port 1 is handed out twice. */
  method TwoConsumers() returns (completed: seq<Buffer>, handedOut: seq<Buffer?>)
    ensures |completed| == 2 && completed[0] != completed[1]
    ensures handedOut == [completed[0], completed[1], completed[1]]
  {
    var a := new Buffer(0);
    var b := new Buffer(1);
    var q, prev, taken := SleepOn(a, 1);
    var first, again := HandOutTwice(q, prev, b);
    completed, handedOut := [a, b], [taken, first, again];
  }
}
