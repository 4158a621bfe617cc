/**
 Asynchronous I/O as steps: calls of the main thread, which may close the socket and open it again, and
 worker threads that start, receive, call back and free their parameters one step at a time, in any
 interleaving.
 */
module AsyncWorkers {
  import opened Bytes
  import opened SocketSpec

  /** `Waiting`: created, but yet to pick the state to dispatch on. `Started`: about to make its system
      call. `Holding`: `n` bytes of receive number `ticket` lie in the buffer, the callback is due. */
  datatype Phase = Waiting | Started | Holding(ticket: nat, n: nat) | Finished

  /** A worker thread with its IOPARAMS. */
  datatype Worker = Worker(isReader: bool, buf: nat, count: nat, phase: Phase)

  /** One handing over of received bytes: by return value or by callback. */
  datatype Delivery = Delivery(ticket: nat, text: string)

  datatype Conn = Conn(
    sock: Sock,
    arrived: string,            // every byte that arrived on the present or last connection
    rx: string,                 // those not yet received
    consumed: seq<string>,      // what each successful receive took, in order
    base: nat,                  // how many of these belong to earlier connections
    bufs: map<nat, string>,     // the caller's buffers
    workers: map<nat, Worker>,  // threads that have not yet freed their parameters
    created: nat,               // parameters created so far, numbered from 0
    freed: multiset<nat>,
    delivered: seq<Delivery>,
    sent: string,
    trapped: bool)              // whether a body was called that only asserts false

  datatype Act =
    | Arrive(data: string)
    | Configure(asyncMode: bool, callback: nat)
    | ReadCall(buf: nat, count: nat, ans: ReadAnswer)
    | Fill(buf: nat, text: string)
    | WriteCall(buf: nat, count: nat, ok: bool)
    | Close
    | Open(sock: Sock)
    | Start(id: nat)
    | Receive(id: nat, recv: RecvAnswer)
    | Send(id: nat, ok: bool)
    | CallBack(id: nat)
    | Free(id: nat)

  /** `recv` of `n` bytes into a buffer. */
  function Take(c: Conn, buf: nat, n: nat): Conn
    requires n <= |c.rx| && buf in c.bufs && n <= |c.bufs[buf]|
  {
    c.(rx := c.rx[n..], consumed := c.consumed + [c.rx[..n]],
       bufs := c.bufs[buf := c.rx[..n] + c.bufs[buf][n..]])
  }

  function Spawn(c: Conn, w: Worker): Conn {
    c.(workers := c.workers[c.created := w], created := c.created + 1)
  }

  function SetPhase(c: Conn, id: nat, phase: Phase): Conn
    requires id in c.workers
  {
    c.(workers := c.workers[id := c.workers[id].(phase := phase)])
  }

  /** What the receive of a worker yields: after a close the descriptor it asks for is invalid. */
  function Arrived(c: Conn, count: nat, recv: RecvAnswer): int {
    if c.sock.Connected() then RecvCount(c.rx, count, recv) else -1
  }

  predicate HasRoom(c: Conn, buf: nat, count: nat) { buf in c.bufs && count <= |c.bufs[buf]| }

  /** A worker has no use for its buffer once it has called back. */
  predicate InUse(c: Conn, buf: nat) {
    exists id :: id in c.workers && c.workers[id].buf == buf && !c.workers[id].phase.Finished?
  }

  /** Which steps can be taken. A read or write call passes a buffer with room. */
  predicate Enabled(c: Conn, act: Act) {
    match act
    case Arrive(_) => c.sock.Connected()
    case Configure(_, _) => true
    case Close => true
    case Open(sock) => !c.sock.Connected() && sock.Connected()
    case Start(id) => id in c.workers && c.workers[id].phase.Waiting?
    case ReadCall(buf, count, _) => count > 0 && HasRoom(c, buf, count)
    case Fill(buf, text) => buf in c.bufs && |text| == |c.bufs[buf]|
    case WriteCall(buf, count, _) => HasRoom(c, buf, count)
    case Receive(id, _) =>
      id in c.workers && c.workers[id].isReader && c.workers[id].phase.Started?
      && HasRoom(c, c.workers[id].buf, c.workers[id].count)
    case Send(id, _) =>
      id in c.workers && !c.workers[id].isReader && c.workers[id].phase.Started?
      && HasRoom(c, c.workers[id].buf, c.workers[id].count)
    case CallBack(id) =>
      id in c.workers && c.workers[id].phase.Holding? && HasRoom(c, c.workers[id].buf, c.workers[id].phase.n)
    case Free(id) => id in c.workers && c.workers[id].phase.Finished?
  }

  /** The discipline of the caller: read and write only while connected, leave alone and hand over no
      buffer that a worker still uses, and close only when every worker has started. */
  predicate Disciplined(c: Conn, act: Act) {
    match act
    case ReadCall(buf, _, _) => c.sock.Connected() && !InUse(c, buf)
    case Fill(buf, _) => !InUse(c, buf)
    case WriteCall(buf, _, _) => c.sock.Connected() && !InUse(c, buf)
    case Close => forall id | id in c.workers :: !c.workers[id].phase.Waiting?
    case _ => true
  }

  function Step(c: Conn, act: Act): Conn
    requires Enabled(c, act)
  {
    match act
    case Arrive(data) => c.(arrived := c.arrived + data, rx := c.rx + data)
    case Configure(asyncMode, callback) => c.(sock := c.sock.(asyncMode := asyncMode, callback := callback))
    case Close => c.(sock := c.sock.(hFile := INVALID_SOCKET, state := SSClosed))
    case Open(sock) => c.(sock := sock, arrived := "", rx := "", base := |c.consumed|)
    case Start(id) => if c.sock.Connected() then SetPhase(c, id, Started) else c.(trapped := true)
    case ReadCall(buf, count, ans) =>
      if !c.sock.Connected() then c.(trapped := true) else
      var r := ReadSocket(c.sock, c.rx, count, ans);
      var c' := c.(sock := r.sock);
      if r.n > 0 then
        var t := Take(c', buf, r.n);
        t.(delivered := t.delivered + [Delivery(|c.consumed|, t.bufs[buf][..r.n])])
      else if r.spawned then Spawn(c', Worker(true, buf, count, Waiting))
      else c'
    case Fill(buf, text) => c.(bufs := c.bufs[buf := text])
    case WriteCall(buf, count, ok) =>
      if !c.sock.Connected() then c.(trapped := true)
      else if c.sock.WritesNow() then
        c.(sock := WriteSocket(c.sock, ok), sent := c.sent + SentNow(c.sock, c.bufs[buf][..count], ok))
      else Spawn(c, Worker(false, buf, count, Waiting))
    case Receive(id, recv) =>
      var w := c.workers[id];
      var n := Arrived(c, w.count, recv);
      if n <= 0 then SetPhase(c, id, Finished)
      else SetPhase(Take(c, w.buf, n), id, Holding(|c.consumed|, n))
    case Send(id, ok) =>
      var w := c.workers[id];
      SetPhase(if ok && c.sock.Connected() then c.(sent := c.sent + c.bufs[w.buf][..w.count]) else c, id, Finished)
    case CallBack(id) =>
      var w := c.workers[id];
      SetPhase(c.(delivered := c.delivered + [Delivery(w.phase.ticket, c.bufs[w.buf][..w.phase.n])]), id, Finished)
    case Free(id) => c.(workers := c.workers - {id}, freed := c.freed + multiset{id})
  }

  // ----- The invariant -----

  /** No byte of a connection is lost or invented: what arrived is what was received and what is still
      to come. */
  ghost predicate InOrder(c: Conn) {
    && c.base <= |c.consumed|
    && c.arrived == Concat(c.consumed[c.base..]) + c.rx
    && forall t | 0 <= t < |c.consumed| :: c.consumed[t] != ""
  }

  predicate Delivered(c: Conn, t: nat) { exists i :: 0 <= i < |c.delivered| && c.delivered[i].ticket == t }

  predicate Holds(c: Conn, id: nat, t: nat) {
    id in c.workers && c.workers[id].phase.Holding? && c.workers[id].phase.ticket == t
  }

  /** What was delivered is what that receive took, and no receive is delivered twice. */
  ghost predicate DeliveredRight(c: Conn) {
    && (forall i | 0 <= i < |c.delivered| ::
          c.delivered[i].ticket < |c.consumed| && c.delivered[i].text == c.consumed[c.delivered[i].ticket])
    && (forall i, j | 0 <= i < j < |c.delivered| :: c.delivered[i].ticket != c.delivered[j].ticket)
  }

  /** What a worker holds is intact in its buffer, undelivered, and held by it alone. */
  ghost predicate HeldRight(c: Conn) {
    && (forall id | id in c.workers && c.workers[id].phase.Holding? ::
          var w := c.workers[id];
          && w.phase.ticket < |c.consumed| && w.buf in c.bufs
          && w.phase.n == |c.consumed[w.phase.ticket]| <= |c.bufs[w.buf]|
          && c.bufs[w.buf][..w.phase.n] == c.consumed[w.phase.ticket]
          && !Delivered(c, w.phase.ticket))
    && (forall i, j, t | Holds(c, i, t) && Holds(c, j, t) :: i == j)
  }

  /** Every receive is delivered or held. */
  ghost predicate NoneLost(c: Conn) {
    forall t | 0 <= t < |c.consumed| :: Delivered(c, t) || exists id :: Holds(c, id, t)
  }

  ghost predicate ParamsOnce(c: Conn) {
    && (forall id | id in c.workers :: id < c.created && id !in c.freed)
    && (forall id | id in c.freed :: id < c.created && c.freed[id] == 1)
    && (forall id: nat | id < c.created :: id in c.workers || id in c.freed)
  }

  ghost predicate BufsApart(c: Conn) {
    && (forall i, j | i in c.workers && j in c.workers && i != j ::
          c.workers[i].phase.Finished? || c.workers[j].phase.Finished? || c.workers[i].buf != c.workers[j].buf)
    && (forall id | id in c.workers ::
          c.workers[id].phase.Finished? || HasRoom(c, c.workers[id].buf, c.workers[id].count))
  }

  /** No trap was reached, and no worker that has yet to start will find the socket closed. */
  ghost predicate Safe(c: Conn) {
    !c.trapped && forall id | id in c.workers && c.workers[id].phase.Waiting? :: c.sock.Connected()
  }

  ghost predicate Inv(c: Conn) {
    InOrder(c) && DeliveredRight(c) && HeldRight(c) && NoneLost(c) && ParamsOnce(c) && BufsApart(c) && Safe(c)
  }

  // ----- Every step keeps it -----

  lemma TakeInOrder(c: Conn, buf: nat, n: nat)
    requires InOrder(c) && 0 < n <= |c.rx| && HasRoom(c, buf, n)
    ensures InOrder(Take(c, buf, n))
  {
    ConcatAppend(c.consumed[c.base..], [c.rx[..n]]);
    assert (c.consumed + [c.rx[..n]])[c.base..] == c.consumed[c.base..] + [c.rx[..n]];
    assert Concat([c.rx[..n]]) == c.rx[..n] + Concat([c.rx[..n]][1..]);
    assert c.rx == c.rx[..n] + c.rx[n..];
  }

  /** Delivering a ticket that was not delivered, with the right text. */
  lemma DeliverOne(c: Conn, t: nat, text: string)
    requires DeliveredRight(c) && t < |c.consumed| && text == c.consumed[t] && !Delivered(c, t)
    ensures var c' := c.(delivered := c.delivered + [Delivery(t, text)]);
            DeliveredRight(c') && forall u: nat :: Delivered(c', u) <==> Delivered(c, u) || u == t
  {
    var c' := c.(delivered := c.delivered + [Delivery(t, text)]);
    assert c'.delivered[|c.delivered|].ticket == t;
    forall u: nat | Delivered(c, u)
      ensures Delivered(c', u)
    {
      var i :| 0 <= i < |c.delivered| && c.delivered[i].ticket == u;
      assert c'.delivered[i].ticket == u;
    }
  }

  /** A synchronous receive into a buffer no worker uses, returned at once. */
  lemma TakeAndReturnKeeps(c: Conn, buf: nat, n: nat)
    requires Inv(c) && 0 < n <= |c.rx| && HasRoom(c, buf, n) && !InUse(c, buf)
    ensures
      var t := Take(c, buf, n);
      Inv(t.(delivered := t.delivered + [Delivery(|c.consumed|, t.bufs[buf][..n])]))
  {
    TakeInOrder(c, buf, n);
    var t := Take(c, buf, n);
    var ticket, text := |c.consumed|, t.bufs[buf][..n];
    assert text == c.rx[..n] == t.consumed[ticket];
    assert !Delivered(c, ticket);
    TakeKeeps(c, buf, n);
    assert SameDelivered(c, t);
    DeliverOne(t, ticket, text);
    var c' := t.(delivered := t.delivered + [Delivery(ticket, text)]);
    ReturnKeeps(c, t, c');
    hide DeliveredRight, HeldRight, NoneLost, InOrder;
  }

  /** Receiving into a buffer no worker uses disturbs no worker. */
  lemma TakeKeeps(c: Conn, buf: nat, n: nat)
    requires HeldRight(c) && DeliveredRight(c) && BufsApart(c)
    requires n <= |c.rx| && HasRoom(c, buf, n) && !InUse(c, buf)
    ensures HeldRight(Take(c, buf, n)) && DeliveredRight(Take(c, buf, n)) && BufsApart(Take(c, buf, n))
  {
    var t := Take(c, buf, n);
    assert forall i, u :: Holds(t, i, u) <==> Holds(c, i, u);
    assert SameDelivered(c, t);
  }

  lemma ReturnKeeps(c: Conn, t: Conn, c': Conn)
    requires NoneLost(c) && HeldRight(c) && HeldRight(t) && t.workers == c.workers && |t.consumed| == |c.consumed| + 1
    requires c' == t.(delivered := c'.delivered)
    requires forall u: nat :: Delivered(c', u) <==> Delivered(c, u) || u == |c.consumed|
    ensures NoneLost(c') && HeldRight(c')
  {
    assert forall i, u :: Holds(c', i, u) <==> Holds(c, i, u);
    forall u | 0 <= u < |c'.consumed|
      ensures Delivered(c', u) || exists i :: Holds(c', i, u)
    {
      if u < |c.consumed| {
        StillThere(c, c', u);
      }
    }
  }

  /** The connection after a worker has received. */
  function Received(c: Conn, id: nat, n: nat): Conn
    requires id in c.workers && n <= |c.rx| && HasRoom(c, c.workers[id].buf, n)
  {
    SetPhase(Take(c, c.workers[id].buf, n), id, Holding(|c.consumed|, n))
  }

  /** The tickets held and delivered after a step, in terms of those before: `id` gains `gain` or
      loses what it held. */
  ghost predicate HoldsMove(c: Conn, c': Conn, id: nat, gain: int) {
    forall i, u :: Holds(c', i, u) <==> (Holds(c, i, u) && i != id) || (i == id && u == gain)
  }

  ghost predicate SameDelivered(c: Conn, c': Conn) {
    forall u: nat :: Delivered(c', u) <==> Delivered(c, u)
  }

  lemma ReceiveMoves(c: Conn, id: nat, n: nat)
    requires id in c.workers && c.workers[id].phase.Started? && n <= |c.rx| && HasRoom(c, c.workers[id].buf, n)
    ensures HoldsMove(c, Received(c, id, n), id, |c.consumed|) && SameDelivered(c, Received(c, id, n))
  {
  }

  /** A ticket delivered or held before is so after, if whoever held it still does. */
  lemma StillThere(c: Conn, c': Conn, u: nat)
    requires Delivered(c, u) || exists i :: Holds(c, i, u)
    requires Delivered(c, u) ==> Delivered(c', u)
    requires forall i :: Holds(c, i, u) ==> Holds(c', i, u) || Delivered(c', u)
    ensures Delivered(c', u) || exists i :: Holds(c', i, u)
  {
    if !Delivered(c, u) {
      var i :| Holds(c, i, u);
      assert Holds(c', i, u) || Delivered(c', u);
    }
  }

  lemma ReceiveLosesNone(c: Conn, id: nat, n: nat)
    requires NoneLost(c) && id in c.workers && c.workers[id].phase.Started?
    requires n <= |c.rx| && HasRoom(c, c.workers[id].buf, n)
    ensures NoneLost(Received(c, id, n))
  {
    ReceiveMoves(c, id, n);
    var c' := Received(c, id, n);
    assert |c'.consumed| == |c.consumed| + 1;
    hide Received, Delivered;
    forall u | 0 <= u < |c'.consumed|
      ensures Delivered(c', u) || exists i :: Holds(c', i, u)
    {
      if u == |c.consumed| {
        assert Holds(c', id, u);
      } else {
        StillThere(c, c', u);
      }
    }
  }

  lemma ReceiveHolds(c: Conn, id: nat, n: nat)
    requires HeldRight(c) && DeliveredRight(c) && BufsApart(c) && id in c.workers && c.workers[id].phase.Started?
    requires n <= |c.rx| && n <= c.workers[id].count
    ensures HeldRight(Received(c, id, n))
  {
    var c', buf := Received(c, id, n), c.workers[id].buf;
    ReceiveMoves(c, id, n);
    assert c'.bufs[buf][..n] == c.rx[..n] == c'.consumed[|c.consumed|];
    forall i | i in c'.workers && c'.workers[i].phase.Holding?
      ensures !Delivered(c', c'.workers[i].phase.ticket)
    {
      if i != id {
        assert Holds(c, i, c'.workers[i].phase.ticket);
      }
    }
  }

  lemma ReceiveKeeps(c: Conn, id: nat, n: nat)
    requires Inv(c) && id in c.workers && c.workers[id].phase.Started?
    requires 0 < n <= |c.rx| && n <= c.workers[id].count
    ensures Inv(Received(c, id, n))
  {
    TakeInOrder(c, c.workers[id].buf, n);
    ReceiveLosesNone(c, id, n);
    ReceiveHolds(c, id, n);
    hide InOrder, NoneLost, HeldRight;
  }

  lemma CallBackMoves(c: Conn, id: nat)
    requires DeliveredRight(c) && HeldRight(c) && BufsApart(c) && id in c.workers && c.workers[id].phase.Holding?
    ensures Enabled(c, CallBack(id)) && DeliveredRight(Step(c, CallBack(id)))
    ensures
      var c', t := Step(c, CallBack(id)), c.workers[id].phase.ticket;
      && HoldsMove(c, c', id, -1)
      && forall u: nat :: Delivered(c', u) <==> Delivered(c, u) || u == t
  {
    var w := c.workers[id];
    DeliverOne(c, w.phase.ticket, c.bufs[w.buf][..w.phase.n]);
    var d := c.(delivered := c.delivered + [Delivery(w.phase.ticket, c.bufs[w.buf][..w.phase.n])]);
    var c' := Step(c, CallBack(id));
    assert SameDelivered(d, c');
  }

  lemma CallBackHolds(c: Conn, id: nat)
    requires DeliveredRight(c) && HeldRight(c) && BufsApart(c) && id in c.workers && c.workers[id].phase.Holding?
    ensures Enabled(c, CallBack(id)) && HeldRight(Step(c, CallBack(id)))
  {
    CallBackMoves(c, id);
    var c' := Step(c, CallBack(id));
    assert Holds(c, id, c.workers[id].phase.ticket);
    forall i | i in c'.workers && c'.workers[i].phase.Holding?
      ensures !Delivered(c', c'.workers[i].phase.ticket)
    {
      assert Holds(c, i, c'.workers[i].phase.ticket);
    }
  }

  lemma CallBackLosesNone(c: Conn, id: nat)
    requires DeliveredRight(c) && HeldRight(c) && BufsApart(c) && id in c.workers && c.workers[id].phase.Holding?
    requires NoneLost(c)
    ensures Enabled(c, CallBack(id)) && NoneLost(Step(c, CallBack(id)))
  {
    CallBackMoves(c, id);
    var c' := Step(c, CallBack(id));
    forall i, u | Holds(c, i, u)
      ensures Holds(c', i, u) || Delivered(c', u)
    {
    }
    assert c'.consumed == c.consumed;
    hide Step, Holds, Delivered;
    forall u | 0 <= u < |c'.consumed|
      ensures Delivered(c', u) || exists i :: Holds(c', i, u)
    {
      StillThere(c, c', u);
    }
  }

  lemma CallBackApart(c: Conn, id: nat)
    requires BufsApart(c) && Safe(c) && Enabled(c, CallBack(id))
    ensures BufsApart(Step(c, CallBack(id))) && Safe(Step(c, CallBack(id)))
  {
  }

  lemma CallBackKeeps(c: Conn, id: nat)
    requires Inv(c) && id in c.workers && c.workers[id].phase.Holding?
    ensures Enabled(c, CallBack(id)) && Inv(Step(c, CallBack(id)))
  {
    CallBackMoves(c, id);
    CallBackHolds(c, id);
    CallBackLosesNone(c, id);
    CallBackApart(c, id);
    hide NoneLost, HeldRight, DeliveredRight, InOrder, ParamsOnce, Holds, Delivered, BufsApart, Safe;
    SameOrder(c, Step(c, CallBack(id)));
    SameParams(c, Step(c, CallBack(id)));
  }

  /** What the three delivery properties look at. */
  ghost predicate SameDeliveries(c: Conn, c': Conn) {
    && c'.consumed == c.consumed && c'.delivered == c.delivered && c'.bufs == c.bufs
    && (forall i | i in c'.workers && c'.workers[i].phase.Holding? :: i in c.workers && c'.workers[i] == c.workers[i])
    && (forall i | i in c.workers && c.workers[i].phase.Holding? :: i in c'.workers && c'.workers[i] == c.workers[i])
  }

  lemma SameDeliveriesKeep(c: Conn, c': Conn)
    requires SameDeliveries(c, c') && DeliveredRight(c) && HeldRight(c) && NoneLost(c)
    ensures DeliveredRight(c') && HeldRight(c') && NoneLost(c')
  {
    assert forall i, u :: Holds(c', i, u) <==> Holds(c, i, u);
    assert SameDelivered(c, c');
    hide SameDeliveries, Holds;
  }

  lemma SameOrder(c: Conn, c': Conn)
    requires InOrder(c) && c'.arrived == c.arrived && c'.rx == c.rx && c'.consumed == c.consumed && c'.base == c.base
    ensures InOrder(c')
  {
  }

  lemma SameParams(c: Conn, c': Conn)
    requires ParamsOnce(c) && c'.workers.Keys == c.workers.Keys && c'.created == c.created && c'.freed == c.freed
    ensures ParamsOnce(c')
  {
  }

  /** Ending a worker that holds nothing. */
  lemma FinishKeeps(c: Conn, c': Conn, id: nat)
    requires Inv(c) && id in c.workers && !c.workers[id].phase.Holding?
    requires c' == SetPhase(c, id, Finished).(sent := c'.sent)
    ensures Inv(c')
  {
    hide DeliveredRight, HeldRight, NoneLost, InOrder, ParamsOnce, Holds, Delivered;
    SameDeliveriesKeep(c, c');
    SameOrder(c, c');
    SameParams(c, c');
  }

  lemma StartKeeps(c: Conn, id: nat)
    requires Inv(c) && id in c.workers && c.workers[id].phase.Waiting?
    ensures Inv(SetPhase(c, id, Started))
  {
    hide DeliveredRight, HeldRight, NoneLost, InOrder, ParamsOnce, Holds, Delivered;
    SameDeliveriesKeep(c, SetPhase(c, id, Started));
    SameOrder(c, SetPhase(c, id, Started));
    SameParams(c, SetPhase(c, id, Started));
  }

  /** Freeing one. */
  lemma FreeKeeps(c: Conn, id: nat)
    requires Inv(c) && id in c.workers && !c.workers[id].phase.Holding?
    ensures Inv(c.(workers := c.workers - {id}, freed := c.freed + multiset{id}))
  {
    hide DeliveredRight, HeldRight, NoneLost, InOrder, Holds, Delivered;
    var c' := c.(workers := c.workers - {id}, freed := c.freed + multiset{id});
    SameDeliveriesKeep(c, c');
    SameOrder(c, c');
  }

  /** A step that touches only the socket, the arrivals or what was sent. */
  lemma OutsideKeeps(c: Conn, c': Conn)
    requires Inv(c) && InOrder(c')
    requires c' == c.(sock := c'.sock, arrived := c'.arrived, rx := c'.rx, base := c'.base, sent := c'.sent)
    requires Safe(c')
    ensures Inv(c')
  {
    hide DeliveredRight, HeldRight, NoneLost, InOrder, ParamsOnce, Holds, Delivered;
    SameDeliveriesKeep(c, c');
    assert ParamsOnce(c') by { SameParams(c, c'); }
  }

  /** The caller filling a buffer that no worker uses. */
  lemma FillKeeps(c: Conn, buf: nat, text: string)
    requires Inv(c) && buf in c.bufs && |text| == |c.bufs[buf]| && !InUse(c, buf)
    ensures Inv(c.(bufs := c.bufs[buf := text]))
  {
    hide InOrder, ParamsOnce;
    var c' := c.(bufs := c.bufs[buf := text]);
    assert forall i, u :: Holds(c', i, u) <==> Holds(c, i, u);
    assert SameDelivered(c, c');
    SameOrder(c, c');
    SameParams(c, c');
  }

  lemma SpawnKeeps(c: Conn, w: Worker)
    requires Inv(c) && w.phase.Waiting? && c.sock.Connected() && HasRoom(c, w.buf, w.count) && !InUse(c, w.buf)
    ensures Inv(Spawn(c, w))
  {
    hide DeliveredRight, HeldRight, NoneLost, InOrder, Holds, Delivered;
    assert c.created !in c.workers && c.created !in c.freed;
    SameDeliveriesKeep(c, Spawn(c, w));
    SameOrder(c, Spawn(c, w));
  }

  lemma StepKeepsInv(c: Conn, act: Act)
    requires Inv(c) && Enabled(c, act) && Disciplined(c, act)
    ensures Inv(Step(c, act))
  {
    hide DeliveredRight, HeldRight, NoneLost, ParamsOnce;
    match act
    case Arrive(data) =>
      var received := Concat(c.consumed[c.base..]);
      assert received + c.rx + data == received + (c.rx + data);
      OutsideKeeps(c, Step(c, act));
    case Configure(_, _) => OutsideKeeps(c, Step(c, act));
    case Close => OutsideKeeps(c, Step(c, act));
    case Open(sock) =>
      assert c.consumed[|c.consumed|..] == [];
      OutsideKeeps(c, Step(c, act));
    case Start(id) => StartKeeps(c, id);
    case ReadCall(buf, count, ans) =>
      var r := ReadSocket(c.sock, c.rx, count, ans);
      var c' := c.(sock := r.sock);
      OutsideKeeps(c, c');
      assert !InUse(c', buf);
      if r.n > 0 {
        TakeAndReturnKeeps(c', buf, r.n);
      } else if r.spawned {
        SpawnKeeps(c', Worker(true, buf, count, Waiting));
      }
    case Fill(buf, text) => FillKeeps(c, buf, text);
    case WriteCall(buf, count, ok) =>
      if c.sock.WritesNow() {
        OutsideKeeps(c, Step(c, act));
      } else {
        SpawnKeeps(c, Worker(false, buf, count, Waiting));
      }
    case Receive(id, recv) =>
      var n := Arrived(c, c.workers[id].count, recv);
      if n <= 0 {
        FinishKeeps(c, Step(c, act), id);
      } else {
        ReceiveKeeps(c, id, n);
      }
    case Send(id, _) => FinishKeeps(c, Step(c, act), id);
    case CallBack(id) => CallBackKeeps(c, id);
    case Free(id) => FreeKeeps(c, id);
  }

  // ----- Whole runs -----

  ghost predicate DisciplinedRun(c: Conn, acts: seq<Act>)
    decreases |acts|
  {
    acts != [] ==>
      Enabled(c, acts[0]) && Disciplined(c, acts[0]) && DisciplinedRun(Step(c, acts[0]), acts[1..])
  }

  ghost function Run(c: Conn, acts: seq<Act>): Conn
    requires DisciplinedRun(c, acts)
    decreases |acts|
  {
    if acts == [] then c else Run(Step(c, acts[0]), acts[1..])
  }

  lemma {:induction false} RunKeepsInv(c: Conn, acts: seq<Act>)
    requires Inv(c) && DisciplinedRun(c, acts)
    ensures Inv(Run(c, acts))
    decreases |acts|
  {
    hide Inv, Step;
    if acts != [] {
      StepKeepsInv(c, acts[0]);
      RunKeepsInv(Step(c, acts[0]), acts[1..]);
    }
  }

  /** A connection before any I/O, with the caller's buffers. */
  function Fresh(sock: Sock, bufs: map<nat, string>): Conn {
    Conn(sock, "", "", [], 0, bufs, map[], 0, multiset{}, [], "", false)
  }

  /** In every interleaving, over any number of connections one after the other, no trap is reached;
      the bytes that arrived are the bytes received, in order, and those still to come; nothing is
      delivered wrongly or twice; and once no worker is left every receive has been delivered exactly
      once, with a positive count and its own bytes, and every IOPARAMS created has been freed exactly
      once. */
  lemma DeliveredExactlyOnce(sock: Sock, bufs: map<nat, string>, acts: seq<Act>)
    requires DisciplinedRun(Fresh(sock, bufs), acts)
    ensures
      var c := Run(Fresh(sock, bufs), acts);
      && !c.trapped
      && c.base <= |c.consumed| && c.arrived == Concat(c.consumed[c.base..]) + c.rx
      && DeliveredRight(c)
      && (c.workers == map[] ==>
            && (forall t: nat | t < |c.consumed| :: Delivered(c, t) && c.consumed[t] != "")
            && forall id: nat :: c.freed[id] == if id < c.created then 1 else 0)
  {
    hide Run, DisciplinedRun, Fresh;
    FreshInv(sock, bufs);
    RunKeepsInv(Fresh(sock, bufs), acts);
    var c := Run(Fresh(sock, bufs), acts);
    if c.workers == map[] {
      NothingHeld(c);
    }
  }

  lemma FreshInv(sock: Sock, bufs: map<nat, string>)
    ensures Inv(Fresh(sock, bufs))
  {
  }

  lemma NothingHeld(c: Conn)
    requires Inv(c) && c.workers == map[]
    ensures forall t: nat | t < |c.consumed| :: Delivered(c, t) && c.consumed[t] != ""
    ensures forall id: nat :: c.freed[id] == if id < c.created then 1 else 0
  {
    forall t: nat | t < |c.consumed|
      ensures Delivered(c, t)
    {
      assert forall id :: !Holds(c, id, t);
    }
  }

  /** The callback of a read may hand its buffer over to the next read. */
  lemma RearmAllowed(c: Conn, id: nat, count: nat, ans: ReadAnswer)
    requires Inv(c) && c.sock.Connected() && id in c.workers && c.workers[id].phase.Holding?
    requires 0 < count <= c.workers[id].count
    ensures
      var read := ReadCall(c.workers[id].buf, count, ans);
      && Enabled(c, CallBack(id))
      && var c' := Step(c, CallBack(id)); Enabled(c', read) && Disciplined(c', read)
  {
    hide NoneLost, InOrder, DeliveredRight;
    assert HasRoom(c, c.workers[id].buf, c.workers[id].count);
  }

  /** A worker that has started when the socket is closed ends there: it receives, delivers and sends
      nothing more. */
  lemma ClosedEndsWorkers(c: Conn, id: nat, recv: RecvAnswer, ok: bool)
    requires !c.sock.Connected()
    ensures Enabled(c, Receive(id, recv)) ==> Step(c, Receive(id, recv)) == SetPhase(c, id, Finished)
    ensures Enabled(c, Send(id, ok)) ==> Step(c, Send(id, ok)) == SetPhase(c, id, Finished)
  {
  }

  /** A worker that starts when the socket is closed traps. */
  lemma StartAfterCloseTraps(c: Conn, buf: nat, count: nat, ioctl: RecvAnswer)
    requires c.sock.Connected() && c.sock.asyncMode && c.sock.callback != 0 && c.rx == ""
    requires count > 0 && HasRoom(c, buf, count)
    ensures
      var c1 := Step(c, ReadCall(buf, count, ReadAnswer(true, ioctl)));
      var c2 := Step(c1, Close);
      Enabled(c2, Start(c.created)) && Step(c2, Start(c.created)).trapped
  {
  }

  /** In the mode and with the callback last set, a read where nothing has arrived starts a worker if
      and only if the mode is asynchronous and there is a callback; the worker works for that read. */
  lemma ReadStartsWorkerIff(c: Conn, mode: bool, callback: nat, buf: nat, count: nat, ans: ReadAnswer)
    requires c.sock.Connected() && c.rx == "" && count > 0 && HasRoom(c, buf, count) && c.created !in c.workers
    ensures
      var c' := Step(Step(c, Configure(mode, callback)), ReadCall(buf, count, ans));
      && (c.created in c'.workers <==> mode && callback != 0 && ans.ioctlOk)
      && (c.created in c'.workers ==>
            c'.workers == c.workers[c.created := Worker(true, buf, count, Waiting)] && c'.created == c.created + 1)
      && (c.created !in c'.workers ==> c'.workers == c.workers)
  {
  }

  /** One reader alone: it delivers the first bytes that arrive, from its caller's buffer. */
  lemma WorkerReceives(c: Conn, id: nat, data: string, n: nat)
    requires c.sock.Connected() && c.rx == "" && id in c.workers
    requires var w := c.workers[id]; w.isReader && w.phase.Waiting? && HasRoom(c, w.buf, w.count) && n <= w.count
    requires 0 < n <= |data|
    ensures Enabled(c, Start(id)) && Enabled(Step(c, Start(id)), Arrive(data))
    ensures
      var c2 := Step(Step(c, Start(id)), Arrive(data));
      && Enabled(c2, Receive(id, Ready(n)))
      && var c3 := Step(c2, Receive(id, Ready(n)));
      && c3.rx == data[n..] && c3.delivered == c.delivered && Enabled(c3, CallBack(id))
      && Step(c3, CallBack(id)).delivered == c.delivered + [Delivery(|c.consumed|, data[..n])]
  {
    var c2 := Step(Step(c, Start(id)), Arrive(data));
    assert c2.rx == data;
    var c3 := Step(c2, Receive(id, Ready(n)));
    assert c3.bufs[c.workers[id].buf][..n] == data[..n];
  }

  /** Two readers on one buffer: the second receive overwrites what the first callback then hands
      over. Distinct buffers are what the guarantee rests on. */
  lemma SharedBufferGarbles(c: Conn, i: nat, j: nat, x: char, y: char)
    requires i != j && x != y && c.rx == [x, y] && c.delivered == [] && c.consumed == []
    requires i in c.workers && j in c.workers && c.workers[i] == c.workers[j]
    requires c.sock.Connected() && c.workers[i].isReader && c.workers[i].phase.Started? && c.workers[i].count >= 1
    requires HasRoom(c, c.workers[i].buf, c.workers[i].count)
    ensures
      var c1 := Step(c, Receive(i, Ready(1)));
      var c2 := Step(c1, Receive(j, Ready(1)));
      var c3 := Step(c2, CallBack(i));
      c3.consumed == [[x], [y]] && c3.delivered == [Delivery(0, [y])]
  {
    var buf := c.workers[i].buf;
    assert c.rx[..1] == [x] && c.rx[1..] == [y];
    var c1 := Step(c, Receive(i, Ready(1)));
    assert c1.consumed == [[x]] && c1.rx == [y];
    assert c1.rx[..1] == [y];
    var c2 := Step(c1, Receive(j, Ready(1)));
    assert c2.bufs[buf][..1] == [y];
  }
}
