/**
 What asynchronous writes put on the wire: the history of the write calls of a run, and what was sent
 in terms of it.
 */
module AsyncWrites {
  import opened AsyncWorkers
  import opened SocketSpec

  /** The history of the writes in a run. `calls` are the bytes that each write call handed over,
      `pending` says which call each writer that has yet to send works for, and `order` lists the
      calls whose bytes the kernel has accepted, in the order in which it did. */
  datatype History = History(calls: seq<string>, pending: map<nat, nat>, order: seq<nat>)

  const NO_WRITES: History := History([], map[], [])

  /** What one action adds to it: a call without asynchronous mode and callback is sent at once, any
      other when its worker sends. */
  ghost function Record(c: Conn, h: History, act: Act): History
    requires Enabled(c, act)
  {
    match act
    case WriteCall(buf, count, ok) =>
      var call, calls := |h.calls|, h.calls + [c.bufs[buf][..count]];
      if c.sock.asyncMode && c.sock.callback != 0 then h.(calls := calls, pending := h.pending[c.created := call])
      else h.(calls := calls, order := h.order + if ok then [call] else [])
    case Send(id, ok) =>
      if id !in h.pending then h
      else
        h.(pending := h.pending - {id},
           order := h.order + if ok && c.sock.Connected() then [h.pending[id]] else [])
    case _ => h
  }

  ghost function Recorded(c: Conn, h: History, acts: seq<Act>): History
    requires DisciplinedRun(c, acts)
    decreases |acts|
  {
    if acts == [] then h else Recorded(Step(c, acts[0]), Record(c, h, acts[0]), acts[1..])
  }

  /** The bytes of some calls, in a given order. */
  function Select(calls: seq<string>, order: seq<nat>): string
    requires forall i | 0 <= i < |order| :: order[i] < |calls|
  {
    if order == [] then "" else Select(calls, order[..|order| - 1]) + calls[order[|order| - 1]]
  }

  ghost predicate OrderRight(h: History) {
    && (forall i | 0 <= i < |h.order| :: h.order[i] < |h.calls|)
    && (forall i, j | 0 <= i < j < |h.order| :: h.order[i] != h.order[j])
    && (forall id | id in h.pending :: h.pending[id] < |h.calls|)
    && (forall id, i | id in h.pending && 0 <= i < |h.order| :: h.order[i] != h.pending[id])
    && (forall i, j | i in h.pending && j in h.pending && i != j :: h.pending[i] != h.pending[j])
  }

  /** A writer that has yet to send. */
  predicate Unsent(c: Conn, id: nat) {
    id in c.workers && !c.workers[id].isReader && (c.workers[id].phase.Waiting? || c.workers[id].phase.Started?)
  }

  /** Every writer that has yet to send still has the bytes of its call in its buffer. */
  ghost predicate BytesKept(c: Conn, h: History) {
    && (forall id :: id in h.pending <==> Unsent(c, id))
    && (forall id | id in h.pending ::
          && h.pending[id] < |h.calls| && HasRoom(c, c.workers[id].buf, c.workers[id].count)
          && c.bufs[c.workers[id].buf][..c.workers[id].count] == h.calls[h.pending[id]])
  }

  ghost predicate Written(c: Conn, h: History) {
    OrderRight(h) && BytesKept(c, h) && c.sent == Select(h.calls, h.order)
  }

  lemma {:induction false} SelectMore(calls: seq<string>, more: seq<string>, order: seq<nat>)
    requires forall i | 0 <= i < |order| :: order[i] < |calls|
    ensures Select(calls + more, order) == Select(calls, order)
  {
    if order != [] {
      SelectMore(calls, more, order[..|order| - 1]);
    }
  }

  lemma SelectAppend(calls: seq<string>, order: seq<nat>, call: nat)
    requires (forall i | 0 <= i < |order| :: order[i] < |calls|) && call < |calls|
    ensures Select(calls, order + [call]) == Select(calls, order) + calls[call]
  {
    assert (order + [call])[..|order|] == order;
  }

  /** A step between `c` and `c'` that leaves every writer alone that has yet to send. */
  ghost predicate KeepsWriters(c: Conn, c': Conn) {
    && c'.sent == c.sent
    && (forall id :: Unsent(c', id) <==> Unsent(c, id))
    && (forall id | Unsent(c, id) ::
          && c'.workers[id].buf == c.workers[id].buf && c'.workers[id].count == c.workers[id].count
          && var buf, count := c.workers[id].buf, c.workers[id].count;
          (HasRoom(c, buf, count) ==> HasRoom(c', buf, count) && c'.bufs[buf][..count] == c.bufs[buf][..count]))
  }

  lemma KeptWriters(c: Conn, h: History, c': Conn)
    requires Written(c, h) && KeepsWriters(c, c')
    ensures Written(c', h)
  {
    hide Unsent, OrderRight;
  }

  /** Nothing happens to the buffers. */
  lemma QuietKeepsWriters(c: Conn, c': Conn)
    requires c'.sent == c.sent && c'.bufs == c.bufs
    requires forall id :: Unsent(c', id) <==> Unsent(c, id)
    requires forall id | Unsent(c, id) ::
               && id in c'.workers
               && c'.workers[id].buf == c.workers[id].buf && c'.workers[id].count == c.workers[id].count
    ensures KeepsWriters(c, c')
  {
    hide Unsent;
  }

  /** Something happens to a buffer that no writer uses which has yet to send. */
  lemma OtherBufferKeepsWriters(c: Conn, c': Conn, buf: nat, text: string)
    requires buf in c.bufs && c'.bufs == c.bufs[buf := text] && c'.sent == c.sent
    requires forall id :: Unsent(c', id) <==> Unsent(c, id)
    requires forall id | Unsent(c, id) ::
               && id in c'.workers && c.workers[id].buf != buf
               && c'.workers[id].buf == c.workers[id].buf && c'.workers[id].count == c.workers[id].count
    ensures KeepsWriters(c, c')
  {
    hide Unsent;
  }

  lemma ReceiveKeepsWriters(c: Conn, id: nat, recv: RecvAnswer)
    requires BufsApart(c) && Enabled(c, Receive(id, recv))
    ensures KeepsWriters(c, Step(c, Receive(id, recv)))
  {
    var c' := Step(c, Receive(id, recv));
    assert forall i :: Unsent(c', i) <==> Unsent(c, i);
    if Arrived(c, c.workers[id].count, recv) <= 0 {
      QuietKeepsWriters(c, c');
    } else {
      var buf := c.workers[id].buf;
      hide Step;
      OtherBufferKeepsWriters(c, c', buf, c'.bufs[buf]);
    }
  }

  lemma ReadCallKeepsWriters(c: Conn, buf: nat, count: nat, ans: ReadAnswer)
    requires c.created !in c.workers
    requires var act := ReadCall(buf, count, ans); Enabled(c, act) && Disciplined(c, act)
    ensures KeepsWriters(c, Step(c, ReadCall(buf, count, ans)))
  {
    var c' := Step(c, ReadCall(buf, count, ans));
    assert forall i :: Unsent(c', i) <==> Unsent(c, i);
    if ReadSocket(c.sock, c.rx, count, ans).n > 0 {
      hide Step;
      OtherBufferKeepsWriters(c, c', buf, c'.bufs[buf]);
    } else {
      hide Step;
      QuietKeepsWriters(c, c');
    }
  }

  lemma OtherKeepsWriters(c: Conn, act: Act)
    requires Enabled(c, act) && Disciplined(c, act)
    requires !act.WriteCall? && !act.Send? && !act.Receive? && !act.ReadCall?
    ensures KeepsWriters(c, Step(c, act))
  {
    var c' := Step(c, act);
    if act.CallBack? || act.Free? || act.Start? {
      assert forall i :: Unsent(c', i) <==> Unsent(c, i);
      QuietKeepsWriters(c, c');
    } else if act.Fill? {
      OtherBufferKeepsWriters(c, c', act.buf, act.text);
    } else {
      QuietKeepsWriters(c, c');
    }
  }

  lemma CreatedIsNew(c: Conn)
    requires Inv(c)
    ensures c.created !in c.workers && BufsApart(c)
  {
  }

  lemma CallRecorded(c: Conn, h: History, buf: nat, count: nat, ok: bool)
    requires c.created !in c.workers && Written(c, h)
    requires var act := WriteCall(buf, count, ok); Enabled(c, act) && Disciplined(c, act)
    ensures var act := WriteCall(buf, count, ok); Written(Step(c, act), Record(c, h, act))
  {
    var act := WriteCall(buf, count, ok);
    var c', h' := Step(c, act), Record(c, h, act);
    var text := c.bufs[buf][..count];
    assert h'.calls == h.calls + [text];
    SelectMore(h.calls, [text], h.order);
    if c.sock.asyncMode && c.sock.callback != 0 {
      SpawnRecorded(c, h, c', h', text);
    } else {
      assert h.order + [] == h.order;
      if ok {
        SelectAppend(h'.calls, h.order, |h.calls|);
      }
      assert c'.sent == Select(h'.calls, h'.order);
      hide Step, Record, Select;
      SentNowRecorded(c, h, c', h');
    }
  }

  lemma SpawnRecorded(c: Conn, h: History, c': Conn, h': History, text: string)
    requires c.created !in c.workers && Written(c, h)
    requires c'.bufs == c.bufs && c'.sent == c.sent && c.created in c'.workers
    requires c'.workers == c.workers[c.created := c'.workers[c.created]]
    requires var w := c'.workers[c.created];
             && !w.isReader && w.phase.Waiting? && HasRoom(c, w.buf, w.count)
             && c.bufs[w.buf][..w.count] == text
    requires h' == History(h.calls + [text], h.pending[c.created := |h.calls|], h.order)
    requires Select(h'.calls, h.order) == Select(h.calls, h.order)
    ensures Written(c', h')
  {
    hide Select, OrderRight;
    assert forall id :: Unsent(c', id) <==> Unsent(c, id) || id == c.created;
    assert c.created !in h.pending;
    OrderCalled(h, text, c.created);
    hide Unsent;
  }

  lemma OrderCalled(h: History, text: string, id: nat)
    requires OrderRight(h) && id !in h.pending
    ensures OrderRight(History(h.calls + [text], h.pending[id := |h.calls|], h.order))
  {
  }

  lemma SentNowRecorded(c: Conn, h: History, c': Conn, h': History)
    requires Written(c, h) && c'.workers == c.workers && c'.bufs == c.bufs
    requires |h'.calls| == |h.calls| + 1 && h'.calls[..|h.calls|] == h.calls && h'.pending == h.pending
    requires h'.order == h.order || h'.order == h.order + [|h.calls|]
    requires OrderRight(h') ==> c'.sent == Select(h'.calls, h'.order)
    ensures Written(c', h')
  {
    hide Select;
    assert OrderRight(h');
    assert forall id :: Unsent(c', id) <==> Unsent(c, id);
    assert forall k | 0 <= k < |h.calls| :: h'.calls[k] == h.calls[k];
    hide OrderRight, Unsent;
  }

  lemma OrderSent(h: History, id: nat)
    requires OrderRight(h) && id in h.pending
    ensures OrderRight(h.(pending := h.pending - {id}))
    ensures OrderRight(h.(pending := h.pending - {id}, order := h.order + [h.pending[id]]))
  {
  }

  lemma SendRecorded(c: Conn, h: History, id: nat, ok: bool)
    requires Written(c, h) && Enabled(c, Send(id, ok))
    ensures Written(Step(c, Send(id, ok)), Record(c, h, Send(id, ok)))
  {
    hide OrderRight, Select;
    assert Unsent(c, id) && id in h.pending;
    var c', h' := Step(c, Send(id, ok)), Record(c, h, Send(id, ok));
    OrderSent(h, id);
    assert h.order + [] == h.order;
    OneLess(c, c', id);
    BytesStay(c, h, c', h', id);
    SendSelects(c, h, id, ok);
    hide BytesKept, Unsent, Step, Record;
  }

  lemma OneLess(c: Conn, c': Conn, id: nat)
    requires id in c.workers && c'.workers == c.workers[id := c.workers[id].(phase := Finished)]
    ensures forall i :: Unsent(c', i) <==> Unsent(c, i) && i != id
  {
  }

  lemma BytesStay(c: Conn, h: History, c': Conn, h': History, id: nat)
    requires BytesKept(c, h) && c'.bufs == c.bufs && h'.calls == h.calls && h'.pending == h.pending - {id}
    requires id in c.workers && c'.workers == c.workers[id := c.workers[id].(phase := Finished)]
    requires forall i :: Unsent(c', i) <==> Unsent(c, i) && i != id
    ensures BytesKept(c', h')
  {
    hide Unsent;
  }

  lemma SendSelects(c: Conn, h: History, id: nat, ok: bool)
    requires Written(c, h) && Enabled(c, Send(id, ok)) && id in h.pending
    requires OrderRight(Record(c, h, Send(id, ok)))
    ensures var h' := Record(c, h, Send(id, ok)); Step(c, Send(id, ok)).sent == Select(h'.calls, h'.order)
  {
    assert h.order + [] == h.order;
    if ok && c.sock.Connected() {
      SelectAppend(h.calls, h.order, h.pending[id]);
    }
  }

  lemma StepRecorded(c: Conn, h: History, act: Act)
    requires Inv(c) && Written(c, h) && Enabled(c, act) && Disciplined(c, act)
    ensures Written(Step(c, act), Record(c, h, act))
  {
    hide Inv, Step, Written, KeepsWriters, Disciplined;
    CreatedIsNew(c);
    match act
    case WriteCall(buf, count, ok) => CallRecorded(c, h, buf, count, ok);
    case Send(id, ok) => SendRecorded(c, h, id, ok);
    case ReadCall(buf, count, ans) =>
      ReadCallKeepsWriters(c, buf, count, ans);
      KeptWriters(c, h, Step(c, act));
    case Receive(id, recv) =>
      ReceiveKeepsWriters(c, id, recv);
      KeptWriters(c, h, Step(c, act));
    case _ =>
      OtherKeepsWriters(c, act);
      KeptWriters(c, h, Step(c, act));
  }

  lemma {:induction false} RunRecorded(c: Conn, h: History, acts: seq<Act>)
    requires Inv(c) && Written(c, h) && DisciplinedRun(c, acts)
    ensures Written(Run(c, acts), Recorded(c, h, acts))
    decreases |acts|
  {
    hide Inv, Step, Written, Record, Disciplined, Enabled, KeepsWriters;
    if acts != [] {
      StepKeepsInv(c, acts[0]);
      StepRecorded(c, h, acts[0]);
      RunRecorded(Step(c, acts[0]), Record(c, h, acts[0]), acts[1..]);
    }
  }

  /** In every disciplined run the bytes sent are those of the write calls that the kernel has accepted,
      in the order of acceptance: no call more than once, each with the bytes it handed over, whatever
      has happened to other buffers since, and none that a worker has yet to send. */
  lemma WrittenOnce(sock: Sock, bufs: map<nat, string>, acts: seq<Act>)
    requires DisciplinedRun(Fresh(sock, bufs), acts)
    ensures
      var c, h := Run(Fresh(sock, bufs), acts), Recorded(Fresh(sock, bufs), NO_WRITES, acts);
      && OrderRight(h) && c.sent == Select(h.calls, h.order)
      && (forall id :: id in h.pending <==> Unsent(c, id))
  {
    hide Run, DisciplinedRun, Recorded;
    FreshInv(sock, bufs);
    RunRecorded(Fresh(sock, bufs), NO_WRITES, acts);
  }

  /** One write alone: the call sends nothing, its worker sends the bytes the call passed. */
  lemma WorkerSends(c: Conn, buf: nat, count: nat, ok: bool)
    requires c.sock.Connected() && c.sock.asyncMode && c.sock.callback != 0 && HasRoom(c, buf, count)
    ensures
      var c1 := Step(c, WriteCall(buf, count, ok));
      && Enabled(c1, Start(c.created)) && c1.sent == c.sent
      && var c2 := Step(c1, Start(c.created));
      && Enabled(c2, Send(c.created, true)) && c2.sent == c.sent
      && Step(c2, Send(c.created, true)).sent == c.sent + c.bufs[buf][..count]
      && Step(c2, Send(c.created, false)).sent == c.sent
  {
  }
}
