/**
 Any number of sockets and their worker threads over one kernel: in every disciplined run the live
 descriptors are exactly the handles the sockets hold and each TLS context is freed once, and a trap
 can be reached if and only if a socket is closed or destroyed too early for one of its workers.
 */
module Ledger {
  import opened OpenCloseSpec
  import opened SocketSpec
  import opened StreamBufSpec
  import Runs = StreamRuns
  import opened Wrappers

  /** A worker thread of a socket. Until it has started it has not picked the state to dispatch on;
      from then on it makes its system call on the socket. */
  datatype Worker = Worker(sock: nat, started: bool)

  /** `spawned` counts the workers so far, which numbers them. */
  datatype World = World(kern: Kern, objs: map<nat, Obj>, workers: map<nat, Worker>, spawned: nat)

  datatype Act =
    | Create(id: nat, flags: OpenFlags, cells: string)
    | Opening(id: nat, addr: Addr, flags: OpenFlags, a: Answers)
    | Listen(id: nat, newId: nat, fd: int, cells: string)
    | Closing(id: nat, sendOk: bool)
    | Destroy(id: nat, sendOk: bool)
    | SetAsyncMode(id: nat, asyncMode: bool)
    | RegisterCallback(id: nat, callback: nat)
    | Put(id: nat, c: char, ok: bool)
    | Flush(id: nat, ok: bool)
    | Get(id: nat, rx: string, ans: ReadAnswer)
    | Write(id: nat, ok: bool)
    | Read(id: nat, rx: string, count: nat, ans: ReadAnswer)
    | Start(worker: nat)
    | Finish(worker: nat)
  {
    /** An operation of a socket that exists, on that socket alone. */
    predicate Own() { !Create? && !Listen? && !Start? && !Finish? }
  }

  /** A default-constructed socket. */
  function NewObj(flags: OpenFlags, cells: string): Obj {
    Obj(Sock(INVALID_SOCKET, SSClosed, SC_OK, {}, flags, false, SOCK_STREAM, 0, 0), Fresh(cells))
  }

  /** What a single-socket action does to the socket and the kernel's tables. */
  function Effect(k: Kern, o: Obj, act: Act): Outcome
    requires o.area.Valid()
  {
    match act
    case Opening(_, addr, flags, a) => Open(k, o, addr, flags, a)
    case Closing(_, sendOk) => Close(k, o, sendOk)
    case Destroy(_, sendOk) => Close(k, o, sendOk)
    case SetAsyncMode(_, mode) => Done(k, o.(sock := o.sock.(asyncMode := mode)), true)
    case RegisterCallback(_, callback) => Done(k, o.(sock := o.sock.(callback := callback)), true)
    case Put(_, c, ok) =>
      if |o.area.pending| == CAP && !o.sock.Connected() then Trap
      else var r := Sputc(o.sock, o.area, c, ok); Done(k, Obj(r.sock, r.area), true)
    case Flush(_, ok) =>
      if FlushTraps(o) then Trap
      else var r := Sync(o.sock, o.area, ok); Done(k, Obj(r.sock, r.area), true)
    case Get(_, rx, ans) =>
      if o.area.ahead == "" && !o.sock.Connected() then Trap
      else var r := Sbumpc(o.sock, o.area, rx, ans); Done(k, Obj(r.sock, r.area), true)
    case Write(_, ok) =>
      if !o.sock.Connected() then Trap else Done(k, o.(sock := WriteSocket(o.sock, ok)), true)
    case Read(_, rx, count, ans) =>
      if count == 0 then Done(k, o, true)
      else if !o.sock.Connected() then Trap
      else Done(k, o.(sock := ReadSocket(o.sock, rx, count, ans).sock), true)
    case _ => Done(k, o, true)
  }

  lemma CloseKeepsValid(k: Kern, o: Obj, sendOk: bool)
    requires o.area.Valid()
    ensures CloseState(k, o, sendOk).Done? ==> CloseState(k, o, sendOk).obj.area.Valid()
  {
  }

  lemma OpenKeepsValid(k: Kern, o: Obj, addr: Addr, flags: OpenFlags, a: Answers)
    requires o.area.Valid()
    ensures var server := OpenServer(k, o, addr, flags, a); server.Done? ==> server.obj.area.Valid()
    ensures var tls := OpenTLS(k, o, flags, a); tls.Done? ==> tls.obj.area.Valid()
  {
    hide CloseState;
    var o' := Obj(Assume(o.sock, flags).(hFile := a.fd), o.area);
    var k' := k.(live := k.live + {a.fd});
    CloseKeepsValid(k', o', a.sendOk);
    CloseKeepsValid(Freed(k'.(nextCtx := k.nextCtx + 1), k.nextCtx), o', a.sendOk);
  }

  /** Whatever an action does, the areas stay within their arrays. */
  lemma EffectKeepsValid(k: Kern, o: Obj, act: Act)
    requires o.area.Valid()
    ensures Effect(k, o, act).Done? ==> Effect(k, o, act).obj.area.Valid()
  {
    hide OpenServer, OpenTLS, CloseState;
    match act
    case Opening(_, addr, flags, a) =>
      var s := o.sock.(protocol := if addr.udp then SOCK_DGRAM else SOCK_STREAM);
      OpenKeepsValid(k, Obj(s.(state := OpeningState(s, addr, flags)), o.area), addr, flags, a);
    case Closing(_, sendOk) =>
      CloseKeepsValid(k, o, sendOk);
      CloseKeepsValid(Freed(k, o.sock.sslCtx), o, sendOk);
    case Destroy(_, sendOk) =>
      CloseKeepsValid(k, o, sendOk);
      CloseKeepsValid(Freed(k, o.sock.sslCtx), o, sendOk);
    case _ =>
  }

  /** Whether it starts a worker thread. A close flushes first, and so may start one itself. */
  predicate Spawns(o: Obj, act: Act) {
    match act
    case Put(_, _, _) => |o.area.pending| == CAP && !o.sock.WritesNow()
    case Flush(_, _) => FlushSpawns(o)
    case Closing(_, _) => FlushSpawns(o)
    case Destroy(_, _) => FlushSpawns(o)
    case Get(_, rx, ans) => o.area.ahead == "" && ReadSocket(o.sock, rx, CAP, ans).spawned
    case Write(_, _) => !o.sock.WritesNow()
    case Read(_, rx, count, ans) => count > 0 && ReadSocket(o.sock, rx, count, ans).spawned
    case _ => false
  }

  predicate FlushSpawns(o: Obj) {
    o.area.pending != "" && o.sock.IsOpen() && o.sock.Good() && !o.sock.WritesNow()
  }

  /** Which operations on a connected socket start a worker: in asynchronous mode with a callback, every
      raw write, every write of pending bytes, and every read from the kernel that finds nothing there. */
  lemma SpawnsIff(o: Obj, act: Act)
    requires o.sock.Connected() && o.sock.IsOpen()
    ensures
      var async := o.sock.asyncMode && o.sock.callback != 0;
      Spawns(o, act) <==>
      match act
      case Put(_, _, _) => async && |o.area.pending| == 256
      case Flush(_, _) => async && o.area.pending != "" && o.sock.bits == {}
      case Closing(_, _) => async && o.area.pending != "" && o.sock.bits == {}
      case Destroy(_, _) => async && o.area.pending != "" && o.sock.bits == {}
      case Get(_, rx, ans) => async && o.area.ahead == "" && rx == "" && ans.ioctlOk
      case Write(_, _) => async
      case Read(_, rx, count, ans) => async && count > 0 && rx == "" && ans.ioctlOk
      case _ => false
  {
  }

  function AsStep(k: Kern, r: Runs.Run): Outcome { Done(k, Obj(r.sock, r.area), true) }

  /** On a connected socket the buffered and raw operations do what they do on one stream alone. */
  lemma EffectIsStreamStep(k: Kern, o: Obj, act: Act)
    requires o.area.Valid() && o.sock.Connected()
    ensures
      var r := Runs.Run(o.sock, o.area, "", "");
      match act
      case Put(_, c, ok) => Effect(k, o, act) == AsStep(k, Runs.Step(r, Runs.Put(c, ok)))
      case Flush(_, ok) => Effect(k, o, act) == AsStep(k, Runs.Step(r, Runs.Flush(ok)))
      case Get(_, rx, ans) => Effect(k, o, act) == AsStep(k, Runs.Step(r, Runs.Get(rx, ans)))
      case Write(_, ok) => Effect(k, o, act) == AsStep(k, Runs.Step(r, Runs.Write("", ok)))
      case Read(_, rx, count, ans) => Effect(k, o, act) == AsStep(k, Runs.Step(r, Runs.Read(rx, count, ans)))
      case _ => true
  {
  }

  /** The kernel hands out a descriptor that is not in use, or none. */
  predicate FreshFd(k: Kern, fd: int) { fd == INVALID_SOCKET || (fd >= 0 && fd !in k.live) }

  /** The discipline: open only what holds no descriptor and has nothing left to write, listen only on
      a listening socket, and do I/O only on a connected one. */
  predicate Allowed(k: Kern, o: Obj, act: Act) {
    match act
    case Opening(_, addr, flags, a) =>
      && !o.sock.IsOpen() && FreshFd(k, a.fd)
      && (Quiet(o) || Refused(addr)) && !Unopenable(addr, flags)
    case Listen(_, _, fd, cells) => o.sock.state == SSListening && FreshFd(k, fd) && |cells| == CAP
    case Put(_, _, _) => o.sock.Connected()
    case Get(_, _, _) => o.sock.Connected()
    case Write(_, _) => o.sock.Connected()
    case Read(_, _, _, _) => o.sock.Connected()
    case _ => true
  }

  // ----- One socket among others -----

  function Fds(o: Obj): set<int> { if o.sock.IsOpen() then {o.sock.hFile} else {} }

  function Ctxs(o: Obj): set<nat> { if o.sock.state == SSConnectedTLS then {o.sock.sslCtx} else {} }

  /** The contexts created and not yet freed. */
  function Unfreed(k: Kern): set<nat> { set c | 0 <= c < k.nextCtx && c !in k.freed }

  /** No context is freed twice, and none that was never created. */
  ghost predicate FreedOnce(k: Kern) {
    forall c | c in k.freed :: c < k.nextCtx && k.freed[c] == 1
  }

  predicate ObjInv(o: Obj) {
    && o.area.Valid()
    && (o.sock.state == SSClosed || o.sock.state == SSListening || o.sock.Connected())
    && (!o.sock.IsOpen() ==> o.sock.state == SSClosed)
    && !FlushTraps(o)
  }

  /** The kernel's tables split into what this socket holds and what the others do. */
  ghost predicate Tables(k: Kern, o: Obj, fds: set<int>, ctxs: set<nat>) {
    && k.live == fds + Fds(o) && fds !! Fds(o) && INVALID_SOCKET !in k.live
    && Unfreed(k) == ctxs + Ctxs(o) && ctxs !! Ctxs(o) && FreedOnce(k)
  }

  ghost predicate Share(k: Kern, o: Obj, fds: set<int>, ctxs: set<nat>) { ObjInv(o) && Tables(k, o, fds, ctxs) }

  lemma FreeingOne(k: Kern, ctx: nat)
    requires FreedOnce(k) && ctx in Unfreed(k)
    ensures FreedOnce(Freed(k, ctx)) && Unfreed(Freed(k, ctx)) == Unfreed(k) - {ctx}
  {
  }

  lemma FreedKeeps(k: Kern, ctx: nat)
    ensures Freed(k, ctx).live == k.live && Freed(k, ctx).nextCtx == k.nextCtx
  {
  }

  lemma CreatingOne(k: Kern)
    requires FreedOnce(k)
    ensures
      var k' := k.(nextCtx := k.nextCtx + 1);
      FreedOnce(k') && k.nextCtx !in Unfreed(k) && Unfreed(k') == Unfreed(k) + {k.nextCtx}
  {
    assert k.nextCtx !in k.freed;
  }

  lemma ContextsIgnoreLive(k: Kern, live: set<int>)
    ensures Unfreed(k.(live := live)) == Unfreed(k)
    ensures FreedOnce(k) ==> FreedOnce(k.(live := live))
  {
  }

  /** Releasing the descriptor of a socket whose context is already off the books. */
  lemma CloseShare(k: Kern, o: Obj, sendOk: bool, fds: set<int>, ctxs: set<nat>)
    requires o.sock.IsOpen()
    requires k.live == fds + {o.sock.hFile} && o.sock.hFile !in fds && INVALID_SOCKET !in k.live
    requires Unfreed(k) == ctxs && FreedOnce(k)
    ensures
      var out := CloseState(k, o, sendOk);
      && (out.Done? <==> !FlushTraps(o))
      && (out.Done? ==> Tables(out.kern, out.obj, fds, ctxs) && (o.area.Valid() ==> ObjInv(out.obj)))
  {
    hide Unfreed, FreedOnce;
    var out := CloseState(k, o, sendOk);
    assert Sync(o.sock, o.area, sendOk).sock.hFile == o.sock.hFile;
    if out.Done? {
      ContextsIgnoreLive(k, out.kern.live);
    }
  }

  lemma ClosingKeepsShare(k: Kern, o: Obj, sendOk: bool, fds: set<int>, ctxs: set<nat>)
    requires Share(k, o, fds, ctxs)
    ensures Close(k, o, sendOk).Done?
    ensures var out := Close(k, o, sendOk);
            Share(out.kern, out.obj, fds, ctxs) && !out.obj.sock.IsOpen() && out.obj.sock.state == SSClosed
  {
    if o.sock.IsOpen() {
      if o.sock.state == SSConnectedTLS {
        FreeingOne(k, o.sock.sslCtx);
        CloseShare(Freed(k, o.sock.sslCtx), o, sendOk, fds, ctxs);
      } else {
        CloseShare(k, o, sendOk, fds, ctxs);
      }
    }
  }

  /** A socket without a descriptor that opens among others. */
  ghost predicate ReadyToOpen(k: Kern, o: Obj, a: Answers, fds: set<int>, ctxs: set<nat>) {
    && !o.sock.IsOpen()
    && k.live == fds && INVALID_SOCKET !in fds && FreshFd(k, a.fd)
    && Unfreed(k) == ctxs && FreedOnce(k)
  }

  /** What every open must leave behind when it comes to its end, as a quiet socket's always does. */
  ghost predicate OpensInto(o: Obj, out: Outcome, fds: set<int>, ctxs: set<nat>) {
    && (out.Done? ==> Tables(out.kern, out.obj, fds, ctxs))
    && (Quiet(o) && o.area.Valid() ==> out.Done? && ObjInv(out.obj))
  }

  lemma OpenServerShare(k: Kern, o: Obj, addr: Addr, flags: OpenFlags, a: Answers, fds: set<int>, ctxs: set<nat>)
    requires ReadyToOpen(k, o, a, fds, ctxs)
    ensures OpensInto(o, OpenServer(k, o, addr, flags, a), fds, ctxs)
  {
    hide Unfreed, FreedOnce, CloseState;
    var s := Assume(o.sock, flags).(hFile := a.fd);
    var k' := k.(live := k.live + {a.fd});
    ContextsIgnoreLive(k, k'.live);
    if a.fd != INVALID_SOCKET {
      CloseShare(k', Obj(s, o.area), a.sendOk, fds, ctxs);
    }
  }

  lemma OpenClientShare(k: Kern, o: Obj, addr: Addr, flags: OpenFlags, a: Answers, fds: set<int>, ctxs: set<nat>)
    requires ReadyToOpen(k, o, a, fds, ctxs)
    ensures OpensInto(o, OpenClient(k, o, addr, flags, a), fds, ctxs)
  {
    hide Unfreed, FreedOnce;
    ContextsIgnoreLive(k, k.live + {a.fd});
  }

  lemma OpenTLSShare(k: Kern, o: Obj, flags: OpenFlags, a: Answers, fds: set<int>, ctxs: set<nat>)
    requires ReadyToOpen(k, o, a, fds, ctxs)
    ensures OpensInto(o, OpenTLS(k, o, flags, a), fds, ctxs)
  {
    hide Unfreed, FreedOnce, Freed, CloseState;
    var ctx := k.nextCtx;
    var k0 := k.(nextCtx := ctx + 1);
    CreatingOne(k);
    FreeingOne(k0, ctx);
    FreedKeeps(k0, ctx);
    assert ctxs + {ctx} - {ctx} == ctxs;
    var s := Assume(o.sock, flags).(hFile := a.fd);
    var k' := k0.(live := k.live + {a.fd});
    ContextsIgnoreLive(k0, k'.live);
    FreedKeeps(k', ctx);
    if a.fd != INVALID_SOCKET {
      FreeingOne(k', ctx);
      CloseShare(Freed(k', ctx), Obj(s, o.area), a.sendOk, fds, ctxs);
    }
  }

  lemma OpeningKeepsTables(k: Kern, o: Obj, addr: Addr, flags: OpenFlags, a: Answers, fds: set<int>, ctxs: set<nat>)
    requires Closed(o) && Tables(k, o, fds, ctxs) && FreshFd(k, a.fd) && !Unopenable(addr, flags)
    ensures
      var out := Open(k, o, addr, flags, a);
      && (out.Done? ==> Tables(out.kern, out.obj, fds, ctxs))
      && (o.area.Valid() && (Quiet(o) || Refused(addr)) ==> out.Done? && ObjInv(out.obj))
  {
    hide OpenServer, OpenClient, OpenTLS, FreedOnce, Unfreed;
    var s := o.sock.(protocol := if addr.udp then SOCK_DGRAM else SOCK_STREAM);
    if !Refused(addr) {
      var o' := Obj(s.(state := OpeningState(s, addr, flags)), o.area);
      assert fds + Fds(o) == fds && ctxs + Ctxs(o) == ctxs;
      assert ReadyToOpen(k, o', a, fds, ctxs);
      OpenServerShare(k, o', addr, flags, a, fds, ctxs);
      OpenClientShare(k, o', addr, flags, a, fds, ctxs);
      OpenTLSShare(k, o', flags, a, fds, ctxs);
    }
  }

  /** The buffered and raw operations, and the two settings. */
  predicate IsLocal(act: Act) { act.Own() && !act.Opening? && !act.Closing? && !act.Destroy? }

  /** What they leave alone: the tables and the handle. */
  predicate Untouched(k: Kern, o: Obj, out: Outcome) {
    && out.Done? && out.kern == k && ObjInv(out.obj)
    && Fds(out.obj) == Fds(o) && Ctxs(out.obj) == Ctxs(o) && out.obj.sock.state == o.sock.state
  }

  lemma OutputTouchesNoHandle(k: Kern, o: Obj, act: Act)
    requires ObjInv(o) && Allowed(k, o, act) && (act.Put? || act.Flush? || act.Write?)
    ensures Untouched(k, o, Effect(k, o, act))
  {
    hide Sbumpc, ReadSocket, Open, Close;
  }

  lemma InputTouchesNoHandle(k: Kern, o: Obj, act: Act)
    requires ObjInv(o) && Allowed(k, o, act) && IsLocal(act) && !(act.Put? || act.Flush? || act.Write?)
    ensures Untouched(k, o, Effect(k, o, act))
  {
    hide Sputc, Sync, WriteSocket, Open, Close;
  }

  /** Every allowed action of one socket keeps its share of the tables and reaches no trap. Only a
      close disconnects, and only a connected socket starts a worker. */
  lemma EffectKeepsShare(k: Kern, o: Obj, act: Act, fds: set<int>, ctxs: set<nat>)
    requires Share(k, o, fds, ctxs) && act.Own() && Allowed(k, o, act)
    ensures var out := Effect(k, o, act);
            && out.Done? && Share(out.kern, out.obj, fds, ctxs)
            && (act.Closing? || act.Destroy? ==> !out.obj.sock.IsOpen() && out.obj.sock.state == SSClosed)
            && (IsLocal(act) ==> out.obj.sock.state == o.sock.state)
    ensures Spawns(o, act) ==> o.sock.Connected()
    ensures act.Opening? ==> !o.sock.Connected()
  {
    hide Open, Close, Sputc, Sync, Sbumpc, ReadSocket, WriteSocket, FreedOnce, Unfreed;
    if act.Opening? {
      OpeningKeepsTables(k, o, act.addr, act.flags, act.a, fds, ctxs);
    } else if act.Closing? || act.Destroy? {
      ClosingKeepsShare(k, o, act.sendOk, fds, ctxs);
    } else if act.Put? || act.Flush? || act.Write? {
      OutputTouchesNoHandle(k, o, act);
    } else {
      InputTouchesNoHandle(k, o, act);
    }
  }

  // ----- All sockets -----

  function FdsOf(objs: map<nat, Obj>): set<int> {
    set id | id in objs && objs[id].sock.IsOpen() :: objs[id].sock.hFile
  }

  function CtxsOf(objs: map<nat, Obj>): set<nat> {
    set id | id in objs && objs[id].sock.state == SSConnectedTLS :: objs[id].sock.sslCtx
  }

  /** No two sockets hold the same descriptor or the same context. */
  ghost predicate Exclusive(objs: map<nat, Obj>) {
    forall i, j | i in objs && j in objs && i != j ::
      Fds(objs[i]) !! Fds(objs[j]) && Ctxs(objs[i]) !! Ctxs(objs[j])
  }

  /** The ledger: the live descriptors are the handles held, and the contexts not yet freed are those
      of the sockets connected by TLS. */
  ghost predicate Balanced(k: Kern, objs: map<nat, Obj>) {
    && k.live == FdsOf(objs) && INVALID_SOCKET !in k.live
    && Unfreed(k) == CtxsOf(objs) && FreedOnce(k)
    && Exclusive(objs)
  }

  ghost predicate Inv(w: World) {
    && Balanced(w.kern, w.objs)
    && (forall id | id in w.objs :: ObjInv(w.objs[id]))
    && (forall wid | wid in w.workers :: wid < w.spawned)
  }

  lemma FdsSplit(objs: map<nat, Obj>, id: nat)
    requires id in objs
    ensures FdsOf(objs) == FdsOf(objs - {id}) + Fds(objs[id])
  {
    var others := objs - {id};
    forall fd | fd in FdsOf(objs)
      ensures fd in FdsOf(others) + Fds(objs[id])
    {
      var j :| j in objs && objs[j].sock.IsOpen() && objs[j].sock.hFile == fd;
      assert j == id || j in others;
    }
    forall fd | fd in FdsOf(others)
      ensures fd in FdsOf(objs)
    {
      var j :| j in others && others[j].sock.IsOpen() && others[j].sock.hFile == fd;
      assert j in objs && objs[j] == others[j];
    }
  }

  lemma CtxsSplit(objs: map<nat, Obj>, id: nat)
    requires id in objs
    ensures CtxsOf(objs) == CtxsOf(objs - {id}) + Ctxs(objs[id])
  {
    var others := objs - {id};
    forall c | c in CtxsOf(objs)
      ensures c in CtxsOf(others) + Ctxs(objs[id])
    {
      var j :| j in objs && objs[j].sock.state == SSConnectedTLS && objs[j].sock.sslCtx == c;
      assert j == id || j in others;
    }
    forall c | c in CtxsOf(others)
      ensures c in CtxsOf(objs)
    {
      var j :| j in others && others[j].sock.state == SSConnectedTLS && others[j].sock.sslCtx == c;
      assert j in objs && objs[j] == others[j];
    }
  }

  lemma ApartFromOthers(objs: map<nat, Obj>, id: nat)
    requires id in objs && Exclusive(objs)
    ensures FdsOf(objs - {id}) !! Fds(objs[id]) && CtxsOf(objs - {id}) !! Ctxs(objs[id])
  {
    var others := objs - {id};
    forall fd | fd in FdsOf(others)
      ensures fd !in Fds(objs[id])
    {
      var j :| j in others && others[j].sock.IsOpen() && others[j].sock.hFile == fd;
      assert fd in Fds(objs[j]);
    }
    forall c | c in CtxsOf(others)
      ensures c !in Ctxs(objs[id])
    {
      var j :| j in others && others[j].sock.state == SSConnectedTLS && others[j].sock.sslCtx == c;
      assert c in Ctxs(objs[j]);
    }
  }

  /** Taking one socket out, and putting one in. */
  lemma TakeOut(k: Kern, objs: map<nat, Obj>, id: nat)
    requires Balanced(k, objs) && id in objs
    ensures var others := objs - {id};
            && Tables(k, objs[id], FdsOf(others), CtxsOf(others))
            && Exclusive(others)
  {
    hide FdsOf, CtxsOf, FreedOnce, Unfreed;
    FdsSplit(objs, id);
    CtxsSplit(objs, id);
    ApartFromOthers(objs, id);
  }

  lemma PutIn(k: Kern, others: map<nat, Obj>, id: nat, o: Obj)
    requires id !in others && Tables(k, o, FdsOf(others), CtxsOf(others)) && Exclusive(others)
    ensures Balanced(k, others[id := o])
  {
    hide FreedOnce, Unfreed;
    var objs := others[id := o];
    assert objs - {id} == others;
    FdsSplit(objs, id);
    CtxsSplit(objs, id);
    forall j | j in others
      ensures Fds(o) !! Fds(others[j]) && Ctxs(o) !! Ctxs(others[j])
    {
      FdsSplit(others, j);
      CtxsSplit(others, j);
    }
  }

  // ----- One action of the world -----

  predicate Bounded(w: World) { forall id | id in w.objs :: w.objs[id].area.Valid() }

  lemma InvIsBounded(w: World)
    requires Inv(w)
    ensures Bounded(w)
  {
  }

  /** The next step of this worker goes wrong: its socket is gone, or it has yet to dispatch and the
      socket is in a state whose thread body only asserts false. */
  predicate Exposed(w: World, worker: nat) {
    && worker in w.workers
    && var t := w.workers[worker];
    t.sock !in w.objs || (!t.started && !w.objs[t.sock].sock.Connected())
  }

  function Spawned(w: World, id: nat): World {
    w.(workers := w.workers[w.spawned := Worker(id, false)], spawned := w.spawned + 1)
  }

  /** `None` is a trap. An action that is not there to be taken does nothing. */
  function Step(w: World, act: Act): (next: Option<World>)
    requires Bounded(w)
    ensures next.Some? ==> Bounded(next.value)
  {
    match act
    case Create(id, flags, cells) =>
      if id in w.objs || |cells| != CAP then Some(w) else Some(w.(objs := w.objs[id := NewObj(flags, cells)]))
    case Listen(id, newId, fd, cells) =>
      if id !in w.objs || |cells| != CAP then Some(w)
      else if w.objs[id].sock.state != SSListening then None
      else if fd == INVALID_SOCKET then Some(w)
      else Some(w.(kern := w.kern.(live := w.kern.live + {fd}),
                   objs := w.objs[newId := AcceptedObj(w.objs[id].sock, fd, cells)]))
    case Start(worker) =>
      if worker !in w.workers || w.workers[worker].started then Some(w)
      else if Exposed(w, worker) then None
      else Some(w.(workers := w.workers[worker := w.workers[worker].(started := true)]))
    case Finish(worker) =>
      if worker !in w.workers || !w.workers[worker].started then Some(w)
      else if Exposed(w, worker) then None
      else Some(w.(workers := w.workers - {worker}))
    case _ => if act.id in w.objs then OwnStep(w, act) else Some(w)
  }

  function OwnStep(w: World, act: Act): (next: Option<World>)
    requires Bounded(w) && act.Own() && act.id in w.objs
    ensures next.Some? ==> Bounded(next.value)
  {
    EffectKeepsValid(w.kern, w.objs[act.id], act);
    match Effect(w.kern, w.objs[act.id], act)
    case Trap => None
    case Done(k, o, _) =>
      var w' := if Spawns(w.objs[act.id], act) then Spawned(w, act.id) else w;
      Some(w'.(kern := k, objs := if act.Destroy? then w.objs - {act.id} else w.objs[act.id := o]))
  }

  predicate AllowedIn(w: World, act: Act) {
    match act
    case Create(id, _, cells) => Unused(w, id) && |cells| == CAP
    case Start(_) => true
    case Finish(_) => true
    case _ =>
      && act.id in w.objs && Allowed(w.kern, w.objs[act.id], act)
      && (act.Listen? ==> Unused(w, act.newId))
  }

  /** A new object is none that exists and none that a worker still points to. */
  predicate Unused(w: World, id: nat) {
    id !in w.objs && forall wid | wid in w.workers :: w.workers[wid].sock != id
  }

  /** Every allowed action keeps the ledger, and the only one that can trap is the next step of a
      worker that is exposed. */
  lemma StepKeepsInv(w: World, act: Act)
    requires Inv(w) && AllowedIn(w, act)
    ensures Step(w, act).Some? ==> Inv(Step(w, act).value)
    ensures Step(w, act).None? ==> (act.Start? || act.Finish?) && Exposed(w, act.worker)
  {
    hide OwnStep, Balanced;
    if act.Create? {
      AddClosed(w.kern, w.objs, act.id, NewObj(act.flags, act.cells));
    } else if act.Listen? {
      if act.fd != INVALID_SOCKET {
        AddAccepted(w.kern, w.objs, act.newId, AcceptedObj(w.objs[act.id].sock, act.fd, act.cells));
      }
    } else if act.Own() {
      OwnStepKeepsInv(w, act);
    }
  }

  lemma AddClosed(k: Kern, objs: map<nat, Obj>, id: nat, o: Obj)
    requires Balanced(k, objs) && id !in objs && !o.sock.IsOpen() && o.sock.state == SSClosed
    ensures Balanced(k, objs[id := o])
  {
    PutIn(k, objs, id, o);
  }

  lemma AddAccepted(k: Kern, objs: map<nat, Obj>, id: nat, o: Obj)
    requires Balanced(k, objs) && id !in objs && o.sock.IsOpen() && o.sock.state == SSConnected
    requires o.sock.hFile !in k.live
    ensures Balanced(k.(live := k.live + {o.sock.hFile}), objs[id := o])
  {
    var k' := k.(live := k.live + {o.sock.hFile});
    assert Unfreed(k') == Unfreed(k);
    PutIn(k', objs, id, o);
  }

  lemma OwnStepKeepsInv(w: World, act: Act)
    requires Inv(w) && AllowedIn(w, act) && act.Own()
    ensures OwnStep(w, act).Some? && Inv(OwnStep(w, act).value)
  {
    hide Effect, Spawns, Balanced;
    EffectBalances(w.kern, w.objs, act);
  }

  lemma EffectBalances(k: Kern, objs: map<nat, Obj>, act: Act)
    requires Balanced(k, objs) && act.Own() && act.id in objs && ObjInv(objs[act.id]) && Allowed(k, objs[act.id], act)
    ensures
      var out := Effect(k, objs[act.id], act);
      && out.Done? && ObjInv(out.obj)
      && Balanced(out.kern, if act.Destroy? then objs - {act.id} else objs[act.id := out.obj])
  {
    hide Effect, Spawns, Allowed;
    var others := objs - {act.id};
    TakeOut(k, objs, act.id);
    EffectKeepsShare(k, objs[act.id], act, FdsOf(others), CtxsOf(others));
    var out := Effect(k, objs[act.id], act);
    if act.Destroy? {
      assert Fds(out.obj) == {} && Ctxs(out.obj) == {};
    } else {
      PutIn(out.kern, others, act.id, out.obj);
      assert others[act.id := out.obj] == objs[act.id := out.obj];
    }
  }

  // ----- Workers and the sockets they work for -----

  ghost predicate NoneExposed(w: World) { forall wid :: !Exposed(w, wid) }

  /** A close before a worker of the socket has started, be it a worker that the close itself starts
      to write what is left; or a destruction before a worker has finished. */
  predicate Careless(w: World, act: Act) {
    match act
    case Closing(id, _) =>
      && id in w.objs
      && (Spawns(w.objs[id], act)
          || exists wid | wid in w.workers :: w.workers[wid].sock == id && !w.workers[wid].started)
    case Destroy(id, _) =>
      && id in w.objs
      && (Spawns(w.objs[id], act) || exists wid | wid in w.workers :: w.workers[wid].sock == id)
    case _ => false
  }

  /** Where no worker is exposed every allowed action comes to its end, and it exposes a worker if and
      only if it is careless. */
  lemma ExposesIffCareless(w: World, act: Act)
    requires Inv(w) && NoneExposed(w) && AllowedIn(w, act)
    ensures Step(w, act).Some? && Inv(Step(w, act).value)
    ensures NoneExposed(Step(w, act).value) <==> !Careless(w, act)
  {
    hide OwnStep, Balanced, ObjInv;
    InvIsBounded(w);
    StepKeepsInv(w, act);
    if act.Own() {
      OwnStepExposes(w, act);
    } else {
      var next := Step(w, act).value;
      forall wid
        ensures !Exposed(next, wid)
      {
        assert !Exposed(w, wid);
      }
    }
  }

  lemma OwnStepExposes(w: World, act: Act)
    requires Inv(w) && NoneExposed(w) && AllowedIn(w, act) && act.Own()
    ensures OwnStep(w, act).Some?
    ensures NoneExposed(OwnStep(w, act).value) <==> !Careless(w, act)
  {
    hide Effect, Spawns, Balanced;
    OwnStepKeepsInv(w, act);
    var others := w.objs - {act.id};
    TakeOut(w.kern, w.objs, act.id);
    EffectKeepsShare(w.kern, w.objs[act.id], act, FdsOf(others), CtxsOf(others));
    var next := OwnStep(w, act).value;
    if Careless(w, act) {
      if Spawns(w.objs[act.id], act) {
        assert Exposed(next, w.spawned);
      } else {
        var wid :| wid in w.workers && w.workers[wid].sock == act.id && (act.Destroy? || !w.workers[wid].started);
        assert Exposed(next, wid);
      }
    } else {
      forall wid
        ensures !Exposed(next, wid)
      {
        assert !Exposed(w, wid);
      }
    }
  }

  // ----- Whole runs -----

  ghost predicate AllowedRun(w: World, acts: seq<Act>)
    requires Bounded(w)
    decreases |acts|
  {
    acts != [] ==>
      && AllowedIn(w, acts[0])
      && var next := Step(w, acts[0]); next.Some? ==> AllowedRun(next.value, acts[1..])
  }

  ghost function Run(w: World, acts: seq<Act>): Option<World>
    requires Bounded(w)
    decreases |acts|
  {
    if acts == [] then Some(w)
    else
      match Step(w, acts[0])
      case None => None
      case Some(next) => Run(next, acts[1..])
  }

  /** A careless action somewhere in the run. */
  ghost predicate CarelessRun(w: World, acts: seq<Act>)
    requires Bounded(w)
    decreases |acts|
  {
    acts != [] &&
    (Careless(w, acts[0]) ||
     var next := Step(w, acts[0]); next.Some? && CarelessRun(next.value, acts[1..]))
  }

  /** The run itself traps, or at some point of it the next step of some worker would. */
  ghost predicate CanTrap(w: World, acts: seq<Act>)
    requires Bounded(w)
    decreases |acts|
  {
    (exists wid :: WorkerTraps(w, wid)) ||
    (acts != [] && var next := Step(w, acts[0]); next.Some? ==> CanTrap(next.value, acts[1..]))
  }

  ghost predicate WorkerTraps(w: World, wid: nat)
    requires Bounded(w)
  {
    Step(w, Start(wid)).None? || Step(w, Finish(wid)).None?
  }

  /** In every disciplined run that does not trap, over any number of sockets and workers and with any
      answers of the kernel and of the TLS library, the ledger balances after every action. A run
      from where no worker is exposed, with no careless action, never traps. */
  lemma {:induction false} RunBalances(w: World, acts: seq<Act>)
    requires Inv(w) && Bounded(w) && AllowedRun(w, acts)
    ensures Run(w, acts).Some? ==> Inv(Run(w, acts).value)
    ensures NoneExposed(w) && !CarelessRun(w, acts) ==> Run(w, acts).Some? && NoneExposed(Run(w, acts).value)
    decreases |acts|
  {
    hide Step, AllowedIn, Balanced, Careless, ObjInv, Exposed;
    if acts != [] {
      StepKeepsInv(w, acts[0]);
      if NoneExposed(w) {
        ExposesIffCareless(w, acts[0]);
      }
      if Step(w, acts[0]).Some? {
        RunBalances(Step(w, acts[0]).value, acts[1..]);
      }
    }
  }

  lemma WorkerTrapsIff(w: World)
    requires Bounded(w)
    ensures (exists wid :: WorkerTraps(w, wid)) <==> !NoneExposed(w)
  {
    forall wid
      ensures WorkerTraps(w, wid) <==> Exposed(w, wid)
    {
    }
  }

  /** A disciplined run can reach a trap if and only if some socket is closed before one of its workers
      has started, or destroyed before one has finished. */
  lemma {:induction false} RunTrapsIffCareless(w: World, acts: seq<Act>)
    requires Inv(w) && Bounded(w) && NoneExposed(w) && AllowedRun(w, acts)
    ensures CanTrap(w, acts) <==> CarelessRun(w, acts)
    decreases |acts|
  {
    hide Step, AllowedIn, Balanced, Careless, ObjInv, Exposed, WorkerTraps;
    WorkerTrapsIff(w);
    if acts != [] {
      ExposesIffCareless(w, acts[0]);
      var next := Step(w, acts[0]).value;
      if Careless(w, acts[0]) {
        WorkerTrapsIff(next);
      } else {
        RunTrapsIffCareless(next, acts[1..]);
      }
    }
  }

  const EMPTY: World := World(Kern({}, 0, multiset{}), map[], map[], 0)

  /** From the empty world on, once every socket is closed no descriptor is live and every context
      ever created has been freed exactly once. */
  lemma NothingLeaks(acts: seq<Act>)
    requires AllowedRun(EMPTY, acts)
    ensures CanTrap(EMPTY, acts) <==> CarelessRun(EMPTY, acts)
    ensures !CarelessRun(EMPTY, acts) ==> Run(EMPTY, acts).Some?
    ensures Run(EMPTY, acts).Some? ==>
              var w := Run(EMPTY, acts).value;
              (forall id | id in w.objs :: !w.objs[id].sock.IsOpen()) ==>
                w.kern.live == {} && forall c: nat | c < w.kern.nextCtx :: w.kern.freed[c] == 1
  {
    hide AllowedRun, Run, CanTrap, CarelessRun;
    assert Inv(EMPTY) && NoneExposed(EMPTY);
    RunBalances(EMPTY, acts);
    RunTrapsIffCareless(EMPTY, acts);
    if Run(EMPTY, acts).Some? {
      var w := Run(EMPTY, acts).value;
      if forall id | id in w.objs :: !w.objs[id].sock.IsOpen() {
        assert FdsOf(w.objs) == {} && CtxsOf(w.objs) == {};
        forall c: nat | c < w.kern.nextCtx
          ensures w.kern.freed[c] == 1
        {
          assert c !in Unfreed(w.kern);
        }
      }
    }
  }

  // ----- What a careless run does -----

  lemma RunCons(w: World, act: Act, rest: seq<Act>)
    requires Bounded(w)
    ensures
      var next := Step(w, act);
      && Run(w, [act] + rest) == (if next.Some? then Run(next.value, rest) else None)
      && (AllowedRun(w, [act] + rest) <==> AllowedIn(w, act) && (next.Some? ==> AllowedRun(next.value, rest)))
      && (CarelessRun(w, [act] + rest) <==> Careless(w, act) || (next.Some? && CarelessRun(next.value, rest)))
  {
    hide Step, AllowedIn, Careless;
    assert ([act] + rest)[1..] == rest;
  }

  /** A connected socket whose reads and writes without data go to worker threads. */
  predicate Asynchronous(o: Obj) {
    o.area.Valid() && o.sock.IsOpen() && o.sock.state == SSConnected && !o.sock.WritesNow()
  }

  /** A read that finds nothing starts a worker. Closing before that worker has started traps;
      closing after it does not, and the worker then finishes. */
  lemma CloseBeforeStartTraps(w: World, id: nat, sendOk: bool)
    requires Bounded(w) && id in w.objs && Asynchronous(w.objs[id]) && w.objs[id].area.pending == ""
    ensures
      var read, close := Read(id, "", 1, ReadAnswer(true, Ready(1))), Closing(id, sendOk);
      var start, finish := Start(w.spawned), Finish(w.spawned);
      && AllowedRun(w, [read] + [close] + [start]) && Run(w, [read] + [close] + [start]).None?
      && AllowedRun(w, [read] + [start] + [close] + [finish]) && Run(w, [read] + [start] + [close] + [finish]).Some?
  {
    hide AllowedRun, Run, Step, AllowedIn, Effect;
    var read, close := Read(id, "", 1, ReadAnswer(true, Ready(1))), Closing(id, sendOk);
    var start, finish := Start(w.spawned), Finish(w.spawned);
    var w1 := ReadSpawns(w, id);
    RunCons(w, read, [close] + [start]);
    RunCons(w, read, [start] + [close] + [finish]);
    assert [read] + [close] + [start] == [read] + ([close] + [start]);
    assert [read] + [start] + [close] + [finish] == [read] + ([start] + [close] + [finish]);
    CloseThenStart(w1, id, sendOk, w.spawned);
    StartThenClose(w1, id, sendOk, w.spawned);
  }

  lemma CloseThenStart(w: World, id: nat, sendOk: bool, wid: nat)
    requires Bounded(w) && id in w.objs && Asynchronous(w.objs[id]) && w.objs[id].area.pending == ""
    requires wid in w.workers && w.workers[wid] == Worker(id, false)
    ensures
      var acts := [Closing(id, sendOk)] + [Start(wid)];
      AllowedRun(w, acts) && Run(w, acts).None?
  {
    hide AllowedRun, Run;
    var next := CloseDisconnects(w, id, sendOk);
    RunCons(w, Closing(id, sendOk), [Start(wid)]);
    RunCons(next, Start(wid), []);
    assert [Start(wid)] + [] == [Start(wid)];
  }

  lemma StartThenClose(w: World, id: nat, sendOk: bool, wid: nat)
    requires Bounded(w) && id in w.objs && Asynchronous(w.objs[id]) && w.objs[id].area.pending == ""
    requires wid in w.workers && w.workers[wid] == Worker(id, false)
    ensures
      var acts := [Start(wid)] + [Closing(id, sendOk)] + [Finish(wid)];
      AllowedRun(w, acts) && Run(w, acts).Some?
  {
    var close, finish := Closing(id, sendOk), Finish(wid);
    var started := Step(w, Start(wid)).value;
    var closed := CloseDisconnects(started, id, sendOk);
    hide AllowedRun, Run;
    RunCons(w, Start(wid), [close] + [finish]);
    RunCons(started, close, [finish]);
    RunCons(closed, finish, []);
    assert [Start(wid)] + [close] + [finish] == [Start(wid)] + ([close] + [finish]) && [finish] + [] == [finish];
  }

  lemma ReadSpawns(w: World, id: nat) returns (next: World)
    requires Bounded(w) && id in w.objs && Asynchronous(w.objs[id])
    ensures
      var read := Read(id, "", 1, ReadAnswer(true, Ready(1)));
      && AllowedIn(w, read) && Step(w, read) == Some(next)
      && next.kern == w.kern && next.objs.Keys == w.objs.Keys
      && next.workers == w.workers[w.spawned := Worker(id, false)]
      && Asynchronous(next.objs[id]) && next.objs[id].area == w.objs[id].area
  {
    next := Step(w, Read(id, "", 1, ReadAnswer(true, Ready(1)))).value;
  }

  lemma CloseDisconnects(w: World, id: nat, sendOk: bool) returns (next: World)
    requires Bounded(w) && id in w.objs && Asynchronous(w.objs[id])
    ensures
      var close := Closing(id, sendOk);
      && AllowedIn(w, close) && Step(w, close) == Some(next)
      && id in next.objs && next.objs[id].sock.state == SSClosed
      && next.workers == if FlushSpawns(w.objs[id]) then w.workers[w.spawned := Worker(id, false)] else w.workers
  {
    hide Sync;
    next := Step(w, Closing(id, sendOk)).value;
  }

  /** Unwritten bytes make the close itself start a worker, which then finds the closed state. */
  lemma UnflushedCloseTraps(w: World, id: nat, sendOk: bool)
    requires Bounded(w) && id in w.objs && Asynchronous(w.objs[id]) && FlushSpawns(w.objs[id])
    ensures
      var close, start := Closing(id, sendOk), Start(w.spawned);
      AllowedRun(w, [close] + [start]) && Run(w, [close] + [start]).None?
  {
    hide AllowedRun, Run;
    var next := CloseDisconnects(w, id, sendOk);
    RunCons(w, Closing(id, sendOk), [Start(w.spawned)]);
    RunCons(next, Start(w.spawned), []);
    assert [Start(w.spawned)] + [] == [Start(w.spawned)];
  }

  lemma ConnectedReached(cells: string, flags: OpenFlags, a: Answers) returns (w: World)
    requires |cells| == CAP && a.fd >= 0 && a.addrOk && a.connectOk && !flags.create && !flags.asyncSocket
    ensures
      var create, open := Create(0, flags, cells), Opening(0, Addr(Ip4, 80, false, false), flags, a);
      && AllowedIn(EMPTY, create) && Step(EMPTY, create).Some?
      && AllowedIn(Step(EMPTY, create).value, open) && Step(Step(EMPTY, create).value, open) == Some(w)
    ensures 0 in w.objs && w.workers == map[] && w.objs[0].area.pending == ""
    ensures w.objs[0].sock.IsOpen() && w.objs[0].sock.state == SSConnected && w.objs[0].sock.WritesNow()
  {
    var w1 := Step(EMPTY, Create(0, flags, cells)).value;
    w := Step(w1, Opening(0, Addr(Ip4, 80, false, false), flags, a)).value;
  }

  /** An open, the asynchronous mode and a callback make such a socket out of nothing. */
  lemma AsynchronousReached(cells: string, a: Answers) returns (acts: seq<Act>)
    requires |cells| == CAP && a.fd >= 0 && a.addrOk && a.connectOk
    ensures AllowedRun(EMPTY, acts) && !CarelessRun(EMPTY, acts)
    ensures Run(EMPTY, acts).Some?
    ensures var w := Run(EMPTY, acts).value;
            Bounded(w) && 0 in w.objs && Asynchronous(w.objs[0]) && w.objs[0].area.pending == ""
  {
    var flags := OpenFlags(false, false, false, false, true);
    var create, open := Create(0, flags, cells), Opening(0, Addr(Ip4, 80, false, false), flags, a);
    var setMode, register := SetAsyncMode(0, true), RegisterCallback(0, 1);
    acts := [create] + [open] + [setMode] + [register];
    assert acts == [create] + ([open] + ([setMode] + [register])) && [register] + [] == [register];
    var w2 := ConnectedReached(cells, flags, a);
    var w3 := Step(w2, setMode).value;
    hide AllowedRun, Run, CarelessRun;
    var w1 := Step(EMPTY, create).value;
    RunCons(EMPTY, create, [open] + ([setMode] + [register]));
    RunCons(w1, open, [setMode] + [register]);
    RunCons(w2, setMode, [register]);
    RunCons(w3, register, []);
  }

  // ----- Why the discipline is needed -----

  /** The open by name forgets the handle it finds: whenever it comes to its end, the ledger balances
      if and only if the socket held none. */
  lemma OpenByNameBalancesIff(w: World, id: nat, addr: Addr, flags: OpenFlags, a: Answers)
    requires Inv(w) && id in w.objs
    requires FreshFd(w.kern, a.fd) && !Unopenable(addr, flags)
    requires Open(w.kern, Initialize(w.objs[id]), addr, flags, a).Done?
    ensures
      var out := Open(w.kern, Initialize(w.objs[id]), addr, flags, a);
      Balanced(out.kern, w.objs[id := out.obj]) <==> !w.objs[id].sock.IsOpen()
  {
    hide Open, Balanced, FreedOnce, Unfreed;
    var o, others := w.objs[id], w.objs - {id};
    TakeOut(w.kern, w.objs, id);
    var out := Open(w.kern, Initialize(o), addr, flags, a);
    if o.sock.IsOpen() {
      OpenEnds(w.kern, Initialize(o), addr, flags, a);
      ForgottenHandleLeaks(w.kern, w.objs, id, out, a);
    } else {
      OpeningKeepsTables(w.kern, Initialize(o), addr, flags, a, FdsOf(others), CtxsOf(others));
      PutIn(out.kern, others, id, out.obj);
      assert others[id := out.obj] == w.objs[id := out.obj];
    }
  }

  lemma ForgottenHandleLeaks(k: Kern, objs: map<nat, Obj>, id: nat, out: Outcome, a: Answers)
    requires Balanced(k, objs) && id in objs && objs[id].sock.IsOpen() && FreshFd(k, a.fd)
    requires out.Done? && k.live - {a.fd} <= out.kern.live
    requires out.obj.sock.IsOpen() ==> out.obj.sock.hFile == a.fd
    ensures !Balanced(out.kern, objs[id := out.obj])
  {
    hide FdsOf, CtxsOf, FreedOnce, Unfreed;
    var o, objs' := objs[id], objs[id := out.obj];
    TakeOut(k, objs, id);
    assert objs' - {id} == objs - {id};
    FdsSplit(objs', id);
    assert o.sock.hFile in Fds(o) && o.sock.hFile != a.fd;
    assert o.sock.hFile in out.kern.live && o.sock.hFile !in FdsOf(objs');
  }

  /** Opening with unwritten bytes left over can trap later: a flush refused and then accepted leaves
      a stale status, under which closing keeps the bytes; the next open resets the status, and the
      next close flushes them into a listening socket. */
  lemma LeftoverBytesTrap(w: World, id: nat, c: char, flags: OpenFlags, fd: int)
    requires Inv(w) && id in w.objs && w.objs[id].sock.state == SSConnected
    requires w.objs[id].sock.WritesNow() && w.objs[id].sock.Good() && w.objs[id].sock.status == SC_OK
    requires |w.objs[id].area.pending| == CAP && fd >= 0 && fd !in w.kern.live
    ensures
      var a := Answers(fd, true, true, true, true, true, true, true, true, true);
      var acts := [Put(id, c, false), Put(id, c, true), Closing(id, true),
                   Opening(id, Addr(AddrAny, 0, false, false), flags, a), Closing(id, true)];
      Bounded(w) && Run(w, acts).None?
  {
    hide Effect, Spawns, Run, Step, Balanced, FlushTraps;
    InvIsBounded(w);
    var a := Answers(fd, true, true, true, true, true, true, true, true, true);
    var reopen := Opening(id, Addr(AddrAny, 0, false, false), flags, a);
    var rest3 := [reopen, Closing(id, true)];
    var rest2 := [Closing(id, true)] + rest3;
    var rest1 := [Put(id, c, true)] + rest2;
    var o := w.objs[id];
    var o1, o2 := KeptByStaleStatus(w.kern, o, id, c);
    var w1 := RunOne(w, Put(id, c, false), rest1, w.kern, o1);
    var w2 := RunOne(w1, Put(id, c, true), rest2, w.kern, o2);
    RunTrapsAfterReopen(w2, id, flags, a);
    assert [Put(id, c, false)] + rest1
           == [Put(id, c, false), Put(id, c, true), Closing(id, true), reopen, Closing(id, true)];
  }

  lemma KeptByStaleStatus(k: Kern, o: Obj, id: nat, c: char) returns (o1: Obj, o2: Obj)
    requires o.area.Valid() && o.sock.Connected() && |o.area.pending| == CAP
    requires o.sock.WritesNow() && o.sock.Good() && o.sock.status == SC_OK
    ensures Effect(k, o, Put(id, c, false)) == Done(k, o1, true) && !Spawns(o, Put(id, c, false))
    ensures o1.area == o.area
    ensures Effect(k, o1, Put(id, c, true)) == Done(k, o2, true) && !Spawns(o1, Put(id, c, true))
    ensures o2 == o.(sock := o.sock.(status := SC_FAILED))
  {
    o1 := Effect(k, o, Put(id, c, false)).obj;
    o2 := Effect(k, o1, Put(id, c, true)).obj;
    assert o2.sock.bits == o.sock.bits;
  }

  lemma RunTrapsAfterReopen(w: World, id: nat, flags: OpenFlags, a: Answers)
    requires Bounded(w) && id in w.objs && w.objs[id].sock.state == SSConnected
    requires w.objs[id].sock.WritesNow() && w.objs[id].sock.Good() && w.objs[id].sock.status == SC_FAILED
    requires w.objs[id].area.pending != "" && w.objs[id].sock.IsOpen()
    requires a.fd >= 0 && a.addrOk && a.bindOk && a.listenOk
    ensures
      var reopen := Opening(id, Addr(AddrAny, 0, false, false), flags, a);
      Run(w, [Closing(id, true)] + [reopen, Closing(id, true)]).None?
  {
    hide Effect, Spawns, Run, Step;
    var reopen := Opening(id, Addr(AddrAny, 0, false, false), flags, a);
    var k3, o3, k4, o4 := TrapAfterReopen(w.kern, w.objs[id], id, reopen.addr, flags, a);
    var w3 := RunOne(w, Closing(id, true), [reopen, Closing(id, true)], k3, o3);
    var w4 := RunOne(w3, reopen, [Closing(id, true)], k4, o4);
    assert [reopen, Closing(id, true)] == [reopen] + [Closing(id, true)];
    RunTraps(w4, Closing(id, true));
  }

  lemma TrapAfterReopen(k: Kern, o: Obj, id: nat, addr: Addr, flags: OpenFlags, a: Answers)
    returns (k3: Kern, o3: Obj, k4: Kern, o4: Obj)
    requires o.area.Valid() && o.sock.state == SSConnected && o.area.pending != "" && o.sock.IsOpen()
    requires o.sock.Good() && o.sock.status == SC_FAILED && o.sock.WritesNow()
    requires addr == Addr(AddrAny, 0, false, false) && a.fd >= 0 && a.addrOk && a.bindOk && a.listenOk
    ensures Effect(k, o, Closing(id, true)) == Done(k3, o3, true) && !Spawns(o, Closing(id, true))
    ensures o3.area == o.area
    ensures Effect(k3, o3, Opening(id, addr, flags, a)) == Done(k4, o4, true)
    ensures !Spawns(o3, Opening(id, addr, flags, a)) && o4.area == o.area
    ensures Effect(k4, o4, Closing(id, true)).Trap?
  {
    var closed := Effect(k, o, Closing(id, true));
    k3, o3 := closed.kern, closed.obj;
    assert o3.area == o.area && o3.sock.Good();
    var reopened := Effect(k3, o3, Opening(id, addr, flags, a));
    k4, o4 := reopened.kern, reopened.obj;
  }

  /** The first action of a run, when it changes one socket and starts no worker. */
  lemma RunOne(w: World, act: Act, rest: seq<Act>, k: Kern, o: Obj) returns (next: World)
    requires Bounded(w) && act.Own() && !act.Destroy? && act.id in w.objs
    requires Effect(w.kern, w.objs[act.id], act) == Done(k, o, true) && !Spawns(w.objs[act.id], act)
    ensures next == w.(kern := k, objs := w.objs[act.id := o])
    ensures Bounded(next) && Run(w, [act] + rest) == Run(next, rest)
  {
    hide Effect, Spawns;
    next := Step(w, act).value;
    assert ([act] + rest)[1..] == rest;
  }

  lemma RunTraps(w: World, act: Act)
    requires Bounded(w) && act.Own() && act.id in w.objs && Effect(w.kern, w.objs[act.id], act).Trap?
    ensures Run(w, [act]).None?
  {
    hide Effect;
  }
}
