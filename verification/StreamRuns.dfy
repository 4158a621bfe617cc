/** Whole runs of one stream: what stays true over every sequence of operations on it. */
module StreamRuns {
  import opened SocketSpec
  import opened StreamBufSpec
  import Spec = OpenCloseSpec

  /** One operation and the kernel's answer to it. `Write` and `Read` bypass the buffer; `Configure`
      sets the mode and the callback. */
  datatype Act =
    | Put(c: char, ok: bool)
    | Flush(ok: bool)
    | Get(rx: string, ans: ReadAnswer)
    | Write(data: string, ok: bool)
    | Read(rx: string, count: nat, ans: ReadAnswer)
    | Configure(asyncMode: bool, callback: nat)

  /** A stream together with what its client was told is accepted and what the kernel took. */
  datatype Run = Run(sock: Sock, area: Area, accepted: string, wire: string)
  {
    /** Every accepted byte is written once, in order, or still in the put area. */
    predicate Conserved() { accepted == wire + area.pending }
  }

  function Step(r: Run, act: Act): Run
    requires r.area.Valid()
  {
    match act
    case Put(c, ok) =>
      var p := Sputc(r.sock, r.area, c, ok);
      Run(p.sock, p.area, r.accepted + Accepted(p.ret, c as int), r.wire + p.sent)
    case Flush(ok) =>
      var p := Sync(r.sock, r.area, ok);
      Run(p.sock, p.area, r.accepted, r.wire + p.sent)
    case Get(rx, ans) =>
      var g := Sbumpc(r.sock, r.area, rx, ans);
      r.(sock := g.sock, area := g.area)
    case Write(data, ok) =>
      r.(sock := WriteSocket(r.sock, ok), wire := r.wire + SentNow(r.sock, data, ok))
    case Read(rx, count, ans) =>
      if count == 0 then r else r.(sock := ReadSocket(r.sock, rx, count, ans).sock)
    case Configure(asyncMode, callback) =>
      r.(sock := r.sock.(asyncMode := asyncMode, callback := callback))
  }

  /** The areas stay within their arrays whatever happens. */
  lemma StepKeepsValid(r: Run, act: Act)
    requires r.area.Valid()
    ensures Step(r, act).area.Valid()
  {
  }

  ghost function Steps(r: Run, acts: seq<Act>): (r': Run)
    requires r.area.Valid()
    ensures r'.area.Valid()
    decreases |acts|
  {
    if acts == [] then r
    else
      StepKeepsValid(r, acts[0]);
      Steps(Step(r, acts[0]), acts[1..])
  }

  // ----- Coherence of the error reports -----

  /** From any coherent state, in every run of buffered and raw operations and changes of mode with any
      answers of the kernel, an SC_OK status means that no error bit is set. Hence a flush of pending bytes under
      an SC_OK status hands them to the kernel and never throws them away. */
  lemma {:induction false} AlwaysCoherent(r: Run, acts: seq<Act>)
    requires r.area.Valid() && r.sock.Coherent()
    ensures
      var r' := Steps(r, acts);
      && r'.sock.Coherent()
      && (r'.sock.IsOpen() && r'.sock.status == SC_OK && r'.area.pending != "" && r'.sock.WritesNow() ==>
            forall ok: bool :: var p := Sync(r'.sock, r'.area, ok);
                         p.sent + p.area.pending == r'.area.pending && p.sent == if ok then r'.area.pending else "")
    decreases |acts|
  {
    if acts != [] {
      StepKeepsValid(r, acts[0]);
      AlwaysCoherent(Step(r, acts[0]), acts[1..]);
    }
  }

  // ----- Exactly once -----

  /** A connected socket as a first open leaves it, and as clean operations keep it. */
  predicate Sound(r: Run) {
    && r.area.Valid()
    && r.sock.IsOpen() && r.sock.Connected() && r.sock.Good() && r.sock.status == SC_OK && r.sock.WritesNow()
    && r.Conserved()
  }

  /** Not a raw read or write. */
  predicate Buffered(act: Act) { !act.Write? && !act.Read? }

  /** A buffered operation in which no write fails and no read finds the end of the input, or a change
      of mode that leaves writes to the caller's thread. */
  predicate Clean(r: Run, act: Act)
    requires r.area.Valid()
  {
    match act
    case Put(_, ok) => ok
    case Flush(ok) => ok
    case Get(_, _) => Step(r, act).sock.status == SC_OK
    case Configure(_, _) => Step(r, act).sock.WritesNow()
    case _ => false
  }

  ghost predicate CleanRun(r: Run, acts: seq<Act>)
    requires r.area.Valid()
    decreases |acts|
  {
    acts == [] ||
    (Clean(r, acts[0]) &&
     (StepKeepsValid(r, acts[0]); CleanRun(Step(r, acts[0]), acts[1..])))
  }

  lemma StepConserves(r: Run, act: Act)
    requires Sound(r) && Buffered(act)
    ensures Step(r, act).Conserved()
    ensures Clean(r, act) ==> Sound(Step(r, act))
  {
    match act
    case Put(c, ok) => OverflowConserves(r.sock, r.area, c as int, ok, r.accepted, r.wire);
    case Flush(ok) => SyncConserves(r.sock, r.area, ok, r.accepted, r.wire);
    case _ =>
  }

  /** From a fresh connected stream up to and including the first failed write or end-of-input
      read, the bytes accepted are the bytes written followed by the put area; and a flush that the
      kernel accepts at that point has written every accepted byte once, in order. */
  lemma {:induction false} ExactlyOnce(r: Run, acts: seq<Act>, last: Act)
    requires Sound(r) && CleanRun(r, acts) && Buffered(last)
    ensures Sound(Steps(r, acts))
    ensures Step(Steps(r, acts), last).Conserved()
    ensures
      var r' := Step(Steps(r, acts), Flush(true));
      r'.area.pending == "" && r'.wire == Steps(r, acts).accepted
    decreases |acts|
  {
    if acts == [] {
      StepConserves(r, last);
      StepConserves(r, Flush(true));
    } else {
      StepConserves(r, acts[0]);
      ExactlyOnce(Step(r, acts[0]), acts[1..], last);
    }
  }

  /** So a close at that point, its flush being accepted, writes what is left before it releases the
      descriptor: every accepted byte has then been written once, and the put area is empty. */
  lemma CloseWritesAll(r: Run, acts: seq<Act>, k: Spec.Kern)
    requires Sound(r) && CleanRun(r, acts)
    ensures
      var r' := Steps(r, acts);
      var out := Spec.CloseState(k, Spec.Obj(r'.sock, r'.area), true);
      && out.Done? && !out.obj.sock.IsOpen() && out.kern.live == k.live - {r'.sock.hFile}
      && out.obj.area.pending == ""
      && r'.wire + Sync(r'.sock, r'.area, true).sent == r'.accepted
  {
    ExactlyOnce(r, acts, Flush(true));
    var r' := Steps(r, acts);
    assert Sync(r'.sock, r'.area, true).sock.hFile == r'.sock.hFile;
  }

  // ----- Bytes left from an earlier connection -----

  /** What was accepted before a run plays no part in it. */
  lemma {:induction false} AcceptedShifts(r: Run, p: string, acts: seq<Act>)
    requires r.area.Valid()
    ensures
      var shifted := r.(accepted := p + r.accepted);
      && Steps(shifted, acts) == Steps(r, acts).(accepted := p + Steps(r, acts).accepted)
      && (CleanRun(shifted, acts) <==> CleanRun(r, acts))
    decreases |acts|
  {
    if acts != [] {
      var next := Step(r, acts[0]);
      StepKeepsValid(r, acts[0]);
      StepShifts(r, p, acts[0]);
      AcceptedShifts(next, p, acts[1..]);
    }
  }

  lemma StepShifts(r: Run, p: string, act: Act)
    requires r.area.Valid()
    ensures
      var shifted := r.(accepted := p + r.accepted);
      && Step(shifted, act) == Step(r, act).(accepted := p + Step(r, act).accepted)
      && (Clean(shifted, act) <==> Clean(r, act))
  {
    hide Sputc, Sync, Sbumpc, ReadSocket, WriteSocket;
    if act.Put? {
      var ret := Sputc(r.sock, r.area, act.c, act.ok).ret;
      assert p + r.accepted + Accepted(ret, act.c as int) == p + (r.accepted + Accepted(ret, act.c as int));
    }
  }

  /** A socket that is closed with bytes in its put area and then connects again sends these bytes to
      its new peer, ahead of everything accepted since: the new connection carries exactly what was
      accepted on it if and only if nothing was left. */
  lemma ReopenSendsLeftover(
      k: Spec.Kern, o: Spec.Obj, addr: Spec.Addr, flags: OpenFlags, a: Spec.Answers, acts: seq<Act>)
    requires Spec.Closed(o) && o.sock.Good() && o.area.Valid()
    requires
      var out := Spec.Open(k, o, addr, flags, a);
      && out.Done? && out.ok && out.obj.sock.Connected() && out.obj.sock.WritesNow() && out.obj.area.Valid()
      && CleanRun(Run(out.obj.sock, out.obj.area, "", ""), acts)
    ensures
      var out := Spec.Open(k, o, addr, flags, a);
      var r := Steps(Run(out.obj.sock, out.obj.area, "", ""), acts);
      var flushed := Step(r, Flush(true));
      && flushed.area.pending == "" && flushed.wire == o.area.pending + r.accepted
      && (flushed.wire == r.accepted <==> o.area.pending == "")
  {
    hide Spec.Open;
    Spec.OpenEnds(k, o, addr, flags, a);
    var out := Spec.Open(k, o, addr, flags, a);
    var r0 := Run(out.obj.sock, out.obj.area, "", "");
    var p := o.area.pending;
    var shifted := r0.(accepted := p + r0.accepted);
    AcceptedShifts(r0, p, acts);
    assert shifted.accepted == shifted.wire + p;
    ExactlyOnce(shifted, acts, Flush(true));
    StepShifts(Steps(r0, acts), p, Flush(true));
  }

  /** Beyond the first failure the law fails: a full put area whose flush is refused and then
      accepted is written, yet kept, because the accepted write leaves the status stale. */
  lemma StaleStatusDuplicates(r: Run, c: char)
    requires Sound(r) && r.wire == "" && |r.area.pending| == CAP
    ensures
      var r' := Steps(r, [Put(c, false), Put(c, true)]);
      r'.accepted == r.accepted == r'.wire == r'.area.pending
  {
    var r1 := Step(r, Put(c, false));
    assert r1.wire == "" && r1.area == r.area;
    var r2 := Step(r1, Put(c, true));
    assert [Put(c, false), Put(c, true)][1..] == [Put(c, true)];
    assert Steps(r1, [Put(c, true)]) == Steps(r2, []) by {
      assert [Put(c, true)][1..] == [];
    }
    assert r.accepted == "" + r.area.pending;
  }
}
