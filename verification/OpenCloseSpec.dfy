/**
 Opening, accepting and closing as functions of the socket object, the kernel's tables and the
 kernel's answers. `Trap` is a base-class body that only asserts false.
 */
module OpenCloseSpec {
  import opened SocketSpec
  import opened StreamBufSpec

  /** A resolved address: `AddrAny` and `AddrNone` are the two special ones. */
  datatype AddrKind = AddrAny | AddrNone | Ip4 | Ip6

  datatype Addr = Addr(kind: AddrKind, port: int, udp: bool, multicast: bool)

  /** What the kernel and the TLS library say to the calls an open may make. */
  datatype Answers = Answers(
    fd: int, addrOk: bool, bindOk: bool, listenOk: bool, connectOk: bool, ptonOk: bool,
    chainOk: bool, keyOk: bool, sslOk: bool, sendOk: bool)

  /** Live descriptors, and how often each TLS context created so far has been freed. */
  datatype Kern = Kern(live: set<int>, nextCtx: nat, freed: multiset<nat>)

  /** A socket with its stream buffer. */
  datatype Obj = Obj(sock: Sock, area: Area)

  datatype Outcome = Trap | Done(kern: Kern, obj: Obj, ok: bool)

  function Failed(out: Outcome): Outcome {
    if out.Trap? then Trap else out.(ok := false)
  }

  /** A flush that reaches the write of a state that has none. */
  predicate FlushTraps(o: Obj) {
    o.area.pending != "" && o.sock.IsOpen() && o.sock.Good() && !o.sock.Connected()
  }

  /** SocketState::close: flush, release the descriptor, go to the closed state. */
  function CloseState(k: Kern, o: Obj, sendOk: bool): Outcome {
    if FlushTraps(o) then Trap
    else
      var r := Sync(o.sock, o.area, sendOk);
      Done(k.(live := k.live - {r.sock.hFile}),
           Obj(r.sock.(hFile := INVALID_SOCKET, state := SSClosed), r.area), true)
  }

  function Freed(k: Kern, ctx: nat): Kern { k.(freed := k.freed + multiset{ctx}) }

  /** Socket::close, with the close of SSConnectedTLS, which frees its context first. */
  function Close(k: Kern, o: Obj, sendOk: bool): Outcome {
    if !o.sock.IsOpen() then Done(k, o, true)
    else if o.sock.state == SSConnectedTLS then CloseState(Freed(k, o.sock.sslCtx), o, sendOk)
    else CloseState(k, o, sendOk)
  }

  /** What each opening state does first: assume failure and keep the flags. */
  function Assume(s: Sock, flags: OpenFlags): Sock {
    s.(state := SSClosed, flags := flags.(asyncSocket := false), asyncMode := flags.asyncSocket)
  }

  /** SSOpenedServer::open. */
  function OpenServer(k: Kern, o: Obj, addr: Addr, flags: OpenFlags, a: Answers): Outcome {
    var s := Assume(o.sock, flags).(hFile := a.fd);
    if a.fd == INVALID_SOCKET then Done(k, Obj(s, o.area), false)
    else
      var k' := k.(live := k.live + {a.fd});
      if !a.addrOk || !a.bindOk then Failed(CloseState(k', Obj(s, o.area), a.sendOk))
      else if s.protocol == SOCK_STREAM then
        if !a.listenOk then Failed(CloseState(k', Obj(s, o.area), a.sendOk))
        else Done(k', Obj(s.(state := SSListening), o.area), true)
      else if addr.multicast && addr.kind == Ip6 && !a.ptonOk then
        Failed(CloseState(k', Obj(s, o.area), a.sendOk))
      else Done(k', Obj(s.(state := SSConnected), o.area), true)
  }

  /** SSOpenedClient::open. A failure leaves the new descriptor in the object. */
  function OpenClient(k: Kern, o: Obj, addr: Addr, flags: OpenFlags, a: Answers): Outcome {
    var s := Assume(o.sock, flags).(hFile := a.fd);
    if a.fd == INVALID_SOCKET then Done(k, Obj(s, o.area), false)
    else
      var k' := k.(live := k.live + {a.fd});
      var failed :=
        || !a.addrOk
        || (s.protocol == SOCK_STREAM && !a.connectOk)
        || (s.protocol == SOCK_DGRAM && !addr.multicast && addr.kind == Ip4 && !a.bindOk);
      if failed then Done(k', Obj(s, o.area), false)
      else Done(k', Obj(s.(state := SSConnected), o.area), true)
  }

  /** SSOpenedClientTLS::open. */
  function OpenTLS(k: Kern, o: Obj, flags: OpenFlags, a: Answers): Outcome {
    var ctx := k.nextCtx;
    var k0 := k.(nextCtx := ctx + 1);
    var s0 := Assume(o.sock, flags);
    var s := s0.(hFile := a.fd);
    if !a.chainOk || !a.keyOk then Done(Freed(k0, ctx), Obj(s0, o.area), false)
    else if a.fd == INVALID_SOCKET then Done(Freed(k0, ctx), Obj(s, o.area), false)
    else
      var k' := k0.(live := k.live + {a.fd});
      if s.protocol == SOCK_DGRAM || !a.addrOk || !a.connectOk || !a.sslOk then
        Failed(CloseState(Freed(k', ctx), Obj(s, o.area), a.sendOk))
      else
        Done(k', Obj(s.(sslCtx := ctx, state := SSConnectedTLS), o.area), true)
  }

  /** The state whose open is called for an address. */
  function OpeningState(s: Sock, addr: Addr, flags: OpenFlags): StateTag {
    match addr.kind
    case AddrAny => SSOpenedServer
    case AddrNone => if flags.create then SSOpenedServer else s.state
    case _ =>
      if addr.port == 443 then SSOpenedClientTLS
      else if flags.create then SSOpenedServer
      else SSOpenedClient
  }

  /** Socket::open(SocketAddr&, ..). */
  function Open(k: Kern, o: Obj, addr: Addr, flags: OpenFlags, a: Answers): Outcome {
    var s := o.sock.(protocol := if addr.udp then SOCK_DGRAM else SOCK_STREAM);
    if !addr.udp && addr.kind == AddrNone then Done(k, Obj(s.(status := SC_FAILED), o.area), false)
    else
      var opening := OpeningState(s, addr, flags);
      var o' := Obj(s.(state := opening), o.area);
      var out :=
        match opening
        case SSOpenedServer => OpenServer(k, o', addr, flags, a)
        case SSOpenedClient => OpenClient(k, o', addr, flags, a)
        case SSOpenedClientTLS => OpenTLS(k, o', flags, a)
        case _ => Trap;
      if out.Trap? then Trap
      else out.(obj := out.obj.(sock := out.obj.sock.(status := if out.ok then SC_OK else SC_FAILED)))
  }

  /** Socket::initialize, which the open by name calls first. */
  function Initialize(o: Obj): (r: Obj)
    ensures !r.sock.IsOpen() && r.sock.state == SSClosed && !r.sock.asyncMode
    ensures r.sock.status == o.sock.status && r.sock.bits == o.sock.bits && r.area == o.area
    ensures r.sock.flags == o.sock.flags && r.sock.callback == o.sock.callback
  {
    o.(sock := o.sock.(hFile := INVALID_SOCKET, asyncMode := false, state := SSClosed))
  }

  /** The socket that listenIntern makes of an accepted descriptor. */
  function AcceptedObj(listener: Sock, fd: int, cells: string): (o: Obj)
    ensures o.sock.flags == listener.flags && o.sock.asyncMode == listener.asyncMode
    ensures o.sock.hFile == fd && o.sock.state == SSConnected && o.sock.Good() && o.sock.status == SC_OK
    ensures o.area.pending == o.area.ahead == "" && o.sock.callback == 0
  {
    Obj(Sock(fd, SSConnected, SC_OK, {}, listener.flags, listener.asyncMode, SOCK_STREAM, 0, 0), Fresh(cells))
  }

  /** A close takes away the descriptor and the state. Mode, flags, protocol and callback stay for the
      next open, and so do the error reports but for what the flush does to them. */
  lemma CloseKeepsSettings(k: Kern, o: Obj, sendOk: bool)
    requires Close(k, o, sendOk).Done? && o.sock.IsOpen()
    ensures
      var s := Close(k, o, sendOk).obj.sock;
      && !s.IsOpen() && s.state == SSClosed
      && s.asyncMode == o.sock.asyncMode && s.callback == o.sock.callback
      && s.flags == o.sock.flags && s.protocol == o.sock.protocol
      && (o.area.pending == "" || !o.sock.Good() || (o.sock.asyncMode && o.sock.callback != 0) ==>
            s.status == o.sock.status && s.bits == o.sock.bits)
  {
  }

  // ----- How an open ends -----

  /** A closed socket, whatever an earlier connection left in its put area. */
  predicate Closed(o: Obj) { !o.sock.IsOpen() && o.sock.state == SSClosed }

  /** No flush can reach a write without further I/O: nothing is left to write, or an error bit makes
      the next flush discard it. */
  predicate Quiet(o: Obj) { o.area.pending == "" || !o.sock.Good() }

  /** It ends closed, listening or connected; it succeeds exactly when the socket then holds a
      descriptor in a state that is not closed; it keeps the status and the error bits, never writes
      what was left in the put area, and releases no descriptor but the one it was given. */
  predicate Ended(o: Obj, k: Kern, a: Answers, out: Outcome)
    requires out.Done?
  {
    var s := out.obj.sock;
    && (s.state == SSClosed || s.state == SSListening || s.Connected())
    && (out.ok <==> s.IsOpen() && s.state != SSClosed)
    && (out.obj.area == o.area || (out.obj.area == Fresh(o.area.Cells()) && !out.ok && !o.sock.Good()))
    && s.bits == o.sock.bits && s.status == o.sock.status
    && (s.IsOpen() ==> s.hFile == a.fd)
    && k.live - {a.fd} <= out.kern.live
    && s.protocol == o.sock.protocol
  }

  /** How an open gives up: the descriptor goes back, and nothing is written. */
  lemma GivingUp(k: Kern, o: Obj, sendOk: bool)
    requires o.sock.IsOpen() && o.sock.state == SSClosed
    ensures
      var out := CloseState(k, o, sendOk);
      && (out.Done? <==> Quiet(o))
      && (out.Done? ==>
            && out.ok && out.kern == k.(live := k.live - {o.sock.hFile})
            && out.obj.sock == o.sock.(hFile := INVALID_SOCKET)
            && out.obj.area == if o.area.pending == "" then o.area else Fresh(o.area.Cells()))
  {
  }

  lemma ServerEnded(k: Kern, o: Obj, addr: Addr, flags: OpenFlags, a: Answers)
    ensures var out := OpenServer(k, o, addr, flags, a);
            (Quiet(o) ==> out.Done?) && (out.Done? ==> Ended(o, k, a, out))
  {
    hide CloseState;
    var s := Assume(o.sock, flags).(hFile := a.fd);
    if a.fd != INVALID_SOCKET {
      GivingUp(k.(live := k.live + {a.fd}), Obj(s, o.area), a.sendOk);
    }
  }

  lemma ClientEnded(k: Kern, o: Obj, addr: Addr, flags: OpenFlags, a: Answers)
    ensures var out := OpenClient(k, o, addr, flags, a);
            out.Done? && Ended(o, k, a, out)
  {
  }

  lemma TLSEnded(k: Kern, o: Obj, flags: OpenFlags, a: Answers)
    requires !o.sock.IsOpen()
    ensures var out := OpenTLS(k, o, flags, a);
            (Quiet(o) ==> out.Done?) && (out.Done? ==> Ended(o, k, a, out))
  {
    hide CloseState;
    var s := Assume(o.sock, flags).(hFile := a.fd);
    if a.fd != INVALID_SOCKET {
      var k' := k.(nextCtx := k.nextCtx + 1, live := k.live + {a.fd});
      GivingUp(Freed(k', k.nextCtx), Obj(s, o.area), a.sendOk);
    }
  }

  /** A server or TLS open that fails gives its descriptor back; a client open that fails does not. */
  lemma FailedServer(k: Kern, o: Obj, addr: Addr, flags: OpenFlags, a: Answers)
    requires a.fd !in k.live
    ensures var out := OpenServer(k, o, addr, flags, a);
            out.Done? && !out.ok ==> !out.obj.sock.IsOpen() && a.fd !in out.kern.live
  {
  }

  lemma FailedTLS(k: Kern, o: Obj, flags: OpenFlags, a: Answers)
    requires !o.sock.IsOpen() && a.fd !in k.live
    ensures var out := OpenTLS(k, o, flags, a);
            out.Done? && !out.ok ==> !out.obj.sock.IsOpen() && a.fd !in out.kern.live
  {
  }

  lemma FailedClient(k: Kern, o: Obj, addr: Addr, flags: OpenFlags, a: Answers)
    ensures var out := OpenClient(k, o, addr, flags, a);
            out.Done? && (!out.ok ==> out.obj.sock.hFile == a.fd)
            && (a.fd != INVALID_SOCKET ==> a.fd in out.kern.live)
  {
  }

  /** An open of a UDP address that did not resolve, without modeCreate. */
  predicate Unopenable(addr: Addr, flags: OpenFlags) { addr.udp && addr.kind == AddrNone && !flags.create }

  /** An open that fails before it asks the kernel for anything. */
  predicate Refused(addr: Addr) { !addr.udp && addr.kind == AddrNone }

  /** On a closed and quiet socket the only open that traps is the unopenable one. Every open that
      does not trap ends closed, listening or connected, and its result, the final state and the
      status agree; what was left in the put area stays there, or is discarded by a failed open
      under an error bit. */
  lemma OpenEnds(k: Kern, o: Obj, addr: Addr, flags: OpenFlags, a: Answers)
    requires Closed(o)
    ensures
      var out := Open(k, o, addr, flags, a);
      && (Quiet(o) ==> (out.Trap? <==> Unopenable(addr, flags)))
      && (out.Done? ==>
            var s := out.obj.sock;
            && (s.state == SSClosed || s.state == SSListening || s.Connected())
            && (out.ok <==> s.IsOpen() && s.state != SSClosed)
            && s.status == (if out.ok then SC_OK else SC_FAILED)
            && (out.obj.area == o.area || (out.obj.area == Fresh(o.area.Cells()) && !out.ok && !o.sock.Good()))
            && s.bits == o.sock.bits
            && (s.IsOpen() ==> s.hFile == a.fd)
            && k.live - {a.fd} <= out.kern.live)
  {
    hide OpenServer, OpenClient, OpenTLS;
    if !Refused(addr) {
      var s := o.sock.(protocol := if addr.udp then SOCK_DGRAM else SOCK_STREAM);
      var o' := Obj(s.(state := OpeningState(s, addr, flags)), o.area);
      match OpeningState(s, addr, flags)
      case SSOpenedServer => ServerEnded(k, o', addr, flags, a);
      case SSOpenedClient => ClientEnded(k, o', addr, flags, a);
      case SSOpenedClientTLS => TLSEnded(k, o', flags, a);
      case _ =>
    }
  }

  // ----- Where an open leads -----

  /** Whether an address stands for a peer, or for none in particular. */
  predicate IsPeer(addr: Addr) { addr.kind == Ip4 || addr.kind == Ip6 }

  /** The state that an open ends in when it succeeds: a peer on port 443 is reached by TLS, whatever
      the flags say. Any other address opens a server if it is the unspecified one or if a server is
      asked for, and a TCP server listens. */
  function OpenedState(addr: Addr, flags: OpenFlags): StateTag {
    if IsPeer(addr) && addr.port == 443 then SSConnectedTLS
    else if !addr.udp && (flags.create || !IsPeer(addr)) then SSListening
    else SSConnected
  }

  /** What the kernel and the TLS library must answer for an open to succeed. */
  predicate Favourable(addr: Addr, flags: OpenFlags, a: Answers) {
    && a.fd != INVALID_SOCKET && a.addrOk
    && if IsPeer(addr) && addr.port == 443 then
         !addr.udp && a.chainOk && a.keyOk && a.connectOk && a.sslOk
       else if flags.create || !IsPeer(addr) then
         a.bindOk && if addr.udp then !addr.multicast || addr.kind != Ip6 || a.ptonOk else a.listenOk
       else if addr.udp then addr.multicast || addr.kind != Ip4 || a.bindOk
       else a.connectOk
  }

  /** How the open of a state goes: whether it succeeds, and the state it then enters. */
  predicate Led(out: Outcome, succeeds: bool, state: StateTag) {
    (out.Done? && out.ok <==> succeeds) && (succeeds ==> out.obj.sock.state == state)
  }

  /** What an open does to the settings, successful or not. */
  predicate Configured(o: Obj, flags: OpenFlags, out: Outcome) {
    out.Done? ==>
      && out.obj.sock.asyncMode == flags.asyncSocket && out.obj.sock.flags == flags.(asyncSocket := false)
      && out.obj.sock.protocol == o.sock.protocol && out.obj.sock.callback == o.sock.callback
  }

  lemma ServerLeads(k: Kern, o: Obj, addr: Addr, flags: OpenFlags, a: Answers)
    ensures
      var stream := o.sock.protocol == SOCK_STREAM;
      Led(OpenServer(k, o, addr, flags, a),
          a.fd != INVALID_SOCKET && a.addrOk && a.bindOk
          && if stream then a.listenOk else !addr.multicast || addr.kind != Ip6 || a.ptonOk,
          if stream then SSListening else SSConnected)
    ensures Configured(o, flags, OpenServer(k, o, addr, flags, a))
  {
    hide CloseState;
    var s := Assume(o.sock, flags).(hFile := a.fd);
    if a.fd != INVALID_SOCKET {
      GivingUp(k.(live := k.live + {a.fd}), Obj(s, o.area), a.sendOk);
    }
  }

  lemma ClientLeads(k: Kern, o: Obj, addr: Addr, flags: OpenFlags, a: Answers)
    ensures
      Led(OpenClient(k, o, addr, flags, a),
          a.fd != INVALID_SOCKET && a.addrOk
          && if o.sock.protocol == SOCK_STREAM then a.connectOk else addr.multicast || addr.kind != Ip4 || a.bindOk,
          SSConnected)
    ensures Configured(o, flags, OpenClient(k, o, addr, flags, a))
  {
  }

  lemma TLSLeads(k: Kern, o: Obj, flags: OpenFlags, a: Answers)
    ensures
      Led(OpenTLS(k, o, flags, a),
          a.fd != INVALID_SOCKET && a.addrOk
          && o.sock.protocol == SOCK_STREAM && a.chainOk && a.keyOk && a.connectOk && a.sslOk,
          SSConnectedTLS)
    ensures Configured(o, flags, OpenTLS(k, o, flags, a))
  {
    hide CloseState;
    var s := Assume(o.sock, flags).(hFile := a.fd);
    if a.fd != INVALID_SOCKET {
      var k' := k.(nextCtx := k.nextCtx + 1, live := k.live + {a.fd});
      GivingUp(Freed(k', k.nextCtx), Obj(s, o.area), a.sendOk);
    }
  }

  /** From the address, the flags and the answers alone: an open succeeds if and only
      if it is not refused at once and the answers are favourable, and the state it then ends in is the
      one that address and flags call for. */
  lemma OpenLeads(k: Kern, o: Obj, addr: Addr, flags: OpenFlags, a: Answers)
    requires !Unopenable(addr, flags)
    ensures Led(Open(k, o, addr, flags, a), !Refused(addr) && Favourable(addr, flags, a), OpenedState(addr, flags))
  {
    hide OpenServer, OpenClient, OpenTLS, Configured;
    if !Refused(addr) {
      var s := o.sock.(protocol := if addr.udp then SOCK_DGRAM else SOCK_STREAM);
      var o' := Obj(s.(state := OpeningState(s, addr, flags)), o.area);
      match OpeningState(s, addr, flags)
      case SSOpenedServer => ServerLeads(k, o', addr, flags, a);
      case SSOpenedClient => ClientLeads(k, o', addr, flags, a);
      case SSOpenedClientTLS => TLSLeads(k, o', flags, a);
      case _ =>
    }
  }

  /** Every open that is not refused at once, successful or not, sets the mode as the flags ask, keeps
      the other flags, takes the protocol from the address and leaves the callback alone. */
  lemma OpenSets(k: Kern, o: Obj, addr: Addr, flags: OpenFlags, a: Answers)
    requires !Refused(addr) && Open(k, o, addr, flags, a).Done?
    ensures
      var s := Open(k, o, addr, flags, a).obj.sock;
      && s.asyncMode == flags.asyncSocket && s.flags == flags.(asyncSocket := false)
      && s.protocol == (if addr.udp then SOCK_DGRAM else SOCK_STREAM) && s.callback == o.sock.callback
  {
    hide OpenServer, OpenClient, OpenTLS, Led;
    var s := o.sock.(protocol := if addr.udp then SOCK_DGRAM else SOCK_STREAM);
    var o' := Obj(s.(state := OpeningState(s, addr, flags)), o.area);
    ServerLeads(k, o', addr, flags, a);
    ClientLeads(k, o', addr, flags, a);
    TLSLeads(k, o', flags, a);
  }

  /** A failed open leaves a descriptor behind if and only if it is a client open without TLS that
      was given one. */
  lemma FailedOpenKeepsHandleIff(k: Kern, o: Obj, addr: Addr, flags: OpenFlags, a: Answers)
    requires Closed(o) && a.fd !in k.live
    requires Open(k, o, addr, flags, a).Done? && !Open(k, o, addr, flags, a).ok
    ensures
      Open(k, o, addr, flags, a).obj.sock.IsOpen()
      <==> (addr.kind == Ip4 || addr.kind == Ip6) && addr.port != 443 && !flags.create && a.fd != INVALID_SOCKET
  {
    hide OpenServer, OpenClient, OpenTLS;
    var s := o.sock.(protocol := if addr.udp then SOCK_DGRAM else SOCK_STREAM);
    var o' := Obj(s.(state := OpeningState(s, addr, flags)), o.area);
    FailedServer(k, o', addr, flags, a);
    FailedTLS(k, o', flags, a);
    FailedClient(k, o', addr, flags, a);
  }

  /** An open that succeeds leaves the two error reports coherent if and only if no error bit was
      set before: it resets the status but never the bits. */
  lemma OpenCoherentIff(k: Kern, o: Obj, addr: Addr, flags: OpenFlags, a: Answers)
    requires Closed(o)
    requires Open(k, o, addr, flags, a).Done? && Open(k, o, addr, flags, a).ok
    ensures Open(k, o, addr, flags, a).obj.sock.Coherent() <==> o.sock.bits == {}
  {
    hide Open;
    OpenEnds(k, o, addr, flags, a);
  }

  // ----- Opening over bytes left from an earlier connection -----

  /** The open comes to its end, and so does the close after it. */
  predicate Survives(k: Kern, o: Obj, addr: Addr, flags: OpenFlags, a: Answers, sendOk: bool) {
    var out := Open(k, o, addr, flags, a);
    out.Done? && Close(out.kern, out.obj, sendOk).Done?
  }

  /** Whatever the kernel and the TLS library answer, opening a closed socket and closing it again
      comes to its end, if and only if no unwritten bytes are left that a flush would write, or the
      open is refused at once. */
  lemma OpenCloseSafeIff(k: Kern, o: Obj, addr: Addr, flags: OpenFlags)
    requires Closed(o) && !Unopenable(addr, flags)
    ensures (forall a, sendOk :: Survives(k, o, addr, flags, a, sendOk)) <==> Quiet(o) || Refused(addr)
  {
    if Quiet(o) || Refused(addr) {
      forall a, sendOk
        ensures Survives(k, o, addr, flags, a, sendOk)
      {
        hide Open;
        OpenEnds(k, o, addr, flags, a);
        RefusedOpen(k, o, addr, flags, a);
      }
    } else {
      LeftoverTraps(k, o, addr, flags);
      var a := Answers(7, false, false, false, false, true, true, true, true, true);
      assert !Survives(k, o, addr, flags, a, true);
    }
  }

  lemma RefusedOpen(k: Kern, o: Obj, addr: Addr, flags: OpenFlags, a: Answers)
    ensures Refused(addr) ==>
              var out := Open(k, o, addr, flags, a);
              out.Done? && !out.ok && out.kern == k && out.obj.area == o.area && out.obj.sock.hFile == o.sock.hFile
  {
  }

  /** A kernel that gives a descriptor and refuses everything else makes every kind of open trap at
      once or leave a descriptor whose close traps. */
  lemma LeftoverTraps(k: Kern, o: Obj, addr: Addr, flags: OpenFlags)
    requires Closed(o) && !Quiet(o) && !Refused(addr)
    ensures
      var a := Answers(7, false, false, false, false, true, true, true, true, true);
      !Survives(k, o, addr, flags, a, true)
  {
  }

  /** A server socket that is opened over a put area left from an earlier connection, then closed,
      traps if and only if that area holds bytes and no error bit hides them from the flush. */
  lemma ServerReopenTrapsIff(k: Kern, o: Obj, flags: OpenFlags, a: Answers, sendOk: bool)
    requires Closed(o)
    requires a.fd != INVALID_SOCKET && a.addrOk && a.bindOk && a.listenOk
    ensures
      var out := Open(k, o, Addr(AddrAny, 0, false, false), flags, a);
      && out.Done? && out.ok && out.obj.sock.state == SSListening
      && (Close(out.kern, out.obj, sendOk).Trap? <==> o.area.pending != "" && o.sock.bits == {})
  {
  }
}
