/** Opening, accepting and closing sockets: the methods behind the functions of OpenCloseSpec. */
module OpenClose {
  import opened SocketSpec
  import opened StreamBufSpec
  import opened Streams
  import Spec = OpenCloseSpec

  /** The tables of the kernel and of the TLS library. */
  class Kernel {
    var live: set<int>
    var nextCtx: nat
    var freed: multiset<nat>

    ghost function View(): Spec.Kern
      reads this
    {
      Spec.Kern(live, nextCtx, freed)
    }

    constructor ()
      ensures View() == Spec.Kern({}, 0, multiset{})
    {
      live, nextCtx, freed := {}, 0, multiset{};
    }

    /** `::socket` or `::accept`, with the descriptor it answers. */
    method Allocate(fd: int) returns (hFile: int)
      modifies this`live
      ensures hFile == fd && live == if fd == INVALID_SOCKET then old(live) else old(live) + {fd}
    {
      hFile := fd;
      if fd != INVALID_SOCKET {
        live := live + {fd};
      }
    }

    /** `::close`. */
    method Release(fd: int)
      modifies this`live
      ensures live == old(live) - {fd}
    {
      live := live - {fd};
    }

    method NewContext() returns (ctx: nat)
      modifies this`nextCtx
      ensures ctx == old(nextCtx) && View() == old(View()).(nextCtx := ctx + 1)
    {
      ctx := nextCtx;
      nextCtx := nextCtx + 1;
    }

    method FreeContext(ctx: nat)
      modifies this`freed
      ensures View() == Spec.Freed(old(View()), ctx)
    {
      freed := freed + multiset{ctx};
    }
  }

  /** A socket with its stream buffer attached. */
  ghost predicate Attached(sock: Socket, buf: StreamBuf)
    reads buf
  {
    buf.Valid() && buf.stream == sock
  }

  ghost function ObjOf(sock: Socket, buf: StreamBuf): Spec.Obj
    requires buf.Valid()
    reads sock, buf, buf.inbuff, buf.outbuff
  {
    Spec.Obj(sock.View(), buf.Contents())
  }

  /** SocketState::close. It flushes before it releases the descriptor. */
  method CloseState(k: Kernel, sock: Socket, buf: StreamBuf, sendOk: bool)
    requires Attached(sock, buf)
    requires Spec.Quiet(ObjOf(sock, buf)) || !sock.View().IsOpen() || sock.View().CanWrite()
    modifies k`live, sock, sock.tx, buf
    ensures Attached(sock, buf)
    ensures Spec.CloseState(old(k.View()), old(ObjOf(sock, buf)), sendOk) == Spec.Done(k.View(), ObjOf(sock, buf), true)
    ensures sock.rx == old(sock.rx) && sock.tx == old(sock.tx)
    ensures sock.tx.data == old(sock.tx.data) + Sync(old(sock.View()), old(buf.Contents()), sendOk).sent
  {
    var _ := buf.Sync(sendOk);
    k.Release(sock.hFile);
    sock.hFile := INVALID_SOCKET;
    sock.state := SSClosed;
  }

  /** Socket::close, dispatching to the close of the state. */
  method Close(k: Kernel, sock: Socket, buf: StreamBuf, sendOk: bool)
    requires Attached(sock, buf)
    requires Spec.Quiet(ObjOf(sock, buf)) || !sock.View().IsOpen() || sock.View().CanWrite()
    modifies k, sock, sock.tx, buf
    ensures Attached(sock, buf)
    ensures Spec.Close(old(k.View()), old(ObjOf(sock, buf)), sendOk) == Spec.Done(k.View(), ObjOf(sock, buf), true)
    ensures old(sock.View().IsOpen()) ==>
              sock.tx == old(sock.tx)
              && sock.tx.data == old(sock.tx.data) + Sync(old(sock.View()), old(buf.Contents()), sendOk).sent
  {
    if sock.hFile != INVALID_SOCKET {
      if sock.state == SSConnectedTLS {
        k.FreeContext(sock.sslCtx);
      }
      CloseState(k, sock, buf, sendOk);
      sock.hFile := INVALID_SOCKET;
    }
  }

  /** The start of each opening state's open. */
  method Assume(sock: Socket, buf: StreamBuf, flags: OpenFlags)
    requires Attached(sock, buf)
    modifies sock`state, sock`flags, sock`asyncMode
    ensures Attached(sock, buf)
    ensures ObjOf(sock, buf) == Spec.Obj(Spec.Assume(old(sock.View()), flags), old(buf.Contents()))
  {
    sock.state := SSClosed;
    sock.flags := flags.(asyncSocket := false);
    sock.asyncMode := flags.asyncSocket;
  }

  /** The call of `::socket`. */
  method CreateSocket(k: Kernel, sock: Socket, buf: StreamBuf, fd: int)
    requires Attached(sock, buf)
    modifies k`live, sock`hFile
    ensures Attached(sock, buf)
    ensures ObjOf(sock, buf) == Spec.Obj(old(sock.View()).(hFile := fd), old(buf.Contents()))
    ensures k.View() == if fd == INVALID_SOCKET then old(k.View())
                        else old(k.View()).(live := old(k.live) + {fd})
  {
    sock.hFile := k.Allocate(fd);
  }

  /** The last step of an open that succeeds. */
  method EnterState(sock: Socket, buf: StreamBuf, state: StateTag)
    requires Attached(sock, buf)
    modifies sock`state
    ensures Attached(sock, buf)
    ensures ObjOf(sock, buf) == Spec.Obj(old(sock.View()).(state := state), old(buf.Contents()))
  {
    sock.state := state;
  }

  /** SSOpenedServer::open. */
  method OpenServer(k: Kernel, sock: Socket, buf: StreamBuf, addr: Spec.Addr, flags: OpenFlags, a: Spec.Answers)
    returns (ok: bool)
    requires Attached(sock, buf) && Spec.Quiet(ObjOf(sock, buf))
    modifies k, sock, sock.tx, buf
    ensures Attached(sock, buf)
    ensures Spec.OpenServer(old(k.View()), old(ObjOf(sock, buf)), addr, flags, a)
            == Spec.Done(k.View(), ObjOf(sock, buf), ok)
  {
    hide Spec.CloseState, Sync, StreamBuf.Contents;
    Assume(sock, buf, flags);
    CreateSocket(k, sock, buf, a.fd);
    if sock.hFile == INVALID_SOCKET {
      return false;
    }
    if !a.addrOk {
      CloseState(k, sock, buf, a.sendOk);
      return false;
    }
    if !a.bindOk {
      CloseState(k, sock, buf, a.sendOk);
      return false;
    }
    if sock.protocol == SOCK_STREAM {
      if !a.listenOk {
        CloseState(k, sock, buf, a.sendOk);
        return false;
      }
      EnterState(sock, buf, SSListening);
    } else {
      if addr.multicast && addr.kind == Spec.Ip6 {
        if !a.ptonOk {
          CloseState(k, sock, buf, a.sendOk);
          return false;
        }
      }
      EnterState(sock, buf, SSConnected);
    }
    return true;
  }

  /** SSOpenedClient::open. A failure leaves the descriptor to a later close. */
  method OpenClient(k: Kernel, sock: Socket, buf: StreamBuf, addr: Spec.Addr, flags: OpenFlags, a: Spec.Answers)
    returns (ok: bool)
    requires Attached(sock, buf)
    modifies k, sock
    ensures Attached(sock, buf)
    ensures Spec.OpenClient(old(k.View()), old(ObjOf(sock, buf)), addr, flags, a)
            == Spec.Done(k.View(), ObjOf(sock, buf), ok)
  {
    hide StreamBuf.Contents;
    Assume(sock, buf, flags);
    CreateSocket(k, sock, buf, a.fd);
    if sock.hFile == INVALID_SOCKET {
      return false;
    }
    if !a.addrOk {
      return false;
    }
    if sock.protocol == SOCK_STREAM {
      if !a.connectOk {
        return false;
      }
    } else if !addr.multicast {
      if addr.kind == Spec.Ip4 && !a.bindOk {
        return false;
      }
    }
    EnterState(sock, buf, SSConnected);
    return true;
  }

  /** The failures of SSOpenedClientTLS::open that have a context and a descriptor to give back. */
  method GiveUpTLS(k: Kernel, sock: Socket, buf: StreamBuf, ctx: nat, sendOk: bool)
    requires Attached(sock, buf) && Spec.Quiet(ObjOf(sock, buf))
    modifies k, sock, sock.tx, buf
    ensures Attached(sock, buf)
    ensures Spec.CloseState(Spec.Freed(old(k.View()), ctx), old(ObjOf(sock, buf)), sendOk)
            == Spec.Done(k.View(), ObjOf(sock, buf), true)
  {
    hide Sync, StreamBuf.Contents;
    k.FreeContext(ctx);
    CloseState(k, sock, buf, sendOk);
  }

  /** SSOpenedClientTLS::open. */
  method OpenTLS(k: Kernel, sock: Socket, buf: StreamBuf, flags: OpenFlags, a: Spec.Answers)
    returns (ok: bool)
    requires Attached(sock, buf) && Spec.Quiet(ObjOf(sock, buf))
    modifies k, sock, sock.tx, buf
    ensures Attached(sock, buf)
    ensures Spec.OpenTLS(old(k.View()), old(ObjOf(sock, buf)), flags, a) == Spec.Done(k.View(), ObjOf(sock, buf), ok)
  {
    hide Spec.CloseState, Spec.Freed, Spec.Assume, Sync, StreamBuf.Contents;
    Assume(sock, buf, flags);
    AssumeKeepsProtocol(old(sock.View()), flags);
    var ctx := k.NewContext();
    if !a.chainOk || !a.keyOk {
      k.FreeContext(ctx);
      return false;
    }
    CreateSocket(k, sock, buf, a.fd);
    if sock.hFile == INVALID_SOCKET {
      k.FreeContext(ctx);
      return false;
    }
    if sock.protocol == SOCK_STREAM {
      if !a.addrOk || !a.connectOk {
        GiveUpTLS(k, sock, buf, ctx, a.sendOk);
        return false;
      }
    } else {
      GiveUpTLS(k, sock, buf, ctx, a.sendOk);
      return false;
    }
    if !a.sslOk {
      GiveUpTLS(k, sock, buf, ctx, a.sendOk);
      return false;
    }
    EnterTLS(sock, buf, ctx);
    return true;
  }

  lemma AssumeKeepsProtocol(s: Sock, flags: OpenFlags)
    ensures Spec.Assume(s, flags).protocol == s.protocol
  {
  }

  method EnterTLS(sock: Socket, buf: StreamBuf, ctx: nat)
    requires Attached(sock, buf)
    modifies sock`state, sock`sslCtx
    ensures Attached(sock, buf)
    ensures ObjOf(sock, buf) == Spec.Obj(old(sock.View()).(sslCtx := ctx, state := SSConnectedTLS), old(buf.Contents()))
  {
    sock.sslCtx := ctx;
    sock.state := SSConnectedTLS;
  }

  /** The first part of Socket::open(SocketAddr&, ..): the state whose open is to be called, or an
      early failure. */
  method SelectState(sock: Socket, buf: StreamBuf, addr: Spec.Addr, flags: OpenFlags) returns (refused: bool)
    requires Attached(sock, buf)
    modifies sock`protocol, sock`state
    ensures Attached(sock, buf)
    ensures refused <==> !addr.udp && addr.kind == Spec.AddrNone
    ensures !refused && !Spec.Unopenable(addr, flags) ==>
              && (sock.state == SSOpenedClientTLS <==> Spec.IsPeer(addr) && addr.port == 443)
              && (sock.state == SSOpenedClient <==> Spec.IsPeer(addr) && addr.port != 443 && !flags.create)
              && (sock.state == SSOpenedServer <==> !Spec.IsPeer(addr) || (addr.port != 443 && flags.create))
    ensures var s := old(sock.View()).(protocol := if addr.udp then SOCK_DGRAM else SOCK_STREAM);
            var s' := if refused then s else s.(state := Spec.OpeningState(s, addr, flags));
            ObjOf(sock, buf) == Spec.Obj(s', old(buf.Contents()))
  {
    sock.protocol := if addr.udp then SOCK_DGRAM else SOCK_STREAM;
    if addr.kind == Spec.AddrAny || addr.kind == Spec.AddrNone {
      if sock.protocol == SOCK_STREAM && addr.kind == Spec.AddrNone {
        return true;
      }
      if flags.create || addr.kind == Spec.AddrAny {
        sock.state := SSOpenedServer;
      }
    } else if addr.port == 443 {
      sock.state := SSOpenedClientTLS;
    } else {
      if flags.create {
        sock.state := SSOpenedServer;
      } else {
        sock.state := SSOpenedClient;
      }
    }
    return false;
  }

  method SetStatus(sock: Socket, buf: StreamBuf, status: Status)
    requires Attached(sock, buf)
    modifies sock`status
    ensures Attached(sock, buf)
    ensures ObjOf(sock, buf) == Spec.Obj(old(sock.View()).(status := status), old(buf.Contents()))
  {
    sock.status := status;
  }

  /** Socket::open(SocketAddr&, ..) on a closed socket whose flush can reach no write. */
  method Open(k: Kernel, sock: Socket, buf: StreamBuf, addr: Spec.Addr, flags: OpenFlags, a: Spec.Answers)
    returns (ok: bool)
    requires Attached(sock, buf) && (Spec.Quiet(ObjOf(sock, buf)) || Spec.Refused(addr))
    requires sock.state == SSClosed && !Spec.Unopenable(addr, flags)
    modifies k, sock, sock.tx, buf
    ensures Attached(sock, buf)
    ensures Spec.Open(old(k.View()), old(ObjOf(sock, buf)), addr, flags, a) == Spec.Done(k.View(), ObjOf(sock, buf), ok)
    ensures ok <==> !Spec.Refused(addr) && Spec.Favourable(addr, flags, a)
    ensures ok ==> sock.state == Spec.OpenedState(addr, flags)
  {
    hide Spec.OpenServer, Spec.OpenClient, Spec.OpenTLS, StreamBuf.Contents;
    Spec.OpenLeads(k.View(), ObjOf(sock, buf), addr, flags, a);
    var refused := SelectState(sock, buf, addr, flags);
    if refused {
      SetStatus(sock, buf, SC_FAILED);
      return false;
    }
    if sock.state == SSOpenedServer {
      ok := OpenServer(k, sock, buf, addr, flags, a);
    } else if sock.state == SSOpenedClientTLS {
      ok := OpenTLS(k, sock, buf, flags, a);
    } else {
      ok := OpenClient(k, sock, buf, addr, flags, a);
    }
    if !ok {
      SetStatus(sock, buf, SC_FAILED);
      return false;
    }
    SetStatus(sock, buf, SC_OK);
    return true;
  }

  /** Socket::listenIntern on a listening socket: the accepted socket, unless accept fails. */
  method Listen(k: Kernel, listener: Socket, fd: int, rx: Pipe, tx: Pipe)
    returns (client: Socket?, buf: StreamBuf?)
    requires listener.state == SSListening
    modifies k`live
    ensures k.live == if fd == INVALID_SOCKET then old(k.live) else old(k.live) + {fd}
    ensures client == null <==> fd == INVALID_SOCKET
    ensures client == null <==> buf == null
    ensures client != null ==>
              && fresh(client) && fresh(buf) && Attached(client, buf) && client.rx == rx && client.tx == tx
              && client.hFile == fd && client.state == SSConnected
              && client.flags == listener.flags && client.asyncMode == listener.asyncMode
              && ObjOf(client, buf) == Spec.AcceptedObj(listener.View(), fd, buf.inbuff[..])
  {
    var pClient := new Socket(rx, tx, listener.flags, SOCK_STREAM);
    var strbuf := new StreamBuf(pClient);
    var hSock := k.Allocate(fd);
    pClient.hFile := hSock;
    pClient.flags := listener.flags;
    pClient.asyncMode := listener.asyncMode;
    if hSock == INVALID_SOCKET {
      return null, null;
    }
    pClient.state := SSConnected;
    return pClient, strbuf;
  }
}
