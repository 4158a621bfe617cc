/**
 The socket object as a value, and what one read or write on a connected socket does to it.
 The answers of the kernel are parameters, so a statement about all answers is a statement about
 every behaviour of the kernel.
 */
module SocketSpec {
  import opened Bytes

  const INVALID_SOCKET: int := -1

  datatype Status = SC_OK | SC_NODATA | SC_FAILED

  datatype IoBit = EofBit | FailBit | BadBit

  datatype StateTag =
    | SSClosed
    | SSOpenedServer
    | SSOpenedClient
    | SSListening
    | SSConnected
    | SSOpenedClientTLS
    | SSConnectedTLS

  datatype Protocol = SOCK_STREAM | SOCK_DGRAM

  /** One flag per bit of `uOpenFlags`. */
  datatype OpenFlags = OpenFlags(create: bool, asyncSocket: bool, read: bool, write: bool, readWrite: bool)

  /** The fields of a socket object. `callback` 0 stands for a null pointer. */
  datatype Sock = Sock(
    hFile: int,
    state: StateTag,
    status: Status,
    bits: set<IoBit>,
    flags: OpenFlags,
    asyncMode: bool,
    protocol: Protocol,
    callback: nat,
    sslCtx: nat)
  {
    predicate IsOpen() { hFile != INVALID_SOCKET }

    predicate Good() { bits == {} }

    predicate Connected() { state == SSConnected || state == SSConnectedTLS }

    /** What the read and write of a connected state assert about the open flags. */
    predicate CanRead() { Connected() && !flags.write }

    predicate CanWrite() { Connected() && (flags.readWrite || flags.write) }

    /** Writes go to the kernel at once instead of to a worker thread. */
    predicate WritesNow() { !(asyncMode && callback != 0) }

    /** The coherence of the two error reports: an SC_OK status means no bit is set. */
    predicate Coherent() { status == SC_OK ==> bits == {} }
  }

  /** What the open modes allow on a connected socket. */
  lemma ModesAllow(s: Sock)
    requires s.Connected() && !s.flags.create && !s.flags.asyncSocket
    ensures s.flags == OpenFlags(false, false, true, false, false) ==> s.CanRead() && !s.CanWrite()
    ensures s.flags == OpenFlags(false, false, false, true, false) ==> !s.CanRead() && s.CanWrite()
    ensures s.flags == OpenFlags(false, false, false, false, true) ==> s.CanRead() && s.CanWrite()
    ensures s.flags == OpenFlags(false, false, false, false, false) ==> s.CanRead() && !s.CanWrite()
  {
  }

  /** What `recv` says: at most `limit` bytes are ready, or the call fails. */
  datatype RecvAnswer = Ready(limit: nat) | RecvError

  /** The answers to one `SSConnected::read`: whether FIONREAD works, then what `recv` says. */
  datatype ReadAnswer = ReadAnswer(ioctlOk: bool, recv: RecvAnswer)

  /** `recv` of `count` bytes: -1 on error, 0 at the end of input, else a positive byte count. */
  function RecvCount(rx: string, count: nat, a: RecvAnswer): (n: int)
    ensures -1 <= n <= count && n <= |rx|
    ensures a.Ready? && rx != [] && count > 0 ==> n > 0
  {
    if a.RecvError? then -1
    else if rx == [] || count == 0 then 0
    else Max(1, Min(a.limit, Min(count, |rx|)))
  }

  /** `n` is both the value returned and the number of bytes taken from `rx`. */
  datatype ReadResult = ReadResult(sock: Sock, n: nat, spawned: bool)

  /** SSConnected::read. */
  function ReadSocket(s: Sock, rx: string, count: nat, a: ReadAnswer): (r: ReadResult)
    requires count > 0
    ensures r.n <= count && r.n <= |rx|
    ensures r.n > 0 ==> r.sock.status == SC_OK && r.sock.bits == {} && !r.spawned
    ensures r.n == 0 && !r.spawned ==> r.sock.status == SC_NODATA && r.sock.bits != {}
    ensures r.spawned ==> r.n == 0 && s.asyncMode && s.callback != 0 && rx == ""
    ensures r.sock == s.(status := r.sock.status, bits := r.sock.bits)
  {
    if !s.asyncMode then
      var n := RecvCount(rx, count, a.recv);
      if n <= 0 then
        ReadResult(s.(status := SC_NODATA, bits := s.bits + {EofBit}), 0, false)
      else
        ReadResult(s.(status := SC_OK, bits := {}), n, false)
    else if !a.ioctlOk then
      ReadResult(s.(status := SC_NODATA, bits := s.bits + {EofBit}), 0, false)
    else if rx != [] then
      var n := RecvCount(rx, Min(|rx|, count), a.recv);
      if n <= 0 then
        ReadResult(s.(status := SC_NODATA, bits := s.bits + {if n < 0 then BadBit else EofBit}), 0, false)
      else
        ReadResult(s.(status := SC_OK, bits := {}), n, false)
    else if s.callback == 0 then
      ReadResult(s.(status := SC_NODATA, bits := s.bits + {EofBit}), 0, false)
    else
      ReadResult(s.(status := SC_OK, bits := {}), 0, true)
  }

  /** When a read delivers, when it starts a worker, and which bit it sets otherwise: the bad bit only
      when an asynchronous receive of bytes that are there fails, the eof bit in every other case, and
      never the fail bit. Bits that were set stay set. */
  lemma ReadReports(s: Sock, rx: string, count: nat, a: ReadAnswer)
    requires count > 0
    ensures
      var r := ReadSocket(s, rx, count, a);
      && (r.n > 0 <==> rx != "" && a.recv.Ready? && (s.asyncMode ==> a.ioctlOk))
      && (r.spawned <==> s.asyncMode && a.ioctlOk && rx == "" && s.callback != 0)
      && (r.n > 0 || r.spawned ==> r.sock.status == SC_OK && r.sock.bits == {})
      && (r.n == 0 && !r.spawned ==>
            && r.sock.status == SC_NODATA
            && r.sock.bits == s.bits + {if s.asyncMode && a.ioctlOk && rx != "" then BadBit else EofBit})
  {
  }

  /** SSConnected::write, `ok` being whether `send` accepts the bytes. A write that succeeds
      clears the fail bit but never touches the status. */
  function WriteSocket(s: Sock, ok: bool): (r: Sock)
    ensures r.status == SC_OK ==> s.status == SC_OK
    ensures s.WritesNow() ==> (FailBit in r.bits <==> !ok) && r.bits - {FailBit} == s.bits - {FailBit}
    ensures s.WritesNow() && !ok ==> r.status == SC_FAILED
    ensures ok || (s.asyncMode && s.callback != 0) ==> r.status == s.status
    ensures r == s.(status := r.status, bits := r.bits)
  {
    if !s.WritesNow() then s
    else if ok then s.(bits := s.bits - {FailBit})
    else s.(status := SC_FAILED, bits := s.bits + {FailBit})
  }

  /** The bytes one write hands to the kernel before it returns. */
  function SentNow(s: Sock, data: string, ok: bool): string {
    if s.WritesNow() && ok then data else ""
  }
}
