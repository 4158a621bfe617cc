/**
 IPC messages: a packed header of three 32-bit words (function, packet size, cookie) and a body. The
 reader takes the header first, to learn how much belongs to the packet, and then the rest.
 */
module Ipc {
  import opened Bytes
  import opened SocketSpec
  import opened Streams

  /** `sizeof(IpcStruct)`. */
  const HEADER: nat := 12
  const SIZE_AT: nat := 4
  const COOKIE_AT: nat := 8

  /** The little-endian word at `at`. */
  function U32(s: string, at: nat): nat
    requires at + 4 <= |s|
  {
    s[at] as int + 0x100 * s[at + 1] as int + 0x1_0000 * s[at + 2] as int + 0x100_0000 * s[at + 3] as int
  }

  function Le32(n: nat): (s: string)
    ensures |s| == 4
  {
    [(n % 0x100) as char, (n / 0x100 % 0x100) as char, (n / 0x1_0000 % 0x100) as char, (n / 0x100_0000 % 0x100) as char]
  }

  lemma WordRoundTrip(n: nat)
    requires n < 0x1_0000_0000
    ensures U32(Le32(n), 0) == n
  {
    assert n / 0x1_0000 == n / 0x100 / 0x100 && n / 0x100_0000 == n / 0x100 / 0x100 / 0x100;
  }

  // ----- Sending -----

  /** A packet as it leaves: the cookie is filled in. */
  function Stamp(data: string, cookie: nat): string
    requires |data| >= HEADER
  {
    data[..COOKIE_AT] + Le32(cookie) + data[HEADER..]
  }

  /** A filled-in message whose size field tells its length. */
  predicate Message(data: string) { |data| >= HEADER && U32(data, SIZE_AT) == |data| }

  /** The layout: function, size and cookie, four bytes each, and the body. */
  lemma LayoutIsMessage(funct: nat, cookie: nat, body: string)
    requires funct < 0x1_0000_0000 && cookie < 0x1_0000_0000 && |body| < 0x1_0000_0000 - 12
    ensures
      var data := Le32(funct) + Le32(12 + |body|) + Le32(cookie) + body;
      Message(data) && U32(data, 0) == funct && U32(data, COOKIE_AT) == cookie && data[HEADER..] == body
  {
    hide Le32;
    var w0, w1, w2 := Le32(funct), Le32(12 + |body|), Le32(cookie);
    var data := w0 + w1 + w2 + body;
    WordRoundTrip(funct);
    WordRoundTrip(12 + |body|);
    WordRoundTrip(cookie);
    assert forall i | 0 <= i < 4 :: data[i] == w0[i] && data[4 + i] == w1[i] && data[8 + i] == w2[i];
  }

  lemma StampKeepsSize(data: string, cookie: nat)
    requires Message(data) && cookie < 0x1_0000_0000
    ensures Message(Stamp(data, cookie)) && |Stamp(data, cookie)| == |data|
    ensures U32(Stamp(data, cookie), COOKIE_AT) == cookie
  {
    var p, w := Stamp(data, cookie), Le32(cookie);
    WordRoundTrip(cookie);
    assert forall i | 0 <= i < COOKIE_AT :: p[i] == data[i];
    assert forall i | 0 <= i < 4 :: p[COOKIE_AT + i] == w[i];
  }

  /** The packet is the message but for the cookie, whose field holds the given one. */
  predicate Carries(packet: string, message: string, cookie: nat) {
    && |packet| == |message| >= 12
    && (forall i | 0 <= i < |message| :: i < 8 || i >= 12 ==> packet[i] == message[i])
    && U32(packet, 8) == cookie
  }

  lemma StampCarries(data: string, cookie: nat)
    requires |data| >= HEADER && cookie < 0x1_0000_0000
    ensures Carries(Stamp(data, cookie), data, cookie)
  {
    var p, w := Stamp(data, cookie), Le32(cookie);
    WordRoundTrip(cookie);
    assert p == data[..8] + w + data[12..];
    assert forall i | 0 <= i < 4 :: p[8 + i] == w[i];
  }

  /** The static counter that cookies are drawn from. */
  class Counter {
    var dwSequence: nat

    constructor ()
      ensures dwSequence == 0
    {
      dwSequence := 0;
    }
  }

  /** Socket::remoteProcedure. `++` on the counter is defined below the largest `int` only. The
      callback given for this call does not outlive it. */
  method RemoteProcedure(sock: Socket, counter: Counter, pData: array<char>, pCallback: nat, ok: bool)
    requires sock.View().CanWrite()
    requires pData.Length >= HEADER && U32(pData[..], SIZE_AT) <= pData.Length
    requires counter.dwSequence < 0x7fff_ffff
    modifies sock`callback, sock`status, sock`bits, sock`workers, sock.tx, counter, pData
    ensures sock.callback == old(sock.callback) && counter.dwSequence == old(counter.dwSequence) + 1
    ensures pData[..] == Stamp(old(pData[..]), counter.dwSequence)
    ensures Carries(pData[..], old(pData[..]), counter.dwSequence)
    ensures var s := old(sock.View());
            var during := if pCallback != 0 then s.(callback := pCallback) else s;
            sock.tx.data == old(sock.tx.data)
                            + SentNow(during, pData[..U32(old(pData[..]), SIZE_AT)], ok)
  {
    var pOldCallback := 0;
    counter.dwSequence := counter.dwSequence + 1;
    var word := Le32(counter.dwSequence);
    forall i | 0 <= i < 4 {
      pData[COOKIE_AT + i] := word[i];
    }
    assert pData[..] == Stamp(old(pData[..]), counter.dwSequence);
    StampCarries(old(pData[..]), counter.dwSequence);
    if pCallback != 0 {
      pOldCallback := sock.RegisterCallback(pCallback);
    }
    var packetSize := U32(pData[..], SIZE_AT);
    sock.Write(pData[..packetSize], ok);
    if pCallback != 0 {
      var _ := sock.RegisterCallback(pOldCallback);
    }
  }

  /** What a run of remoteProcedure calls sends, the counter standing at `cookie` before. */
  function SendMany(messages: seq<string>, cookie: nat): seq<string>
    requires forall i | 0 <= i < |messages| :: Message(messages[i])
  {
    if messages == [] then []
    else
      assert Message(messages[0]);
      [Stamp(messages[0], cookie + 1)] + SendMany(messages[1..], cookie + 1)
  }

  lemma FirstSent(messages: seq<string>, cookie: nat)
    requires messages != [] && forall i | 0 <= i < |messages| :: Message(messages[i])
    ensures Concat(SendMany(messages, cookie))
            == Stamp(messages[0], cookie + 1) + Concat(SendMany(messages[1..], cookie + 1))
  {
    hide Stamp, U32;
    var first, more := Stamp(messages[0], cookie + 1), SendMany(messages[1..], cookie + 1);
    assert ([first] + more)[0] == first && ([first] + more)[1..] == more;
  }

  /** A caller that sends one message after the other over a blocking socket: the packets stand back
      to back on the wire. */
  method SendInTurn(sock: Socket, counter: Counter, messages: seq<string>, pCallback: nat)
    returns (ghost packets: seq<string>)
    requires sock.View().CanWrite() && !sock.asyncMode
    requires forall i | 0 <= i < |messages| :: Message(messages[i])
    requires counter.dwSequence + |messages| < 0x8000_0000
    modifies sock`callback, sock`status, sock`bits, sock`workers, sock.tx, counter
    ensures sock.callback == old(sock.callback)
    ensures counter.dwSequence == old(counter.dwSequence) + |messages|
    ensures packets == SendMany(messages, old(counter.dwSequence))
    ensures sock.tx.data == old(sock.tx.data) + Concat(packets) && |packets| == |messages|
    ensures forall i | 0 <= i < |packets| :: Carries(packets[i], messages[i], old(counter.dwSequence) + 1 + i)
  {
    hide U32, Stamp, SendMany, Carries;
    packets := SendMany(messages, counter.dwSequence);
    ghost var target := sock.tx.data + Concat(SendMany(messages, counter.dwSequence));
    var i := 0;
    assert messages[0..] == messages;
    while i < |messages|
      invariant 0 <= i <= |messages|
      invariant sock.View().CanWrite() && !sock.asyncMode && sock.callback == old(sock.callback)
      invariant counter.dwSequence == old(counter.dwSequence) + i
      invariant sock.tx.data + Concat(SendMany(messages[i..], counter.dwSequence)) == target
    {
      SendJoins(sock.tx.data, messages, i, counter.dwSequence);
      SendOne(sock, counter, messages[i], pCallback);
      i := i + 1;
    }
    NoneSent(messages[i..], counter.dwSequence);
    CookiesIncrease(messages, old(counter.dwSequence));
  }

  lemma SendJoins(sent: string, messages: seq<string>, i: nat, cookie: nat)
    requires i < |messages| && forall k | 0 <= k < |messages| :: Message(messages[k])
    ensures sent + Concat(SendMany(messages[i..], cookie))
            == sent + Stamp(messages[i], cookie + 1) + Concat(SendMany(messages[i + 1..], cookie + 1))
  {
    hide U32, Stamp, SendMany;
    var rest := messages[i..];
    FirstSent(rest, cookie);
    assert rest[1..] == messages[i + 1..];
    var first, more := Stamp(messages[i], cookie + 1), Concat(SendMany(messages[i + 1..], cookie + 1));
    assert sent + (first + more) == sent + first + more;
  }

  lemma NoneSent(messages: seq<string>, cookie: nat)
    requires messages == []
    ensures Concat(SendMany(messages, cookie)) == ""
  {
  }

  method SendOne(sock: Socket, counter: Counter, message: string, pCallback: nat)
    requires sock.View().CanWrite() && !sock.asyncMode && Message(message) && counter.dwSequence < 0x7fff_ffff
    modifies sock`callback, sock`status, sock`bits, sock`workers, sock.tx, counter
    ensures sock.callback == old(sock.callback) && counter.dwSequence == old(counter.dwSequence) + 1
    ensures sock.tx.data == old(sock.tx.data) + Stamp(message, counter.dwSequence)
  {
    var pData := new char[|message|](i requires 0 <= i < |message| => message[i]);
    assert pData[..] == message;
    StampKeepsSize(message, counter.dwSequence + 1);
    RemoteProcedure(sock, counter, pData, pCallback, true);
    assert pData[..|message|] == pData[..];
  }

  /** The packets sent are the messages with strictly increasing cookies filled in. */
  lemma {:induction false} CookiesIncrease(messages: seq<string>, cookie: nat)
    requires forall i | 0 <= i < |messages| :: Message(messages[i])
    requires cookie + |messages| < 0x8000_0000
    ensures
      var ps := SendMany(messages, cookie);
      && |ps| == |messages|
      && forall i | 0 <= i < |ps| :: Message(ps[i]) && Carries(ps[i], messages[i], cookie + 1 + i)
    decreases |messages|
  {
    if messages != [] {
      StampKeepsSize(messages[0], cookie + 1);
      StampCarries(messages[0], cookie + 1);
      CookiesIncrease(messages[1..], cookie + 1);
    }
  }

  // ----- Receiving -----

  /** `Nothing` is the return value 0. `Undersized` marks a size field below the header size, for
      which the source computes a wrapped-around length; nothing is claimed there. */
  datatype Receipt =
    | Nothing(rest: string)
    | Undersized(rest: string)
    | Packet(packet: string, rest: string)

  /** What a read of up to `count` bytes takes from `rx`. The kernel's answers come one per receive; where
      the list has ended it hands over all it has. */
  function Took(rx: string, count: nat, answers: seq<RecvAnswer>): (n: nat)
    ensures n <= count && n <= |rx|
  {
    Max(0, RecvCount(rx, count, if answers == [] then Ready(count) else answers[0]))
  }

  function Later(answers: seq<RecvAnswer>): seq<RecvAnswer> { if answers == [] then [] else answers[1..] }

  /** The loop of remoteReadData, entered with room for `limit` bytes, all input having arrived. A header
      or a body that comes in parts is not put together again: the loop starts over with what follows,
      and after a short body with less room. */
  function Receive(rx: string, limit: nat, ioctlOk: bool, answers: seq<RecvAnswer>): Receipt
    decreases |rx|
  {
    var n, more := Took(rx, HEADER, answers), Later(answers);
    var body := rx[n..];
    if n == 0 then Nothing(rx)
    else if n != HEADER then Receive(body, limit, ioctlOk, more)
    else
      var size := U32(rx, SIZE_AT);
      if limit < size then
        if !ioctlOk then Nothing(body)
        else if body == "" then Receive(body, limit, ioctlOk, more)
        else Receive(body[Took(body, |body|, more)..], limit, ioctlOk, Later(more))
      else if size < HEADER then Undersized(body)
      else
        var m := Took(body, size - HEADER, more);
        if m == size - HEADER then Packet(rx[..size], rx[size..])
        else Receive(body[m..], size - HEADER, ioctlOk, Later(more))
  }

  /** A connected socket without a callback, whose reads start no worker. */
  ghost predicate Polling(sock: Socket)
    reads sock
  {
    sock.View().CanRead() && sock.callback == 0
  }

  /** A read of up to `count` bytes without a callback: it never starts a worker. */
  method ReadSome(sock: Socket, buf: array<char>, off: nat, count: nat, answers: seq<RecvAnswer>) returns (n: nat)
    requires off + count <= buf.Length && Polling(sock)
    modifies sock`status, sock`bits, sock`workers, sock.rx, buf
    ensures Polling(sock) && sock.workers == old(sock.workers)
    ensures n == Took(old(sock.rx.data), count, answers)
    ensures sock.rx.data == old(sock.rx.data)[n..]
    ensures buf[..off] == old(buf[..off]) && buf[off..off + n] == old(sock.rx.data)[..n]
  {
    n := sock.Read(buf, off, count, ReadAnswer(true, if answers == [] then Ready(count) else answers[0]));
    assert buf[..off] == buf[..][..off] && buf[off..off + n] == buf[..][off..off + n];
  }

  /** The tail of remoteReadData that drops what has arrived, or as much as one read takes of it. */
  method Discard(sock: Socket, answers: seq<RecvAnswer>) returns (more: seq<RecvAnswer>)
    requires Polling(sock)
    modifies sock`status, sock`bits, sock`workers, sock.rx
    ensures Polling(sock) && sock.workers == old(sock.workers)
    ensures var rx := old(sock.rx.data);
            if rx == "" then sock.rx.data == rx && more == answers
            else sock.rx.data == rx[Took(rx, |rx|, answers)..] && more == Later(answers)
  {
    more := answers;
    var dwBytes := |sock.rx.data|;
    if dwBytes != 0 {
      var pDiscardBuf := new char[dwBytes];
      var _ := ReadSome(sock, pDiscardBuf, 0, dwBytes, answers);
      more := Later(answers);
    }
  }

  /** The read of a header, and the size field in it. */
  method ReadHeader(sock: Socket, pData: array<char>, answers: seq<RecvAnswer>) returns (n: nat, size: nat)
    requires Polling(sock) && pData.Length >= HEADER
    modifies sock`status, sock`bits, sock`workers, sock.rx, pData
    ensures Polling(sock) && sock.workers == old(sock.workers)
    ensures n == Took(old(sock.rx.data), HEADER, answers)
    ensures sock.rx.data == old(sock.rx.data)[n..]
    ensures n == HEADER ==>
              pData[..HEADER] == old(sock.rx.data)[..HEADER] && size == U32(old(sock.rx.data), SIZE_AT)
  {
    n := ReadSome(sock, pData, 0, HEADER, answers);
    assert n == HEADER ==> pData[..HEADER] == pData[0..HEADER];
    size := U32(pData[..HEADER], SIZE_AT);
  }

  /** The read of what belongs to the packet behind its header. */
  method ReadBody(sock: Socket, pData: array<char>, count: nat, answers: seq<RecvAnswer>, ghost rx: string)
    returns (n: nat)
    requires Polling(sock) && HEADER + count <= pData.Length
    requires |rx| >= HEADER && pData[..HEADER] == rx[..HEADER] && sock.rx.data == rx[HEADER..]
    modifies sock`status, sock`bits, sock`workers, sock.rx, pData
    ensures Polling(sock) && sock.workers == old(sock.workers)
    ensures n == Took(rx[HEADER..], count, answers) && HEADER + n <= |rx|
    ensures sock.rx.data == rx[HEADER..][n..] == rx[HEADER + n..] && pData[..HEADER + n] == rx[..HEADER + n]
  {
    n := ReadSome(sock, pData, HEADER, count, answers);
    assert pData[..HEADER + n] == pData[..HEADER] + pData[HEADER..HEADER + n];
    assert rx[..HEADER + n] == rx[..HEADER] + rx[HEADER..][..n];
  }

  lemma NoWholeHeader(rx: string, limit: nat, ioctlOk: bool, answers: seq<RecvAnswer>)
    ensures var n := Took(rx, HEADER, answers);
            n != HEADER ==>
              Receive(rx, limit, ioctlOk, answers) ==
              if n == 0 then Nothing(rx) else Receive(rx[n..], limit, ioctlOk, Later(answers))
  {
    hide U32, Took;
  }

  /** The part of the loop behind a whole header: `ended` if the call returns 0 there. */
  method BehindHeader(
      sock: Socket, pData: array<char>, room: nat, packetSize: nat, ioctlOk: bool, answers: seq<RecvAnswer>,
      ghost rx: string)
    returns (ended: bool, undersized: bool, bValidIPC: bool, uActual: nat, uLength: nat, more: seq<RecvAnswer>)
    requires Polling(sock) && HEADER <= pData.Length && room <= pData.Length
    requires Took(rx, HEADER, answers) == HEADER && packetSize == U32(rx, SIZE_AT)
    requires pData[..HEADER] == rx[..HEADER] && sock.rx.data == rx[HEADER..]
    modifies sock`status, sock`bits, sock`workers, sock.rx, pData
    ensures Polling(sock) && sock.workers == old(sock.workers)
    ensures uLength <= pData.Length && uActual + HEADER <= pData.Length && |sock.rx.data| < |rx|
    ensures undersized ==> ended
    ensures Receive(rx, room, ioctlOk, answers) ==
            if undersized then Undersized(sock.rx.data)
            else if ended then Nothing(sock.rx.data)
            else if bValidIPC then Packet(pData[..HEADER + uActual], sock.rx.data)
            else Receive(sock.rx.data, uLength, ioctlOk, more)
  {
    hide U32, Took;
    ended, undersized, bValidIPC, uActual, uLength, more := false, false, false, 0, room, Later(answers);
    if uLength < packetSize {
      if !ioctlOk {
        ended := true;
        return;
      }
      more := Discard(sock, more);
      return;
    }
    if packetSize < HEADER {
      ended, undersized := true, true;
      return;
    }
    uLength := packetSize - HEADER;
    uActual := ReadBody(sock, pData, uLength, more, rx);
    more := Later(more);
    bValidIPC := uActual == uLength;
  }

  /** Socket::remoteReadData. The caller's callback is back in place on every way out. */
  method RemoteReadData(sock: Socket, pData: array<char>, uMaxLength: nat, ioctlOk: bool, answers: seq<RecvAnswer>)
    returns (ret: nat, undersized: bool)
    requires sock.View().CanRead()
    requires pData.Length >= HEADER && HEADER <= U32(pData[..], SIZE_AT) <= pData.Length
    requires uMaxLength == 0 || uMaxLength >= HEADER
    modifies sock`callback, sock`status, sock`bits, sock`workers, sock.rx, pData
    ensures sock.callback == old(sock.callback) && sock.workers == old(sock.workers)
    ensures var room := U32(old(pData[..]), SIZE_AT);
            var capacity := if uMaxLength == 0 then room else Min(room, uMaxLength);
            match Receive(old(sock.rx.data), capacity, ioctlOk, answers)
            case Nothing(rest) => ret == 0 && !undersized && sock.rx.data == rest
            case Undersized(rest) => undersized && sock.rx.data == rest
            case Packet(packet, rest) =>
              ret == |packet| <= pData.Length && !undersized && pData[..ret] == packet && sock.rx.data == rest
  {
    ghost var rx := sock.rx.data;
    var pOldCallback := sock.RegisterCallback(0);
    hide U32, Took, Receive;
    var uLength: nat := U32(pData[..], SIZE_AT);
    if uMaxLength != 0 && uMaxLength < uLength {
      uLength := uMaxLength;
    }
    ghost var receipt := Receive(rx, uLength, ioctlOk, answers);
    var more := answers;
    var bValidIPC := false;
    var uActual: nat := 0;
    undersized := false;
    while !bValidIPC
      invariant Polling(sock) && sock.workers == old(sock.workers)
      invariant uLength <= pData.Length && !undersized
      invariant !bValidIPC ==> Receive(sock.rx.data, uLength, ioctlOk, more) == receipt
      invariant bValidIPC ==>
                  uActual + HEADER <= pData.Length && receipt == Packet(pData[..HEADER + uActual], sock.rx.data)
      decreases !bValidIPC, |sock.rx.data|
    {
      ghost var current := sock.rx.data;
      var packetSize;
      uActual, packetSize := ReadHeader(sock, pData, more);
      NoWholeHeader(current, uLength, ioctlOk, more);
      if uActual == 0 {
        var _ := sock.RegisterCallback(pOldCallback);
        return 0, false;
      }
      if uActual != HEADER {
        more := Later(more);
        continue;
      }
      var ended;
      ended, undersized, bValidIPC, uActual, uLength, more :=
        BehindHeader(sock, pData, uLength, packetSize, ioctlOk, more, current);
      if ended {
        var _ := sock.RegisterCallback(pOldCallback);
        return 0, undersized;
      }
    }
    var _ := sock.RegisterCallback(pOldCallback);
    ret := uActual + HEADER;
  }

  // ----- Framing -----

  /** No pass of the loop puts bytes back. */
  lemma {:induction false} ReceiptShrinks(rx: string, limit: nat, ioctlOk: bool, answers: seq<RecvAnswer>)
    ensures match Receive(rx, limit, ioctlOk, answers)
            case Packet(packet, rest) => |packet| + |rest| <= |rx|
            case Nothing(rest) => |rest| <= |rx|
            case Undersized(rest) => |rest| <= |rx|
    decreases |rx|
  {
    hide U32, Took;
    var n, more := Took(rx, HEADER, answers), Later(answers);
    var body := rx[n..];
    if n != 0 && n != HEADER {
      ReceiptShrinks(body, limit, ioctlOk, more);
    } else if n == HEADER {
      var size := U32(rx, SIZE_AT);
      if limit < size {
        ReceiptShrinks(body, limit, ioctlOk, more);
        ReceiptShrinks(body[Took(body, |body|, more)..], limit, ioctlOk, Later(more));
      } else if size >= HEADER {
        ReceiptShrinks(body[Took(body, size - HEADER, more)..], size - HEADER, ioctlOk, Later(more));
      }
    }
  }

  /** The first receive yields the whole header of `p`, and the second the whole of its body. */
  predicate Undivided(p: string, later: string, answers: seq<RecvAnswer>)
    requires |p| >= HEADER
  {
    && Took(p + later, HEADER, answers) == HEADER
    && Took((p + later)[HEADER..], |p| - HEADER, Later(answers)) == |p| - HEADER
  }

  /** A message that has arrived whole is received, byte for byte and with what follows left in place,
      if and only if it fits and the kernel hands over its header and its body in one receive each. */
  lemma ReceivedIffUndivided(p: string, later: string, capacity: nat, ioctlOk: bool, answers: seq<RecvAnswer>)
    requires Message(p)
    ensures Receive(p + later, capacity, ioctlOk, answers) == Packet(p, later)
            <==> |p| <= capacity && Undivided(p, later, answers)
  {
    var rx := p + later;
    SizeOfFirst(p, later);
    hide U32, Took;
    assert rx[..|p|] == p && rx[|p|..] == later;
    var n, more := Took(rx, HEADER, answers), Later(answers);
    var body := rx[n..];
    if n != 0 && n != HEADER {
      ReceiptShrinks(body, capacity, ioctlOk, more);
    } else if n == HEADER && capacity < |p| {
      ReceiptShrinks(body, capacity, ioctlOk, more);
      ReceiptShrinks(body[Took(body, |body|, more)..], capacity, ioctlOk, Later(more));
    } else if n == HEADER {
      ReceiptShrinks(body[Took(body, |p| - HEADER, more)..], |p| - HEADER, ioctlOk, Later(more));
    }
  }

  lemma SizeOfFirst(p: string, later: string)
    requires Message(p)
    ensures U32(p + later, SIZE_AT) == |p|
  {
    assert forall i | 0 <= i < |p| :: (p + later)[i] == p[i];
  }

  /** From a kernel that hands over all it has, it is received if and only if it fits. */
  lemma ReceivedIffFits(p: string, later: string, capacity: nat, ioctlOk: bool)
    requires Message(p)
    ensures Receive(p + later, capacity, ioctlOk, []) == Packet(p, later) <==> |p| <= capacity
  {
    hide Receive, U32;
    ReceivedIffUndivided(p, later, capacity, ioctlOk, []);
  }

  /** A message that does not fit is dropped, and with it everything that had arrived behind its header;
      if the number of waiting bytes cannot be asked for, only the header is. */
  lemma OversizedDropsAll(p: string, later: string, capacity: nat, ioctlOk: bool)
    requires Message(p) && |p| > capacity
    ensures Receive(p + later, capacity, ioctlOk, []) == Nothing(if ioctlOk then "" else p[12..] + later)
  {
    hide U32;
    SizeOfFirst(p, later);
    var body := (p + later)[HEADER..];
    assert body == p[12..] + later && body[|body|..] == "";
  }

  /** A body that cannot be read leaves less room: a message in its place is then received if and only
      if it is no longer than that body, however much room there was at first. */
  lemma FailedBodyShrinksRoom(head: string, q: string, later: string, capacity: nat, ioctlOk: bool)
    requires |head| == 12 && 12 < U32(head, SIZE_AT) <= capacity && Message(q)
    ensures Receive(head + (q + later), capacity, ioctlOk, [Ready(12), RecvError]) == Packet(q, later)
            <==> |q| <= U32(head, SIZE_AT) - 12
  {
    var rx, size := head + (q + later), U32(head, SIZE_AT);
    assert forall i | 0 <= i < 12 :: rx[i] == head[i];
    assert rx[12..] == q + later && (q + later)[0..] == q + later;
    assert Later([Ready(12), RecvError]) == [RecvError];
    hide U32;
    ReceivedIffFits(q, later, size - 12, ioctlOk);
  }

  /** `n` receives with a fresh structure of the given capacity each. */
  function ReceiveMany(rx: string, capacity: nat, ioctlOk: bool, n: nat): (seq<string>, string)
    decreases n
  {
    if n == 0 then ([], rx)
    else
      match Receive(rx, capacity, ioctlOk, [])
      case Packet(p, rest) =>
        var (ps, end) := ReceiveMany(rest, capacity, ioctlOk, n - 1);
        ([p] + ps, end)
      case Nothing(rest) => ([], rest)
      case Undersized(rest) => ([], rest)
  }

  lemma {:induction false} ManyRecovered(ps: seq<string>, later: string, capacity: nat, ioctlOk: bool)
    requires forall i | 0 <= i < |ps| :: Message(ps[i]) && |ps[i]| <= capacity
    ensures ReceiveMany(Concat(ps) + later, capacity, ioctlOk, |ps|) == (ps, later)
    decreases |ps|
  {
    hide Message, Receive;
    if ps == [] {
      assert Concat(ps) + later == later;
    } else {
      var tail := Concat(ps[1..]);
      assert Concat(ps) + later == ps[0] + (tail + later);
      ReceivedIffFits(ps[0], tail + later, capacity, ioctlOk);
      ManyRecovered(ps[1..], later, capacity, ioctlOk);
      FirstOfMany(ps[0], tail + later, capacity, ioctlOk, |ps|);
      assert [ps[0]] + ps[1..] == ps;
    }
  }

  lemma FirstOfMany(p: string, more: string, capacity: nat, ioctlOk: bool, n: nat)
    requires n > 0 && Receive(p + more, capacity, ioctlOk, []) == Packet(p, more)
    ensures
      var (ps, end) := ReceiveMany(more, capacity, ioctlOk, n - 1);
      ReceiveMany(p + more, capacity, ioctlOk, n) == ([p] + ps, end)
  {
    hide Receive;
  }

  /** Any run of messages that fit the receiver, sent back to back into one byte stream, comes out
      message by message with the same boundaries and the same bytes everywhere but in the cookies. */
  lemma FramingRoundTrip(messages: seq<string>, cookie: nat, later: string, capacity: nat, ioctlOk: bool)
    requires forall i | 0 <= i < |messages| :: Message(messages[i]) && |messages[i]| <= capacity
    requires cookie + |messages| < 0x8000_0000
    ensures
      var (ps, rest) := ReceiveMany(Concat(SendMany(messages, cookie)) + later, capacity, ioctlOk, |messages|);
      && rest == later && |ps| == |messages|
      && forall i | 0 <= i < |ps| :: Carries(ps[i], messages[i], cookie + 1 + i)
  {
    CookiesIncrease(messages, cookie);
    ManyRecovered(SendMany(messages, cookie), later, capacity, ioctlOk);
  }

  /** Without a fresh structure the size field left by one message is the room for the next: the
      second of two messages is then received if and only if it is no longer than the first. */
  lemma ReusedStructureIff(p: string, q: string, later: string, capacity: nat, ioctlOk: bool)
    requires Message(p) && Message(q) && |p| <= capacity
    ensures
      var first := Receive(p + (q + later), capacity, ioctlOk, []);
      && first == Packet(p, q + later)
      && (Receive(first.rest, U32(first.packet, SIZE_AT), ioctlOk, []) == Packet(q, later) <==> |q| <= |p|)
  {
    hide Receive;
    ReceivedIffFits(p, q + later, capacity, ioctlOk);
    ReceivedIffFits(q, later, |p|, ioctlOk);
  }
}
