/** The objects themselves: a byte pipe of the kernel, a connected socket, and its stream buffer. */
module Streams {
  import opened Bytes
  import opened SocketSpec
  import opened StreamBufSpec

  /** One direction of a connection: the bytes accepted from the sender and not yet received. */
  class Pipe {
    var data: string

    constructor ()
      ensures data == ""
    {
      data := "";
    }
  }

  /** The parameters a worker thread is started with. */
  datatype IoParams =
    | ReadParams(buf: array<char>, off: nat, count: nat, callback: nat)
    | WriteParams(data: string, callback: nat)

  class Socket {
    var hFile: int
    var state: StateTag
    var status: Status
    var bits: set<IoBit>
    var flags: OpenFlags
    var asyncMode: bool
    var protocol: Protocol
    var callback: nat
    var sslCtx: nat

    var rx: Pipe
    var tx: Pipe

    /** The worker threads started so far. */
    var workers: seq<IoParams>

    ghost function View(): Sock
      reads this
    {
      Sock(hFile, state, status, bits, flags, asyncMode, protocol, callback, sslCtx)
    }

    /** The constructors of Stream and Socket. The source leaves open flags and protocol unset. */
    constructor (rx: Pipe, tx: Pipe, flags: OpenFlags, protocol: Protocol)
      ensures View() == Sock(INVALID_SOCKET, SSClosed, SC_OK, {}, flags, false, protocol, 0, 0)
      ensures this.rx == rx && this.tx == tx && workers == []
    {
      hFile, state, status, bits := INVALID_SOCKET, SSClosed, SC_OK, {};
      asyncMode, callback, sslCtx, workers := false, 0, 0, [];
      this.rx, this.tx, this.flags, this.protocol := rx, tx, flags, protocol;
    }

    /** Stream::registerCallback: installs a callback and hands back the previous one. */
    method RegisterCallback(newCallback: nat) returns (oldCallback: nat)
      modifies this`callback
      ensures callback == newCallback && oldCallback == old(callback)
    {
      oldCallback := callback;
      callback := newCallback;
    }

    /** The kernel's `recv` into `buf[off..]`. */
    method Recv(buf: array<char>, off: nat, count: nat, ans: RecvAnswer) returns (result: int)
      requires off + count <= buf.Length
      modifies rx, buf
      ensures result == RecvCount(old(rx.data), count, ans)
      ensures var n := Max(result, 0);
              && rx.data == old(rx.data)[n..]
              && buf[..] == old(buf[..off]) + old(rx.data)[..n] + old(buf[off + n..])
    {
      result := RecvCount(rx.data, count, ans);
      if result > 0 {
        var before := rx.data;
        forall i | 0 <= i < result {
          buf[off + i] := before[i];
        }
        rx.data := before[result..];
      }
    }

    /** Socket::read and SSConnected::read. It returns what the value-level read returns, moves
        those bytes from the pipe to the front of the buffer, and touches nothing else. */
    method Read(buf: array<char>, off: nat, count: nat, ans: ReadAnswer) returns (n: nat)
      requires off + count <= buf.Length
      requires count > 0 ==> View().CanRead()
      modifies this`status, this`bits, this`workers, rx, buf
      ensures n <= count && n <= |old(rx.data)|
      ensures rx.data == old(rx.data)[n..]
      ensures buf[..] == old(buf[..off]) + old(rx.data)[..n] + old(buf[off + n..])
      ensures count == 0 ==> n == 0 && View() == old(View()) && workers == old(workers)
      ensures count > 0 ==>
                var r := ReadSocket(old(View()), old(rx.data), count, ans);
                && n == r.n && View() == r.sock
                && workers == old(workers) + if r.spawned then [ReadParams(buf, off, count, callback)] else []
    {
      n := 0;
      if count == 0 {
        return;
      }
      var result := 0;
      if !asyncMode {
        result := Recv(buf, off, count, ans.recv);
        if result <= 0 {
          status := SC_NODATA;
          bits := bits + {EofBit};
          return;
        }
        bits := bits - {EofBit};
      } else {
        if !ans.ioctlOk {
          status := SC_NODATA;
          bits := bits + {EofBit};
          return;
        }
        if |rx.data| > 0 {
          result := Recv(buf, off, Min(|rx.data|, count), ans.recv);
          if result <= 0 {
            status := SC_NODATA;
            bits := bits + {if result < 0 then BadBit else EofBit};
            return;
          }
        } else {
          if callback == 0 {
            status := SC_NODATA;
            bits := bits + {EofBit};
            return;
          }
          workers := workers + [ReadParams(buf, off, count, callback)];
        }
      }
      if result >= 0 {
        status := SC_OK;
        bits := {};
      }
      n := result;
    }

    /** Socket::write and SSConnected::write, `ok` being whether `send` accepts the bytes. */
    method Write(data: string, ok: bool)
      requires View().CanWrite()
      modifies this`status, this`bits, this`workers, tx
      ensures View() == WriteSocket(old(View()), ok)
      ensures tx.data == old(tx.data) + SentNow(old(View()), data, ok)
      ensures workers == old(workers) + if old(View()).WritesNow() then [] else [WriteParams(data, callback)]
    {
      if !(asyncMode && callback != 0) {
        if !ok {
          status := SC_FAILED;
          bits := bits + {FailBit};
        } else {
          tx.data := tx.data + data;
          bits := bits - {FailBit};
        }
      } else {
        workers := workers + [WriteParams(data, callback)];
      }
    }
  }

  /** StreamBuf: two fixed arrays with moving get and put pointers. */
  class StreamBuf {
    var stream: Socket?
    const inbuff: array<char>
    const outbuff: array<char>
    var eback: nat
    var gptr: nat
    var egptr: nat
    var pptr: nat

    /** The pointer order that holds in every reachable state. */
    ghost predicate Valid()
      reads this
    {
      && inbuff != outbuff && inbuff.Length == outbuff.Length == CAP
      && eback == 0
      && eback <= gptr <= egptr <= CAP
      && pptr <= CAP
    }

    ghost function Contents(): (a: Area)
      requires Valid()
      reads this, inbuff, outbuff
      ensures a.Valid()
    {
      Area(inbuff[..gptr], inbuff[gptr..egptr], inbuff[egptr..], outbuff[..pptr])
    }

    constructor (stream: Socket?)
      ensures Valid() && this.stream == stream && fresh(inbuff) && fresh(outbuff)
      ensures Contents() == Fresh(inbuff[..])
    {
      this.stream := stream;
      inbuff := new char[CAP];
      outbuff := new char[CAP];
      eback, gptr, egptr, pptr := 0, CAP, CAP, 0;
    }

    method Setg(gbeg: nat, gcurr: nat, gend: nat)
      modifies this`eback, this`gptr, this`egptr
      ensures eback == gbeg && gptr == gcurr && egptr == gend
    {
      eback, gptr, egptr := gbeg, gcurr, gend;
    }

    /** StreamBuf::overflow. Detached from a stream it keeps only the last character. */
    method Overflow(ch: int, ok: bool) returns (ret: int)
      requires Valid()
      requires stream != null && pptr == CAP ==> stream.View().CanWrite()
      modifies this`pptr, outbuff
      modifies if stream != null then {stream, stream.tx} else {}
      ensures Valid() && stream == old(stream)
      ensures stream != null ==>
                var r := StreamBufSpec.Overflow(old(stream.View()), old(Contents()), ch, ok);
                && stream.View() == r.sock && Contents() == r.area && ret == r.ret
                && stream.rx == old(stream.rx) && stream.tx == old(stream.tx)
                && stream.tx.data == old(stream.tx.data) + r.sent
      ensures stream == null ==> Contents() == old(Contents()).(pending := [ToChar(ch)]) && ret == ch
    {
      var chr := ToChar(ch);
      if stream != null {
        if pptr == CAP {
          stream.Write(outbuff[..pptr], ok);
          if stream.status != SC_OK {
            assert outbuff[..pptr] == old(outbuff[..pptr]);
            return EOF;
          }
          pptr := 0;
        }
        if ch != EOF {
          outbuff[pptr] := chr;
          pptr := pptr + 1;
          assert outbuff[..pptr] == outbuff[..pptr - 1] + [chr];
        }
      } else {
        pptr := 0;
        outbuff[pptr] := chr;
        pptr := pptr + 1;
        assert outbuff[..pptr] == [chr];
      }
      return ch;
    }

    /** StreamBuf::pbackfail. */
    method Pbackfail(ch: int) returns (ret: int)
      requires Valid()
      modifies this`gptr, inbuff
      ensures Valid() && stream == old(stream)
      ensures (Contents(), ret) == StreamBufSpec.Pbackfail(old(Contents()), ch)
    {
      if eback == gptr {
        return EOF;
      }
      gptr := gptr - 1;
      if ch != EOF {
        inbuff[gptr] := ToChar(ch);
      }
      ghost var a := old(Contents());
      assert inbuff[..gptr] == a.back[..|a.back| - 1];
      assert inbuff[gptr + 1..egptr] == a.ahead;
      assert inbuff[gptr..egptr] == [inbuff[gptr]] + inbuff[gptr + 1..egptr];
      assert inbuff[egptr..] == a.rest;
      return ch;
    }

    /** StreamBuf::sync. On a stream that is closed or not good, or without one, it empties both
        areas. */
    method Sync(ok: bool) returns (ret: int)
      requires Valid()
      requires stream != null && pptr != 0 && stream.View().IsOpen() && stream.View().Good() ==>
                 stream.View().CanWrite()
      modifies this`eback, this`gptr, this`egptr, this`pptr
      modifies if stream != null then {stream, stream.tx} else {}
      ensures Valid() && stream == old(stream)
      ensures stream != null ==>
                var r := StreamBufSpec.Sync(old(stream.View()), old(Contents()), ok);
                && stream.View() == r.sock && Contents() == r.area && ret == r.ret
                && stream.rx == old(stream.rx) && stream.tx == old(stream.tx)
                && stream.tx.data == old(stream.tx.data) + r.sent
      ensures stream == null ==>
                && ret == EOF
                && Contents() == if old(pptr) == 0 then old(Contents()) else Fresh(old(Contents()).Cells())
    {
      if pptr == 0 {
        return EOF;
      }
      if stream != null && stream.hFile != INVALID_SOCKET && stream.bits == {} {
        stream.Write(outbuff[..pptr], ok);
        if stream.status != SC_OK {
          return EOF;
        }
        pptr := 0;
        return 0;
      }
      assert inbuff[..] == inbuff[..gptr] + inbuff[gptr..egptr] + inbuff[egptr..];
      Setg(0, CAP, CAP);
      pptr := 0;
      return EOF;
    }

    /** StreamBuf::underflow. Without a stream it reports the end of the input. */
    method Underflow(ans: ReadAnswer) returns (ret: int)
      requires Valid() && (stream != null ==> stream.View().CanRead())
      modifies this`eback, this`gptr, this`egptr, inbuff
      modifies if stream != null then {stream, stream.rx} else {}
      ensures Valid() && stream == old(stream)
      ensures stream != null ==>
                var r := StreamBufSpec.Underflow(old(stream.View()), old(Contents()), old(stream.rx.data), ans);
                && stream.View() == r.sock && Contents() == r.area && ret == r.ret
                && stream.rx == old(stream.rx) && stream.tx == old(stream.tx)
                && stream.rx.data == old(stream.rx.data)[r.taken..]
      ensures stream == null ==> ret == EOF && Contents() == old(Contents())
    {
      var chr := ToChar(EOF);
      if stream != null {
        assert inbuff[..] == inbuff[..gptr] + inbuff[gptr..egptr] + inbuff[egptr..];
        var sz := stream.Read(inbuff, 0, CAP, ans);
        if sz < 1 {
          assert inbuff[..] == old(inbuff[..]);
          return EOF;
        }
        Setg(0, 0, sz);
        chr := inbuff[gptr];
      }
      return SignedChar(chr);
    }

    /** StreamBuf::uflow. */
    method Uflow(ans: ReadAnswer) returns (ret: int)
      requires Valid() && (stream != null ==> stream.View().CanRead())
      modifies this`eback, this`gptr, this`egptr, inbuff
      modifies if stream != null then {stream, stream.rx} else {}
      ensures Valid() && stream == old(stream)
      ensures stream != null ==>
                var r := StreamBufSpec.Uflow(old(stream.View()), old(Contents()), old(stream.rx.data), ans);
                && stream.View() == r.sock && Contents() == r.area && ret == r.ret
                && stream.rx == old(stream.rx) && stream.tx == old(stream.tx)
                && stream.rx.data == old(stream.rx.data)[r.taken..]
      ensures stream == null ==> ret == EOF && Contents() == Bump(old(Contents()))
    {
      hide StreamBufSpec.Underflow, Bump, Contents;
      var u := Underflow(ans);
      var chr := ToChar(u);
      AdvanceGet();
      return SignedChar(chr);
    }

    /** `gbump(1)`, unless the get area is used up. */
    method AdvanceGet()
      requires Valid()
      modifies this`gptr
      ensures Valid() && stream == old(stream)
      ensures Contents() == Bump(old(Contents()))
    {
      if gptr < egptr {
        gptr := gptr + 1;
        assert inbuff[..gptr] == inbuff[..gptr - 1] + [inbuff[gptr - 1]];
      }
    }
  }
}
