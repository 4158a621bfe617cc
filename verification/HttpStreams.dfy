/** The HTTP streams: printing and parsing messages over a socket. */
module HttpStreams {
  import opened Bytes
  import opened Decimal
  import opened SocketSpec
  import opened Streams
  import opened DelimiterScan
  import opened Wrappers
  import T = HttpText

  /** HttpStream and HttpServerStream. `headers` maps a key to what its encoder prints. */
  class HttpStream {
    const sock: Socket
    var headers: T.Headers
    var reqHeaders: T.Headers

    constructor (sock: Socket)
      ensures this.sock == sock && headers == map[] && reqHeaders == map[]
    {
      this.sock, headers, reqHeaders := sock, map[], map[];
    }

    method AddHeader(header: string, value: string)
      modifies this`headers
      ensures headers == old(headers)[header := value]
    {
      headers := headers[header := value];
    }

    /** HttpStream::expandHeaders, `order` being the order in which the map is iterated. */
    method ExpandHeaders(str: string, order: seq<string>) returns (out: string)
      requires T.KeysIn(order, headers)
      ensures out == str + T.HeaderLines(order, headers) + CRLF
    {
      out := str;
      var i := 0;
      while i < |order|
        invariant 0 <= i <= |order|
        invariant out + T.HeaderLines(order[i..], headers) == str + T.HeaderLines(order, headers)
      {
        var line := T.HeaderLine(order[i], headers[order[i]]);
        assert out + (line + T.HeaderLines(order[i + 1..], headers))
               == out + line + T.HeaderLines(order[i + 1..], headers);
        assert order[i..][1..] == order[i + 1..];
        out := out + line;
        i := i + 1;
      }
      assert T.HeaderLines(order[i..], headers) == "";
      out := out + CRLF;
    }

    /** HttpStream::parseHeaders: the cursor moves forward until no complete header is left. */
    method ParseHeaders(str: string) returns (parsed: T.Headers)
      ensures parsed == T.ToMap(T.Entries(str))
    {
      hide T.Entries, T.ToMap, T.FindFirstOf, T.FindFirstNotOf;
      parsed := map[];
      T.ToMapEmpty();
      if str == "" {
        T.EntriesStuck(str);
        return;
      }
      ghost var done: seq<(string, string)> := [];
      var pt := 0;
      while true
        invariant 0 <= pt <= |str|
        invariant parsed == T.ToMap(done)
        invariant done + T.Entries(str[pt..]) == T.Entries(str)
        decreases |str| - pt
      {
        ghost var start := pt;
        pt := T.FindFirstNotOf(str, T.BLANKS, pt);
        var col := T.FindFirstOf(str, {':'}, pt);
        var nl := T.FindFirstOf(str, T.NEWLINES, col);
        EntriesFrom(str, start, pt, col, nl);
        if pt == |str| || col == |str| || nl == |str| {
          break;
        }
        var hkey := str[pt..col];
        var hval := str[col + 1..nl];
        T.ToMapAppend(done, (hkey, hval));
        parsed := parsed[hkey := hval];
        assert done + ([(hkey, hval)] + T.Entries(str[nl..])) == done + [(hkey, hval)] + T.Entries(str[nl..]);
        done := done + [(hkey, hval)];
        pt := nl;
      }
      assert done + [] == done;
    }

    /** HttpServerStream::split. */
    method Split(s: string, delim: char) returns (elems: seq<string>)
      ensures elems == T.Split(s, delim)
    {
      elems := [];
      var pos := 0;
      while pos < |s|
        invariant 0 <= pos <= |s|
        invariant elems + T.Split(s[pos..], delim) == T.Split(s, delim)
      {
        var end := T.FindFirstOf(s, {delim}, pos);
        SplitFrom(s, delim, pos, end);
        elems := elems + [s[pos..end]];
        pos := if end < |s| then end + 1 else end;
      }
      assert s[pos..] == "";
    }

    /** The writes of get, post, put and deleter: the head, then the payload if there is one. */
    method SendRequest(v: T.Verb, uri: string, payload: Option<string>, order: seq<string>, ok: bool, ok2: bool)
      requires !v.INVALID? && T.KeysIn(order, headers)
      requires sock.View().CanWrite()
      modifies sock`status, sock`bits, sock`workers, sock.tx
      ensures sock.View().CanWrite() && sock.rx == old(sock.rx) && sock.asyncMode == old(sock.asyncMode)
      ensures var head := T.RequestText(v, uri, order, headers);
              var s := old(sock.View());
              sock.tx.data == old(sock.tx.data) + SentNow(s, head, ok)
                              + if payload.Some? then SentNow(s, payload.value, ok2) else ""
    {
      var httpreq := T.VerbName(v) + " " + uri + " " + T.VERSION + CRLF;
      httpreq := ExpandHeaders(httpreq, order);
      sock.Write(httpreq, ok);
      if payload.Some? {
        sock.Write(payload.value, ok2);
      }
    }

    /** HttpStream::get with string results: it returns the head and the content that the delimiter
        reads take, and the count is the number of bytes consumed. A receive may fail in either read,
        behind `failHead` and `failContent` bytes of it. */
    method Get(uri: string, order: seq<string>, ok: bool, failHead: nat, failContent: nat)
      returns (ret: nat, content: string, head: string)
      requires T.KeysIn(order, headers) && sock.View().CanWrite() && Blocking(sock) && sock.rx != sock.tx
      modifies sock`status, sock`bits, sock`workers, sock.tx, sock.rx
      ensures var rx := old(sock.rx.data);
              && head == T.HeadTaken(Cut(rx, failHead)) && |head| <= |rx|
              && content == T.LineTaken(Cut(rx[|head|..], failContent))
              && (failHead >= |rx| && failContent >= |rx| ==> head == T.HeadTaken(rx) && content == T.ContentTaken(rx))
              && ret == |head| + |content| && sock.rx.data == rx[ret..]
      ensures sock.tx.data == old(sock.tx.data)
                              + if ok then T.RequestText(T.GET, uri, order, headers) else ""
    {
      SendRequest(T.GET, uri, None, order, ok, true);
      var n;
      hide Scan, Cut, T.RequestText, SentNow;
      ghost var rx := sock.rx.data;
      ret, head := ReadDelimited(sock, CRLFCRLF, failHead);
      assert head == Cut(rx, failHead)[..ret];
      n, content := ReadDelimited(sock, CRLF, failContent);
      ghost var rest := rx[|head|..];
      assert content == Cut(rest, failContent)[..n];
      if failHead >= |rx| && failContent >= |rx| {
        CutAll(rx, failHead);
        CutAll(rest, failContent);
      }
      ret := ret + n;
    }

    /** The part of HttpServerStream::request behind the read: `text` is the whole buffer, of which
        `ret` chars were received. `overrun` marks a request line that ends beyond them; the source
        then passes a negative size on, and nothing is claimed about the headers. */
    method ParseMessage(text: string, ret: nat) returns (funct: T.Verb, url: string, overrun: bool)
      requires ret <= |text|
      modifies this`reqHeaders
      ensures match T.ParseRequest(text, ret)
              case BadLine => funct == T.INVALID && reqHeaders == old(reqHeaders) && !overrun
              case Overrun(verb, uri) => overrun && funct == verb && url == uri
              case Request(verb, uri, hs) => funct == verb && url == uri && reqHeaders == hs && !overrun
    {
      hide T.Entries, T.ToMap, T.Split, T.FindFirstOf, T.VerbOf;
      funct, url, overrun := T.INVALID, "", false;
      var nl := 0;
      while nl < |text| && text[nl] != T.NUL
        invariant 0 <= nl <= |text|
        invariant forall i | 0 <= i < nl :: text[i] !in T.LINE_ENDS
      {
        if text[nl] == LF || text[nl] == CR {
          break;
        }
        nl := nl + 1;
      }
      assert nl == T.FindFirstOf(text, T.LINE_ENDS, 0);
      if nl <= 0 {
        return;
      }
      var cmdline := Split(text[..nl], ' ');
      if |cmdline| != 3 {
        return;
      }
      funct := T.VerbOf(cmdline[0]);
      url := cmdline[1];
      nl := nl + 1;
      if ret < nl {
        overrun := true;
        return;
      }
      reqHeaders := ParseHeaders(text[nl..ret]);
    }

    /** HttpServerStream::request: it parses what one read puts at the front of the buffer. */
    method Request(buffer: array<char>, ans: ReadAnswer)
      returns (ret: nat, funct: T.Verb, url: string, overrun: bool)
      requires buffer.Length >= 17 ==> sock.View().CanRead()
      modifies this`reqHeaders, buffer, sock`status, sock`bits, sock`workers, sock.rx
      ensures ret == if buffer.Length < 17 then 0
                     else ReadSocket(old(sock.View()), old(sock.rx.data), buffer.Length, ans).n
      ensures sock.rx.data == old(sock.rx.data)[ret..]
      ensures buffer[..] == old(sock.rx.data)[..ret] + old(buffer[..])[ret..]
      ensures ret == 0 ==> funct == T.INVALID && reqHeaders == old(reqHeaders)
      ensures ret > 0 ==>
                match T.ParseRequest(buffer[..], ret)
                case BadLine => funct == T.INVALID && reqHeaders == old(reqHeaders) && !overrun
                case Overrun(verb, uri) => overrun && funct == verb && url == uri
                case Request(verb, uri, hs) => funct == verb && url == uri && reqHeaders == hs && !overrun
    {
      hide T.ParseRequest;
      ret, funct, url, overrun := 0, T.INVALID, "", false;
      if buffer.Length < 17 {
        return;
      }
      ret := sock.Read(buffer, 0, buffer.Length, ans);
      if ret <= 0 {
        return;
      }
      funct, url, overrun := ParseMessage(buffer[..], ret);
    }

    /** The headers after response has added its own. */
    static function WithContent(hs: T.Headers, count: nat, contentType: Option<string>): T.Headers {
      (if contentType.Some? then hs["Content-Type" := contentType.value] else hs)["Content-Length" := Dec(count)]
    }

    /** HttpServerStream::response. */
    method Response(
      buffer: Option<string>, count: nat, contentType: Option<string>, statusCode: nat, order: seq<string>,
      ok: bool, ok2: bool)
      requires buffer.Some? ==> count <= |buffer.value|
      requires T.KeysIn(order, WithContent(headers, count, contentType)) && sock.View().CanWrite()
      modifies this`headers, sock`status, sock`bits, sock`workers, sock.tx
      ensures headers == WithContent(old(headers), count, contentType)
      ensures var head := T.ResponseHead(statusCode, order, headers);
              var s := old(sock.View());
              sock.tx.data == old(sock.tx.data) + SentNow(s, head, ok)
                              + if buffer.Some? then SentNow(s, buffer.value[..count], ok2) else ""
    {
      if contentType.Some? {
        AddHeader("Content-Type", contentType.value);
      }
      AddHeader("Content-Length", Dec(count));
      var httpres := T.StatusLine(statusCode);
      httpres := ExpandHeaders(httpres, order);
      sock.Write(httpres, ok);
      if buffer.Some? {
        sock.Write(buffer.value[..count], ok2);
      }
    }
  }

  /** What a client makes of a response: the head it takes says the status, the length of the body
      behind it, the type of the content, and every header that was set before. */
  lemma ResponseIsUnderstood(
      hs: T.Headers, buffer: string, count: nat, contentType: Option<string>, status: nat, order: seq<string>)
    requires count <= |buffer| && T.Enumerates(order, HttpStream.WithContent(hs, count, contentType))
    requires var m := HttpStream.WithContent(hs, count, contentType); T.AllPlain(order, m) && T.NoCR(order, m)
    ensures
      var m := HttpStream.WithContent(hs, count, contentType);
      var body := buffer[..count];
      var head := T.HeadTaken(T.ResponseHead(status, order, m) + body);
      var nl := T.FindFirstOf(head, T.NEWLINES, 0);
      var parsed := T.ToMap(T.Entries(head[nl..]));
      && head + body == T.ResponseHead(status, order, m) + body
      && "HTTP/1.1 " <= head && Atoi(head[9..]) == status
      && "Content-Length" in parsed && Atoi(parsed["Content-Length"]) == |body|
      && (contentType.Some? ==> "Content-Type" in parsed && parsed["Content-Type"] == " " + contentType.value)
      && forall k | k in hs && k != "Content-Length" && (k != "Content-Type" || contentType.None?) ::
           k in parsed && parsed[k] == " " + hs[k]
  {
    hide T.ResponseHead, T.Entries, T.ToMap, T.FindFirstOf, Scan, Atoi, Dec;
    var m := HttpStream.WithContent(hs, count, contentType);
    var head, body := T.ResponseHead(status, order, m), buffer[..count];
    T.HeadIsRead(status, order, m, body);
    assert (head + body)[..|head|] == head;
    T.HeadIsUnderstood(status, order, m);
    AtoiReads(" ", count, "");
    assert " " + (Dec(count) + "") == " " + Dec(count);
  }

  /** One turn of the header loop, seen from the text behind the cursor. */
  lemma EntriesFrom(str: string, start: nat, pt: nat, col: nat, nl: nat)
    requires start <= |str|
    requires pt == T.FindFirstNotOf(str, T.BLANKS, start)
    requires col == T.FindFirstOf(str, {':'}, pt)
    requires nl == T.FindFirstOf(str, T.NEWLINES, col)
    ensures T.Entries(str[start..]) ==
            if pt == |str| || col == |str| || nl == |str| then []
            else [(str[pt..col], str[col + 1..nl])] + T.Entries(str[nl..])
    ensures nl < |str| ==> start <= pt <= col < nl
  {
    hide T.FindFirstOf, T.FindFirstNotOf, T.Entries;
    var t := str[start..];
    assert forall i | start <= i < |str| :: str[i] == t[i - start];
    if nl < |str| {
      assert T.Heads(t, pt - start, col - start, nl - start);
      StepInTail(str, start, pt, col, nl);
    } else {
      if col < |str| {
        assert T.StuckAt(t, col - start);
      }
      T.EntriesStuck(t);
    }
  }

  lemma StepInTail(str: string, start: nat, pt: nat, col: nat, nl: nat)
    requires start <= pt <= col < nl < |str|
    requires T.Heads(str[start..], pt - start, col - start, nl - start)
    ensures T.Entries(str[start..]) == [(str[pt..col], str[col + 1..nl])] + T.Entries(str[nl..])
  {
    hide T.Entries, T.Heads;
    var t := str[start..];
    T.EntriesStep(t, pt - start, col - start, nl - start);
    assert t[pt - start..col - start] == str[pt..col] && t[nl - start..] == str[nl..];
    assert t[col - start + 1..nl - start] == str[col + 1..nl];
  }

  /** One turn of the split loop. */
  lemma SplitFrom(s: string, delim: char, pos: nat, end: nat)
    requires pos < |s| && end == T.FindFirstOf(s, {delim}, pos)
    ensures T.Split(s[pos..], delim) ==
            [s[pos..end]] + T.Split(s[if end < |s| then end + 1 else end..], delim)
  {
    hide T.FindFirstOf;
    var t := s[pos..];
    assert forall i | pos <= i < |s| :: s[i] == t[i - pos];
    assert T.FindFirstOf(t, {delim}, 0) == end - pos;
    assert t[..end - pos] == s[pos..end];
    if end < |s| {
      assert t[end - pos + 1..] == s[end + 1..];
    } else {
      assert t == s[pos..end] && s[end..] == "";
    }
  }
}
