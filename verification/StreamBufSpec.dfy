/**
 The stream buffer as a value: the get area is the text behind and ahead of the get pointer, and
 the put area is the text not yet written. Each operation is given as a function of the socket,
 the areas and the kernel's answer.
 */
module StreamBufSpec {
  import opened Bytes
  import opened SocketSpec

  const CAP: nat := 256

  /** `back + ahead + rest` is the content of the input array, with the get pointer after `back`
      and the end of the get area after `ahead`. */
  datatype Area = Area(back: string, ahead: string, rest: string, pending: string)
  {
    predicate Valid() { |back| + |ahead| + |rest| == CAP && |pending| <= CAP }

    function Cells(): string { back + ahead + rest }
  }

  /** The state set up by the constructors: both areas empty, the get pointer at the far end. */
  function Fresh(cells: string): Area { Area(cells, "", "", "") }

  datatype PutResult = PutResult(sock: Sock, area: Area, ret: int, sent: string)

  datatype GetResult = GetResult(sock: Sock, area: Area, ret: int, taken: nat)

  /** Text of the put area after storing `ch` in it. */
  function Stored(pending: string, ch: int): string {
    if ch == EOF then pending else pending + [ToChar(ch)]
  }

  /** StreamBuf::overflow on an attached buffer. */
  function Overflow(s: Sock, a: Area, ch: int, ok: bool): PutResult {
    if |a.pending| == CAP then
      var s' := WriteSocket(s, ok);
      var sent := SentNow(s, a.pending, ok);
      if s'.status != SC_OK then PutResult(s', a, EOF, sent)
      else PutResult(s', a.(pending := Stored("", ch)), ch, sent)
    else
      PutResult(s, a.(pending := Stored(a.pending, ch)), ch, "")
  }

  /** StreamBuf::sync on an attached buffer. */
  function Sync(s: Sock, a: Area, ok: bool): PutResult {
    if a.pending == "" then PutResult(s, a, EOF, "")
    else if s.IsOpen() && s.Good() then
      var s' := WriteSocket(s, ok);
      var sent := SentNow(s, a.pending, ok);
      if s'.status != SC_OK then PutResult(s', a, EOF, sent)
      else PutResult(s', a.(pending := ""), 0, sent)
    else
      PutResult(s, Fresh(a.Cells()), EOF, "")
  }

  /** StreamBuf::underflow on an attached buffer: the first char comes back signed. */
  function Underflow(s: Sock, a: Area, rx: string, ans: ReadAnswer): GetResult
    requires a.Valid()
  {
    var r := ReadSocket(s, rx, CAP, ans);
    if r.n < 1 then GetResult(r.sock, a, EOF, 0)
    else GetResult(r.sock, a.(back := "", ahead := rx[..r.n], rest := a.Cells()[r.n..]), SignedChar(rx[0]), r.n)
  }

  function Bump(a: Area): Area {
    if a.ahead == "" then a else a.(back := a.back + [a.ahead[0]], ahead := a.ahead[1..])
  }

  /** StreamBuf::uflow on an attached buffer. */
  function Uflow(s: Sock, a: Area, rx: string, ans: ReadAnswer): GetResult
    requires a.Valid()
  {
    var u := Underflow(s, a, rx, ans);
    GetResult(u.sock, Bump(u.area), SignedChar(ToChar(u.ret)), u.taken)
  }

  /** StreamBuf::pbackfail. */
  function Pbackfail(a: Area, ch: int): (Area, int) {
    if a.back == "" then (a, EOF)
    else
      var last := |a.back| - 1;
      var c := if ch == EOF then a.back[last] else ToChar(ch);
      (a.(back := a.back[..last], ahead := [c] + a.ahead), ch)
  }

  /** `sputc` of the standard's basic_streambuf: it stores directly while there is room and calls
      overflow on a full area, which is what overflow itself does for a byte. */
  function Sputc(s: Sock, a: Area, c: char, ok: bool): PutResult {
    Overflow(s, a, c as int, ok)
  }

  /** `sbumpc` of the standard's basic_streambuf: directly from the get area, else uflow. */
  function Sbumpc(s: Sock, a: Area, rx: string, ans: ReadAnswer): GetResult
    requires a.Valid()
  {
    if a.ahead != "" then GetResult(s, Bump(a), a.ahead[0] as int, 0)
    else Uflow(s, a, rx, ans)
  }

  /** `sgetc` of the standard's basic_streambuf: directly from the get area, else underflow. */
  function Sgetc(s: Sock, a: Area, rx: string, ans: ReadAnswer): GetResult
    requires a.Valid()
  {
    if a.ahead != "" then GetResult(s, a, a.ahead[0] as int, 0)
    else Underflow(s, a, rx, ans)
  }

  // ----- What gets and peeks report -----

  /** A peek at an empty get area reports EOF if and only if nothing is received or the first byte
      received is 0xFF. Otherwise it reports that byte as a signed number; either way whatever was
      received then lies in the get area, and the peek has moved nothing. */
  lemma PeekReports(s: Sock, a: Area, rx: string, ans: ReadAnswer)
    requires a.Valid() && a.ahead == "" && (rx != "" ==> IsByte(rx[0]))
    ensures
      var g := Sgetc(s, a, rx, ans);
      && (g.ret == EOF <==> g.taken == 0 || rx[0] == FF)
      && g.taken == ReadSocket(s, rx, CAP, ans).n
      && (g.taken > 0 ==>
            && -128 <= g.ret < 128 && g.ret % 256 == rx[0] as int
            && g.area.back == "" && g.area.ahead == rx[..g.taken] && g.area.pending == a.pending)
      && (g.taken == 0 ==> g.area == a)
      && (ans.recv == Ready(256) && ans.ioctlOk ==> g.taken == Min(256, |rx|))
  {
  }

  /** A get from an empty area reports what the peek reports, and moves on by one if there is
      something. */
  lemma RefillGetReports(s: Sock, a: Area, rx: string, ans: ReadAnswer)
    requires a.Valid() && a.ahead == "" && (rx != "" ==> IsByte(rx[0]))
    ensures
      var g, p := Sbumpc(s, a, rx, ans), Sgetc(s, a, rx, ans);
      && g.ret == p.ret && g.taken == p.taken && g.sock == p.sock
      && (g.taken > 0 ==> g.area == p.area.(back := [rx[0]], ahead := rx[1..g.taken]))
      && (g.taken == 0 ==> g.area == a)
  {
    if ReadSocket(s, rx, CAP, ans).n > 0 {
      PromoteThenNarrow(rx[0]);
      assert rx[..ReadSocket(s, rx, CAP, ans).n][1..] == rx[1..ReadSocket(s, rx, CAP, ans).n];
    }
  }

  /** While there is something in the get area, peeks and gets report it as an unsigned number, ask
      nobody, and only the get moves on. */
  lemma AreaReports(s: Sock, a: Area, rx: string, ans: ReadAnswer)
    requires a.Valid() && a.ahead != "" && IsByte(a.ahead[0])
    ensures
      var g, p := Sbumpc(s, a, rx, ans), Sgetc(s, a, rx, ans);
      && 0 <= g.ret == p.ret < 256 && ToChar(g.ret) == a.ahead[0]
      && g.taken == p.taken == 0 && g.sock == p.sock == s && p.area == a
      && g.area.back + g.area.ahead == a.back + a.ahead && |g.area.ahead| == |a.ahead| - 1
      && g.area.rest == a.rest && g.area.pending == a.pending
  {
    assert a.back + [a.ahead[0]] + a.ahead[1..] == a.back + a.ahead;
  }

  // ----- The put area: exactly once -----

  /** A put writes only when 256 bytes are pending, and then all of them. It reports EOF if and only if
      that leaves a failed status; otherwise it reports what it was given, be it a byte or EOF. */
  lemma OverflowReports(s: Sock, a: Area, ch: int, ok: bool)
    requires s.WritesNow() && a.Valid()
    ensures
      var r := Overflow(s, a, ch, ok);
      && r.sent == (if |a.pending| == 256 && ok then a.pending else "")
      && r.ret == if |a.pending| == 256 && (!ok || s.status != SC_OK) then EOF else ch
  {
  }

  /** What the caller was told is accepted by one call of overflow. */
  function Accepted(ret: int, ch: int): string {
    if ret == EOF || ch == EOF then "" else [ToChar(ch)]
  }

  /** Bytes accepted are the bytes written followed by the put area, and overflow keeps it so
      exactly when it does not flush a full area successfully under a stale status. */
  lemma OverflowConserves(s: Sock, a: Area, ch: int, ok: bool, accepted: string, wire: string)
    requires s.WritesNow() && a.Valid()
    requires accepted == wire + a.pending
    ensures
      var r := Overflow(s, a, ch, ok);
      accepted + Accepted(r.ret, ch) == wire + r.sent + r.area.pending
      <==> !(|a.pending| == CAP && ok && s.status != SC_OK)
  {
    var r := Overflow(s, a, ch, ok);
    if |a.pending| == CAP && ok && s.status != SC_OK {
      assert |wire + r.sent + r.area.pending| > |accepted|;
    } else if |a.pending| == CAP && ok {
      assert wire + a.pending + Stored("", ch) == wire + (a.pending + Stored("", ch));
    }
  }

  /** The same for sync: it conserves the bytes exactly when it neither flushes under a stale
      status nor discards. It reports success exactly when it has written a non-empty put area. */
  lemma SyncConserves(s: Sock, a: Area, ok: bool, accepted: string, wire: string)
    requires s.WritesNow() && a.Valid()
    requires accepted == wire + a.pending
    ensures
      var r := Sync(s, a, ok);
      accepted == wire + r.sent + r.area.pending
      <==> a.pending == "" || (s.IsOpen() && s.Good() && (ok ==> s.status == SC_OK))
    ensures
      var r := Sync(s, a, ok);
      (r.ret == 0 <==> a.pending != "" && s.IsOpen() && s.Good() && ok && s.status == SC_OK)
      && (r.ret != 0 ==> r.ret == EOF)
  {
    var r := Sync(s, a, ok);
    if a.pending == "" {
      assert wire + r.sent + r.area.pending == wire + a.pending;
    } else {
      assert |accepted| == |wire| + |a.pending|;
      assert |wire + r.sent + r.area.pending| == |wire| + |r.sent| + |r.area.pending|;
    }
  }

  // ----- The get area: a stack in front of the input -----

  /** pbackfail of each character of `cs` in turn. */
  function PushAll(a: Area, cs: string): Area
    decreases |cs|
  {
    if cs == "" then a else PushAll(Pbackfail(a, cs[0] as int).0, cs[1..])
  }

  /** `n` gets served from the get area. */
  function GetAll(a: Area, n: nat): (string, Area)
    requires n <= |a.ahead|
    decreases n
  {
    if n == 0 then ("", a)
    else
      var (text, a') := GetAll(Bump(a), n - 1);
      ([a.ahead[0]] + text, a')
  }

  function Reverse(s: string): (r: string)
    ensures |r| == |s|
  {
    if s == "" then "" else Reverse(s[1..]) + [s[0]]
  }

  /** Characters pushed back lie in reverse order in front of the unchanged remainder. */
  lemma {:induction false} PushAllStacks(a: Area, cs: string)
    requires |cs| <= |a.back| && forall c | c in cs :: IsByte(c)
    ensures PushAll(a, cs) ==
            a.(back := a.back[..|a.back| - |cs|], ahead := Reverse(cs) + a.ahead)
    decreases |cs|
  {
    if cs == "" {
      assert a.back[..|a.back|] == a.back;
      assert Reverse(cs) + a.ahead == a.ahead;
    } else {
      var a1 := Pbackfail(a, cs[0] as int).0;
      assert cs[0] in cs && ToChar(cs[0] as int) == cs[0];
      PushAllStacks(a1, cs[1..]);
      assert a1.back[..|a1.back| - |cs[1..]|] == a.back[..|a.back| - |cs|];
      assert Reverse(cs[1..]) + ([cs[0]] + a.ahead) == Reverse(cs) + a.ahead;
    }
  }

  lemma {:induction false} GetAllTakes(a: Area, n: nat)
    requires n <= |a.ahead|
    ensures GetAll(a, n).0 == a.ahead[..n]
    ensures GetAll(a, n).1 == a.(back := a.back + a.ahead[..n], ahead := a.ahead[n..])
    decreases n
  {
    if n == 0 {
      assert a.back + a.ahead[..0] == a.back;
    } else {
      GetAllTakes(Bump(a), n - 1);
      assert [a.ahead[0]] + a.ahead[1..][..n - 1] == a.ahead[..n];
      assert a.back + [a.ahead[0]] + a.ahead[1..][..n - 1] == a.back + a.ahead[..n];
      assert a.ahead[1..][n - 1..] == a.ahead[n..];
    }
  }

  /** Push back then read: last in, first out, and the rest of the input is where it was. */
  lemma PushbackIsLifo(a: Area, cs: string)
    requires |cs| <= |a.back| && forall c | c in cs :: IsByte(c)
    ensures
      var p := PushAll(a, cs);
      |cs| <= |p.ahead| && GetAll(p, |cs|).0 == Reverse(cs) && GetAll(p, |cs|).1.ahead == a.ahead
  {
    PushAllStacks(a, cs);
    var p := PushAll(a, cs);
    GetAllTakes(p, |cs|);
    assert (Reverse(cs) + a.ahead)[..|cs|] == Reverse(cs);
    assert (Reverse(cs) + a.ahead)[|cs|..] == a.ahead;
  }

  /** Pushback of EOF steps back over the last char and changes nothing in the area, yet reports EOF
      like a pushback that failed. */
  lemma UngetRestores(a: Area)
    requires a.back != ""
    ensures
      var (a', ret) := Pbackfail(a, EOF);
      && a'.Cells() == a.Cells() && |a'.back| == |a.back| - 1 && a'.rest == a.rest && a'.pending == a.pending
      && Bump(a') == a && ret == EOF
  {
    var last := |a.back| - 1;
    assert a.back == a.back[..last] + [a.back[last]];
    assert a.back[..last] + ([a.back[last]] + a.ahead) == a.back + a.ahead;
  }

  /** Pushback of a byte succeeds exactly while the get pointer is off the start of the area. */
  lemma PushbackSucceedsIff(a: Area, c: char)
    requires IsByte(c)
    ensures Pbackfail(a, c as int).1 != EOF <==> a.back != ""
    ensures a.back != "" ==> Pbackfail(a, c as int).1 == c as int
    ensures a.back == "" ==> Pbackfail(a, c as int).0 == a
  {
  }
}
