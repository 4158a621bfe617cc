/**
 Reading up to a delimiter. The scanner reads one byte at a time and never looks at a byte twice:
 a byte that breaks a partial match is dropped even when it could start a new one.
 */
module DelimiterScan {
  import opened Bytes
  import opened SocketSpec
  import opened Streams

  const CRLF: string := [CR, LF]
  const CRLFCRLF: string := [CR, LF, CR, LF]

  // ----- What the scanner does -----

  /** How one attempt to match the delimiter ends, and where the input stands then. */
  datatype Attempt = Found(at: nat) | Broken(at: nat) | Ended

  /** The inner loop: input position `p`, with `d[..di]` already matched. */
  function Match(s: string, d: string, p: nat, di: nat): (a: Attempt)
    requires p <= |s| && di <= |d|
    ensures !a.Ended? ==> p <= a.at <= |s|
    ensures a.Broken? ==> a.at > p
    ensures a.Found? ==> a.at == p + |d| - di && s[p..a.at] == d[di..]
    decreases |d| - di
  {
    if di == |d| then Found(p)
    else if p == |s| then Ended
    else if s[p] != d[di] then Broken(p + 1)
    else Match(s, d, p + 1, di + 1)
  }

  /** The outer loop from position `i`: where in `s` the scanner stops. */
  function Scan(s: string, d: string, i: nat): (stop: nat)
    requires i <= |s| && |d| >= 2
    ensures i <= stop <= |s|
    decreases |s| - i
  {
    if i == |s| then i
    else if s[i] != d[0] then Scan(s, d, i + 1)
    else
      match Match(s, d, i + 1, 1)
      case Found(p) => p
      case Ended => |s|
      case Broken(p) => Scan(s, d, p)
  }

  lemma ScanUnfolds(s: string, d: string, i: nat)
    requires i <= |s| && |d| >= 2
    ensures
      Scan(s, d, i) ==
      if i == |s| then i
      else if s[i] != d[0] then Scan(s, d, i + 1)
      else match Match(s, d, i + 1, 1) case Found(p) => p case Ended => |s| case Broken(p) => Scan(s, d, p)
  {
  }

  /** A stop short of the end of the input is a stop at a delimiter. */
  lemma {:induction false} StopsAtDelimiter(s: string, d: string, i: nat)
    requires i <= |s| && |d| >= 2
    ensures
      var stop := Scan(s, d, i);
      stop < |s| ==> i + |d| <= stop && s[stop - |d|..stop] == d
    decreases |s| - i
  {
    if i < |s| {
      if s[i] != d[0] {
        StopsAtDelimiter(s, d, i + 1);
      } else {
        match Match(s, d, i + 1, 1)
        case Found(p) =>
          assert s[i..p] == [s[i]] + s[i + 1..p] && d == [d[0]] + d[1..];
        case Ended =>
        case Broken(p) => StopsAtDelimiter(s, d, p);
      }
    }
  }

  // ----- Where it stops, exactly -----

  predicate At(s: string, d: string, k: nat) {
    k + |d| <= |s| && s[k..k + |d|] == d
  }

  /** How many CRs stand right before position `i`. */
  function CrRun(s: string, i: nat): nat
    requires i <= |s|
  {
    if i == 0 || s[i - 1] != CR then 0 else 1 + CrRun(s, i - 1)
  }

  /** A delimiter at `k` whose CR ends a run of an odd number of CRs. */
  predicate Seen(s: string, d: string, k: nat) {
    k < |s| && At(s, d, k) && CrRun(s, k + 1) % 2 == 1
  }

  /** The end of the first seen delimiter at or after `i`, or the end of the input. */
  function FirstSeen(s: string, d: string, i: nat): nat
    requires i <= |s|
    decreases |s| - i
  {
    if i == |s| then |s| else if Seen(s, d, i) then i + |d| else FirstSeen(s, d, i + 1)
  }

  /** Naive search: the end of the first delimiter at or after `i`, or the end of the input. */
  function First(s: string, d: string, i: nat): nat
    requires i <= |s|
    decreases |s| - i
  {
    if i == |s| then |s| else if At(s, d, i) then i + |d| else First(s, d, i + 1)
  }

  predicate HttpDelimiter(d: string) { d == CRLF || d == CRLFCRLF }

  /** The two delimiters spelled out. */
  predicate Spelled(s: string, d: string, k: nat) {
    && k + |d| <= |s| && k + 2 <= |s|
    && s[k] == CR && s[k + 1] == LF
    && (d == CRLFCRLF && k + 4 <= |s| ==> s[k + 2] == CR && s[k + 3] == LF)
  }

  lemma AtIsSpelled(s: string, d: string, k: nat)
    requires HttpDelimiter(d)
    ensures At(s, d, k) <==> Spelled(s, d, k)
  {
    if k + |d| <= |s| {
      var w := s[k..k + |d|];
      assert forall m | 0 <= m < |d| :: w[m] == s[k + m];
    }
  }

  /** How a match attempt that has consumed a CR at `i` breaks or ends. */
  lemma MatchUnfolds(s: string, d: string, i: nat)
    requires HttpDelimiter(d) && i < |s|
    ensures
      var a := Match(s, d, i + 1, 1);
      if i + 1 == |s| then a.Ended?
      else if s[i + 1] != LF then a == Broken(i + 2)
      else if d == CRLF then a == Found(i + 2)
      else if i + 2 == |s| then a.Ended?
      else if s[i + 2] != CR then a == Broken(i + 3)
      else if i + 3 == |s| then a.Ended?
      else if s[i + 3] != LF then a == Broken(i + 4)
      else a == Found(i + 4)
  {
    if i + 1 < |s| && s[i + 1] == LF {
      assert Match(s, d, i + 1, 1) == Match(s, d, i + 2, 2);
      if d != CRLF && i + 2 < |s| && s[i + 2] == CR {
        assert Match(s, d, i + 2, 2) == Match(s, d, i + 3, 3);
      }
    }
  }

  /** The three ways in which an attempt that has consumed a CR at `i` breaks before `p`. */
  predicate Swallowed(s: string, i: nat, p: nat) {
    p <= |s| &&
    (|| (p == i + 2 && s[i + 1] != LF)
     || (p == i + 3 && s[i + 1] == LF && s[i + 2] != CR)
     || (p == i + 4 && s[i + 1] == LF && s[i + 2] == CR && s[i + 3] != LF))
  }

  lemma BrokenIsSwallowed(s: string, d: string, i: nat, p: nat)
    requires HttpDelimiter(d) && i < |s| && Match(s, d, i + 1, 1) == Broken(p)
    ensures Swallowed(s, i, p) && (s[i] == CR ==> !At(s, d, i))
  {
    MatchUnfolds(s, d, i);
    AtIsSpelled(s, d, i);
  }

  /** The bytes a broken attempt swallows leave an even run of CRs behind. */
  lemma SwallowedRuns(s: string, i: nat, p: nat)
    requires i < |s| && s[i] == CR && Swallowed(s, i, p) && CrRun(s, i) % 2 == 0
    ensures CrRun(s, p) % 2 == 0
  {
    assert CrRun(s, i + 1) == 1 + CrRun(s, i);
    if p == i + 2 {
      assert s[i + 1] == CR ==> CrRun(s, i + 2) == 2 + CrRun(s, i);
    } else if p == i + 4 {
      assert CrRun(s, i + 2) == 0 && CrRun(s, i + 3) == 1;
    }
  }

  /** And they hold no seen delimiter. */
  lemma TokenSkips(s: string, d: string, i: nat, p: nat, k: nat)
    requires HttpDelimiter(d) && Swallowed(s, i, p) && CrRun(s, p) % 2 == 0
    requires i <= k < p && (k == i ==> !At(s, d, i))
    ensures !Seen(s, d, k)
  {
    if k != p - 1 && k != i {
      AtIsSpelled(s, d, k);
    }
  }

  lemma {:induction false} FirstSeenSkips(s: string, d: string, i: nat, p: nat)
    requires i <= p <= |s| && forall k | i <= k < p :: !Seen(s, d, k)
    ensures FirstSeen(s, d, i) == FirstSeen(s, d, p)
    decreases p - i
  {
    if i < p {
      FirstSeenSkips(s, d, i + 1, p);
    }
  }

  /** The scanner stops exactly at the first delimiter whose CR ends an odd run of CRs. */
  lemma {:induction false} ScanIsFirstSeen(s: string, d: string, i: nat)
    requires HttpDelimiter(d) && i <= |s| && CrRun(s, i) % 2 == 0
    ensures Scan(s, d, i) == FirstSeen(s, d, i)
    decreases |s| - i
  {
    if i < |s| {
      if s[i] != CR {
        AtIsSpelled(s, d, i);
        ScanIsFirstSeen(s, d, i + 1);
      } else {
        match Match(s, d, i + 1, 1)
        case Found(p) =>
          assert s[i..p] == [s[i]] + s[i + 1..p] == d;
          assert Seen(s, d, i);
        case Broken(p) =>
          BrokenIsSwallowed(s, d, i, p);
          SwallowedRuns(s, i, p);
          forall k | i <= k < p
            ensures !Seen(s, d, k)
          {
            TokenSkips(s, d, i, p, k);
          }
          FirstSeenSkips(s, d, i, p);
          ScanIsFirstSeen(s, d, p);
        case Ended =>
          EndedSkips(s, d, i);
          FirstSeenSkips(s, d, i, |s|);
      }
    }
  }

  lemma EndedSkips(s: string, d: string, i: nat)
    requires HttpDelimiter(d) && i < |s| && s[i] == CR && Match(s, d, i + 1, 1).Ended?
    ensures forall k | i <= k < |s| :: !At(s, d, k)
  {
    MatchUnfolds(s, d, i);
    forall k | i <= k < |s|
      ensures !At(s, d, k)
    {
      AtIsSpelled(s, d, k);
    }
  }

  /** The first delimiter of the input, if it has one. */
  ghost predicate IsFirst(s: string, d: string, k: nat) {
    At(s, d, k) && forall j: nat | j < k :: !At(s, d, j)
  }

  lemma {:induction false} FirstFinds(s: string, d: string, i: nat, k: nat)
    requires i <= k < |s| && At(s, d, k) && forall j: nat | i <= j < k :: !At(s, d, j)
    ensures First(s, d, i) == k + |d|
    decreases k - i
  {
    if i < k {
      FirstFinds(s, d, i + 1, k);
    }
  }

  lemma {:induction false} FirstFindsNone(s: string, d: string, i: nat)
    requires i <= |s| && forall j: nat | i <= j < |s| :: !At(s, d, j)
    ensures First(s, d, i) == FirstSeen(s, d, i) == |s|
    decreases |s| - i
  {
    if i < |s| {
      FirstFindsNone(s, d, i + 1);
    }
  }

  lemma {:induction false} FirstSeenBeyond(s: string, d: string, i: nat)
    requires i <= |s|
    ensures FirstSeen(s, d, i) >= Min(|s|, i + |d|)
    decreases |s| - i
  {
    if i < |s| && !Seen(s, d, i) {
      FirstSeenBeyond(s, d, i + 1);
    }
  }

  lemma FirstSeenAtFirst(s: string, d: string, k: nat)
    requires IsFirst(s, d, k) && k < |s|
    ensures Seen(s, d, k) ==> FirstSeen(s, d, 0) == k + |d|
    ensures !Seen(s, d, k) ==> FirstSeen(s, d, 0) >= Min(|s|, k + 1 + |d|)
  {
    FirstSeenSkips(s, d, 0, k);
    if !Seen(s, d, k) {
      FirstSeenBeyond(s, d, k + 1);
    }
  }

  /** Without a delimiter the scanner reads the whole input, as a naive search does. With one, it
      stops at the end of the first one if and only if the run of CRs that ends there is odd, or
      the delimiter ends the input anyway. */
  lemma ExactIff(s: string, d: string)
    requires HttpDelimiter(d)
    ensures (forall k: nat | k < |s| :: !At(s, d, k)) ==> Scan(s, d, 0) == First(s, d, 0) == |s|
    ensures forall k: nat | IsFirst(s, d, k) ::
              First(s, d, 0) == k + |d| &&
              (Scan(s, d, 0) == First(s, d, 0) <==> CrRun(s, k + 1) % 2 == 1 || k + |d| == |s|)
  {
    hide Scan, First, FirstSeen;
    ScanIsFirstSeen(s, d, 0);
    if forall k: nat | k < |s| :: !At(s, d, k) {
      FirstFindsNone(s, d, 0);
    }
    forall k: nat | IsFirst(s, d, k)
      ensures First(s, d, 0) == k + |d| &&
              (Scan(s, d, 0) == First(s, d, 0) <==> CrRun(s, k + 1) % 2 == 1 || k + |d| == |s|)
    {
      FirstFinds(s, d, 0, k);
      FirstSeenAtFirst(s, d, k);
    }
  }

  /** Every CR that has a successor is followed by LF. */
  predicate Paired(s: string) {
    forall k | 0 <= k < |s| - 1 && s[k] == CR :: s[k + 1] == LF
  }

  /** On input whose CRs are paired with LFs the scanner is a first-occurrence search. */
  lemma PairedIsExact(s: string, d: string)
    requires HttpDelimiter(d) && Paired(s)
    ensures Scan(s, d, 0) == First(s, d, 0)
  {
    ScanIsFirstSeen(s, d, 0);
    PairedSeenIsAt(s, d, 0);
  }

  lemma {:induction false} PairedSeenIsAt(s: string, d: string, i: nat)
    requires HttpDelimiter(d) && Paired(s) && i <= |s|
    ensures FirstSeen(s, d, i) == First(s, d, i)
    decreases |s| - i
  {
    if i < |s| {
      if At(s, d, i) {
        assert s[i] == s[i..i + |d|][0] == CR;
        assert CrRun(s, i) == 0;
      }
      PairedSeenIsAt(s, d, i + 1);
    }
  }

  /** The shortest input on which it is not: CR CR LF and one more byte. */
  lemma UnpairedMisses(c: char)
    requires c != LF
    ensures
      var s := [CR, CR, LF, c];
      First(s, CRLF, 0) == 3 && Scan(s, CRLF, 0) == 4
  {
    var s := [CR, CR, LF, c];
    assert s[0..2] == [CR, CR] && s[1..3] == CRLF;
    assert IsFirst(s, CRLF, 1);
    ExactIff(s, CRLF);
    assert CrRun(s, 1) == 1 && CrRun(s, 2) == 2;
    FirstSeenBeyond(s, CRLF, 2);
    ScanIsFirstSeen(s, CRLF, 0);
    FirstSeenSkips(s, CRLF, 0, 2);
    assert !Seen(s, CRLF, 0) && !Seen(s, CRLF, 1);
  }

  // ----- Plain text before a delimiter -----

  lemma {:induction false} ScanSkipsPlain(s: string, d: string, i: nat, j: nat)
    requires HttpDelimiter(d) && i <= j <= |s| && forall k | i <= k < j :: s[k] != CR
    ensures Scan(s, d, i) == Scan(s, d, j)
    decreases j - i
  {
    if i < j {
      ScanSkipsPlain(s, d, i + 1, j);
    }
  }

  // ----- The methods -----

  /** A socket set up for blocking reads. */
  ghost predicate Blocking(sock: Socket)
    reads sock
  {
    sock.View().CanRead() && !sock.asyncMode
  }

  /** What of `s` is received if the receive behind the first `n` bytes fails. */
  function Cut(s: string, n: nat): string { s[..Min(n, |s|)] }

  lemma CutAll(s: string, n: nat)
    requires n >= |s|
    ensures Cut(s, n) == s
  {
  }

  /** Byte number `at` of the input `s` into `buf[0]`; 0 at the end of the input or when the receive
      fails. */
  method ReadByte(sock: Socket, buf: array<char>, at: nat, failAt: nat, ghost s: string) returns (sz: nat)
    requires Blocking(sock) && buf.Length == 2
    requires at <= |Cut(s, failAt)| && sock.rx.data == s[at..]
    modifies sock`status, sock`bits, sock`workers, sock.rx, buf
    ensures Blocking(sock)
    ensures sz == if at < |Cut(s, failAt)| then 1 else 0
    ensures at + sz <= |s| && sock.rx.data == s[at + sz..]
    ensures sz == 1 ==> buf[0] == s[at] == Cut(s, failAt)[at]
  {
    sz := sock.Read(buf, 0, 1, ReadAnswer(true, if at == failAt then RecvError else Ready(1)));
    if sz == 1 {
      assert buf[0] == buf[..][0];
    }
  }

  /** Socket::read(str, delimiter) for one character, the receive behind the first `failAt` bytes
      failing. It consumes exactly what it returns: the shortest prefix ending in the delimiter, or
      everything up to the failure or the end. */
  method ReadUntil(sock: Socket, delimiter: int, failAt: nat) returns (ret: nat, str: string)
    requires Blocking(sock)
    modifies sock`status, sock`bits, sock`workers, sock.rx
    ensures Blocking(sock)
    ensures ret == |str| <= |Cut(old(sock.rx.data), failAt)|
    ensures str == old(sock.rx.data)[..ret] && sock.rx.data == old(sock.rx.data)[ret..]
    ensures forall k | 0 <= k < ret - 1 :: SignedChar(str[k]) != delimiter
    ensures ret < |Cut(old(sock.rx.data), failAt)| ==> ret > 0 && SignedChar(str[ret - 1]) == delimiter
  {
    var buf := new char[2];
    ghost var s, seen := sock.rx.data, Cut(sock.rx.data, failAt);
    ret, str := 0, "";
    var sz := ReadByte(sock, buf, 0, failAt, s);
    while sz == 1
      invariant Blocking(sock) && fresh(buf) && buf.Length == 2
      invariant sz <= 1 && ret == |str| && ret + sz <= |seen|
      invariant str == s[..ret] && sock.rx.data == s[ret + sz..]
      invariant sz == 0 ==> ret == |seen|
      invariant sz == 1 ==> buf[0] == s[ret]
      invariant forall k | 0 <= k < ret :: SignedChar(str[k]) != delimiter
      decreases |seen| - ret
    {
      ret := ret + 1;
      str := str + [buf[0]];
      if SignedChar(buf[0]) == delimiter {
        break;
      }
      sz := ReadByte(sock, buf, ret, failAt, s);
    }
  }

  /** The inner loop of the scanner, entered with `delimiter[0]` just read as byte `ret - 1` of the
      input `s`. */
  method MatchRest(sock: Socket, buf: array<char>, delimiter: string, ret0: nat, failAt: nat, ghost s: string)
    returns (ret: nat, more: string, di: nat, ended: bool)
    requires Blocking(sock) && buf.Length == 2 && |delimiter| >= 2
    requires ret0 <= |Cut(s, failAt)| && sock.rx.data == s[ret0..]
    modifies sock`status, sock`bits, sock`workers, sock.rx, buf
    ensures Blocking(sock)
    ensures ret0 <= ret <= |Cut(s, failAt)| && more == s[ret0..ret] && sock.rx.data == s[ret..]
    ensures
      match Match(Cut(s, failAt), delimiter, ret0, 1)
      case Found(p) => !ended && di == |delimiter| && ret == p
      case Broken(p) => !ended && di != |delimiter| && ret == p
      case Ended => ended && ret == |Cut(s, failAt)|
  {
    ghost var seen := Cut(s, failAt);
    ret, more, di, ended := ret0, "", 1, false;
    while di < |delimiter|
      invariant 1 <= di <= |delimiter| && ret0 <= ret <= |seen|
      invariant Blocking(sock)
      invariant more == s[ret0..ret] && sock.rx.data == s[ret..]
      invariant Match(seen, delimiter, ret0, 1) == Match(seen, delimiter, ret, di)
      decreases |delimiter| - di
    {
      var sz := ReadByte(sock, buf, ret, failAt, s);
      if sz <= 0 {
        ended := true;
        return;
      }
      ret := ret + 1;
      more := more + [buf[0]];
      if buf[0] != delimiter[di] {
        break;
      }
      di := di + 1;
    }
  }

  /** The body of the outer loop, byte number `at` being in `buf[0]`. */
  method ScanOn(sock: Socket, buf: array<char>, delimiter: string, at: nat, failAt: nat, ghost s: string)
    returns (ret: nat, more: string, done: bool)
    requires Blocking(sock) && buf.Length == 2 && |delimiter| >= 2
    requires at < |Cut(s, failAt)| && buf[0] == s[at] == Cut(s, failAt)[at] && sock.rx.data == s[at + 1..]
    modifies sock`status, sock`bits, sock`workers, sock.rx, buf
    ensures Blocking(sock)
    ensures at < ret <= |Cut(s, failAt)| && more == s[at..ret] && sock.rx.data == s[ret..]
    ensures Scan(Cut(s, failAt), delimiter, at) == if done then ret else Scan(Cut(s, failAt), delimiter, ret)
  {
    hide Scan, Match, Blocking;
    ScanUnfolds(Cut(s, failAt), delimiter, at);
    ret, more, done := at + 1, [buf[0]], false;
    assert |Cut(s, failAt)| <= |s| && more == s[at..ret];
    if buf[0] == delimiter[0] {
      var rest, di, ended;
      ret, rest, di, ended := MatchRest(sock, buf, delimiter, ret, failAt, s);
      more := more + rest;
      assert more == s[at..ret];
      done := ended || di == |delimiter|;
    }
  }

  /** The outer loop, for a delimiter of two characters or more. */
  method ReadMulti(sock: Socket, delimiter: string, failAt: nat) returns (ret: nat, str: string)
    requires Blocking(sock) && |delimiter| >= 2
    modifies sock`status, sock`bits, sock`workers, sock.rx
    ensures Blocking(sock)
    ensures ret == Scan(Cut(old(sock.rx.data), failAt), delimiter, 0)
    ensures str == old(sock.rx.data)[..ret] && sock.rx.data == old(sock.rx.data)[ret..]
  {
    ghost var s, seen := sock.rx.data, Cut(sock.rx.data, failAt);
    assert |seen| <= |s| && s[0..] == s;
    hide Scan, Match, Blocking, Cut;
    var buf := new char[2];
    ret, str := 0, "";
    var sz := ReadByte(sock, buf, 0, failAt, s);
    while sz == 1
      invariant Blocking(sock) && fresh(buf) && buf.Length == 2
      invariant sz <= 1 && ret + sz <= |seen|
      invariant str == s[..ret] && sock.rx.data == s[ret + sz..]
      invariant sz == 0 ==> ret == |seen|
      invariant sz == 1 ==> buf[0] == s[ret] == seen[ret]
      invariant Scan(seen, delimiter, 0) == Scan(seen, delimiter, ret)
      decreases |seen| - ret
    {
      var more, done;
      ret, more, done := ScanOn(sock, buf, delimiter, ret, failAt, s);
      str := str + more;
      if done {
        return;
      }
      sz := ReadByte(sock, buf, ret, failAt, s);
    }
    ScanUnfolds(seen, delimiter, |seen|);
  }

  /** Socket::read(str, delimiter) for a string, the receive behind the first `failAt` bytes failing.
      It consumes exactly what it returns, and stops where the scanner stops on what is received. The
      empty delimiter asks for all of that, and gets it if and only if no 0xFF byte comes before the
      last byte. */
  method ReadDelimited(sock: Socket, delimiter: string, failAt: nat) returns (ret: nat, str: string)
    requires Blocking(sock)
    modifies sock`status, sock`bits, sock`workers, sock.rx
    ensures Blocking(sock)
    ensures var seen := Cut(old(sock.rx.data), failAt);
            && ret == |str| <= |seen|
            && str == old(sock.rx.data)[..ret] && sock.rx.data == old(sock.rx.data)[ret..]
            && (|delimiter| >= 2 ==> ret == Scan(seen, delimiter, 0))
            && (|delimiter| < 2 ==>
                  var d := if delimiter == "" then EOF else SignedChar(delimiter[0]);
                  && (forall k | 0 <= k < ret - 1 :: SignedChar(str[k]) != d)
                  && (ret < |seen| ==> ret > 0 && SignedChar(str[ret - 1]) == d))
            && (delimiter == "" ==> (str == seen <==> forall k | 0 <= k < |seen| - 1 :: seen[k] != FF))
  {
    ghost var seen := Cut(sock.rx.data, failAt);
    if |delimiter| == 0 {
      ret, str := ReadUntil(sock, EOF, failAt);
      assert forall c: char :: SignedChar(c) == EOF <==> c == FF;
      assert str == seen[..ret];
      assert str == seen <==> ret == |seen|;
      if ret < |seen| {
        assert seen[ret - 1] == FF;
      }
      return;
    }
    if |delimiter| == 1 {
      ret, str := ReadUntil(sock, SignedChar(delimiter[0]), failAt);
      return;
    }
    ret, str := ReadMulti(sock, delimiter, failAt);
  }
}
