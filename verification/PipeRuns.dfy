/**
 Two streams joined by a byte pipe: a sender that puts and flushes, a kernel that cuts the bytes
 into arbitrary chunks, and a receiver that gets. The target is an unbuffered queue.
 */
module PipeRuns {
  import opened Bytes
  import opened SocketSpec
  import opened StreamBufSpec

  datatype Act =
    | Put(c: char)
    | Flush
    | Get(ans: ReadAnswer)
    | Peek(ans: ReadAnswer)

  /** `wire` holds the bytes accepted by the kernel and not yet received, `put` and `got` what went
      in at one end and came out at the other. */
  datatype Pipeline = Pipeline(
    tx: Sock, outArea: Area, wire: string, rx: Sock, inArea: Area, put: string, got: string)

  /** The char that a caller makes of what `sbumpc` returned. */
  function Delivered(ret: int): string {
    if ret == EOF then "" else [ToChar(ret)]
  }

  /** Every write succeeds here; the receiver's answers are arbitrary. */
  function Step(p: Pipeline, act: Act): Pipeline
    requires p.inArea.Valid()
  {
    match act
    case Put(c) =>
      var o := Sputc(p.tx, p.outArea, c, true);
      p.(tx := o.sock, outArea := o.area, wire := p.wire + o.sent, put := p.put + [c])
    case Flush =>
      var o := Sync(p.tx, p.outArea, true);
      p.(tx := o.sock, outArea := o.area, wire := p.wire + o.sent)
    case Get(ans) =>
      var g := Sbumpc(p.rx, p.inArea, p.wire, ans);
      p.(rx := g.sock, inArea := g.area, wire := p.wire[g.taken..], got := p.got + Delivered(g.ret))
    case Peek(ans) =>
      var g := Sgetc(p.rx, p.inArea, p.wire, ans);
      p.(rx := g.sock, inArea := g.area, wire := p.wire[g.taken..])
  }

  ghost function Steps(p: Pipeline, acts: seq<Act>): (p': Pipeline)
    requires p.inArea.Valid()
    ensures p'.inArea.Valid()
    decreases |acts|
  {
    if acts == [] then p else Steps(Step(p, acts[0]), acts[1..])
  }

  /** A pipeline whose two ends were just connected, in synchronous mode. */
  predicate Connected(p: Pipeline) {
    && p.tx.IsOpen() && p.tx.Good() && p.tx.status == SC_OK && p.tx.WritesNow()
    && !p.rx.asyncMode
    && p.outArea.Valid() && p.inArea.Valid()
  }

  predicate Empty(p: Pipeline) {
    p.outArea.pending == p.wire == p.inArea.ahead == p.put == p.got == ""
  }

  predicate Bytewise(s: string) { forall i | 0 <= i < |s| :: IsByte(s[i]) }

  predicate NoFF(s: string) { forall i | 0 <= i < |s| :: IsByte(s[i]) && s[i] != FF }

  /** Every byte put is delivered, in the receiver's get area, in flight or in the put area. */
  predicate Inv(p: Pipeline) {
    && Connected(p)
    && p.put == p.got + p.inArea.ahead + p.wire + p.outArea.pending
  }

  function Puts(acts: seq<Act>): string {
    if acts == [] then ""
    else PutBy(acts[0]) + Puts(acts[1..])
  }

  lemma PutStep(p: Pipeline, c: char)
    requires Inv(p) && IsByte(c)
    ensures Inv(Step(p, Put(c))) && Step(p, Put(c)).put == p.put + [c]
  {
    var front := p.got + p.inArea.ahead;
    assert ToChar(c as int) == c;
    if |p.outArea.pending| == CAP {
      assert front + (p.wire + p.outArea.pending) + [c] == (front + p.wire + p.outArea.pending) + [c];
    } else {
      assert front + p.wire + (p.outArea.pending + [c]) == (front + p.wire + p.outArea.pending) + [c];
    }
  }

  lemma FlushStep(p: Pipeline)
    requires Inv(p)
    ensures Inv(Step(p, Flush)) && Step(p, Flush).outArea.pending == ""
    ensures Step(p, Flush).put == p.put && Step(p, Flush).got == p.got
  {
    var p' := Step(p, Flush);
    var front := p.got + p.inArea.ahead;
    assert front + (p.wire + p.outArea.pending) + "" == front + p.wire + p.outArea.pending;
  }

  lemma GetFromArea(p: Pipeline, ans: ReadAnswer)
    requires Inv(p) && NoFF(p.put) && p.inArea.ahead != ""
    ensures Inv(Step(p, Get(ans))) && |Step(p, Get(ans)).got| == |p.got| + 1
  {
    var c := p.inArea.ahead[0];
    assert c == p.put[|p.got|];
    assert p.got + [c] + p.inArea.ahead[1..] == p.got + p.inArea.ahead;
  }

  lemma GetByRefill(p: Pipeline, ans: ReadAnswer)
    requires Inv(p) && NoFF(p.put) && p.inArea.ahead == ""
    ensures Inv(Step(p, Get(ans)))
    ensures p.wire != "" && ans.recv.Ready? ==> |Step(p, Get(ans)).got| == |p.got| + 1
  {
    var n := ReadSocket(p.rx, p.wire, CAP, ans).n;
    if n >= 1 {
      var c := p.wire[0];
      assert c == p.put[|p.got|];
      PromoteThenNarrow(c);
      var p' := Step(p, Get(ans));
      assert p'.inArea.ahead == p.wire[1..n] && p'.got == p.got + [c];
      assert p.got + [c] + p.wire[1..n] + p.wire[n..] == p.got + "" + p.wire;
    }
  }

  /** A get delivers the next byte unless there is none or the kernel says there is none. */
  lemma GetStep(p: Pipeline, ans: ReadAnswer)
    requires Inv(p) && NoFF(p.put)
    ensures Inv(Step(p, Get(ans))) && Step(p, Get(ans)).put == p.put
    ensures Step(p, Get(ans)).outArea == p.outArea
    ensures |p.put| > |p.got| + |p.outArea.pending| && ans.recv.Ready? ==> |Step(p, Get(ans)).got| == |p.got| + 1
  {
    if p.inArea.ahead != "" {
      GetFromArea(p, ans);
    } else {
      GetByRefill(p, ans);
    }
  }

  lemma PeekStep(p: Pipeline, ans: ReadAnswer)
    requires Inv(p)
    ensures Inv(Step(p, Peek(ans)))
    ensures Step(p, Peek(ans)).put == p.put && Step(p, Peek(ans)).got == p.got
  {
    if p.inArea.ahead == "" {
      var n := ReadSocket(p.rx, p.wire, CAP, ans).n;
      assert p.wire == p.wire[..n] + p.wire[n..];
    }
  }

  function PutBy(act: Act): string { if act.Put? then [act.c] else "" }

  lemma StepKeepsInv(p: Pipeline, act: Act)
    requires Inv(p) && NoFF(p.put + PutBy(act))
    ensures Inv(Step(p, act)) && Step(p, act).put == p.put + PutBy(act)
  {
    hide Step;
    assert NoFF(p.put) by {
      assert forall i | 0 <= i < |p.put| :: p.put[i] == (p.put + PutBy(act))[i];
    }
    match act {
      case Put(c) =>
        assert (p.put + PutBy(act))[|p.put|] == c;
        PutStep(p, c);
      case Flush => FlushStep(p);
      case Get(ans) => GetStep(p, ans);
      case Peek(ans) => PeekStep(p, ans);
    }
    assert p.put + "" == p.put;
  }

  lemma NoFFPrefix(a: string, b: string)
    requires NoFF(a + b)
    ensures NoFF(a)
  {
    assert forall i | 0 <= i < |a| :: a[i] == (a + b)[i];
  }

  /** For every sequence of bytes free of 0xFF and every interleaving of puts, flushes, gets and
      peeks with arbitrary chunking, what has come out is a prefix of what has gone in. */
  lemma {:induction false} AlwaysPrefix(p: Pipeline, acts: seq<Act>)
    requires Inv(p) && NoFF(p.put + Puts(acts))
    ensures Inv(Steps(p, acts))
    ensures Steps(p, acts).put == p.put + Puts(acts)
    ensures Steps(p, acts).got <= Steps(p, acts).put
    decreases |acts|
  {
    hide Step, NoFF;
    if acts == [] {
      assert p.got + p.inArea.ahead + p.wire + p.outArea.pending
             == p.got + (p.inArea.ahead + p.wire + p.outArea.pending);
      assert p.put + Puts(acts) == p.put;
    } else {
      var one, more := PutBy(acts[0]), Puts(acts[1..]);
      assert p.put + Puts(acts) == (p.put + one) + more by {
        assert Puts(acts) == one + more;
      }
      NoFFPrefix(p.put + one, more);
      StepKeepsInv(p, acts[0]);
      AlwaysPrefix(Step(p, acts[0]), acts[1..]);
    }
  }

  /** Answers that always hand over a byte when there is one. */
  predicate Willing(answers: seq<ReadAnswer>) { forall a | a in answers :: a.recv.Ready? }

  /** `|answers|` gets, the kernel cutting the bytes as `answers` say. */
  function Gets(answers: seq<ReadAnswer>): seq<Act> {
    if answers == [] then [] else [Get(answers[0])] + Gets(answers[1..])
  }

  /** The pipeline after the first of several gets. */
  lemma FirstGet(p: Pipeline, answers: seq<ReadAnswer>) returns (q: Pipeline)
    requires p.inArea.Valid() && answers != []
    ensures q == Step(p, Get(answers[0])) && q.inArea.Valid()
    ensures Steps(p, Gets(answers)) == Steps(q, Gets(answers[1..]))
  {
    q := Step(p, Get(answers[0]));
    assert Gets(answers)[0] == Get(answers[0]) && Gets(answers)[1..] == Gets(answers[1..]);
  }

  lemma FirstGetAdvances(p: Pipeline, answers: seq<ReadAnswer>) returns (q: Pipeline)
    requires Inv(p) && NoFF(p.put) && p.outArea.pending == ""
    requires answers != [] && answers[0].recv.Ready?
    ensures Inv(q) && q.put == p.put && q.outArea == p.outArea
    ensures |p.put| - |q.got| <= Max(0, |p.put| - |p.got| - 1)
    ensures Steps(p, Gets(answers)) == Steps(q, Gets(answers[1..]))
  {
    q := FirstGet(p, answers);
    GetStep(p, answers[0]);
  }

  /** Gets drain a flushed pipeline completely, however the kernel cuts the bytes. */
  lemma {:induction false} GetsDrain(p: Pipeline, answers: seq<ReadAnswer>)
    requires Inv(p) && NoFF(p.put) && p.outArea.pending == ""
    requires Willing(answers)
    requires |answers| >= |p.put| - |p.got|
    ensures Steps(p, Gets(answers)).got == Steps(p, Gets(answers)).put == p.put
    decreases |answers|
  {
    if answers == [] {
      assert p.put == p.got + (p.inArea.ahead + p.wire);
    } else {
      var q := FirstGetAdvances(p, answers);
      GetsDrain(q, answers[1..]);
    }
  }

  /** After a flush and a full drain, what has come out equals what has gone in. */
  lemma DrainedEqualsPut(p: Pipeline, acts: seq<Act>, answers: seq<ReadAnswer>)
    requires Connected(p) && Empty(p) && NoFF(Puts(acts))
    requires Willing(answers)
    requires |answers| >= |Puts(acts)|
    ensures
      var flushed := Step(Steps(p, acts), Flush);
      Steps(flushed, Gets(answers)).got == Puts(acts)
  {
    assert p.put + Puts(acts) == Puts(acts);
    AlwaysPrefix(p, acts);
    var q := Steps(p, acts);
    FlushStep(q);
    GetsDrain(Step(q, Flush), answers);
  }

  // ----- The byte 0xFF -----

  function PutsOf(s: string): seq<Act> {
    if s == "" then [] else [Put(s[0])] + PutsOf(s[1..])
  }

  /** Put all of `s`, flush, and get once per answer. */
  ghost function Transfer(p: Pipeline, s: string, answers: seq<ReadAnswer>): string
    requires p.inArea.Valid()
  {
    Steps(Step(Steps(p, PutsOf(s)), Flush), Gets(answers)).got
  }

  function Kept(c: char): string {
    if c == FF then "" else [c]
  }

  function WithoutFF(s: string): string {
    if s == "" then "" else Kept(s[0]) + WithoutFF(s[1..])
  }

  lemma {:induction false} WithoutFFShorter(s: string)
    ensures |WithoutFF(s)| <= |s|
    ensures FF in s ==> |WithoutFF(s)| < |s|
  {
    if s != "" {
      WithoutFFShorter(s[1..]);
      assert FF in s ==> s[0] == FF || FF in s[1..];
    }
  }

  lemma WithoutFFHead(front: string, s: string)
    requires s != "" && Bytewise(s)
    ensures front + Kept(s[0]) + WithoutFF(s[1..]) == front + WithoutFF(s)
    ensures IsByte(s[0]) && Bytewise(s[1..])
  {
    var tail := WithoutFF(s[1..]);
    assert front + Kept(s[0]) + tail == front + (Kept(s[0]) + tail);
  }

  lemma FirstPut(p: Pipeline, s: string) returns (q: Pipeline)
    requires Inv(p) && Bytewise(s) && s != ""
    ensures Inv(q) && q.put == p.put + [s[0]] && q.got == p.got && q.inArea == p.inArea && q.rx == p.rx
    ensures Steps(p, PutsOf(s)) == Steps(q, PutsOf(s[1..]))
  {
    PutStep(p, s[0]);
    q := Step(p, Put(s[0]));
    assert PutsOf(s)[0] == Put(s[0]) && PutsOf(s)[1..] == PutsOf(s[1..]);
  }

  lemma {:induction false} PutAll(p: Pipeline, s: string)
    requires Inv(p) && Bytewise(s)
    ensures
      var q := Steps(p, PutsOf(s));
      Inv(q) && q.put == p.put + s && q.got == p.got && q.inArea == p.inArea && q.rx == p.rx
    decreases |s|
  {
    if s == "" {
      assert p.put + s == p.put;
    } else {
      var q := FirstPut(p, s);
      PutAll(q, s[1..]);
      assert p.put + [s[0]] + s[1..] == p.put + s;
    }
  }

  const ONE_BYTE: ReadAnswer := ReadAnswer(true, Ready(1))

  predicate OneByteEach(answers: seq<ReadAnswer>) { forall i | 0 <= i < |answers| :: answers[i] == ONE_BYTE }

  /** A one-byte chunk that is 0xFF is taken and reported as the end of the input. */
  lemma OneByteGet(p: Pipeline, answers: seq<ReadAnswer>) returns (q: Pipeline)
    requires p.inArea.Valid() && !p.rx.asyncMode && p.inArea.ahead == "" && p.wire != "" && IsByte(p.wire[0])
    requires answers != [] && answers[0] == ONE_BYTE
    ensures q.inArea.Valid() && !q.rx.asyncMode && q.inArea.ahead == "" && q.wire == p.wire[1..]
    ensures q.got == p.got + Kept(p.wire[0])
    ensures Steps(p, Gets(answers)) == Steps(q, Gets(answers[1..]))
  {
    q := FirstGet(p, answers);
    PromoteThenNarrow(p.wire[0]);
  }

  /** One-byte chunks lose exactly the 0xFF bytes. */
  lemma {:induction false} OneByteGets(p: Pipeline, answers: seq<ReadAnswer>)
    requires p.inArea.Valid() && !p.rx.asyncMode && p.inArea.ahead == "" && Bytewise(p.wire)
    requires |answers| == |p.wire| && OneByteEach(answers)
    ensures Steps(p, Gets(answers)).got == p.got + WithoutFF(p.wire)
    decreases |answers|
  {
    if answers == [] {
      assert p.got + "" == p.got;
    } else {
      WithoutFFHead(p.got, p.wire);
      var q := OneByteGet(p, answers);
      OneByteGets(q, answers[1..]);
    }
  }

  /** What is on the wire after putting all of `s` and flushing. */
  lemma PutAllAndFlush(p: Pipeline, s: string) returns (f: Pipeline)
    requires Connected(p) && Empty(p) && Bytewise(s)
    ensures f == Step(Steps(p, PutsOf(s)), Flush)
    ensures Inv(f) && f.put == f.wire == s && f.got == f.inArea.ahead == f.outArea.pending == ""
  {
    PutAll(p, s);
    FlushStep(Steps(p, PutsOf(s)));
    f := Step(Steps(p, PutsOf(s)), Flush);
    assert "" + s == s;
  }

  lemma IntactWithoutFF(p: Pipeline, s: string, answers: seq<ReadAnswer>)
    requires Connected(p) && Empty(p) && Bytewise(s) && FF !in s
    requires |answers| == |s| && Willing(answers)
    ensures Transfer(p, s, answers) == s
  {
    var f := PutAllAndFlush(p, s);
    GetsDrain(f, answers);
  }

  lemma OneByteChunksLoseFF(p: Pipeline, s: string, answers: seq<ReadAnswer>)
    requires Connected(p) && Empty(p) && Bytewise(s)
    requires |answers| == |s| && OneByteEach(answers)
    ensures Transfer(p, s, answers) == WithoutFF(s)
  {
    var f := PutAllAndFlush(p, s);
    OneByteGets(f, answers);
    assert "" + WithoutFF(s) == WithoutFF(s);
  }

  /** A byte sequence crosses the pipe intact under every chunking if and only if it is free of
      0xFF, the byte that `underflow` returns as EOF. */
  lemma IntactForEveryChunkingIff(p: Pipeline, s: string)
    requires Connected(p) && Empty(p) && Bytewise(s)
    ensures
      (forall answers: seq<ReadAnswer> :: |answers| == |s| && Willing(answers) ==> Transfer(p, s, answers) == s)
      <==> FF !in s
  {
    if FF in s {
      var answers := seq(|s|, _ => ONE_BYTE);
      OneByteChunksLoseFF(p, s, answers);
      WithoutFFShorter(s);
      assert Willing(answers) && Transfer(p, s, answers) != s;
    } else {
      forall answers: seq<ReadAnswer> | |answers| == |s| && Willing(answers)
        ensures Transfer(p, s, answers) == s
      {
        IntactWithoutFF(p, s, answers);
      }
    }
  }

  // ----- One chunking -----

  /** The chunks in which `s` is received when a get that finds the area empty asks the kernel: a chunk
      of `n` bytes serves `n` gets, so the next one is cut as the answer `n` places on says. */
  function Chunks(s: string, answers: seq<ReadAnswer>): seq<string>
    requires |answers| == |s| && Willing(answers)
    decreases |s|
  {
    if s == "" then []
    else
      assert answers[0] in answers;
      var n := RecvCount(s, CAP, answers[0].recv);
      [s[..n]] + Chunks(s[n..], answers[n..])
  }

  /** A chunk without a leading 0xFF. */
  function Trim(chunk: string): string {
    if chunk != "" && chunk[0] == FF then chunk[1..] else chunk
  }

  function TrimAll(chunks: seq<string>): seq<string> {
    if chunks == [] then [] else [Trim(chunks[0])] + TrimAll(chunks[1..])
  }

  predicate NoneStartsFF(chunks: seq<string>) {
    forall i | 0 <= i < |chunks| :: chunks[i] != "" ==> chunks[i][0] != FF
  }

  lemma {:induction false} ChunksJoin(s: string, answers: seq<ReadAnswer>)
    requires |answers| == |s| && Willing(answers)
    ensures Concat(Chunks(s, answers)) == s
    decreases |s|
  {
    if s != "" {
      assert answers[0] in answers;
      var n := RecvCount(s, CAP, answers[0].recv);
      ChunksJoin(s[n..], answers[n..]);
      assert s[..n] + s[n..] == s;
    }
  }

  lemma {:induction false} TrimAllShortens(chunks: seq<string>)
    ensures |Concat(TrimAll(chunks))| <= |Concat(chunks)|
    ensures |Concat(TrimAll(chunks))| == |Concat(chunks)| <==> NoneStartsFF(chunks)
    ensures NoneStartsFF(chunks) ==> TrimAll(chunks) == chunks
  {
    if chunks != [] {
      var rest := chunks[1..];
      TrimAllShortens(rest);
      assert NoneStartsFF(chunks) <==> Trim(chunks[0]) == chunks[0] && NoneStartsFF(rest) by {
        assert forall i | 0 < i < |chunks| :: chunks[i] == rest[i - 1];
        assert forall i | 0 <= i < |rest| :: rest[i] == chunks[i + 1];
      }
    }
  }

  lemma AreaGet(p: Pipeline, ans: ReadAnswer)
    requires p.inArea.Valid() && p.inArea.ahead != "" && IsByte(p.inArea.ahead[0])
    ensures
      var q := Step(p, Get(ans));
      && q.inArea.Valid() && q.inArea.ahead == p.inArea.ahead[1..] && q.wire == p.wire && q.rx == p.rx
      && q.got == p.got + [p.inArea.ahead[0]]
  {
  }

  /** The gets served from the get area deliver all of it, 0xFF included. */
  lemma {:induction false} AreaGets(p: Pipeline, answers: seq<ReadAnswer>) returns (q: Pipeline)
    requires p.inArea.Valid() && |p.inArea.ahead| <= |answers|
    requires Bytewise(p.inArea.ahead)
    ensures q.inArea.Valid() && q.inArea.ahead == "" && q.wire == p.wire && q.rx == p.rx
    ensures q.got == p.got + p.inArea.ahead
    ensures Steps(p, Gets(answers)) == Steps(q, Gets(answers[|p.inArea.ahead|..]))
    decreases |p.inArea.ahead|
  {
    hide Step, Steps, Gets;
    if p.inArea.ahead == "" {
      assert answers[0..] == answers && p.got + "" == p.got;
      q := p;
    } else {
      AreaGet(p, answers[0]);
      var first, tail := p.inArea.ahead[0], p.inArea.ahead[1..];
      var p1 := FirstGet(p, answers);
      q := AreaGets(p1, answers[1..]);
      assert answers[1..][|tail|..] == answers[|p.inArea.ahead|..];
      assert p.got + [first] + tail == p.got + p.inArea.ahead;
    }
  }

  /** A get that finds the area empty takes a chunk, and loses its first byte if that is 0xFF. */
  lemma Refill(p: Pipeline, ans: ReadAnswer)
    requires p.inArea.Valid() && !p.rx.asyncMode && p.inArea.ahead == "" && p.wire != "" && IsByte(p.wire[0])
    requires ans.recv.Ready?
    ensures
      var n, q := RecvCount(p.wire, CAP, ans.recv), Step(p, Get(ans));
      && q.inArea.Valid() && !q.rx.asyncMode && q.wire == p.wire[n..]
      && q.inArea.ahead == p.wire[1..n] && q.got == p.got + Kept(p.wire[0])
  {
    PromoteThenNarrow(p.wire[0]);
    var n := RecvCount(p.wire, CAP, ans.recv);
    assert p.wire[..n][1..] == p.wire[1..n];
  }

  lemma TrimIsKept(s: string)
    requires s != ""
    ensures Trim(s) == Kept(s[0]) + s[1..]
  {
  }

  /** The gets that one chunk serves deliver it without a leading 0xFF. */
  lemma ChunkGets(p: Pipeline, answers: seq<ReadAnswer>) returns (q: Pipeline)
    requires p.inArea.Valid() && !p.rx.asyncMode && p.inArea.ahead == "" && p.wire != "" && Bytewise(p.wire)
    requires |answers| == |p.wire| && answers[0].recv.Ready?
    ensures
      var n := RecvCount(p.wire, CAP, answers[0].recv);
      && q.inArea.Valid() && !q.rx.asyncMode && q.inArea.ahead == "" && q.wire == p.wire[n..]
      && q.got == p.got + Trim(p.wire[..n])
      && Steps(p, Gets(answers)) == Steps(q, Gets(answers[n..]))
  {
    hide Step, Steps, Gets, Trim, Kept;
    var n := RecvCount(p.wire, CAP, answers[0].recv);
    Refill(p, answers[0]);
    var p1 := FirstGet(p, answers);
    q := AreaGets(p1, answers[1..]);
    assert answers[1..][n - 1..] == answers[n..];
    var chunk := p.wire[..n];
    TrimIsKept(chunk);
    assert chunk[1..] == p.wire[1..n];
    assert p.got + Kept(p.wire[0]) + chunk[1..] == p.got + (Kept(p.wire[0]) + chunk[1..]);
  }

  lemma {:induction false} GetsDeliverChunks(p: Pipeline, answers: seq<ReadAnswer>)
    requires p.inArea.Valid() && !p.rx.asyncMode && p.inArea.ahead == "" && Bytewise(p.wire)
    requires |answers| == |p.wire| && Willing(answers)
    ensures Steps(p, Gets(answers)).got == p.got + Concat(TrimAll(Chunks(p.wire, answers)))
    decreases |p.wire|
  {
    hide Steps, Trim;
    if answers == [] {
      assert Steps(p, Gets(answers)) == p by { NoGets(p); }
      assert p.got + "" == p.got;
    } else {
      assert answers[0] in answers;
      var q := ChunkGets(p, answers);
      var n := RecvCount(p.wire, CAP, answers[0].recv);
      GetsDeliverChunks(q, answers[n..]);
      var chunks := Chunks(q.wire, answers[n..]);
      assert Chunks(p.wire, answers) == [p.wire[..n]] + chunks;
      assert TrimAll([p.wire[..n]] + chunks) == [Trim(p.wire[..n])] + TrimAll(chunks);
      assert p.got + Trim(p.wire[..n]) + Concat(TrimAll(chunks))
             == p.got + (Trim(p.wire[..n]) + Concat(TrimAll(chunks)));
    }
  }

  lemma NoGets(p: Pipeline)
    requires p.inArea.Valid()
    ensures Steps(p, Gets([])) == p
  {
  }

  /** Under any one chunking a byte sequence loses exactly the 0xFF at the head of a chunk, so it
      crosses intact if and only if no chunk starts with 0xFF. */
  lemma IntactIffNoChunkStartsFF(p: Pipeline, s: string, answers: seq<ReadAnswer>)
    requires Connected(p) && Empty(p) && Bytewise(s)
    requires |answers| == |s| && Willing(answers)
    ensures Transfer(p, s, answers) == Concat(TrimAll(Chunks(s, answers)))
    ensures Transfer(p, s, answers) == s <==> NoneStartsFF(Chunks(s, answers))
  {
    hide Steps, Chunks, TrimAll;
    var f := PutAllAndFlush(p, s);
    GetsDeliverChunks(f, answers);
    var chunks := Chunks(s, answers);
    assert "" + Concat(TrimAll(chunks)) == Concat(TrimAll(chunks));
    ChunksJoin(s, answers);
    TrimAllShortens(chunks);
  }
}
