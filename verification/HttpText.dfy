/** The HTTP messages as text: what is printed, and what is parsed from arbitrary text. */
module HttpText {
  import opened Bytes
  import opened Decimal
  import opened DelimiterScan

  const NUL: char := '\0'
  const BLANKS: set<char> := {CR, LF, ' '}
  const NEWLINES: set<char> := {CR, LF}
  const LINE_ENDS: set<char> := {CR, LF, NUL}

  /** `find_first_of(cs, from)`: the first position of a char of `cs`, or the end of the text. */
  function FindFirstOf(s: string, cs: set<char>, from: nat): (n: nat)
    requires from <= |s|
    ensures from <= n <= |s|
    ensures forall i | from <= i < n :: s[i] !in cs
    ensures n < |s| ==> s[n] in cs
    decreases |s| - from
  {
    if from == |s| || s[from] in cs then from else FindFirstOf(s, cs, from + 1)
  }

  /** `find_first_not_of(cs, from)`: the first position of a char outside `cs`, or the end. */
  function FindFirstNotOf(s: string, cs: set<char>, from: nat): (n: nat)
    requires from <= |s|
    ensures from <= n <= |s|
    ensures forall i | from <= i < n :: s[i] in cs
    ensures n < |s| ==> s[n] !in cs
    decreases |s| - from
  {
    if from == |s| || s[from] !in cs then from else FindFirstNotOf(s, cs, from + 1)
  }

  predicate Free(s: string, cs: set<char>) { forall i | 0 <= i < |s| :: s[i] !in cs }

  /** The first char of `cs` in `a + b` when `a` has none and `b` starts with one. */
  lemma FindAfter(a: string, b: string, cs: set<char>)
    requires Free(a, cs) && b != "" && b[0] in cs
    ensures FindFirstOf(a + b, cs, 0) == |a|
  {
    hide FindFirstOf;
    var s, n := a + b, FindFirstOf(a + b, cs, 0);
    assert s[|a|] == b[0];
    assert forall i | 0 <= i < |a| :: s[i] == a[i];
  }

  // ----- Header lines -----

  type Headers = map<string, string>

  /** `order` lists each key of the map once. */
  ghost predicate Enumerates(order: seq<string>, m: Headers) {
    && (forall i | 0 <= i < |order| :: order[i] in m)
    && (forall k | k in m :: k in order)
    && (forall i, j | 0 <= i < j < |order| :: order[i] != order[j])
  }

  predicate KeysIn(order: seq<string>, m: Headers) {
    forall i | 0 <= i < |order| :: order[i] in m
  }

  function HeaderLine(k: string, v: string): string { k + ": " + v + CRLF }

  /** What expandHeaders appends before the blank line, in the order of iteration. */
  function HeaderLines(order: seq<string>, m: Headers): string
    requires KeysIn(order, m)
  {
    if order == [] then "" else HeaderLine(order[0], m[order[0]]) + HeaderLines(order[1..], m)
  }

  /** A header that can be read back: a key free of colon, CR and LF that does not start with a
      space, and a value free of CR and LF. */
  predicate Plain(k: string, v: string) {
    && Free(k, {':', CR, LF}) && (k != "" ==> k[0] != ' ')
    && Free(v, NEWLINES)
  }

  predicate AllPlain(order: seq<string>, m: Headers)
    requires KeysIn(order, m)
  {
    forall i | 0 <= i < |order| :: Plain(order[i], m[order[i]])
  }

  // ----- Parsing headers -----

  /** The headers that parseHeaders finds, in order. Nothing after the last complete one counts. */
  function Entries(s: string): seq<(string, string)>
    decreases |s|
  {
    var pt := FindFirstNotOf(s, BLANKS, 0);
    var col := FindFirstOf(s, {':'}, pt);
    var nl := FindFirstOf(s, NEWLINES, col);
    if pt == |s| || col == |s| || nl == |s| then []
    else [(s[pt..col], s[col + 1..nl])] + Entries(s[nl..])
  }

  /** Later entries win, as assignments to a map do. */
  function ToMap(es: seq<(string, string)>): Headers {
    if es == [] then map[]
    else ToMap(es[..|es| - 1])[es[|es| - 1].0 := es[|es| - 1].1]
  }

  /** The text starts with blanks up to `pt`, a key up to the colon at `col`, and a value up to the
      newline at `nl`. */
  predicate Heads(s: string, pt: nat, col: nat, nl: nat) {
    && pt <= col < nl < |s|
    && (forall i | 0 <= i < pt :: s[i] in BLANKS) && s[pt] !in BLANKS
    && (forall i | pt <= i < col :: s[i] != ':') && s[col] == ':'
    && (forall i | col < i < nl :: s[i] !in NEWLINES) && s[nl] in NEWLINES
  }

  /** The text has no colon, or no newline behind its first one. */
  ghost predicate Stuck(s: string) {
    || Free(s, {':'})
    || exists col: nat :: col < |s| && s[col] == ':' && StuckAt(s, col)
  }

  predicate StuckAt(s: string, col: nat)
    requires col < |s|
  {
    && (forall i | 0 <= i < col :: s[i] != ':')
    && (forall i | col < i < |s| :: s[i] !in NEWLINES)
  }

  lemma HeadsAreFound(s: string, pt: nat, col: nat, nl: nat)
    requires Heads(s, pt, col, nl)
    ensures pt <= col < nl < |s|
    ensures FindFirstNotOf(s, BLANKS, 0) == pt
    ensures FindFirstOf(s, {':'}, pt) == col
    ensures FindFirstOf(s, NEWLINES, col) == nl
  {
    hide FindFirstOf, FindFirstNotOf, Entries;
  }

  lemma EntriesStep(s: string, pt: nat, col: nat, nl: nat)
    requires Heads(s, pt, col, nl)
    ensures pt <= col < nl < |s|
    ensures Entries(s) == [(s[pt..col], s[col + 1..nl])] + Entries(s[nl..])
  {
    hide FindFirstOf, FindFirstNotOf, Heads;
    HeadsAreFound(s, pt, col, nl);
  }

  lemma EntriesStuck(s: string)
    requires Stuck(s)
    ensures Entries(s) == []
  {
    hide FindFirstOf, FindFirstNotOf;
    var pt := FindFirstNotOf(s, BLANKS, 0);
    var found := FindFirstOf(s, {':'}, pt);
    if found < |s| {
      var col: nat :| col < |s| && s[col] == ':' && StuckAt(s, col);
      assert found == col;
      assert FindFirstOf(s, NEWLINES, col) == |s|;
    }
  }

  /** Text either opens with a header or is stuck. */
  lemma EntriesCases(s: string) returns (opens: bool, pt: nat, col: nat, nl: nat)
    ensures opens ==> Heads(s, pt, col, nl)
    ensures !opens ==> Stuck(s)
  {
    hide FindFirstOf, FindFirstNotOf, Entries;
    pt := FindFirstNotOf(s, BLANKS, 0);
    col := FindFirstOf(s, {':'}, pt);
    nl := FindFirstOf(s, NEWLINES, col);
    opens := col < |s| && nl < |s|;
    assert forall i | 0 <= i < pt :: s[i] != ':';
    if !opens && col < |s| {
      assert StuckAt(s, col);
    }
  }

  /** `key:value` is a slice of the text, ended by a newline, in the required form. */
  ghost predicate WellFormed(s: string, e: (string, string)) {
    && Free(e.0, {':'}) && (e.0 != "" ==> e.0[0] !in BLANKS)
    && Free(e.1, NEWLINES)
    && exists a: nat, b: nat :: a <= b < |s| && s[a..b] == e.0 + ":" + e.1 && s[b] in NEWLINES
  }

  lemma WellFormedInTail(s: string, n: nat, e: (string, string))
    requires n <= |s| && WellFormed(s[n..], e)
    ensures WellFormed(s, e)
  {
    var t := s[n..];
    var a: nat, b: nat :| a <= b < |t| && t[a..b] == e.0 + ":" + e.1 && t[b] in NEWLINES;
    assert s[n + a..n + b] == t[a..b] && s[n + b] == t[b];
  }

  /** Whatever the text, every key is a colon-free slice that starts with neither CR, LF nor space,
      and every value is the CR- and LF-free slice between its colon and the next newline. */
  lemma {:induction false} EntriesWellFormed(s: string)
    ensures forall i | 0 <= i < |Entries(s)| :: WellFormed(s, Entries(s)[i])
    decreases |s|
  {
    hide Entries;
    var opens, pt, col, nl := EntriesCases(s);
    if opens {
      EntriesStep(s, pt, col, nl);
      EntriesWellFormed(s[nl..]);
      assert s[pt..nl] == s[pt..col] + ":" + s[col + 1..nl];
      forall i | 0 <= i < |Entries(s)|
        ensures WellFormed(s, Entries(s)[i])
      {
        if i > 0 {
          WellFormedInTail(s, nl, Entries(s[nl..])[i - 1]);
        }
      }
    } else {
      EntriesStuck(s);
    }
  }

  lemma HeadsBehindBlank(c: char, s: string, pt: nat, col: nat, nl: nat)
    requires c in BLANKS && Heads(s, pt, col, nl)
    ensures Heads([c] + s, pt + 1, col + 1, nl + 1)
  {
    var t := [c] + s;
    assert forall i | 0 < i < |t| :: t[i] == s[i - 1];
  }

  lemma StuckBehindBlank(c: char, s: string)
    requires c in BLANKS && Stuck(s)
    ensures Stuck([c] + s)
  {
    var t := [c] + s;
    assert forall i | 0 < i < |t| :: t[i] == s[i - 1];
    if !Free(s, {':'}) {
      var n: nat :| n < |s| && s[n] == ':' && StuckAt(s, n);
      assert t[n + 1] == ':' && StuckAt(t, n + 1);
    }
  }

  /** Leading blanks do not matter. */
  lemma EntriesSkipBlank(c: char, s: string)
    requires c in BLANKS
    ensures Entries([c] + s) == Entries(s)
  {
    hide Entries, Heads, Stuck;
    var t := [c] + s;
    var opens, pt, col, nl := EntriesCases(s);
    if opens {
      HeadsBehindBlank(c, s, pt, col, nl);
      EntriesStep(s, pt, col, nl);
      EntriesStep(t, pt + 1, col + 1, nl + 1);
      assert t[pt + 1..col + 1] == s[pt..col] && t[col + 2..nl + 1] == s[col + 1..nl] && t[nl + 1..] == s[nl..];
    } else {
      StuckBehindBlank(c, s);
      EntriesStuck(s);
      EntriesStuck(t);
    }
  }

  /** One printed header is parsed back, its value with the space after the colon. */
  lemma EntriesOfLine(k: string, v: string, rest: string)
    requires Plain(k, v)
    ensures Entries(HeaderLine(k, v) + rest) == [(k, " " + v)] + Entries(rest)
  {
    hide Entries;
    var s, nl := HeaderLine(k, v) + rest, |k| + 2 + |v|;
    assert s == k + (": " + v) + (CRLF + rest);
    assert s[..|k|] == k && s[|k| + 1..nl] == " " + v && s[nl..] == CRLF + rest;
    assert forall i | |k| < i < nl :: s[i] == s[|k| + 1..nl][i - |k| - 1];
    EntriesStep(s, 0, |k|, nl);
    assert CRLF + rest == [CR] + ([LF] + rest);
    EntriesSkipBlank(CR, [LF] + rest);
    EntriesSkipBlank(LF, rest);
  }

  function Pairs(order: seq<string>, m: Headers): seq<(string, string)>
    requires KeysIn(order, m)
  {
    if order == [] then [] else [(order[0], " " + m[order[0]])] + Pairs(order[1..], m)
  }

  /** Printed headers are parsed back in order, whatever text follows them. */
  lemma {:induction false} EntriesOfLines(order: seq<string>, m: Headers, rest: string)
    requires KeysIn(order, m) && AllPlain(order, m)
    ensures Entries(HeaderLines(order, m) + rest) == Pairs(order, m) + Entries(rest)
    decreases |order|
  {
    hide Entries;
    if order == [] {
      assert HeaderLines(order, m) + rest == rest;
    } else {
      var more := HeaderLines(order[1..], m) + rest;
      assert HeaderLines(order, m) + rest == HeaderLine(order[0], m[order[0]]) + more;
      EntriesOfLine(order[0], m[order[0]], more);
      EntriesOfLines(order[1..], m, rest);
    }
  }

  /** What the parsed map should be: the same keys, each value behind a space. */
  function Spaced(m: Headers): Headers { map k | k in m :: " " + m[k] }

  lemma ToMapEmpty()
    ensures ToMap([]) == map[]
  {
  }

  lemma ToMapAppend(es: seq<(string, string)>, e: (string, string))
    ensures ToMap(es + [e]) == ToMap(es)[e.0 := e.1]
  {
    assert (es + [e])[..|es|] == es;
  }

  lemma {:induction false} ToMapLookup(es: seq<(string, string)>)
    ensures forall k :: k in ToMap(es) ==> exists i :: 0 <= i < |es| && es[i].0 == k
    ensures (forall i, j | 0 <= i < j < |es| :: es[i].0 != es[j].0) ==>
              forall i | 0 <= i < |es| :: es[i].0 in ToMap(es) && ToMap(es)[es[i].0] == es[i].1
  {
    if es != [] {
      ToMapLookup(es[..|es| - 1]);
    }
  }

  lemma {:induction false} PairsAt(order: seq<string>, m: Headers)
    requires KeysIn(order, m)
    ensures |Pairs(order, m)| == |order|
    ensures forall i | 0 <= i < |order| :: Pairs(order, m)[i] == (order[i], " " + m[order[i]])
  {
    if order != [] {
      PairsAt(order[1..], m);
    }
  }

  lemma ToMapOfPairs(order: seq<string>, m: Headers)
    requires Enumerates(order, m)
    ensures ToMap(Pairs(order, m)) == Spaced(m)
  {
    hide Pairs, ToMap;
    PairsAt(order, m);
    var es := Pairs(order, m);
    ToMapLookup(es);
    forall k | k in m
      ensures k in ToMap(es) && ToMap(es)[k] == " " + m[k]
    {
      var i :| 0 <= i < |order| && order[i] == k;
      assert es[i].0 == k;
    }
  }

  // ----- A body after the headers -----

  /** Appending a colon-free body to text that ends in a newline leaves the headers unchanged. */
  lemma {:induction false} BodyIsIgnored(s: string, body: string)
    requires s == "" || s[|s| - 1] in NEWLINES
    requires Free(body, {':'})
    ensures Entries(s + body) == Entries(s)
    decreases |s|
  {
    hide Entries;
    var t := s + body;
    var opens, pt, col, nl := EntriesCases(s);
    if opens {
      EntriesStep(s, pt, col, nl);
      EntriesStep(t, pt, col, nl);
      assert t[nl..] == s[nl..] + body;
      assert t[pt..col] == s[pt..col] && t[col + 1..nl] == s[col + 1..nl];
      BodyIsIgnored(s[nl..], body);
    } else {
      EntriesStuck(s);
      assert Free(s, {':'});
      EntriesStuck(t);
    }
  }

  // ----- Splitting the request line -----

  /** Repeated `getline`: a trailing delimiter does not start another piece. */
  function Split(s: string, delim: char): seq<string>
    decreases |s|
  {
    if s == "" then []
    else
      var n := FindFirstOf(s, {delim}, 0);
      if n == |s| then [s] else [s[..n]] + Split(s[n + 1..], delim)
  }

  function Join(parts: seq<string>, delim: char): string {
    if parts == [] then ""
    else if |parts| == 1 then parts[0]
    else parts[0] + [delim] + Join(parts[1..], delim)
  }

  lemma SplitStep(a: string, b: string, delim: char)
    requires Free(a, {delim})
    ensures Split(a + ([delim] + b), delim) == [a] + Split(b, delim)
  {
    hide FindFirstOf;
    var s := a + ([delim] + b);
    FindAfter(a, [delim] + b, {delim});
    assert s[..|a|] == a && s[|a| + 1..] == b;
  }

  lemma SplitLast(a: string, delim: char)
    requires Free(a, {delim})
    ensures Split(a, delim) == if a == "" then [] else [a]
  {
    hide FindFirstOf;
    assert FindFirstOf(a, {delim}, 0) == |a|;
  }

  /** Splitting undoes joining if and only if the last piece is not empty. */
  lemma {:induction false} SplitOfJoin(parts: seq<string>, delim: char)
    requires parts != [] && forall i | 0 <= i < |parts| :: Free(parts[i], {delim})
    ensures Split(Join(parts, delim), delim) == parts <==> parts[|parts| - 1] != ""
    ensures parts[|parts| - 1] == "" ==> Split(Join(parts, delim), delim) == parts[..|parts| - 1]
    decreases |parts|
  {
    hide Split;
    if |parts| == 1 {
      SplitLast(parts[0], delim);
    } else {
      var more := parts[1..];
      assert Join(parts, delim) == parts[0] + ([delim] + Join(more, delim));
      SplitStep(parts[0], Join(more, delim), delim);
      SplitOfJoin(more, delim);
      assert parts == [parts[0]] + more && more[|more| - 1] == parts[|parts| - 1];
      assert parts[..|parts| - 1] == [parts[0]] + more[..|more| - 1];
    }
  }

  // ----- Requests -----

  datatype Verb = INVALID | DELETE | GET | HEAD | OPTIONS | PUT | POST

  function VerbName(v: Verb): string
    requires !v.INVALID?
  {
    match v
    case DELETE => "DELETE"
    case GET => "GET"
    case HEAD => "HEAD"
    case OPTIONS => "OPTIONS"
    case PUT => "PUT"
    case POST => "POST"
  }

  function VerbOf(name: string): Verb {
    if name == "GET" then GET
    else if name == "POST" then POST
    else if name == "HEAD" then HEAD
    else if name == "DELETE" then DELETE
    else if name == "PUT" then PUT
    else if name == "OPTIONS" then OPTIONS
    else INVALID
  }

  const VERSION: string := "HTTP/1.1"

  /** What get, post, put and deleter print before the payload. */
  function RequestText(v: Verb, uri: string, order: seq<string>, m: Headers): string
    requires !v.INVALID? && KeysIn(order, m)
  {
    VerbName(v) + " " + uri + " " + VERSION + CRLF + HeaderLines(order, m) + CRLF
  }

  /** `BadLine`: no request line of three words. `Overrun`: the line ends beyond what was received,
      where the source computes a negative size. */
  datatype Parsed = BadLine | Overrun(verb: Verb, url: string) | Request(verb: Verb, url: string, headers: Headers)

  /** The parse of a buffer whose first `ret` chars were received. */
  function ParseRequest(buffer: string, ret: nat): Parsed
    requires ret <= |buffer|
  {
    var nl := FindFirstOf(buffer, LINE_ENDS, 0);
    var words := Split(buffer[..nl], ' ');
    if nl == 0 || |words| != 3 then BadLine
    else if ret < nl + 1 then Overrun(VerbOf(words[0]), words[1])
    else Request(VerbOf(words[0]), words[1], ToMap(Entries(buffer[nl + 1..ret])))
  }

  lemma RequestLineWords(v: Verb, uri: string)
    requires !v.INVALID? && Free(uri, {' ', CR, LF, NUL})
    ensures
      var line := VerbName(v) + " " + uri + " " + VERSION;
      Split(line, ' ') == [VerbName(v), uri, VERSION] && line != "" && Free(line, LINE_ENDS)
  {
    hide Split;
    var name := VerbName(v);
    assert Free(name, {' ', CR, LF, NUL});
    assert name + " " + uri + " " + VERSION == name + ([' '] + (uri + ([' '] + VERSION)));
    SplitStep(name, uri + ([' '] + VERSION), ' ');
    SplitStep(uri, VERSION, ' ');
    SplitLast(VERSION, ' ');
  }

  /** The headers found behind the CR that ends the request line. */
  lemma EntriesOfMessage(order: seq<string>, m: Headers, payload: string)
    requires Enumerates(order, m) && AllPlain(order, m) && Entries(payload) == []
    ensures ToMap(Entries([LF] + (HeaderLines(order, m) + (CRLF + payload)))) == Spaced(m)
  {
    hide Entries;
    EntriesSkipBlank(LF, HeaderLines(order, m) + (CRLF + payload));
    EntriesOfLines(order, m, CRLF + payload);
    assert CRLF + payload == [CR] + ([LF] + payload);
    EntriesSkipBlank(CR, [LF] + payload);
    EntriesSkipBlank(LF, payload);
    assert Pairs(order, m) + [] == Pairs(order, m);
    ToMapOfPairs(order, m);
  }

  /** The parse of a buffer that starts with a line of three words. */
  lemma ParseAfterLine(line: string, verb: string, uri: string, tail: string, stale: string)
    requires line != "" && Free(line, LINE_ENDS) && Split(line, ' ') == [verb, uri, VERSION]
    ensures
      var text := line + (CRLF + tail);
      ParseRequest(text + stale, |text|) == Request(VerbOf(verb), uri, ToMap(Entries([LF] + tail)))
  {
    hide Entries, Split, FindFirstOf, ToMap, VerbOf;
    var text := line + (CRLF + tail);
    var buffer := text + stale;
    assert buffer == line + (CRLF + tail + stale);
    FindAfter(line, CRLF + tail + stale, LINE_ENDS);
    assert buffer[..|line|] == line;
    assert buffer[|line| + 1..|text|] == [LF] + tail;
  }

  /** A printed request followed by a payload that holds no header line, in a buffer of any larger
      size with any old content behind it, parses to the verb, the URI and exactly the headers that
      were printed, each value behind a space. */
  lemma RequestRoundTrip(
      v: Verb, uri: string, order: seq<string>, m: Headers, payload: string, stale: string)
    requires !v.INVALID? && Free(uri, {' ', CR, LF, NUL})
    requires Enumerates(order, m) && AllPlain(order, m)
    requires Entries(payload) == []
    ensures
      var text := RequestText(v, uri, order, m) + payload;
      ParseRequest(text + stale, |text|) == Request(v, uri, Spaced(m))
  {
    hide Entries, Split, ParseRequest, HeaderLines, ToMap, VerbName, VerbOf;
    var line := VerbName(v) + " " + uri + " " + VERSION;
    var tail := HeaderLines(order, m) + (CRLF + payload);
    assert RequestText(v, uri, order, m) + payload == line + (CRLF + tail);
    RequestLineWords(v, uri);
    ParseAfterLine(line, VerbName(v), uri, tail, stale);
    EntriesOfMessage(order, m, payload);
    VerbRoundTrip(v);
  }

  lemma VerbRoundTrip(v: Verb)
    requires !v.INVALID?
    ensures VerbOf(VerbName(v)) == v
  {
  }

  /** The word that the buffer starts with, up to a space. */
  predicate StartsWith(buffer: string, word: string) { word + " " <= buffer }

  /** A request line of three words means a verb if and only if it starts with that verb's name. */
  lemma VerbIsNamed(buffer: string, ret: nat)
    requires ret <= |buffer| && !ParseRequest(buffer, ret).BadLine?
    ensures
      var v := ParseRequest(buffer, ret).verb;
      && (v.GET? <==> StartsWith(buffer, "GET")) && (v.PUT? <==> StartsWith(buffer, "PUT"))
      && (v.POST? <==> StartsWith(buffer, "POST")) && (v.HEAD? <==> StartsWith(buffer, "HEAD"))
      && (v.DELETE? <==> StartsWith(buffer, "DELETE")) && (v.OPTIONS? <==> StartsWith(buffer, "OPTIONS"))
  {
    var line := buffer[..FindFirstOf(buffer, LINE_ENDS, 0)];
    FirstWord(buffer, line, "GET");
    FirstWord(buffer, line, "PUT");
    FirstWord(buffer, line, "POST");
    FirstWord(buffer, line, "HEAD");
    FirstWord(buffer, line, "DELETE");
    FirstWord(buffer, line, "OPTIONS");
    hide FindFirstOf, Split, Entries, ToMap, StartsWith;
  }

  lemma FirstWord(buffer: string, line: string, word: string)
    requires line == buffer[..FindFirstOf(buffer, LINE_ENDS, 0)] && |Split(line, ' ')| > 1
    requires Free(word, {' ', CR, LF, NUL})
    ensures Split(line, ' ')[0] == word <==> StartsWith(buffer, word)
  {
    hide FindFirstOf;
    var n := FindFirstOf(line, {' '}, 0);
    assert n < |line| && Split(line, ' ')[0] == line[..n] && line[n] == ' ';
    assert forall i | 0 <= i < |line| :: line[i] == buffer[i];
    if line[..n] == word {
      assert buffer[..n + 1] == word + " ";
    }
    if StartsWith(buffer, word) {
      var w := word + " ";
      assert forall i | 0 <= i < |w| :: buffer[i] == w[i];
      assert forall i | 0 <= i < |word| :: w[i] == word[i];
      assert w[|word|] == ' ';
      assert n == |word|;
    }
  }

  /** A request line is bad if and only if it does not consist of three words. */
  lemma BadLineIff(words: seq<string>, e: char, tail: string, ret: nat)
    requires words != [] && words[|words| - 1] != "" && e in {'\r', '\n', '\0'}
    requires forall i | 0 <= i < |words| :: Free(words[i], {' ', '\r', '\n', '\0'})
    requires ret <= |Join(words, ' ') + [e] + tail|
    ensures ParseRequest(Join(words, ' ') + [e] + tail, ret).BadLine? <==> |words| != 3
  {
    hide Entries, ToMap, VerbOf, Split, FindFirstOf, Join;
    var line := Join(words, ' ');
    var buffer := line + [e] + tail;
    JoinFree(words);
    assert buffer == line + ([e] + tail) && Free(line, LINE_ENDS);
    FindAfter(line, [e] + tail, LINE_ENDS);
    assert buffer[..|line|] == line;
    assert forall i | 0 <= i < |words| :: Free(words[i], {' '});
    SplitOfJoin(words, ' ');
  }

  lemma {:induction false} JoinFree(words: seq<string>)
    requires words != [] && words[|words| - 1] != ""
    requires forall i | 0 <= i < |words| :: Free(words[i], {' ', '\r', '\n', '\0'})
    ensures Join(words, ' ') != "" && Free(Join(words, ' '), {'\r', '\n', '\0'})
    decreases |words|
  {
    if |words| > 1 {
      JoinFree(words[1..]);
      var line, rest := Join(words, ' '), Join(words[1..], ' ');
      assert line == words[0] + ([' '] + rest);
      assert forall i | |words[0]| < i < |line| :: line[i] == rest[i - |words[0]| - 1];
    }
  }

  /** The request line ends at the first CR, LF or NUL; the headers are looked for behind that char, in
      what was received. */
  lemma LineEnds(verb: string, uri: string, e: char, tail: string, ret: nat)
    requires e in {'\r', '\n', '\0'} && verb != ""
    requires Free(verb, {' ', '\r', '\n', '\0'}) && Free(uri, {' ', '\r', '\n', '\0'})
    requires var n := |verb| + |uri| + 10; ret <= n + 1 + |tail|
    ensures
      var line := verb + " " + uri + " HTTP/1.1";
      var buffer := line + [e] + tail;
      ParseRequest(buffer, ret) ==
      if ret <= |line| then Overrun(VerbOf(verb), uri)
      else Request(VerbOf(verb), uri, ToMap(Entries(tail[..ret - |line| - 1])))
  {
    hide Entries, ToMap, VerbOf, Split, FindFirstOf;
    var line := verb + " " + uri + " HTTP/1.1";
    var buffer := line + [e] + tail;
    assert buffer == line + ([e] + tail) && Free(line, LINE_ENDS);
    FindAfter(line, [e] + tail, LINE_ENDS);
    assert buffer[..|line|] == line;
    assert line == verb + ([' '] + (uri + ([' '] + "HTTP/1.1")));
    SplitStep(verb, uri + ([' '] + "HTTP/1.1"), ' ');
    SplitStep(uri, "HTTP/1.1", ' ');
    SplitLast("HTTP/1.1", ' ');
    if ret > |line| {
      assert buffer[|line| + 1..ret] == tail[..ret - |line| - 1];
    }
  }

  /** The request line as it stands on the wire, for the verbs a client sends. */
  lemma RequestLine(uri: string, order: seq<string>, m: Headers)
    requires KeysIn(order, m)
    ensures "GET " + uri + " HTTP/1.1\r\n" <= RequestText(GET, uri, order, m)
    ensures "POST " + uri + " HTTP/1.1\r\n" <= RequestText(POST, uri, order, m)
    ensures "PUT " + uri + " HTTP/1.1\r\n" <= RequestText(PUT, uri, order, m)
    ensures "DELETE " + uri + " HTTP/1.1\r\n" <= RequestText(DELETE, uri, order, m)
  {
    hide RequestText;
    LineIsPrefix(GET, "GET", uri, order, m);
    LineIsPrefix(POST, "POST", uri, order, m);
    LineIsPrefix(PUT, "PUT", uri, order, m);
    LineIsPrefix(DELETE, "DELETE", uri, order, m);
  }

  lemma LineIsPrefix(v: Verb, name: string, uri: string, order: seq<string>, m: Headers)
    requires KeysIn(order, m) && !v.INVALID? && VerbName(v) == name
    ensures name + " " + uri + " HTTP/1.1\r\n" <= RequestText(v, uri, order, m)
  {
    hide HeaderLines;
    assert " HTTP/1.1\r\n" == " " + VERSION + CRLF;
    assert name + " " + uri + " HTTP/1.1\r\n" == name + " " + uri + " " + VERSION + CRLF;
  }

  // ----- Responses -----

  /** The status line. The table of reason phrases is never filled, so the reason is a space. */
  function StatusLine(status: nat): string { VERSION + " " + Dec(status) + " " + CRLF }

  /** What response prints before the payload. */
  function ResponseHead(status: nat, order: seq<string>, m: Headers): string
    requires KeysIn(order, m)
  {
    StatusLine(status) + HeaderLines(order, m) + CRLF
  }

  /** A response head starts with its protocol and, readable by `atoi`, its status; the headers behind
      its first line are those that were printed. */
  lemma HeadIsUnderstood(status: nat, order: seq<string>, m: Headers)
    requires Enumerates(order, m) && AllPlain(order, m)
    ensures
      var head := ResponseHead(status, order, m);
      && "HTTP/1.1 " <= head && Atoi(head[9..]) == status
      && var nl := FindFirstOf(head, NEWLINES, 0);
      && head[..nl] == "HTTP/1.1 " + Dec(status) + " " && nl + 2 <= |head| && head[nl..nl + 2] == "\r\n"
      && ToMap(Entries(head[nl..])) == Spaced(m)
  {
    hide Entries, ToMap, HeaderLines, FindFirstOf, Atoi, Dec, ResponseHead;
    var head, lines := ResponseHead(status, order, m), HeaderLines(order, m);
    var line := HeadParts(status, order, m);
    StatusIsRead(status, lines);
    FindAfter(line, CRLF + (lines + CRLF), NEWLINES);
    var tail := lines + (CRLF + "");
    assert head[|line|..] == CRLF + (lines + CRLF) == [CR] + ([LF] + tail);
    assert head[..|line|] == line && head[|line|..|line| + 2] == CRLF;
    EntriesSkipBlank(CR, [LF] + tail);
    EntriesStuck("");
    EntriesOfMessage(order, m, "");
  }

  lemma HeadParts(status: nat, order: seq<string>, m: Headers) returns (line: string)
    requires KeysIn(order, m)
    ensures line == "HTTP/1.1 " + Dec(status) + " " && Free(line, NEWLINES)
    ensures ResponseHead(status, order, m) == line + (CRLF + (HeaderLines(order, m) + CRLF))
    ensures ResponseHead(status, order, m) == "HTTP/1.1 " + (Dec(status) + (" " + CRLF + HeaderLines(order, m) + CRLF))
  {
    hide HeaderLines, Dec;
    line := "HTTP/1.1 " + Dec(status) + " ";
    assert VERSION + " " == "HTTP/1.1 ";
  }

  lemma StatusIsRead(status: nat, lines: string)
    ensures
      var text := "HTTP/1.1 " + (Dec(status) + (" " + CRLF + lines + CRLF));
      "HTTP/1.1 " <= text && Atoi(text[9..]) == status
  {
    hide Atoi, Dec;
    var rest := " " + CRLF + lines + CRLF;
    AtoiReads("", status, rest);
    assert ("HTTP/1.1 " + (Dec(status) + rest))[9..] == "" + (Dec(status) + rest);
  }

  predicate NoCR(order: seq<string>, m: Headers)
    requires KeysIn(order, m)
  {
    forall i | 0 <= i < |order| :: Free(order[i], {CR}) && Free(m[order[i]], {CR})
  }

  /** From the CR that ends a line, the scanner for the blank line runs over the next line. */
  lemma ScanOverLine(s: string, i: nat, line: string, rest: string)
    requires i <= |s| && s[i..] == CRLF + (line + rest) && line != "" && Free(line, {CR})
    ensures i + 2 + |line| <= |s| && s[i + 2 + |line|..] == rest
    ensures Scan(s, CRLFCRLF, i) == Scan(s, CRLFCRLF, i + 2 + |line|)
  {
    hide Scan, Match;
    var j := i + 2 + |line|;
    assert s[i] == s[i..][0] && s[i + 1] == s[i..][1];
    assert forall k | 0 <= k < |line| :: s[i + 2 + k] == s[i..][2 + k] == line[k];
    assert s[j..] == s[i..][2 + |line|..] == rest;
    MatchUnfolds(s, CRLFCRLF, i);
    ScanUnfolds(s, CRLFCRLF, i);
    ScanSkipsPlain(s, CRLFCRLF, i + 3, j);
  }

  /** From the CR before a blank line it stops right behind that line. */
  lemma ScanBlankLine(s: string, i: nat, body: string)
    requires i <= |s| && s[i..] == CRLF + CRLF + body
    ensures Scan(s, CRLFCRLF, i) == i + 4
  {
    hide Scan, Match;
    assert forall k | 0 <= k < 4 :: s[i + k] == s[i..][k];
    MatchUnfolds(s, CRLFCRLF, i);
    ScanUnfolds(s, CRLFCRLF, i);
  }

  /** So it runs over the remaining header lines and stops behind the blank line. */
  lemma {:induction false} ScanOverLines(s: string, i: nat, order: seq<string>, m: Headers, body: string)
    requires i <= |s| && KeysIn(order, m) && NoCR(order, m)
    requires s[i..] == CRLF + HeaderLines(order, m) + (CRLF + body)
    ensures Scan(s, CRLFCRLF, i) == i + 2 + |HeaderLines(order, m)| + 2
    decreases |order|
  {
    hide Scan;
    if order == [] {
      assert s[i..] == CRLF + CRLF + body;
      ScanBlankLine(s, i, body);
    } else {
      var line := order[0] + ": " + m[order[0]];
      var more := HeaderLines(order[1..], m);
      var rest := CRLF + more + (CRLF + body);
      assert Free(line, {CR});
      assert HeaderLines(order, m) == line + (CRLF + more);
      assert s[i..] == CRLF + (line + rest);
      ScanOverLine(s, i, line, rest);
      ScanOverLines(s, i + 2 + |line|, order[1..], m, body);
    }
  }

  /** Reading up to the blank line takes exactly the status line and the headers of a response,
      whatever its body holds. */
  lemma HeadIsRead(status: nat, order: seq<string>, m: Headers, body: string)
    requires KeysIn(order, m) && NoCR(order, m)
    ensures
      var head := ResponseHead(status, order, m);
      Scan(head + body, CRLFCRLF, 0) == |head|
  {
    hide Scan, HeaderLines;
    var line := VERSION + " " + Dec(status) + " ";
    assert ResponseHead(status, order, m) == line + CRLF + HeaderLines(order, m) + CRLF;
    LineAndHeadersRead(line, order, m, body);
  }

  lemma LineAndHeadersRead(line: string, order: seq<string>, m: Headers, body: string)
    requires KeysIn(order, m) && NoCR(order, m) && Free(line, {CR})
    ensures
      var head := line + CRLF + HeaderLines(order, m) + CRLF;
      Scan(head + body, CRLFCRLF, 0) == |head|
  {
    hide Scan, HeaderLines;
    var s := line + CRLF + HeaderLines(order, m) + CRLF + body;
    var tail := CRLF + HeaderLines(order, m) + (CRLF + body);
    assert s == line + tail;
    assert forall k | 0 <= k < |line| :: s[k] == line[k];
    ScanSkipsPlain(s, CRLFCRLF, 0, |line|);
    assert s[|line|..] == tail;
    ScanOverLines(s, |line|, order, m, body);
  }

  /** A request ends in a blank line as well: reading up to the first one takes exactly the request line
      and the headers, whatever the payload. */
  lemma RequestHeadIsRead(v: Verb, uri: string, order: seq<string>, m: Headers, payload: string)
    requires !v.INVALID? && Free(uri, {CR}) && KeysIn(order, m) && NoCR(order, m)
    ensures
      var head := RequestText(v, uri, order, m);
      Scan(head + payload, CRLFCRLF, 0) == |head|
  {
    hide Scan, HeaderLines, VerbName;
    var line := VerbName(v) + " " + uri + " " + VERSION;
    assert Free(VerbName(v), {CR}) by { VerbPlain(v); }
    assert RequestText(v, uri, order, m) == line + CRLF + HeaderLines(order, m) + CRLF;
    LineAndHeadersRead(line, order, m, payload);
  }

  lemma VerbPlain(v: Verb)
    requires !v.INVALID?
    ensures Free(VerbName(v), {CR})
  {
  }

  /** Reading the content up to CRLF takes the whole body if and only if every CRLF in it whose CR
      ends an odd run of CRs is at its very end. */
  lemma BodyIsReadIff(body: string)
    ensures Scan(body, CRLF, 0) == |body| <==> forall k: nat | Seen(body, CRLF, k) :: k + 2 == |body|
  {
    ScanIsFirstSeen(body, CRLF, 0);
    FirstSeenSpans(body, 0);
  }

  lemma {:induction false} FirstSeenSpans(body: string, i: nat)
    requires i <= |body|
    ensures FirstSeen(body, CRLF, i) == |body| <==>
            forall k: nat | i <= k && Seen(body, CRLF, k) :: k + 2 == |body|
    decreases |body| - i
  {
    if i < |body| {
      FirstSeenSpans(body, i + 1);
      if Seen(body, CRLF, i) && i + 2 == |body| && i + 1 < |body| {
        assert forall k: nat | i < k && Seen(body, CRLF, k) :: k + 2 == |body|;
      }
    }
  }

  /** What a client that reads up to the blank line and then up to CRLF takes from `rx`. */
  function HeadTaken(rx: string): string { rx[..Scan(rx, CRLFCRLF, 0)] }

  function LineTaken(rx: string): string { rx[..Scan(rx, CRLF, 0)] }

  function ContentTaken(rx: string): string { LineTaken(rx[|HeadTaken(rx)|..]) }

  /** A client that reads a printed response gets exactly its status line and headers and, when the
      body is CR-free text ended by one CRLF, exactly its body, whatever comes later. */
  lemma ResponseRoundTrip(status: nat, order: seq<string>, m: Headers, text: string, later: string)
    requires KeysIn(order, m) && NoCR(order, m) && Free(text, {CR})
    ensures
      var rx := ResponseHead(status, order, m) + (text + CRLF) + later;
      HeadTaken(rx) == ResponseHead(status, order, m) && ContentTaken(rx) == text + CRLF
  {
    hide ResponseHead, Scan;
    var head, body := ResponseHead(status, order, m), text + CRLF + later;
    var rx := head + (text + CRLF) + later;
    assert rx == head + body;
    HeadIsRead(status, order, m, body);
    assert rx[|head|..] == body;
    LineBodyIsRead(text, later);
  }

  /** A whole connection's worth of input: the body is the rest of the input up to its end. It is
      returned whole if and only if no CRLF with an odd run of CRs comes before its end. */
  lemma ContentIsBodyIff(status: nat, order: seq<string>, m: Headers, body: string)
    requires KeysIn(order, m) && NoCR(order, m)
    ensures
      ContentTaken(ResponseHead(status, order, m) + body) == body
      <==> forall k: nat | Seen(body, CRLF, k) :: k + 2 == |body|
  {
    hide ResponseHead, Scan, Seen;
    var head := ResponseHead(status, order, m);
    HeadIsRead(status, order, m, body);
    assert (head + body)[|head|..] == body;
    BodyIsReadIff(body);
    assert body[..|body|] == body;
  }

  lemma LineBodyIsRead(text: string, later: string)
    requires Free(text, {CR})
    ensures Scan(text + CRLF + later, CRLF, 0) == |text| + 2
  {
    var s := text + CRLF + later;
    assert forall k | 0 <= k < |text| :: s[k] == text[k];
    ScanSkipsPlain(s, CRLF, 0, |text|);
    MatchUnfolds(s, CRLF, |text|);
  }
}
