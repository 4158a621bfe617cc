/** The names that Socket::open takes apart, and the addresses that SocketAddr prints. */
module Address {
  import opened Decimal

  /** `Refused` is the early failure of open; `ByService` looks the port up by name. */
  datatype Target =
    | Refused
    | ByPort(host: string, port: int)
    | ByService(host: string, service: string)

  /** `find("//")`: the first position, or -1. */
  function FindSlashes(s: string, from: nat): (n: int)
    requires from <= |s|
    ensures n == -1 || (from <= n && n + 2 <= |s| && s[n] == '/' && s[n + 1] == '/')
    ensures n == -1 ==> forall i | from <= i < |s| - 1 :: !(s[i] == '/' && s[i + 1] == '/')
    ensures n >= 0 ==> forall i | from <= i < n :: !(s[i] == '/' && s[i + 1] == '/')
    decreases |s| - from
  {
    if from + 2 > |s| then -1
    else if s[from] == '/' && s[from + 1] == '/' then from
    else FindSlashes(s, from + 1)
  }

  /** `find_first_of(':')`, or -1. */
  function FirstColon(s: string, from: nat): (n: int)
    requires from <= |s|
    ensures n == -1 || (from <= n < |s| && s[n] == ':')
    ensures forall i | from <= i < (if n == -1 then |s| else n) :: s[i] != ':'
    decreases |s| - from
  {
    if from == |s| then -1 else if s[from] == ':' then from else FirstColon(s, from + 1)
  }

  /** `find_last_of(':')`, or -1. */
  function LastColon(s: string, end: nat): (n: int)
    requires end <= |s|
    ensures n == -1 || (0 <= n < end && s[n] == ':')
    ensures forall i | n < i < end :: s[i] != ':'
  {
    if end == 0 then -1 else if s[end - 1] == ':' then end - 1 else LastColon(s, end - 1)
  }

  /** The port that a scheme stands for when none was found. */
  function SchemePort(name: string, port: int): int {
    if port != 0 then port
    else if "http:" <= name then 80
    else if "https:" <= name then 443
    else 0
  }

  /** Socket::open(lpszFileName, ..) up to the call of the other open. The empty name is excluded:
      there the source reads a variable it has not set. */
  method ParseName(name: string) returns (target: Target)
    requires name != ""
    ensures target == TargetOf(name)
  {
    hide FindSlashes, FirstColon, LastColon, Atoi;
    var host := "";
    var port := 0;
    var nColon := LastColon(name, |name|);
    ColonsAgree(name);
    if nColon != -1 && HasSlashes(name) {
      SlashesHideColon(name);
    }
    assert name[0..] == name;
    assert "http:" <= name ==> name[4] == ':';
    assert "https:" <= name ==> name[5] == ':';
    var nBegin := FindSlashes(name, 0);
    if nBegin == -1 {
      nBegin := 0;
    } else {
      nBegin := nBegin + 2;
    }
    if nColon == -1 {
      host := name[nBegin..];
      if |host| != 0 {
        return Refused;
      }
    } else {
      var fColon := FirstColon(name[nBegin..], 0);
      if nColon == fColon {
        if nColon == 0 {
          host := "";
        } else {
          host := name[nBegin..nColon];
        }
        port := Atoi(name[nColon + 1..]);
      } else {
        nColon := -1;
        host := name[nBegin..];
      }
    }
    if port == 0 {
      if "http:" <= name {
        port := 80;
      } else if "https:" <= name {
        port := 443;
      }
    }
    if port == 0 && nColon != -1 {
      return ByService(host, name[nColon + 1..]);
    }
    return ByPort(host, port);
  }

  /** Where the host starts. */
  function HostStart(name: string): (n: nat)
    ensures n <= |name|
  {
    FindSlashes(name, 0) + (if FindSlashes(name, 0) == -1 then 1 else 2)
  }

  predicate HasSlashes(name: string) { FindSlashes(name, 0) != -1 }

  /** The meaning of a name. Without `//` it is `host:port`, with exactly one colon. With `//`
      everything behind it is the host, even a colon and a port, and the scheme gives the port. */
  function TargetOf(name: string): Target {
    var first := FirstColon(name, 0);
    var last := LastColon(name, |name|);
    if first == -1 then
      if HostStart(name) < |name| then Refused else ByPort("", 0)
    else if first != last || HasSlashes(name) then
      ByPort(name[HostStart(name)..], SchemePort(name, 0))
    else
      var port := SchemePort(name, Atoi(name[first + 1..]));
      if port == 0 then ByService(name[..first], name[first + 1..]) else ByPort(name[..first], port)
  }

  lemma ColonsAgree(name: string)
    ensures FirstColon(name, 0) == -1 <==> LastColon(name, |name|) == -1
    ensures !HasSlashes(name) ==> name[HostStart(name)..] == name
  {
  }

  /** Behind `//` the first colon, counted from there, never lies where the last one lies. */
  lemma SlashesHideColon(name: string)
    requires LastColon(name, |name|) != -1 && HasSlashes(name)
    ensures FirstColon(name[HostStart(name)..], 0) != LastColon(name, |name|)
  {
  }

  // ----- Printing and parsing -----

  /** SocketAddr's text: the host, and the port unless it is 0. */
  function Printed(host: string, port: nat): string {
    host + if port != 0 then ":" + Dec(port) else ""
  }

  predicate HasColon(s: string) { exists i :: 0 <= i < |s| && s[i] == ':' }

  lemma PrintedShape(host: string, port: nat)
    requires port != 0
    ensures
      var name := Printed(host, port);
      && LastColon(name, |name|) == |host| && name[|host| + 1..] == Dec(port)
      && name[..|host|] == host
      && (FirstColon(name, 0) == |host| <==> !HasColon(host))
      && HasSlashes(name) == HasSlashes(host)
  {
    hide FindSlashes, LastColon, FirstColon, HasSlashes, Dec;
    var name, digits := Printed(host, port), Dec(port);
    assert name == host + (":" + digits);
    SlashesOfPrefix(host, ":" + digits);
    assert forall i | 0 <= i < |host| :: name[i] == host[i];
    assert name[|host|] == ':' && name[|host| + 1..] == digits && name[..|host|] == host;
    assert forall i | |host| < i < |name| :: name[i] == digits[i - |host| - 1] && IsDigit(name[i]);
  }

  /** Text behind a host that holds no slash adds no `//`. */
  lemma SlashesOfPrefix(host: string, rest: string)
    requires forall i | 0 <= i < |rest| :: rest[i] != '/'
    ensures HasSlashes(host + rest) == HasSlashes(host)
  {
    hide FindSlashes;
    var name := host + rest;
    assert forall i | 0 <= i < |host| :: name[i] == host[i];
    assert forall i | |host| <= i < |name| :: name[i] == rest[i - |host|];
  }

  /** Parsing a printed address gives host and port back if and only if the host has neither a colon
      nor `//` in it. */
  lemma PrintParseIff(host: string, port: nat)
    requires port != 0
    ensures TargetOf(Printed(host, port)) == ByPort(host, port) <==> !HasColon(host) && !HasSlashes(host)
  {
    var name := Printed(host, port);
    PrintedShape(host, port);
    AtoiOfDec(port);
    if HasColon(host) || HasSlashes(host) {
      var start := HostStart(name);
      assert TargetOf(name) == ByPort(name[start..], SchemePort(name, 0));
      if name[start..] == host && SchemePort(name, 0) == port {
        PrintedLength(host, port);
        assert false;
      }
    }
  }

  lemma PrintedLength(host: string, port: nat)
    requires port != 0 && SchemePort(Printed(host, port), 0) == port
    ensures var name := Printed(host, port); name[HostStart(name)..] != host
  {
    var name := Printed(host, port);
    assert Dec(4) == "4" && Dec(44) == "44" && Dec(443) == "443" && Dec(8) == "8" && Dec(80) == "80";
    assert "http:" <= name ==> name[1] == 't' && name[2] == 't';
    assert "https:" <= name ==> name[1] == 't' && name[2] == 't';
  }

  /** `http://host` and `https://host` mean the host on port 80 and 443, for every host; so a port
      written behind such a host is taken as a part of its name. */
  lemma SchemeGivesPort(host: string)
    ensures TargetOf("http://" + host) == ByPort(host, 80)
    ensures TargetOf("https://" + host) == ByPort(host, 443)
  {
    var h, t := "http://" + host, "https://" + host;
    assert h[4] == ':' && h[5] == '/' && h[6] == '/' && h[7..] == host && "http:" <= h;
    assert t[5] == ':' && t[6] == '/' && t[7] == '/' && t[8..] == host && "https:" <= t;
    assert t[4] == 's';
    assert FindSlashes(h, 0) == 5 && FindSlashes(t, 0) == 6;
  }

  /** Without a colon a name is refused, unless all of it is `//` and what may stand before that. */
  lemma NoColonIsRefused(front: string, host: string)
    requires !HasColon(front + "//" + host) && !HasSlashes(front + "/")
    ensures TargetOf(front + "//" + host) == if host != "" then Refused else ByPort("", 0)
    ensures TargetOf(front) == if front != "" then Refused else ByPort("", 0)
  {
    hide FirstColon, LastColon;
    var name := front + "//" + host;
    SlashesAt(front, host);
    assert forall i | 0 <= i < |front| :: front[i] == name[i];
    assert forall i | 0 <= i < |front| :: front[i] == (front + "/")[i];
  }

  /** With a colon somewhere, what stands behind `//` is the host, all of it, and the port is 80 or 443
      behind `http:` and `https:` and 0 otherwise. */
  lemma HostBehindSlashes(front: string, host: string)
    requires HasColon(front + "//" + host) && !HasSlashes(front + "/")
    ensures
      var name := front + "//" + host;
      TargetOf(name) == ByPort(host, if "http:" <= name then 80 else if "https:" <= name then 443 else 0)
  {
    hide FirstColon, LastColon;
    SlashesAt(front, host);
  }

  lemma SlashesAt(front: string, host: string)
    requires !HasSlashes(front + "/")
    ensures var name := front + "//" + host; FindSlashes(name, 0) == |front| && name[|front| + 2..] == host
  {
    hide FindSlashes;
    var name, lead := front + "//" + host, front + "/";
    assert forall i | 0 <= i < |lead| :: name[i] == lead[i];
    assert name[|front|] == '/' && name[|front| + 1] == '/';
  }

  /** One colon, no `//`: behind the colon stands the port, or a service to be looked up if that is not
      a number other than 0; only the hosts `http` and `https` then mean a port of their own. */
  lemma HostAndService(host: string, service: string)
    requires !HasColon(host) && !HasColon(service) && !HasSlashes(host + ":" + service)
    ensures
      TargetOf(host + ":" + service) ==
      if Atoi(service) != 0 then ByPort(host, Atoi(service))
      else if host == "http" then ByPort(host, 80)
      else if host == "https" then ByPort(host, 443)
      else ByService(host, service)
  {
    hide FindSlashes, Atoi, FirstColon, LastColon, HasSlashes;
    var name := host + ":" + service;
    OneColon(host, service);
    SchemeIsHost(host, service, "http");
    SchemeIsHost(host, service, "https");
    assert "http:" == "http" + ":" && "https:" == "https" + ":";
  }

  lemma OneColon(host: string, service: string)
    requires !HasColon(host) && !HasColon(service)
    ensures
      var name := host + ":" + service;
      && FirstColon(name, 0) == |host| == LastColon(name, |name|)
      && name[..|host|] == host && name[|host| + 1..] == service
  {
    hide FirstColon, LastColon;
    var name := host + ":" + service;
    assert name[|host|] == ':' && name[..|host|] == host && name[|host| + 1..] == service;
    assert forall i | 0 <= i < |host| :: name[i] == host[i];
    assert forall i | 0 <= i < |service| :: name[|host| + 1 + i] == service[i];
    assert forall i | |host| < i < |name| :: name[i] == service[i - |host| - 1];
  }

  lemma SchemeIsHost(host: string, service: string, scheme: string)
    requires !HasColon(host) && !HasColon(scheme)
    ensures scheme + ":" <= host + ":" + service <==> host == scheme
  {
    var name, prefix := host + ":" + service, scheme + ":";
    assert name[|host|] == ':' && forall i | 0 <= i < |host| :: name[i] == host[i];
    assert prefix[|scheme|] == ':' && forall i | 0 <= i < |scheme| :: prefix[i] == scheme[i];
    if prefix <= name {
      assert name[|scheme|] == ':' && forall i | 0 <= i < |scheme| :: name[i] == scheme[i];
      assert host == scheme;
    }
  }

  /** A service that starts with a letter does not read as a number. */
  lemma NamedService(host: string, service: string)
    requires !HasColon(host) && !HasColon(service) && !HasSlashes(host + ":" + service)
    requires host != "http" && host != "https"
    requires service != "" && ('a' <= service[0] <= 'z' || 'A' <= service[0] <= 'Z')
    ensures TargetOf(host + ":" + service) == ByService(host, service)
  {
    HostAndService(host, service);
    AtoiOfName(service);
  }

  /** A name with two colons or more and neither scheme nor `//` is a host, with port 0. */
  lemma ManyColonsAreHost(name: string, i: nat, j: nat)
    requires i < j < |name| && name[i] == name[j] == ':' && !HasSlashes(name)
    requires !("http:" <= name) && !("https:" <= name)
    ensures TargetOf(name) == ByPort(name, 0)
  {
    ColonsAgree(name);
  }
}
