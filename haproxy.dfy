/**
  The data projection behind the HAproxy configuration: which services
  have ports, the TCP ports of each service name as decimal strings, the
  name sanitizer used for frontend and backend identifiers, and the
  change detector of the state watcher. Template rendering, file writing
  and the external verify/reload commands are not part of this model.
 */
module Haproxy {

  /** A port binding of a service: its protocol ("tcp", "udp", ...) and number. */
  datatype Port = Port(kind: string, port: int)

  /** A service instance, reduced to what the projection reads: an identifier and its ports. */
  datatype Service = Service(id: string, ports: seq<Port>)

  /** One item of the cluster state's sorted enumeration: a service and its service name. */
  datatype Entry = Entry(name: string, service: Service)

  // ---------------------------------------------------------------------
  // sanitizeName

  /** The characters the sanitizer keeps: [a-z0-9-]. */
  predicate Allowed(c: char)
  {
    ('a' <= c <= 'z') || ('0' <= c <= '9') || c == '-'
  }

  /** Replaces every character outside [a-z0-9-] with '-', scanning left to right. */
  function SanitizeName(s: string): (r: string)
    ensures |r| == |s|
    ensures forall i :: 0 <= i < |s| && Allowed(s[i]) ==> r[i] == s[i]
    ensures forall i :: 0 <= i < |s| && !Allowed(s[i]) ==> r[i] == '-'
    ensures forall i :: 0 <= i < |r| ==> Allowed(r[i])
  {
    if s == [] then []
    else [if Allowed(s[0]) then s[0] else '-'] + SanitizeName(s[1..])
  }

  /** A name is left unchanged exactly when it is already made of [a-z0-9-]. */
  lemma SanitizeNameFixes(s: string)
    ensures SanitizeName(s) == s <==> forall i :: 0 <= i < |s| ==> Allowed(s[i])
  {
  }

  /** Sanitizing twice is sanitizing once. */
  lemma SanitizeNameIdempotent(s: string)
    ensures SanitizeName(SanitizeName(s)) == SanitizeName(s)
  {
  }

  /** Upper-case letters, '_' and '!' are all replaced: "My_Service!" becomes "-y--ervice-". */
  lemma SanitizeNameExample()
    ensures SanitizeName("My_Service!") == "-y--ervice-"
  {
    var s := "My_Service!";
    var r := SanitizeName(s);
    forall i | 0 <= i < |s| ensures r[i] == "-y--ervice-"[i] {
    }
  }

  // ---------------------------------------------------------------------
  // Base-10 formatting of port numbers (strconv.FormatInt with base 10)

  predicate IsDigit(c: char)
  {
    '0' <= c <= '9'
  }

  function DigitChar(d: nat): (c: char)
    requires d < 10
    ensures IsDigit(c)
  {
    ('0' as int + d) as char
  }

  function DigitValue(c: char): (d: nat)
    requires IsDigit(c)
    ensures d < 10 && DigitChar(d) == c
  {
    c as int - '0' as int
  }

  /** The decimal digits of n, most significant first, without leading zeros. */
  function Digits(n: nat): (r: string)
    ensures |r| >= 1
    ensures forall i :: 0 <= i < |r| ==> IsDigit(r[i])
    ensures r[0] == '0' ==> n == 0
  {
    if n < 10 then [DigitChar(n)] else Digits(n / 10) + [DigitChar(n % 10)]
  }

  /** strconv.FormatInt(n, 10): a minus sign for negative numbers, then the digits. */
  function FormatInt(n: int): (r: string)
    ensures |r| >= 1
    ensures r[0] == '-' <==> n < 0
  {
    if n < 0 then "-" + Digits(-n) else Digits(n)
  }

  /** The value of a non-empty string of decimal digits. */
  function ParseDigits(s: string): nat
    requires |s| >= 1 && forall i :: 0 <= i < |s| ==> IsDigit(s[i])
  {
    var last := DigitValue(s[|s| - 1]);
    if |s| == 1 then last else ParseDigits(s[..|s| - 1]) * 10 + last
  }

  /** The inverse of FormatInt, on the strings FormatInt produces. */
  function ParseInt(s: string): int
    requires |s| >= 1
    requires s[0] == '-' ==> |s| >= 2
    requires forall i :: 0 <= i < |s| ==> IsDigit(s[i]) || (i == 0 && s[i] == '-')
  {
    if s[0] == '-' then -(ParseDigits(s[1..]) as int) else ParseDigits(s)
  }

  lemma {:induction false} DigitsRoundTrip(n: nat)
    ensures ParseDigits(Digits(n)) == n
  {
    if n >= 10 {
      DigitsRoundTrip(n / 10);
      var r := Digits(n);
      assert r[..|r| - 1] == Digits(n / 10);
    }
  }

  /** Formatting loses nothing: parsing gives the number back. */
  lemma FormatIntRoundTrip(n: int)
    ensures ParseInt(FormatInt(n)) == n
  {
    if n < 0 {
      DigitsRoundTrip(-n);
      assert FormatInt(n)[1..] == Digits(-n);
    } else {
      DigitsRoundTrip(n);
    }
  }

  /** Different port numbers give different strings, so a set of formatted
      ports holds one string per distinct port number. */
  lemma FormatIntInjective(a: int, b: int)
    ensures FormatInt(a) == FormatInt(b) <==> a == b
  {
    if FormatInt(a) == FormatInt(b) {
      FormatIntRoundTrip(a);
      FormatIntRoundTrip(b);
    }
  }

  // ---------------------------------------------------------------------
  // servicesWithPorts

  /** The services of the enumeration, in order, that have the given name
      and at least one port. */
  function Kept(entries: seq<Entry>, name: string): seq<Service>
  {
    if entries == [] then []
    else
      var e := entries[|entries| - 1];
      Kept(entries[..|entries| - 1], name) +
        (if e.name == name && |e.service.ports| >= 1 then [e.service] else [])
  }

  /** What servicesWithPorts promises of its map: a name is a key exactly when
      some service of that name has a port, and it holds that name's
      services with ports in enumeration order. */
  ghost predicate IsServiceMap(entries: seq<Entry>, serviceMap: map<string, seq<Service>>)
  {
    && (forall name :: name in serviceMap <==>
          exists i :: 0 <= i < |entries| && entries[i].name == name && |entries[i].service.ports| >= 1)
    && (forall name :: name in serviceMap ==> serviceMap[name] == Kept(entries, name))
  }

  /** A service is kept under a name exactly when it is enumerated under that
      name with at least one port; a name with no such service keeps nothing. */
  lemma {:induction false} KeptMembers(entries: seq<Entry>, name: string)
    ensures forall s :: s in Kept(entries, name) <==>
              exists i :: 0 <= i < |entries| && entries[i] == Entry(name, s) && |s.ports| >= 1
    ensures Kept(entries, name) == [] <==>
              forall i :: 0 <= i < |entries| && entries[i].name == name ==> entries[i].service.ports == []
  {
    if entries != [] {
      var init := entries[..|entries| - 1];
      KeptMembers(init, name);
      assert forall i :: 0 <= i < |init| ==> init[i] == entries[i];
    }
  }

  /** In a service map no list is empty and every listed service has a port. */
  lemma ServiceMapNonEmpty(entries: seq<Entry>, serviceMap: map<string, seq<Service>>)
    requires IsServiceMap(entries, serviceMap)
    ensures forall name :: name in serviceMap ==> serviceMap[name] != []
    ensures forall name, s :: name in serviceMap && s in serviceMap[name] ==> |s.ports| >= 1
  {
    forall name | name in serviceMap
      ensures serviceMap[name] != []
      ensures forall s :: s in serviceMap[name] ==> |s.ports| >= 1
    {
      KeptMembers(entries, name);
    }
  }

  /** Groups the enumerated services by name, skipping services without ports. */
  method ServicesWithPorts(entries: seq<Entry>) returns (serviceMap: map<string, seq<Service>>)
    ensures IsServiceMap(entries, serviceMap)
  {
    serviceMap := map[];
    var i := 0;
    while i < |entries|
      invariant 0 <= i <= |entries|
      invariant forall name :: name in serviceMap <==>
                  exists j :: 0 <= j < i && entries[j].name == name && |entries[j].service.ports| >= 1
      invariant forall name :: name in serviceMap ==> serviceMap[name] == Kept(entries[..i], name)
      invariant forall name :: name !in serviceMap ==> Kept(entries[..i], name) == []
    {
      assert entries[..i + 1][..i] == entries[..i];
      var svc := entries[i].service;
      if |svc.ports| >= 1 {
        var svcName := entries[i].name;
        if svcName !in serviceMap {
          serviceMap := serviceMap[svcName := []];
        }
        serviceMap := serviceMap[svcName := serviceMap[svcName] + [svc]];
      }
      i := i + 1;
    }
    assert entries[..i] == entries;
  }

  // ---------------------------------------------------------------------
  // makePortmap

  /** The formatted numbers of the TCP ports in a list of bindings. */
  function TcpPortsOf(ports: seq<Port>): set<string>
  {
    if ports == [] then {}
    else
      var p := ports[|ports| - 1];
      TcpPortsOf(ports[..|ports| - 1]) + (if p.kind == "tcp" then {FormatInt(p.port)} else {})
  }

  /** The formatted numbers of the TCP ports of all services in a list. */
  function TcpPorts(svcs: seq<Service>): set<string>
  {
    if svcs == [] then {}
    else TcpPorts(svcs[..|svcs| - 1]) + TcpPortsOf(svcs[|svcs| - 1].ports)
  }

  lemma {:induction false} TcpPortsOfMembers(ports: seq<Port>)
    ensures forall s :: s in TcpPortsOf(ports) <==>
              exists j :: 0 <= j < |ports| && ports[j].kind == "tcp" && FormatInt(ports[j].port) == s
  {
    if ports != [] {
      var init := ports[..|ports| - 1];
      TcpPortsOfMembers(init);
      assert forall j :: 0 <= j < |init| ==> init[j] == ports[j];
    }
  }

  /** A string is in a service list's port set exactly when it is the decimal
      form of a TCP port of one of the services: ports of other protocols are
      not listed, and a port bound twice is listed once. */
  lemma {:induction false} TcpPortsMembers(svcs: seq<Service>)
    ensures forall s :: s in TcpPorts(svcs) <==>
              exists i, j :: 0 <= i < |svcs| && 0 <= j < |svcs[i].ports| &&
                svcs[i].ports[j].kind == "tcp" && FormatInt(svcs[i].ports[j].port) == s
  {
    if svcs != [] {
      var init := svcs[..|svcs| - 1];
      TcpPortsMembers(init);
      TcpPortsOfMembers(svcs[|svcs| - 1].ports);
      assert forall i :: 0 <= i < |init| ==> init[i] == svcs[i];
    }
  }

  /** By port number: a number's decimal form is listed exactly when some
      service of the list binds that number over TCP. */
  lemma TcpPortNumbers(svcs: seq<Service>, n: int)
    ensures FormatInt(n) in TcpPorts(svcs) <==>
              exists i, j :: 0 <= i < |svcs| && 0 <= j < |svcs[i].ports| &&
                svcs[i].ports[j] == Port("tcp", n)
  {
    TcpPortsMembers(svcs);
    if FormatInt(n) in TcpPorts(svcs) {
      var i, j :| 0 <= i < |svcs| && 0 <= j < |svcs[i].ports| &&
                  svcs[i].ports[j].kind == "tcp" && FormatInt(svcs[i].ports[j].port) == FormatInt(n);
      FormatIntInjective(svcs[i].ports[j].port, n);
    }
  }

  /** What makePortmap promises: one key per service name, holding that
      name's TCP port numbers. */
  ghost predicate IsPortmap(services: map<string, seq<Service>>, ports: map<string, set<string>>)
  {
    && ports.Keys == services.Keys
    && (forall name :: name in ports ==> ports[name] == TcpPorts(services[name]))
  }

  /** In a portmap, a name whose services bind no TCP port has an empty set. */
  lemma PortmapEmptySet(services: map<string, seq<Service>>, ports: map<string, set<string>>, name: string)
    requires IsPortmap(services, ports)
    requires name in services
    ensures ports[name] == {} <==>
              forall i, j :: 0 <= i < |services[name]| && 0 <= j < |services[name][i].ports| ==>
                services[name][i].ports[j].kind != "tcp"
  {
    TcpPortsMembers(services[name]);
    if !(forall i, j :: 0 <= i < |services[name]| && 0 <= j < |services[name][i].ports| ==>
           services[name][i].ports[j].kind != "tcp") {
      var i, j :| 0 <= i < |services[name]| && 0 <= j < |services[name][i].ports| &&
                  services[name][i].ports[j].kind == "tcp";
      assert FormatInt(services[name][i].ports[j].port) in ports[name];
    }
  }

  /** Builds, per service name, the set of its TCP ports in decimal. */
  method MakePortmap(services: map<string, seq<Service>>) returns (ports: map<string, set<string>>)
    ensures IsPortmap(services, ports)
  {
    ports := map[];
    var pending := services.Keys;
    while pending != {}
      invariant pending <= services.Keys
      invariant ports.Keys == services.Keys - pending
      invariant forall n :: n in ports ==> ports[n] == TcpPorts(services[n])
      decreases |pending|
    {
      var name :| name in pending;
      var svcList := services[name];
      if name !in ports {
        ports := ports[name := {}];
      }
      // The set is shared by reference in the source; here it is updated
      // through a local variable and stored back.
      var portset := ports[name];
      var k := 0;
      while k < |svcList|
        invariant 0 <= k <= |svcList|
        invariant portset == TcpPorts(svcList[..k])
      {
        assert svcList[..k + 1][..k] == svcList[..k];
        var svcPorts := svcList[k].ports;
        var l := 0;
        while l < |svcPorts|
          invariant 0 <= l <= |svcPorts|
          invariant portset == TcpPorts(svcList[..k]) + TcpPortsOf(svcPorts[..l])
        {
          assert svcPorts[..l + 1][..l] == svcPorts[..l];
          if svcPorts[l].kind == "tcp" {
            portset := portset + {FormatInt(svcPorts[l].port)};
          }
          l := l + 1;
        }
        assert svcPorts[..l] == svcPorts;
        k := k + 1;
      }
      assert svcList[..k] == svcList;
      ports := ports[name := portset];
      pending := pending - {name};
    }
  }

  // ---------------------------------------------------------------------
  // The getPorts template function

  /** Lists every port of the named service once, in whatever order the set
      yields them; an unknown name (Go's nil set) lists nothing. */
  method GetPorts(ports: map<string, set<string>>, k: string) returns (keys: seq<string>)
    ensures forall key :: key in keys <==> k in ports && key in ports[k]
    ensures forall i, j :: 0 <= i < j < |keys| ==> keys[i] != keys[j]
    ensures |keys| == if k in ports then |ports[k]| else 0
  {
    var portset: set<string> := if k in ports then ports[k] else {};
    keys := [];
    var remaining := portset;
    while remaining != {}
      invariant remaining <= portset
      invariant forall key :: key in keys <==> key in portset && key !in remaining
      invariant forall i, j :: 0 <= i < j < |keys| ==> keys[i] != keys[j]
      invariant |keys| + |remaining| == |portset|
      decreases |remaining|
    {
      var key :| key in remaining;
      keys := keys + [key];
      remaining := remaining - {key};
    }
  }

  // ---------------------------------------------------------------------
  // WriteConfig's data and the Watch loop

  /** The data WriteConfig hands to the template: the services with ports and
      the TCP portmap built from them. */
  method WriteConfigData(entries: seq<Entry>)
    returns (services: map<string, seq<Service>>, ports: map<string, set<string>>)
    ensures IsServiceMap(entries, services)
    ensures IsPortmap(services, ports)
  {
    services := ServicesWithPorts(entries);
    ports := MakePortmap(services);
  }

  /** time.Unix(0, 0), with instants as nanoseconds since the Unix epoch. */
  const EPOCH: int := 0

  /** What the watcher reads from the cluster state at one poll. */
  datatype Snapshot = Snapshot(lastChanged: int, entries: seq<Entry>)

  /** A configuration write: the poll that caused it and the data rendered. */
  datatype Write = Write(poll: nat, services: map<string, seq<Service>>, ports: map<string, set<string>>)

  /** The watcher's lastChange after the given polls: it starts at the epoch
      and moves to a poll's LastChanged when that is strictly later. */
  function LastSeen(polls: seq<Snapshot>): int
  {
    if polls == [] then EPOCH
    else
      var prev := LastSeen(polls[..|polls| - 1]);
      var t := polls[|polls| - 1].lastChanged;
      if t > prev then t else prev
  }

  /** A poll triggers a write exactly when its LastChanged is after lastChange. */
  predicate Triggers(polls: seq<Snapshot>, i: nat)
    requires i < |polls|
  {
    polls[i].lastChanged > LastSeen(polls[..i])
  }

  /** lastChange is the latest of the epoch and every LastChanged seen. */
  lemma {:induction false} LastSeenIsLatest(polls: seq<Snapshot>)
    ensures LastSeen(polls) >= EPOCH
    ensures forall i :: 0 <= i < |polls| ==> polls[i].lastChanged <= LastSeen(polls)
    ensures LastSeen(polls) == EPOCH ||
            exists i :: 0 <= i < |polls| && polls[i].lastChanged == LastSeen(polls)
  {
    if polls != [] {
      var init := polls[..|polls| - 1];
      LastSeenIsLatest(init);
      assert forall i :: 0 <= i < |init| ==> init[i] == polls[i];
    }
  }

  /** lastChange never decreases as polls go by. */
  lemma {:induction false} LastSeenMonotone(polls: seq<Snapshot>, i: nat, j: nat)
    requires i <= j <= |polls|
    ensures LastSeen(polls[..i]) <= LastSeen(polls[..j])
  {
    if i < j {
      LastSeenMonotone(polls, i, j - 1);
      assert polls[..j][..j - 1] == polls[..j - 1];
    }
  }

  /** A poll writes exactly when its LastChanged is after the epoch and after
      every earlier poll's; so the first post-epoch state always writes. */
  lemma TriggersWhenNewest(polls: seq<Snapshot>, i: nat)
    requires i < |polls|
    ensures Triggers(polls, i) <==>
              polls[i].lastChanged > EPOCH &&
              forall j :: 0 <= j < i ==> polls[j].lastChanged < polls[i].lastChanged
  {
    var before := polls[..i];
    LastSeenIsLatest(before);
    assert forall j :: 0 <= j < i ==> before[j] == polls[j];
  }

  /** The Watch loop over a finite run of polls. The sleep between polls is
      left out; each poll that sees a change records the data written. */
  method Watch(polls: seq<Snapshot>) returns (lastChange: int, writes: seq<Write>)
    ensures lastChange == LastSeen(polls)
    ensures forall j :: 0 <= j < |writes| ==>
              writes[j].poll < |polls| && Triggers(polls, writes[j].poll) &&
              IsServiceMap(polls[writes[j].poll].entries, writes[j].services) &&
              IsPortmap(writes[j].services, writes[j].ports)
    ensures forall i :: 0 <= i < |polls| && Triggers(polls, i) ==>
              exists j :: 0 <= j < |writes| && writes[j].poll == i
    ensures forall j, k :: 0 <= j < k < |writes| ==> writes[j].poll < writes[k].poll
  {
    lastChange := EPOCH;
    writes := [];
    var i := 0;
    while i < |polls|
      invariant 0 <= i <= |polls|
      invariant lastChange == LastSeen(polls[..i])
      invariant forall j :: 0 <= j < |writes| ==>
                  writes[j].poll < i && Triggers(polls, writes[j].poll) &&
                  IsServiceMap(polls[writes[j].poll].entries, writes[j].services) &&
                  IsPortmap(writes[j].services, writes[j].ports)
      invariant forall p :: 0 <= p < i && Triggers(polls, p) ==>
                  exists j :: 0 <= j < |writes| && writes[j].poll == p
      invariant forall j, k :: 0 <= j < k < |writes| ==> writes[j].poll < writes[k].poll
    {
      assert polls[..i + 1][..i] == polls[..i];
      ghost var before := writes;
      var state := polls[i];
      if state.lastChanged > lastChange {
        lastChange := state.lastChanged;
        var services, ports := WriteConfigData(state.entries);
        writes := writes + [Write(i, services, ports)];
      }
      forall p | 0 <= p <= i && Triggers(polls, p)
        ensures exists j :: 0 <= j < |writes| && writes[j].poll == p
      {
        if p < i {
          var j :| 0 <= j < |before| && before[j].poll == p;
          assert writes[j] == before[j];
        } else {
          assert writes[|writes| - 1].poll == i;
        }
      }
      i := i + 1;
    }
    assert polls[..i] == polls;
  }
}
