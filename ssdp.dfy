/** SSDP search as a control point performs it (UPnP Device Architecture
    1.1, section 1.3.2): one socket per usable network interface, the
    M-SEARCH request sent from each, and the bookkeeping of the client's set
    of sockets.
    Sending, receiving, binding and the timers are outside the model: what
    they produce is a parameter. */
module Ssdp {
  import opened Results
  import opened Text
  import Js
  import opened SsdpMessage

  const DefaultMulticast: string := "239.255.255.250"
  const DefaultPort: int := 1900
  const DefaultSourcePort: int := 0
  const DefaultTimeout: int := 3000

  // ---------------------------------------------------------------------
  // Network interfaces

  /** One address of a network interface. */
  datatype InterfaceInfo = InterfaceInfo(address: string, family: string, internal: bool)

  /** The addresses a socket is opened for: external IPv4 ones. */
  predicate Usable(info: InterfaceInfo) {
    !info.internal && info.family == "IPv4"
  }

  /** The addresses of every interface, interface by interface. */
  function Flatten(groups: seq<(string, seq<InterfaceInfo>)>): seq<InterfaceInfo> {
    if groups == [] then [] else groups[0].1 + Flatten(groups[1..])
  }

  function UsableOnly(infos: seq<InterfaceInfo>): (r: seq<InterfaceInfo>)
    ensures |r| <= |infos|
  {
    if infos == [] then [] else (if Usable(infos[0]) then [infos[0]] else []) + UsableOnly(infos[1..])
  }

  /** `getNetworkInterfaces`, given the table the operating system reports. */
  function NetworkInterfaces(groups: seq<(string, seq<InterfaceInfo>)>): seq<InterfaceInfo> {
    UsableOnly(Flatten(groups))
  }

  lemma {:induction false} UsableOnlyMembers(infos: seq<InterfaceInfo>)
    ensures forall x :: x in UsableOnly(infos) <==> x in infos && Usable(x)
  {
    if infos != [] {
      UsableOnlyMembers(infos[1..]);
      assert infos == [infos[0]] + infos[1..];
    }
  }

  lemma {:induction false} FlattenMembers(groups: seq<(string, seq<InterfaceInfo>)>, x: InterfaceInfo)
    ensures x in Flatten(groups) <==> exists k :: 0 <= k < |groups| && x in groups[k].1
  {
    if groups != [] {
      FlattenMembers(groups[1..], x);
      if x in groups[0].1 {
        assert 0 < |groups| && x in groups[0].1;
      }
      if exists k :: 0 <= k < |groups| && x in groups[k].1 {
        var k :| 0 <= k < |groups| && x in groups[k].1;
        if k > 0 {
          assert x in groups[1..][k - 1].1;
        }
      }
    }
  }

  /** An address is used exactly when some interface reports it and it is
      external and IPv4. */
  lemma NetworkInterfacesMembers(groups: seq<(string, seq<InterfaceInfo>)>, x: InterfaceInfo)
    ensures x in NetworkInterfaces(groups) <==>
      Usable(x) && exists k :: 0 <= k < |groups| && x in groups[k].1
  {
    UsableOnlyMembers(Flatten(groups));
    FlattenMembers(groups, x);
  }

  // ---------------------------------------------------------------------
  // The client

  /** A UDP socket bound to one interface address; `id` is its identity. */
  datatype Socket = Socket(id: nat, address: string, port: int)

  /** Where a response came from. */
  datatype RemoteInfo = RemoteInfo(address: string, port: int)

  datatype SsdpResponse = SsdpResponse(headers: map<string, string>, rinfo: RemoteInfo, linfo: Socket, msg: string)

  /** One settled per-socket search: the response or the timeout. */
  datatype Outcome = Fulfilled(response: SsdpResponse) | Rejected(timedOut: Socket)

  datatype SsdpError = NotBound | Destroyed

  /** The constructor's options; `None` is a key that is absent. */
  datatype SsdpOptions = SsdpOptions(multicastAddress: Option<string>, port: Option<int>,
                                     sourcePort: Option<int>, timeout: Option<int>)

  /** `_parseResponse`. */
  function ParseResponse(msg: string, rinfo: RemoteInfo, linfo: Socket): SsdpResponse {
    SsdpResponse(Headers(msg), rinfo, linfo, msg)
  }

  /** What a socket's search settles to, given the first message it received
      before its timer fired, if any. */
  function OutcomeOf(socket: Socket, received: Option<(string, RemoteInfo)>): Outcome {
    match received
    case None => Rejected(socket)
    case Some((msg, rinfo)) => Fulfilled(ParseResponse(msg, rinfo, socket))
  }

  /** The sockets opened for the given addresses, in order, with consecutive
      identities from `start`. */
  function Opened(start: nat, port: int, infos: seq<InterfaceInfo>): (r: seq<Socket>)
    ensures |r| == |infos|
  {
    if infos == [] then []
    else Opened(start, port, infos[..|infos| - 1]) + [Socket(start + |infos| - 1, infos[|infos| - 1].address, port)]
  }

  /** The `k`-th address gets the `k`-th identity after `start`. */
  lemma {:induction false} OpenedAt(start: nat, port: int, infos: seq<InterfaceInfo>, k: nat)
    requires k < |infos|
    ensures Opened(start, port, infos)[k] == Socket(start + k, infos[k].address, port)
  {
    if k < |infos| - 1 {
      OpenedAt(start, port, infos[..|infos| - 1], k);
    }
  }

  lemma OpenedSnoc(start: nat, port: int, infos: seq<InterfaceInfo>, i: nat)
    requires i < |infos|
    ensures Opened(start, port, infos[..i + 1]) == Opened(start, port, infos[..i]) + [Socket(start + i, infos[i].address, port)]
  {
    assert infos[..i + 1][..i] == infos[..i];
  }

  lemma AppendAssoc(a: seq<Socket>, b: seq<Socket>, c: seq<Socket>)
    ensures a + b + c == a + (b + c)
  {
  }

  /** A socket with a new identifier keeps the identifiers distinct. */
  lemma AppendFresh(s: seq<Socket>, x: Socket, next: nat)
    requires Distinct(s) && forall k :: 0 <= k < |s| ==> s[k].id < next
    requires x.id == next
    ensures Distinct(s + [x]) && forall k :: 0 <= k < |s + [x]| ==> (s + [x])[k].id < next + 1
  {
    var t := s + [x];
    forall i, j | 0 <= i < j < |t| ensures t[i].id != t[j].id {
      assert t[i] == s[i];
    }
  }

  predicate Distinct(s: seq<Socket>) {
    forall i, j :: 0 <= i < j < |s| ==> s[i].id != s[j].id
  }

  /** `Set.delete`: the sequence without `x`, order kept. */
  function Remove(s: seq<Socket>, x: Socket): (r: seq<Socket>)
    ensures forall y :: y in r <==> y in s && y != x
    ensures |r| <= |s|
  {
    if s == [] then [] else (if s[0] == x then [] else [s[0]]) + Remove(s[1..], x)
  }

  /** Removing an absent socket changes nothing. */
  lemma {:induction false} RemoveAbsent(s: seq<Socket>, x: Socket)
    requires x !in s
    ensures Remove(s, x) == s
  {
    if s != [] {
      RemoveAbsent(s[1..], x);
      assert [s[0]] + s[1..] == s;
    }
  }

  /** Removal is idempotent. */
  lemma RemoveTwice(s: seq<Socket>, x: Socket)
    ensures Remove(Remove(s, x), x) == Remove(s, x)
  {
    RemoveAbsent(Remove(s, x), x);
  }

  lemma RemoveFirst(s: seq<Socket>)
    requires s != [] && Distinct(s)
    ensures Remove(s, s[0]) == s[1..]
  {
    assert s[0] !in s[1..];
    RemoveAbsent(s[1..], s[0]);
  }

  /** Removing the socket at position `i` of a list of distinct sockets
      drops exactly that position and keeps the others in their order. */
  lemma {:induction false} RemoveAt(s: seq<Socket>, i: nat)
    requires Distinct(s) && i < |s|
    ensures Remove(s, s[i]) == s[..i] + s[i + 1..]
    decreases i
  {
    if i == 0 {
      RemoveFirst(s);
    } else {
      var t := s[1..];
      assert Distinct(t) by {
        forall a, b | 0 <= a < b < |t| ensures t[a].id != t[b].id {
          assert t[a] == s[a + 1] && t[b] == s[b + 1];
        }
      }
      assert s[0] != s[i] by { assert s[0].id != s[i].id; }
      assert t[i - 1] == s[i];
      RemoveAt(t, i - 1);
      assert Remove(s, s[i]) == [s[0]] + (t[..i - 1] + t[i..]);
      assert [s[0]] + t[..i - 1] == s[..i];
      assert t[i..] == s[i + 1..];
    }
  }

  class Ssdp {
    const multicast: string
    const port: int
    const sourcePort: int
    const timeout: int

    /** The open sockets in insertion order, each at most once. */
    var sockets: seq<Socket>
    var destroyed: bool
    /** The identity the next socket gets. */
    var nextId: nat
    /** Every socket closed so far, in order. */
    var closed: seq<Socket>

    ghost predicate Valid()
      reads this
    {
      Distinct(sockets) && forall k :: 0 <= k < |sockets| ==> sockets[k].id < nextId
    }

    /** Applies the options over the defaults and opens one socket per usable
        address. The `multicastAddress` key names no field the client reads,
        so the multicast address keeps its default. */
    constructor(options: SsdpOptions, interfaces: seq<(string, seq<InterfaceInfo>)>)
      ensures Valid()
      ensures multicast == DefaultMulticast
      ensures port == (if options.port.Some? then options.port.value else DefaultPort)
      ensures sourcePort == (if options.sourcePort.Some? then options.sourcePort.value else DefaultSourcePort)
      ensures timeout == (if options.timeout.Some? then options.timeout.value else DefaultTimeout)
      ensures !destroyed && closed == []
      ensures sockets == Opened(0, sourcePort, NetworkInterfaces(interfaces))
    {
      multicast := DefaultMulticast;
      port := if options.port.Some? then options.port.value else DefaultPort;
      sourcePort := if options.sourcePort.Some? then options.sourcePort.value else DefaultSourcePort;
      timeout := if options.timeout.Some? then options.timeout.value else DefaultTimeout;
      sockets := [];
      destroyed := false;
      nextId := 0;
      closed := [];
      new;
      var error := CreateSockets(interfaces);
    }

    /** `createSockets`: refuses once destroyed, otherwise adds a fresh socket
        for every usable address. */
    method CreateSockets(interfaces: seq<(string, seq<InterfaceInfo>)>) returns (error: Option<SsdpError>)
      requires Valid()
      modifies this
      ensures Valid()
      ensures old(destroyed) ==> error == Some(Destroyed) && unchanged(this)
      ensures !old(destroyed) ==> error == None
      ensures !old(destroyed) ==>
        sockets == old(sockets) + Opened(old(nextId), sourcePort, NetworkInterfaces(interfaces))
      ensures !old(destroyed) ==> nextId == old(nextId) + |NetworkInterfaces(interfaces)|
      ensures destroyed == old(destroyed) && closed == old(closed)
    {
      if destroyed {
        return Some(Destroyed);
      }
      var infos := NetworkInterfaces(interfaces);
      var start := nextId;
      var i := 0;
      while i < |infos|
        invariant 0 <= i <= |infos|
        invariant nextId == start + i
        invariant sockets == old(sockets) + Opened(start, sourcePort, infos[..i])
        invariant Valid()
        invariant destroyed == old(destroyed) && closed == old(closed)
      {
        OpenedSnoc(start, sourcePort, infos, i);
        AppendAssoc(old(sockets), Opened(start, sourcePort, infos[..i]), [Socket(nextId, infos[i].address, sourcePort)]);
        AddSocket(infos[i].address);
        i := i + 1;
      }
      assert infos[..i] == infos;
      return None;
    }

    /** Binds one more socket to `address`, under the next identity. */
    method AddSocket(address: string)
      requires Valid()
      modifies this
      ensures Valid()
      ensures sockets == old(sockets) + [Socket(old(nextId), address, sourcePort)]
      ensures nextId == old(nextId) + 1
      ensures destroyed == old(destroyed) && closed == old(closed)
    {
      var socket := Socket(nextId, address, sourcePort);
      AppendFresh(sockets, socket, nextId);
      sockets := sockets + [socket];
      nextId := nextId + 1;
    }

    /** `destroy`: marks the client destroyed and closes and forgets every
        socket, in insertion order. */
    method Destroy()
      requires Valid()
      modifies this
      ensures Valid()
      ensures destroyed && sockets == []
      ensures closed == old(closed) + old(sockets)
      ensures nextId == old(nextId)
    {
      destroyed := true;
      var snapshot := sockets;
      var i := 0;
      while i < |snapshot|
        invariant 0 <= i <= |snapshot|
        invariant sockets == snapshot[i..]
        invariant closed == old(closed) + snapshot[..i]
        invariant destroyed && nextId == old(nextId)
      {
        RemoveFirst(snapshot[i..]);
        assert snapshot[i..][1..] == snapshot[i + 1..];
        assert snapshot[..i + 1] == snapshot[..i] + [snapshot[i]];
        closed := closed + [snapshot[i]];
        sockets := Remove(sockets, snapshot[i]);
        i := i + 1;
      }
    }

    /** The `close` handler: forgets the socket, if it is still there. */
    method OnClose(socket: Socket)
      requires Valid()
      modifies this
      ensures Valid()
      ensures sockets == Remove(old(sockets), socket)
      ensures socket !in old(sockets) ==> sockets == old(sockets)
      ensures destroyed == old(destroyed) && nextId == old(nextId) && closed == old(closed)
    {
      if socket !in sockets {
        RemoveAbsent(sockets, socket);
      }
      RemoveKeepsDistinct(sockets, socket);
      sockets := Remove(sockets, socket);
    }

    /** The `error` handler: closes the socket, whose `close` handler then
        forgets it. */
    method OnError(socket: Socket)
      requires Valid()
      modifies this
      ensures Valid()
      ensures sockets == Remove(old(sockets), socket)
      ensures closed == old(closed) + [socket]
      ensures destroyed == old(destroyed) && nextId == old(nextId)
    {
      closed := closed + [socket];
      OnClose(socket);
    }

    /** `search`: fails when no socket became bound; otherwise sends the query
        through every socket the client holds at call time and settles one
        outcome per socket, in the set's order. `answer` stands for the
        network: the first message a socket receives before its timeout. */
    function Search(device: string, bound: bool, answer: (Socket, string) -> Option<(string, RemoteInfo)>)
      : (r: Result<seq<Outcome>, SsdpError>)
      reads this
      ensures !bound ==> r == Err(NotBound)
      ensures bound ==> r.Ok? && |r.value| == |sockets|
      ensures bound ==> forall k :: 0 <= k < |sockets| ==>
        r.value[k] == OutcomeOf(sockets[k], answer(sockets[k], Query(multicast, port, device)))
    {
      if !bound then Err(NotBound)
      else
        var query := Query(multicast, port, device);
        Ok(seq(|sockets|, k requires 0 <= k < |sockets| reads this => OutcomeOf(sockets[k], answer(sockets[k], query))))
    }
  }

  lemma {:induction false} RemoveKeepsDistinct(s: seq<Socket>, x: Socket)
    requires Distinct(s)
    ensures Distinct(Remove(s, x))
    ensures forall k :: 0 <= k < |Remove(s, x)| ==> Remove(s, x)[k] in s
  {
    if s != [] {
      RemoveKeepsDistinct(s[1..], x);
      var r := Remove(s[1..], x);
      assert forall k :: 0 <= k < |r| ==> r[k] in s[1..];
      forall k | 0 <= k < |r| ensures r[k].id != s[0].id {
        var j :| 0 <= j < |s[1..]| && s[1..][j] == r[k];
        assert s[j + 1] == r[k];
      }
    }
  }

  /** A client without sockets, such as one that was destroyed, settles a
      search to no outcome at all instead of failing. */
  lemma SearchWithoutSockets(client: Ssdp, device: string, answer: (Socket, string) -> Option<(string, RemoteInfo)>)
    requires client.sockets == []
    ensures client.Search(device, true, answer) == Ok([])
  {
  }
}
