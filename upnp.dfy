/** The client's port-mapping operations on an Internet Gateway Device (the
    WANIPConnection service of UPnP IGD): finding the gateway through an SSDP
    search, reading its external address, listing its port mappings one
    index at a time, and adding or deleting a mapping from an options object
    that the client completes in place. A control call is a parameter: it
    stands for `Device.run` on the discovered gateway, network included. */
module Upnp {
  import opened Results
  import opened Text
  import Js
  import opened Xml
  import Device
  import Ssdp
  import SsdpMessage

  /** The search target of the gateway search. */
  const GatewayTarget: string := "urn:schemas-upnp-org:device:InternetGatewayDevice:1"

  /** The protocols a mapping may name, upper-case. */
  const Protocols: seq<string> := ["TCP", "UDP"]

  const DefaultProtocol: string := "TCP"
  const DefaultDescription: string := "node:port-mapper"
  const DefaultTtl: int := 300

  /** How an operation fails. `TypeError` is the runtime error raised when
      an `undefined` value is destructured or indexed. */
  datatype UpnpError =
    | SearchFailed(searchError: Ssdp.SsdpError)
    | DeviceFailed(deviceError: Device.Error)
    | TypeError
    | IncorrectResponse
    | InvalidData
    | IncorrectProtocol(protocol: string)

  /** The gateway found by the search: the `location` header of the answer
      (`None` when it has none), where the answer came from and the local
      socket that received it. */
  datatype Gateway = Gateway(location: Option<string>, rinfo: Ssdp.RemoteInfo, linfo: Ssdp.Socket)

  /** A control call on the gateway at a location: the action, its
      arguments, and the Body of the reply or the error. */
  type Control = (Option<string>, string, seq<Device.Arg>) -> Result<Option<Node>, Device.Error>

  // ---------------------------------------------------------------------
  // createGateway

  /** `createGateway`: takes the first settled search outcome, whatever the
      others are; an empty outcome list or a first outcome that timed out
      leaves nothing to destructure. */
  function CreateGateway(search: Result<seq<Ssdp.Outcome>, Ssdp.SsdpError>): (r: Result<Gateway, UpnpError>)
    ensures search.Err? ==> r == Err(SearchFailed(search.error))
    ensures search.Ok? && (search.value == [] || search.value[0].Rejected?) ==> r == Err(TypeError)
    ensures search.Ok? && search.value != [] && search.value[0].Fulfilled? ==>
      var response := search.value[0].response;
      r.Ok? && r.value.rinfo == response.rinfo && r.value.linfo == response.linfo
      && (r.value.location.Some? <==> "location" in response.headers)
      && ("location" in response.headers ==> r.value.location.value == response.headers["location"])
  {
    match search
    case Err(e) => Err(SearchFailed(e))
    case Ok(outcomes) =>
      if outcomes == [] then Err(TypeError)
      else match outcomes[0]
        case Rejected(_) => Err(TypeError)
        case Fulfilled(response) =>
          var location := if "location" in response.headers then Some(response.headers["location"]) else None;
          Ok(Gateway(location, response.rinfo, response.linfo))
  }

  /** Only the first outcome matters: two searches whose first outcomes agree
      give the same gateway, even if every later outcome differs. */
  lemma FirstOutcomeDecides(a: seq<Ssdp.Outcome>, b: seq<Ssdp.Outcome>)
    requires a != [] && b != [] && a[0] == b[0]
    ensures CreateGateway(Ok(a)) == CreateGateway(Ok(b))
  {
  }

  /** A first outcome that timed out fails the search even when a later
      socket did get an answer. */
  lemma TimedOutFirst(outcomes: seq<Ssdp.Outcome>, k: nat)
    requires 0 < k < |outcomes| && outcomes[0].Rejected? && outcomes[k].Fulfilled?
    ensures CreateGateway(Ok(outcomes)) == Err(TypeError)
  {
  }

  /** Discovery through a client: the gateway is the answer that the
      client's first socket received to the gateway query, and a client
      without sockets (one that was destroyed, say) finds none. */
  lemma GatewayOfClient(client: Ssdp.Ssdp, answer: (Ssdp.Socket, string) -> Option<(string, Ssdp.RemoteInfo)>)
    ensures client.sockets == [] ==> CreateGateway(client.Search(GatewayTarget, true, answer)) == Err(TypeError)
    ensures client.sockets != [] ==>
      var first := client.sockets[0];
      var received := answer(first, SsdpMessage.Query(client.multicast, client.port, GatewayTarget));
      && (received.None? ==> CreateGateway(client.Search(GatewayTarget, true, answer)) == Err(TypeError))
      && (received.Some? ==>
            var headers := SsdpMessage.Headers(received.value.0);
            CreateGateway(client.Search(GatewayTarget, true, answer)) ==
              Ok(Gateway(if "location" in headers then Some(headers["location"]) else None, received.value.1, first)))
  {
  }

  // ---------------------------------------------------------------------
  // Scanning the keys of a reply

  /** The first field, from `from` on, whose key satisfies `p`. */
  function FirstKey(fields: seq<(string, Node)>, p: string -> bool, from: nat): (r: Option<nat>)
    decreases |fields| - from
    ensures r.Some? ==> from <= r.value < |fields| && p(fields[r.value].0)
    ensures r.Some? ==> forall j :: from <= j < r.value ==> !p(fields[j].0)
    ensures r.None? ==> forall j :: from <= j < |fields| ==> !p(fields[j].0)
  {
    if from >= |fields| then None
    else if p(fields[from].0) then Some(from)
    else FirstKey(fields, p, from + 1)
  }

  /** A match with none before it is the one found. */
  lemma {:induction false} FirstKeyAt(fields: seq<(string, Node)>, p: string -> bool, from: nat, k: nat)
    requires from <= k < |fields| && p(fields[k].0)
    requires forall j :: from <= j < k ==> !p(fields[j].0)
    ensures FirstKey(fields, p, from) == Some(k)
    decreases k - from
  {
    if from < k {
      FirstKeyAt(fields, p, from + 1, k);
    }
  }

  /** A scan over the keys in order that stops at the first match. */
  method ScanKeys(fields: seq<(string, Node)>, p: string -> bool) returns (found: Option<nat>)
    ensures found == FirstKey(fields, p, 0)
  {
    var i := 0;
    while i < |fields|
      invariant 0 <= i <= |fields|
      invariant FirstKey(fields, p, 0) == FirstKey(fields, p, i)
    {
      if p(fields[i].0) {
        return Some(i);
      }
      i := i + 1;
    }
    return None;
  }

  /** The keys `externalIp` accepts: those ending in the response element's
      local name, whatever the prefix. */
  predicate IsAddressResponse(key: string) {
    EndsWith(key, ":GetExternalIPAddressResponse")
  }

  /** The keys the mapping listing accepts: those containing the response
      element's local name. */
  predicate IsEntryResponse(key: string) {
    Contains(key, ":GetGenericPortMappingEntryResponse")
  }

  // ---------------------------------------------------------------------
  // externalIp

  /** What `externalIp` resolves to for the Body of the reply: the
      `NewExternalIPAddress` of the first key that ends in the response's
      name. A missing Body cannot be scanned; a string or an array has only
      index keys, none of which matches. */
  function ExternalIpOf(body: Option<Node>): Result<Option<Node>, UpnpError> {
    match body
    case None => Err(TypeError)
    case Some(Obj(fields)) =>
      (match FirstKey(fields, IsAddressResponse, 0)
       case Some(k) => Ok(Prop(fields[k].1, "NewExternalIPAddress"))
       case None => Err(IncorrectResponse))
    case Some(_) => Err(IncorrectResponse)
  }

  /** `externalIp`: the search, the `GetExternalIPAddress` call without
      arguments, then the key scan. */
  method ExternalIp(search: Result<seq<Ssdp.Outcome>, Ssdp.SsdpError>, control: Control)
    returns (r: Result<Option<Node>, UpnpError>)
    ensures CreateGateway(search).Err? ==> r == Err(CreateGateway(search).error)
    ensures CreateGateway(search).Ok? ==>
      var reply := control(CreateGateway(search).value.location, "GetExternalIPAddress", []);
      r == (if reply.Err? then Err(DeviceFailed(reply.error)) else ExternalIpOf(reply.value))
  {
    var gateway := CreateGateway(search);
    if gateway.Err? {
      return Err(gateway.error);
    }
    var reply := control(gateway.value.location, "GetExternalIPAddress", []);
    if reply.Err? {
      return Err(DeviceFailed(reply.error));
    }
    var body := reply.value;
    if body.None? {
      return Err(TypeError);
    }
    if !body.value.Obj? {
      return Err(IncorrectResponse);
    }
    var fields := body.value.fields;
    var key := ScanKeys(fields, IsAddressResponse);
    if key.None? {
      return Err(IncorrectResponse);
    }
    return Ok(Prop(fields[key.value].1, "NewExternalIPAddress"));
  }

  /** The address is read from the first matching key, whatever its prefix
      and whatever matching keys follow it. */
  lemma ExternalIpFirstMatch(fields: seq<(string, Node)>, k: nat)
    requires k < |fields| && IsAddressResponse(fields[k].0)
    requires forall j :: 0 <= j < k ==> !IsAddressResponse(fields[j].0)
    ensures ExternalIpOf(Some(Obj(fields))) == Ok(Prop(fields[k].1, "NewExternalIPAddress"))
  {
    FirstKeyAt(fields, IsAddressResponse, 0, k);
  }

  /** Without a matching key the operation fails with "Incorrect response". */
  lemma ExternalIpNoMatch(fields: seq<(string, Node)>)
    requires forall j :: 0 <= j < |fields| ==> !IsAddressResponse(fields[j].0)
    ensures ExternalIpOf(Some(Obj(fields))) == Err(IncorrectResponse)
  {
  }

  // ---------------------------------------------------------------------
  // getMappings

  /** One port mapping as the client reports it. `internalHost`,
      `protocol` and `description` are the reply's values as decoded. */
  datatype Mapping = Mapping(
    remoteHost: string, remotePort: Js.Number,
    internalHost: Option<Node>, internalPort: Js.Number,
    protocol: Option<Node>, enabled: bool, description: Option<Node>,
    ttl: Js.Number, local: bool)

  /** The arguments of the request for the entry at `index`. */
  function EntryArgs(index: nat): seq<Device.Arg> {
    [Device.Arg("NewPortMappingIndex", Js.Num(index))]
  }

  /** The response element of an entry reply: the value of the first key
      that contains the response's name. A missing Body has no keys, and a
      string or an array only index keys. */
  function EntryOf(body: Option<Node>): Option<Node> {
    match body
    case Some(Obj(fields)) =>
      (match FirstKey(fields, IsEntryResponse, 0)
       case Some(k) => Some(fields[k].1)
       case None => None)
    case _ => None
  }

  /** The mapping an entry describes, for the local address `address`. */
  function Convert(entry: Node, address: string): Mapping {
    var remoteHost := Prop(entry, "NewRemoteHost");
    Mapping(
      if remoteHost.Some? && remoteHost.value.Leaf? && remoteHost.value.text != "" then remoteHost.value.text else "",
      ParseIntOf(Prop(entry, "NewExternalPort")),
      Prop(entry, "NewInternalClient"),
      ParseIntOf(Prop(entry, "NewInternalPort")),
      Prop(entry, "NewProtocol"),
      Prop(entry, "NewEnabled") == Some(Leaf("1")),
      Prop(entry, "NewPortMappingDescription"),
      ParseIntOf(Prop(entry, "NewLeaseDuration")),
      Prop(entry, "NewInternalClient") == Some(Leaf(address)))
  }

  /** The response element of the entry at `index`, when the call
      succeeds and its Body has one. */
  function EntryAt(control: Control, g: Gateway, index: nat): Option<Node> {
    var reply := control(g.location, "GetGenericPortMappingEntry", EntryArgs(index));
    if reply.Err? then None else EntryOf(reply.value)
  }

  /** The outcome of asking for one index: the mapping the response
      element describes, or a failure (the call failed, or no response
      element was found, so that reading its fields raises a TypeError). */
  datatype Step = Failed | Entry(mapping: Mapping)

  function StepAt(control: Control, g: Gateway, index: nat): Step {
    match EntryAt(control, g, index)
    case None => Failed
    case Some(entry) => Entry(Convert(entry, g.linfo.address))
  }

  /** The steps of the listing on a gateway, index by index. */
  function Steps(control: Control, g: Gateway): nat -> Step {
    (index: nat) => StepAt(control, g, index)
  }

  /** Every index from `limit` on fails, as on a gateway past the end of its
      table. */
  ghost predicate FailsFrom(steps: nat -> Step, limit: nat) {
    forall index: nat :: limit <= index ==> steps(index).Failed?
  }

  /** The listing loop from index `i` with the mappings `acc` collected so
      far: a failure at index 0 moves on to index 1, any later failure ends
      the listing, and an entry without a protocol rejects it. */
  function Enumerate(steps: nat -> Step, limit: nat, i: nat, acc: seq<Mapping>)
    : Result<seq<Mapping>, UpnpError>
    requires FailsFrom(steps, limit) && i <= limit + 1
    decreases limit + 1 - i
  {
    match steps(i)
    case Failed => if i == 0 then Enumerate(steps, limit, 1, acc) else Ok(acc)
    case Entry(m) =>
      if !Xml.Truthy(m.protocol) then Err(InvalidData)
      else Enumerate(steps, limit, i + 1, acc + [m])
  }

  function Mappings(control: Control, g: Gateway, limit: nat): Result<seq<Mapping>, UpnpError>
    requires FailsFrom(Steps(control, g), limit)
  {
    Enumerate(Steps(control, g), limit, 0, [])
  }

  /** One request of the listing: the call and the key scan. */
  method EntryRequest(control: Control, g: Gateway, index: nat) returns (entry: Option<Node>)
    ensures entry == EntryAt(control, g, index)
  {
    var reply := control(g.location, "GetGenericPortMappingEntry", EntryArgs(index));
    entry := None;
    if reply.Ok? && reply.value.Some? && reply.value.value.Obj? {
      var fields := reply.value.value.fields;
      var key := ScanKeys(fields, IsEntryResponse);
      if key.Some? {
        entry := Some(fields[key.value].1);
      }
    }
  }

  /** The inner `GetGenericPortMappingEntry` of `getMappings`: the request
      for one index and the conversion of its response element. `steps`
      are the outcomes of the requests, index by index. */
  method FetchEntry(control: Control, g: Gateway, index: nat, ghost steps: nat -> Step) returns (step: Step)
    requires forall i: nat {:trigger StepAt(control, g, i)} :: steps(i) == StepAt(control, g, i)
    ensures step == steps(index)
  {
    var entry := EntryRequest(control, g, index);
    if entry.None? {
      step := Failed;
    } else {
      step := Entry(Convert(entry.value, g.linfo.address));
    }
    assert step == StepAt(control, g, index);
  }

  /** `getMappings`: the search, then the listing. */
  method GetMappings(search: Result<seq<Ssdp.Outcome>, Ssdp.SsdpError>, control: Control, ghost limit: nat)
    returns (r: Result<seq<Mapping>, UpnpError>)
    requires CreateGateway(search).Ok? ==> FailsFrom(Steps(control, CreateGateway(search).value), limit)
    ensures CreateGateway(search).Err? ==> r == Err(CreateGateway(search).error)
    ensures CreateGateway(search).Ok? ==> r == Mappings(control, CreateGateway(search).value, limit)
  {
    var gateway := CreateGateway(search);
    if gateway.Err? {
      return Err(gateway.error);
    }
    r := ListMappings(control, gateway.value, Steps(control, gateway.value), limit);
  }

  /** The listing loop of `getMappings`: the entries at indices 0, 1, 2, ...
      until a request fails; `steps` are the outcomes of those requests. */
  method ListMappings(control: Control, g: Gateway, ghost steps: nat -> Step, ghost limit: nat)
    returns (r: Result<seq<Mapping>, UpnpError>)
    requires forall index: nat {:trigger StepAt(control, g, index)} :: steps(index) == StepAt(control, g, index)
    requires FailsFrom(steps, limit)
    ensures r == Enumerate(steps, limit, 0, [])
  {
    var i: nat := 0;
    var results: seq<Mapping> := [];
    while true
      invariant i <= limit + 1
      invariant Enumerate(steps, limit, i, results) == Enumerate(steps, limit, 0, [])
      decreases limit + 1 - i
    {
      var step := FetchEntry(control, g, i, steps);
      if step.Failed? {
        if i == 0 {
          i := 1;
          continue;
        }
        return Ok(results);
      }
      if !Xml.Truthy(step.mapping.protocol) {
        return Err(InvalidData);
      }
      results := results + [step.mapping];
      i := i + 1;
    }
  }

  /** The mappings at the consecutive indices from `i` up to the first
      failure. */
  function EntriesFrom(steps: nat -> Step, limit: nat, i: nat): seq<Mapping>
    requires FailsFrom(steps, limit)
    decreases limit + 1 - i
  {
    if i <= limit && steps(i).Entry? then [steps(i).mapping] + EntriesFrom(steps, limit, i + 1) else []
  }

  /** Whether one of the given mappings has no protocol. */
  predicate SomeWithoutProtocol(ms: seq<Mapping>) {
    exists k :: 0 <= k < |ms| && !Xml.Truthy(ms[k].protocol)
  }

  /** The listed mappings are exactly those at consecutive indices from `i`,
      and the index after the last one fails. */
  lemma {:induction false} EntriesFromRun(steps: nat -> Step, limit: nat, i: nat)
    requires FailsFrom(steps, limit)
    ensures var r := EntriesFrom(steps, limit, i);
      && (forall k :: 0 <= k < |r| ==> steps(i + k) == Entry(r[k]))
      && steps(i + |r|).Failed?
    decreases limit + 1 - i
  {
    if i <= limit && steps(i).Entry? {
      EntriesFromRun(steps, limit, i + 1);
      var r := EntriesFrom(steps, limit, i);
      var rest := EntriesFrom(steps, limit, i + 1);
      assert r == [steps(i).mapping] + rest;
      forall k | 0 <= k < |r| ensures steps(i + k) == Entry(r[k]) {
        if k > 0 {
          assert r[k] == rest[k - 1];
          assert i + k == (i + 1) + (k - 1);
        }
      }
      assert i + |r| == (i + 1) + |rest|;
    }
  }

  /** The loop from index `i` (past index 0, or at an index 0 that answered)
      lists the mappings up to the first failure, or rejects when one of
      them has no protocol. */
  lemma {:induction false} EnumerateFrom(steps: nat -> Step, limit: nat, i: nat, acc: seq<Mapping>)
    requires FailsFrom(steps, limit) && i <= limit + 1
    requires i > 0 || steps(i).Entry?
    ensures var ms := EntriesFrom(steps, limit, i);
      Enumerate(steps, limit, i, acc) ==
        if SomeWithoutProtocol(ms) then Err(InvalidData) else Ok(acc + ms)
    decreases limit + 1 - i
  {
    var ms := EntriesFrom(steps, limit, i);
    match steps(i)
    case Failed =>
      assert ms == [];
      assert acc + [] == acc;
    case Entry(m) =>
      var rest := EntriesFrom(steps, limit, i + 1);
      assert i <= limit;
      assert ms == [m] + rest;
      if Xml.Truthy(m.protocol) {
        EnumerateFrom(steps, limit, i + 1, acc + [m]);
        assert acc + [m] + rest == acc + ms;
        if SomeWithoutProtocol(rest) {
          var k :| 0 <= k < |rest| && !Xml.Truthy(rest[k].protocol);
          assert ms[k + 1] == rest[k];
        }
        if SomeWithoutProtocol(ms) {
          var k :| 0 <= k < |ms| && !Xml.Truthy(ms[k].protocol);
          assert k > 0 && rest[k - 1] == ms[k];
        }
      } else {
        assert ms[0] == m;
      }
  }

  /** The listing is the run of mappings that starts at index 0, or at
      index 1 when index 0 failed, and ends before the first failure after
      it; it is rejected when a mapping of that run has no protocol. */
  lemma ListingIsFirstRun(control: Control, g: Gateway, limit: nat)
    requires FailsFrom(Steps(control, g), limit)
    ensures var steps := Steps(control, g);
      var ms := EntriesFrom(steps, limit, if steps(0).Failed? then 1 else 0);
      Mappings(control, g, limit) ==
        if SomeWithoutProtocol(ms) then Err(InvalidData) else Ok(ms)
  {
    var steps := Steps(control, g);
    var start := if steps(0).Failed? then 1 else 0;
    EnumerateFrom(steps, limit, start, []);
    assert [] + EntriesFrom(steps, limit, start) == EntriesFrom(steps, limit, start);
  }

  // ---------------------------------------------------------------------
  // Reading an entry back

  /** A response element as a gateway writes it: the eight output
      arguments of `GetGenericPortMappingEntry`, in the order of the IGD
      service description, numbers in decimal and the enabled flag as `1`
      or `0`. */
  function EntryNode(host: string, externalPort: int, protocol: string, internalPort: int,
                     client: string, enabled: bool, description: string, ttl: int): Node
  {
    Obj([("NewRemoteHost", Leaf(host)),
         ("NewExternalPort", Leaf(Js.NumberString(externalPort))),
         ("NewProtocol", Leaf(protocol)),
         ("NewInternalPort", Leaf(Js.NumberString(internalPort))),
         ("NewInternalClient", Leaf(client)),
         ("NewEnabled", Leaf(if enabled then "1" else "0")),
         ("NewPortMappingDescription", Leaf(description)),
         ("NewLeaseDuration", Leaf(Js.NumberString(ttl)))])
  }

  /** Each key of an entry element finds its own field. */
  lemma EntryFields(host: string, externalPort: int, protocol: string, internalPort: int,
                    client: string, enabled: bool, description: string, ttl: int)
    ensures var fs := EntryNode(host, externalPort, protocol, internalPort, client, enabled, description, ttl).fields;
      forall k :: 0 <= k < |fs| ==> Prop(Obj(fs), fs[k].0) == Some(fs[k].1)
  {
    var fs := EntryNode(host, externalPort, protocol, internalPort, client, enabled, description, ttl).fields;
    EntryKeysDistinct();
    forall k | 0 <= k < |fs| ensures Prop(Obj(fs), fs[k].0) == Some(fs[k].1) {
      assert fs[k].0 == EntryKeys[k];
      forall j | 0 <= j < k ensures fs[j].0 != fs[k].0 {
        assert fs[j].0 == EntryKeys[j];
      }
      PropAt(fs, k);
    }
  }

  /** The output argument names of `GetGenericPortMappingEntry`. */
  const EntryKeys: seq<string> := [
    "NewRemoteHost", "NewExternalPort", "NewProtocol", "NewInternalPort",
    "NewInternalClient", "NewEnabled", "NewPortMappingDescription", "NewLeaseDuration"
  ]

  lemma EntryKeysDistinct()
    ensures forall j, k :: 0 <= j < k < |EntryKeys| ==> EntryKeys[j] != EntryKeys[k]
  {
    assert EntryKeys[0][3] == 'R' && EntryKeys[1][3] == 'E' && EntryKeys[2][3] == 'P';
    assert EntryKeys[3][3] == 'I' && EntryKeys[4][3] == 'I' && EntryKeys[5][3] == 'E';
    assert EntryKeys[6][3] == 'P' && EntryKeys[7][3] == 'L';
    assert EntryKeys[3][11] == 'P' && EntryKeys[4][11] == 'C';
    assert EntryKeys[1][4] == 'x' && EntryKeys[5][4] == 'n';
    assert EntryKeys[2][4] == 'r' && EntryKeys[6][4] == 'o';
  }

  /** Reading an entry the gateway wrote gives back what it describes:
      the remote host, the ports and the lease duration as numbers, the
      protocol, the client and the description as written, the flag, and
      whether the client is this host. */
  lemma ConvertEntryNode(host: string, externalPort: int, protocol: string, internalPort: int,
                         client: string, enabled: bool, description: string, ttl: int, address: string)
    ensures Convert(EntryNode(host, externalPort, protocol, internalPort, client, enabled, description, ttl), address)
      == Mapping(host, Js.Int(externalPort), Some(Leaf(client)), Js.Int(internalPort),
                     Some(Leaf(protocol)), enabled, Some(Leaf(description)), Js.Int(ttl), client == address)
  {
    var n := EntryNode(host, externalPort, protocol, internalPort, client, enabled, description, ttl);
    EntryFields(host, externalPort, protocol, internalPort, client, enabled, description, ttl);
    assert n.fields[0].0 == "NewRemoteHost";
    assert n.fields[1].0 == "NewExternalPort";
    assert n.fields[2].0 == "NewProtocol";
    assert n.fields[3].0 == "NewInternalPort";
    assert n.fields[4].0 == "NewInternalClient";
    assert n.fields[5].0 == "NewEnabled";
    assert n.fields[6].0 == "NewPortMappingDescription";
    assert n.fields[7].0 == "NewLeaseDuration";
    Js.ParseIntNumberString(externalPort);
    Js.ParseIntNumberString(internalPort);
    Js.ParseIntNumberString(ttl);
  }

  // ---------------------------------------------------------------------
  // The protocol of a mapping

  /** `options.protocol` after defaulting: a string is kept, anything else
      becomes `TCP`. */
  function ProtocolOf(v: Js.Value): (p: string)
    ensures v.Str? ==> p == v.s
    ensures !v.Str? ==> p == DefaultProtocol
  {
    if v.Str? then v.s else DefaultProtocol
  }

  /** The protocol check: the upper-cased name is one of the protocols. */
  predicate Accepted(p: string) {
    Upper(p) in Protocols
  }

  /** The check ignores letter case: exactly the spellings of `tcp` and
      `udp` in any mix of cases pass. */
  lemma AcceptedIgnoresCase(p: string)
    ensures Accepted(p) <==> Lower(p) == "tcp" || Lower(p) == "udp"
  {
    LiteralCases();
    SameWordIgnoringCase(p, "TCP", "tcp");
    SameWordIgnoringCase(p, "UDP", "udp");
  }

  lemma LiteralCases()
    ensures forall k :: 0 <= k < 3 ==> 'A' <= "TCP"[k] <= 'Z' && "tcp"[k] == ("TCP"[k] as int + 32) as char
    ensures forall k :: 0 <= k < 3 ==> 'A' <= "UDP"[k] <= 'Z' && "udp"[k] == ("UDP"[k] as int + 32) as char
  {
  }

  /** For a word of capital letters, `p` upper-cases to it exactly when `p`
      lower-cases to its lower-case form. */
  lemma SameWordIgnoringCase(p: string, up: string, lo: string)
    requires |up| == |lo|
    requires forall k :: 0 <= k < |up| ==> 'A' <= up[k] <= 'Z' && lo[k] == (up[k] as int + 32) as char
    ensures Upper(p) == up <==> Lower(p) == lo
  {
    if |p| == |up| {
      if Upper(p) == up {
        forall k | 0 <= k < |p| ensures Lower(p)[k] == lo[k] {
          assert UpperChar(p[k]) == up[k];
        }
      }
      if Lower(p) == lo {
        forall k | 0 <= k < |p| ensures Upper(p)[k] == up[k] {
          assert LowerChar(p[k]) == lo[k];
        }
      }
    }
  }

  /** An accepted protocol is sent as `TCP` or `UDP`. */
  lemma AcceptedIsSentUpper(p: string)
    requires Accepted(p)
    ensures Upper(p) == "TCP" || Upper(p) == "UDP"
  {
  }

  // ---------------------------------------------------------------------
  // portMapping and portUnmapping

  /** A `{host, port}` object of the options. */
  class Endpoint {
    var host: Js.Value
    var port: Js.Value

    constructor (host: Js.Value, port: Js.Value)
      ensures this.host == host && this.port == port
    {
      this.host := host;
      this.port := port;
    }
  }

  /** The options of `portMapping`; the operation completes them in place.
      `remote` is `null` when the caller gave none. */
  class MappingOptions {
    var ttl: Js.Value
    var remote: Endpoint?
    var internal: Endpoint
    var protocol: Js.Value
    var description: Js.Value
    var enabled: Js.Value

    constructor (ttl: Js.Value, remote: Endpoint?, internal: Endpoint,
                 protocol: Js.Value, description: Js.Value, enabled: Js.Value)
      ensures this.ttl == ttl && this.remote == remote && this.internal == internal
      ensures this.protocol == protocol && this.description == description && this.enabled == enabled
    {
      this.ttl := ttl;
      this.remote := remote;
      this.internal := internal;
      this.protocol := protocol;
      this.description := description;
      this.enabled := enabled;
    }
  }

  /** The options of `portUnmapping`; its protocol is defaulted in place. */
  class UnmappingOptions {
    var protocol: Js.Value
    var host: Js.Value
    var port: Js.Value

    constructor (protocol: Js.Value, host: Js.Value, port: Js.Value)
      ensures this.protocol == protocol && this.host == host && this.port == port
    {
      this.protocol := protocol;
      this.host := host;
      this.port := port;
    }
  }

  /** The arguments of `AddPortMapping`, in the order of the IGD action. */
  function MappingArgs(remoteHost: Js.Value, remotePort: Js.Value, protocol: string, internalPort: Js.Value,
                       client: Js.Value, enabled: Js.Value, description: Js.Value, ttl: Js.Value): seq<Device.Arg>
  {
    [Device.Arg("NewRemoteHost", remoteHost),
     Device.Arg("NewExternalPort", remotePort),
     Device.Arg("NewProtocol", Js.Str(protocol)),
     Device.Arg("NewInternalPort", internalPort),
     Device.Arg("NewInternalClient", client),
     Device.Arg("NewEnabled", enabled),
     Device.Arg("NewPortMappingDescription", description),
     Device.Arg("NewLeaseDuration", ttl)]
  }

  /** The arguments of `DeletePortMapping`. */
  function UnmappingArgs(host: Js.Value, port: Js.Value, protocol: string): seq<Device.Arg> {
    [Device.Arg("NewRemoteHost", host),
     Device.Arg("NewExternalPort", port),
     Device.Arg("NewProtocol", Js.Str(protocol))]
  }

  /** `portMapping`: completes the options in place (a missing remote
      endpoint is created, a falsy remote port takes the internal one, a
      falsy internal host becomes the local address, and the protocol, the
      flag, the description and the lease duration get their defaults),
      checks the protocol, and asks the gateway to add the mapping. On
      success the completed options are the result. */
  method PortMapping(options: MappingOptions, search: Result<seq<Ssdp.Outcome>, Ssdp.SsdpError>, control: Control)
    returns (r: Result<MappingOptions, UpnpError>)
    modifies options, options.remote, options.internal
    ensures CreateGateway(search).Err? ==>
      && r == Err(CreateGateway(search).error)
      && unchanged(options) && unchanged(old(options.internal))
      && (old(options.remote) != null ==> unchanged(old(options.remote)))
    ensures CreateGateway(search).Ok? ==>
      EndpointsCompleted(options, CreateGateway(search).value.linfo.address)
      && r == AddRequested(options, CreateGateway(search).value, control)
    ensures CreateGateway(search).Ok? ==>
      var p := ProtocolOf(old(options.protocol));
      && options.protocol == Js.Str(p)
      && (!Accepted(p) ==>
            options.enabled == old(options.enabled) && options.description == old(options.description)
            && options.ttl == old(options.ttl))
      && (Accepted(p) ==>
            && options.enabled == (if old(options.enabled).Bool? then old(options.enabled) else Js.Bool(true))
            && options.description ==
                 (if old(options.description).Str? then old(options.description) else Js.Str(DefaultDescription))
            && options.ttl == (if old(options.ttl).Num? then old(options.ttl) else Js.Num(DefaultTtl)))
  {
    var gateway := CreateGateway(search);
    if gateway.Err? {
      return Err(gateway.error);
    }
    CompleteEndpoints(options, gateway.value.linfo.address);
    r := AddWithDefaults(options, gateway.value, control);
  }

  /** How `portMapping` leaves the endpoints: the remote one exists (new and
      without a host when there was none), its port is kept when truthy and
      is otherwise the internal port, the internal port is kept, and the
      internal host is kept when truthy and is otherwise the local
      address. The remote and internal endpoints may be one object. */
  twostate predicate EndpointsCompleted(options: MappingOptions, address: string)
    reads options, options.remote, options.internal
  {
    && options.internal == old(options.internal)
    && options.remote != null
    && (old(options.remote) == null ==> fresh(options.remote) && options.remote.host == Js.Undefined)
    && (old(options.remote) != null ==> options.remote == old(options.remote))
    && (options.remote != options.internal && old(options.remote) != null ==>
          options.remote.host == old(options.remote.host))
    && options.remote.port ==
         (if old(options.remote) != null && Js.Truthy(old(options.remote.port)) then old(options.remote.port)
          else old(options.internal.port))
    && options.internal.port == old(options.internal.port)
    && options.internal.host ==
         (if Js.Truthy(old(options.internal.host)) then old(options.internal.host) else Js.Str(address))
  }

  /** What `portMapping` does after the endpoints: the protocol is defaulted
      and checked; an accepted one leads to the defaults for the flag, the
      description and the lease duration and to the `AddPortMapping` call
      with the completed values, the client being the internal host or,
      when that is falsy, the local address. */
  twostate function AddRequested(options: MappingOptions, g: Gateway, control: Control): Result<MappingOptions, UpnpError>
    reads options, options.remote, options.internal
    requires options.remote != null
  {
    var p := ProtocolOf(old(options.protocol));
    if !Accepted(p) then Err(IncorrectProtocol(p))
    else
      var reply := control(g.location, "AddPortMapping",
        MappingArgs(options.remote.host, options.remote.port, Upper(p), options.internal.port,
                    if Js.Truthy(options.internal.host) then options.internal.host else Js.Str(g.linfo.address),
                    options.enabled, options.description, options.ttl));
      if reply.Err? then Err(DeviceFailed(reply.error)) else Ok(options)
  }

  /** The first steps of `portMapping`, on the endpoints. */
  method CompleteEndpoints(options: MappingOptions, address: string)
    modifies options, options.remote, options.internal
    ensures EndpointsCompleted(options, address)
    ensures options.protocol == old(options.protocol) && options.enabled == old(options.enabled)
    ensures options.description == old(options.description) && options.ttl == old(options.ttl)
  {
    if options.remote == null {
      options.remote := new Endpoint(Js.Undefined, Js.Undefined);
    }
    var remote := options.remote;
    var internal := options.internal;
    if !Js.Truthy(remote.port) {
      remote.port := internal.port;
    }
    if !Js.Truthy(internal.host) {
      internal.host := Js.Str(address);
    }
  }

  /** The remaining steps of `portMapping`: the defaults, the protocol
      check and the call. */
  method AddWithDefaults(options: MappingOptions, g: Gateway, control: Control)
    returns (r: Result<MappingOptions, UpnpError>)
    requires options.remote != null
    modifies options
    ensures options.remote == old(options.remote) && options.internal == old(options.internal)
    ensures var p := ProtocolOf(old(options.protocol));
      && options.protocol == Js.Str(p)
      && (!Accepted(p) ==>
            options.enabled == old(options.enabled) && options.description == old(options.description)
            && options.ttl == old(options.ttl))
      && (Accepted(p) ==>
            && options.enabled == (if old(options.enabled).Bool? then old(options.enabled) else Js.Bool(true))
            && options.description ==
                 (if old(options.description).Str? then old(options.description) else Js.Str(DefaultDescription))
            && options.ttl == (if old(options.ttl).Num? then old(options.ttl) else Js.Num(DefaultTtl)))
    ensures r == AddRequested(options, g, control)
  {
    var address := g.linfo.address;
    var remote := options.remote;
    var internal := options.internal;
    var p := ProtocolOf(options.protocol);
    options.protocol := Js.Str(p);
    if Upper(p) !in Protocols {
      return Err(IncorrectProtocol(p));
    }
    options.enabled := if options.enabled.Bool? then options.enabled else Js.Bool(true);
    options.description := if options.description.Str? then options.description else Js.Str(DefaultDescription);
    options.ttl := if options.ttl.Num? then options.ttl else Js.Num(DefaultTtl);
    var client := if Js.Truthy(internal.host) then internal.host else Js.Str(address);
    var reply := control(g.location, "AddPortMapping",
      MappingArgs(remote.host, remote.port, Upper(p), internal.port,
                  client, options.enabled, options.description, options.ttl));
    if reply.Err? {
      return Err(DeviceFailed(reply.error));
    }
    return Ok(options);
  }

  /** `portUnmapping`: defaults and checks the protocol, then asks the
      gateway to delete the mapping; the reply's Body is the result. */
  method PortUnmapping(options: UnmappingOptions, search: Result<seq<Ssdp.Outcome>, Ssdp.SsdpError>, control: Control)
    returns (r: Result<Option<Node>, UpnpError>)
    modifies options
    ensures CreateGateway(search).Err? ==> r == Err(CreateGateway(search).error) && unchanged(options)
    ensures CreateGateway(search).Ok? ==>
      var p := ProtocolOf(old(options.protocol));
      && options.protocol == Js.Str(p)
      && options.host == old(options.host) && options.port == old(options.port)
      && (!Accepted(p) ==> r == Err(IncorrectProtocol(p)))
      && (Accepted(p) ==>
            var reply := control(CreateGateway(search).value.location, "DeletePortMapping",
              UnmappingArgs(options.host, options.port, Upper(p)));
            r == (if reply.Err? then Err(DeviceFailed(reply.error)) else Ok(reply.value)))
  {
    var gateway := CreateGateway(search);
    if gateway.Err? {
      return Err(gateway.error);
    }
    var p := ProtocolOf(options.protocol);
    options.protocol := Js.Str(p);
    if Upper(p) !in Protocols {
      return Err(IncorrectProtocol(p));
    }
    var reply := control(gateway.value.location, "DeletePortMapping", UnmappingArgs(options.host, options.port, Upper(p)));
    if reply.Err? {
      return Err(DeviceFailed(reply.error));
    }
    return Ok(reply.value);
  }

  // ---------------------------------------------------------------------
  // The requests on the wire

  /** A value whose text can sit inside an element: a string without `<`. */
  predicate TextSafe(v: Js.Value) {
    v.Str? ==> forall k :: 0 <= k < |v.s| ==> v.s[k] != '<'
  }

  /** The argument names of `AddPortMapping` hold no `>`. */
  lemma MappingNamesReadable()
    ensures forall k :: 0 <= k < |"NewRemoteHost"| ==> "NewRemoteHost"[k] != '>'
    ensures forall k :: 0 <= k < |"NewExternalPort"| ==> "NewExternalPort"[k] != '>'
    ensures forall k :: 0 <= k < |"NewProtocol"| ==> "NewProtocol"[k] != '>'
    ensures forall k :: 0 <= k < |"NewInternalPort"| ==> "NewInternalPort"[k] != '>'
    ensures forall k :: 0 <= k < |"NewInternalClient"| ==> "NewInternalClient"[k] != '>'
    ensures forall k :: 0 <= k < |"NewEnabled"| ==> "NewEnabled"[k] != '>'
    ensures forall k :: 0 <= k < |"NewPortMappingDescription"| ==> "NewPortMappingDescription"[k] != '>'
    ensures forall k :: 0 <= k < |"NewLeaseDuration"| ==> "NewLeaseDuration"[k] != '>'
  {
  }

  /** The rendered arguments are the arguments' names with their texts. */
  lemma {:induction false} RenderedAt(args: seq<Device.Arg>)
    ensures forall k :: 0 <= k < |args| ==>
      Device.Rendered(args)[k] == (args[k].name, Device.ArgText(args[k].value))
  {
    if args != [] {
      RenderedAt(args[1..]);
      forall k | 0 < k < |args|
        ensures Device.Rendered(args)[k] == (args[k].name, Device.ArgText(args[k].value))
      {
        assert Device.Rendered(args)[k] == Device.Rendered(args[1..])[k - 1];
        assert args[k] == args[1..][k - 1];
      }
    }
  }

  /** The `AddPortMapping` request carries the service, the action and the
      eight arguments in the order of the IGD action, each with its text;
      the protocol goes out upper-cased. */
  lemma AddMappingEnvelope(service: string, remoteHost: Js.Value, remotePort: Js.Value, protocol: string,
                           internalPort: Js.Value, client: Js.Value, enabled: Js.Value,
                           description: Js.Value, ttl: Js.Value)
    requires forall k :: 0 <= k < |service| ==> !Js.NeedsEscape(service[k])
    requires Accepted(protocol)
    requires TextSafe(remoteHost) && TextSafe(remotePort) && TextSafe(internalPort) && TextSafe(client)
    requires TextSafe(enabled) && TextSafe(description) && TextSafe(ttl)
    ensures var args := MappingArgs(remoteHost, remotePort, Upper(protocol), internalPort, client, enabled, description, ttl);
      Device.DecodeEnvelope(Device.Envelope(service, "AddPortMapping", args)) ==
        Some((service, "AddPortMapping",
              [("NewRemoteHost", Device.ArgText(remoteHost)),
               ("NewExternalPort", Device.ArgText(remotePort)),
               ("NewProtocol", Upper(protocol)),
               ("NewInternalPort", Device.ArgText(internalPort)),
               ("NewInternalClient", Device.ArgText(client)),
               ("NewEnabled", Device.ArgText(enabled)),
               ("NewPortMappingDescription", Device.ArgText(description)),
               ("NewLeaseDuration", Device.ArgText(ttl))]))
  {
    var args := MappingArgs(remoteHost, remotePort, Upper(protocol), internalPort, client, enabled, description, ttl);
    AcceptedIsSentUpper(protocol);
    MappingArgsReadable(args, remoteHost, remotePort, Upper(protocol), internalPort, client, enabled, description, ttl);
    ActionIsWord();
    Device.EnvelopeRoundTrip(service, "AddPortMapping", args);
    RenderedMapping(args, remoteHost, remotePort, Upper(protocol), internalPort, client, enabled, description, ttl);
  }

  lemma MappingArgsReadable(args: seq<Device.Arg>, remoteHost: Js.Value, remotePort: Js.Value, protocol: string,
                            internalPort: Js.Value, client: Js.Value, enabled: Js.Value,
                            description: Js.Value, ttl: Js.Value)
    requires args == MappingArgs(remoteHost, remotePort, protocol, internalPort, client, enabled, description, ttl)
    requires protocol == "TCP" || protocol == "UDP"
    requires TextSafe(remoteHost) && TextSafe(remotePort) && TextSafe(internalPort) && TextSafe(client)
    requires TextSafe(enabled) && TextSafe(description) && TextSafe(ttl)
    ensures forall k :: 0 <= k < |args| ==> Device.Readable(args[k])
  {
    MappingNamesReadable();
    assert Device.Readable(Device.Arg("NewProtocol", Js.Str(protocol)));
    ReadableArg("NewRemoteHost", remoteHost);
    ReadableArg("NewExternalPort", remotePort);
    ReadableArg("NewInternalPort", internalPort);
    ReadableArg("NewInternalClient", client);
    ReadableArg("NewEnabled", enabled);
    ReadableArg("NewPortMappingDescription", description);
    ReadableArg("NewLeaseDuration", ttl);
  }

  lemma ReadableArg(name: string, v: Js.Value)
    requires forall k :: 0 <= k < |name| ==> name[k] != '>'
    requires TextSafe(v)
    ensures Device.Readable(Device.Arg(name, v))
  {
  }

  lemma RenderedMapping(args: seq<Device.Arg>, remoteHost: Js.Value, remotePort: Js.Value, protocol: string,
                        internalPort: Js.Value, client: Js.Value, enabled: Js.Value,
                        description: Js.Value, ttl: Js.Value)
    requires args == MappingArgs(remoteHost, remotePort, protocol, internalPort, client, enabled, description, ttl)
    ensures Device.Rendered(args) ==
      [("NewRemoteHost", Device.ArgText(remoteHost)),
       ("NewExternalPort", Device.ArgText(remotePort)),
       ("NewProtocol", protocol),
       ("NewInternalPort", Device.ArgText(internalPort)),
       ("NewInternalClient", Device.ArgText(client)),
       ("NewEnabled", Device.ArgText(enabled)),
       ("NewPortMappingDescription", Device.ArgText(description)),
       ("NewLeaseDuration", Device.ArgText(ttl))]
  {
    RenderedAt(args);
    assert Device.ArgText(Js.Str(protocol)) == protocol;
  }

  lemma ActionIsWord()
    ensures forall k :: 0 <= k < |"AddPortMapping"| ==> "AddPortMapping"[k] != ' '
  {
  }
}
