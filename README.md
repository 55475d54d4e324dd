# node-upnp port-mapping client, modelled in Dafny

This project models the core of `node-upnp`, a TypeScript client that finds the
Internet Gateway Device (IGD) on the local network and asks it to open, list
and close port mappings. The core has three parts:

- **Discovery (`src/ssdp.ts`).** The SSDP client opens one UDP socket for each
  external IPv4 interface address. It sends the `M-SEARCH` datagram through
  every socket (UPnP Device Architecture 1.1, section 1.3.2). It parses each
  answer into a method and a header map (section 1.3.3).
- **Device control (`src/device.ts`).** The gateway's description document is
  flattened into its services, and the first whitelisted service is chosen.
  An action is sent as a SOAP 1.1 envelope. The reply's Body, or its UPnP
  fault, is located under whatever namespace prefix the device used
  (UPnP Device Architecture 1.1, section 3.2).
- **Port mapping (`src/upnp.ts`).** The client's operations on the gateway:
  `createGateway`, `externalIp`, `getMappings`, `portMapping` and
  `portUnmapping`.

Modules, one per concern:

| file | module | contents |
|---|---|---|
| `results.dfy` | `Results` | `Option` and `Result` |
| `text.dfy` | `Text` | `split`/`join` on a separator, ECMAScript `\s`, ASCII case mapping, substring search |
| `js.dfy` | `Js` | JavaScript values, truthiness, `String(v)`, `parseInt(s, 10)`, `JSON.stringify` of a string |
| `xml.dfy` | `Xml` | the tree xml2js decodes a document into; property lookup; `toArray` |
| `device.dfy` | `Device` | `src/device.ts`: the envelope, `getNamespace`, the reply, `parseDescription`, `getService`, `run` |
| `message.dfy` | `SsdpMessage` | `src/ssdp.ts`: the `M-SEARCH` query, `_getHeaders`, `_getMethod` |
| `ssdp.dfy` | `Ssdp` | `src/ssdp.ts`: interface filter, the client class and its socket set, `search` |
| `upnp.dfy` | `Upnp` | `src/upnp.ts`: the five operations and their option objects |

Several things stay outside: the network, XML parsing, URL resolution and the
operating system's interface table. Each enters the model as a parameter:

- a search is given as its settled outcomes;
- a control call is a function from action and arguments to a reply;
- `resolve` stands for the URL library;
- `post` stands for the HTTP exchange;
- `answer` stands for the first datagram a socket receives before its timer.

State the source changes in place is modelled imperatively:

- The SSDP client is the class `Ssdp.Ssdp`. Its fields are the socket sequence
  (the JavaScript `Set`, in insertion order), the destroyed flag and the
  sockets closed so far.
- The mapping options are the classes `Upnp.MappingOptions`, `Upnp.Endpoint`
  and `Upnp.UnmappingOptions`. `portMapping` and `portUnmapping` update them
  field by field.
- The loops are `while` loops with invariants, each proved against a
  specification function:
  - the header loop of `_getHeaders`;
  - the attribute scan of `getNamespace`;
  - the key scans of `externalIp` and `getMappings`;
  - the `getMappings` enumeration;
  - `createSockets` and `destroy`.

In these places the code does something its names or the UPnP documents do not
suggest; the model follows the code:

- **Service order.** `parseDescription` appends a device's own services only
  after recursing into its child devices. The services therefore come in
  post-order of the devices, while the devices are recorded in pre-order
  (`Device.ServicesInPostOrder`).
- **Which service is checked.** `getService` checks only the first whitelisted
  service for `controlURL` and `SCPDURL`. It fails without trying a later one.
- **Search after `destroy`.** The destroyed flag is read only by
  `createSockets`. A search after `destroy` therefore settles to no outcome at
  all, not to an error (`Ssdp.SearchWithoutSockets`). `createGateway` then
  fails on the empty outcome list.
- **The `multicastAddress` option.** The constructor copies every option key
  onto the client. The client reads the multicast address from a field with a
  different name, so this option has no effect.
- **The base URL.** `getService` resolves relative URLs against
  `info.baseURL`, but a UPnP description names that element `URLBase`. A
  declared base URL is therefore never used, and the description's own URL is
  the base (`Device.GetService`).
- **No range check.** Nothing checks ports against 1–65535.
- **Missing values.** Absent values in a mapping entry stay `undefined`
  (`None`) or become `NaN`; they are not reported as errors.

## Model

| member | source | states |
|---|---|---|
| Text.Split | src/ssdp.ts:128 | `split` on a non-empty separator: the pieces joined by it give back the string, and no piece contains it |
| Text.SplitLeftmost | src/ssdp.ts:128 | the pieces come from a left-to-right scan: more than one piece exactly when the separator occurs, the first piece ends at its first occurrence, and the rest split what follows it |
| Text.SplitJoinCrlf | src/ssdp.ts:134 | splitting on CRLF undoes joining CRLF-free lines with CRLF |
| Text.TrimStartSuffix | src/ssdp.ts:7 | the `\s*` the header pattern skips leaves a suffix of the text that does not start with whitespace |
| Text.TrimStartDropsWhitespace | src/ssdp.ts:7 | what `\s*` skips is whitespace only |
| Js.ParseIntNumberString | src/upnp.ts:94 | `parseInt(String(n), 10)` is `n` for every integer |
| Js.JsonQuotePlain | src/device.ts:20 | `JSON.stringify` of a string with nothing to escape is the string between double quotes |
| Xml.ToArray | src/device.ts:90 | `toArray` keeps an array and wraps any other value as a singleton |
| Device.SoapActionQuoted | src/device.ts:32 | the SOAPAction header is `"SERVICE#ACTION"` |
| Device.DecodeArgsXml | src/device.ts:21 | the argument elements read back as each argument's name and text, in input order; an `undefined` value gives an empty element |
| Device.EnvelopeRoundTrip | src/device.ts:15-25 | the envelope reads back as its service, its action and its arguments in order, between the fixed prolog and the closing tags |
| Device.GetNamespace | src/device.ts:117-131 | the attribute scan returns the prefix that the specification function `Namespace` defines |
| Device.NamespaceOfFirstDeclaration | src/device.ts:120-130 | the first `xmlns:p` attribute in key order bound to the URI gives `p:` |
| Device.NamespaceUndeclared | src/device.ts:120-130 | without an attribute object, or without a declaration of the URI, the prefix is empty |
| Device.HandleResponse | src/device.ts:36-47 | an empty reply is malformed; status 200 yields the Body under the discovered prefix; any other status fails with the error of the Fault in that Body, or as malformed when the Body or the Fault is missing |
| Device.PrefixIndependence | src/device.ts:37-47 | any two 200 replies with the same node under the Body of their own prefixes give the same result, whatever the prefixes |
| Device.FaultPrefixIndependence | src/device.ts:37-40 | any two error replies with the same Fault under their own prefixes fail alike, whatever the prefixes |
| Device.FaultReply | src/device.ts:39-45 | a non-200 reply whose `p:Body` holds a `p:Fault`, for the prefix `p` it declares, fails with the error that Fault describes |
| Device.FaultCarriesDetail | src/device.ts:40-43 | whenever `faultstring` names an entry of `detail`, the error carries that entry's `errorCode` and `errorDescription`, whatever else the fault holds |
| Device.UpnpErrorReply | src/device.ts:36-45 | a UPnP error reply with any envelope prefix, an encoding-style attribute, `faultcode` first and an attributed `UPnPError` entry fails with that entry's code and description |
| Device.UpnpFaultError | src/device.ts:40-43 | a UPnP fault listing `faultcode` first and an attributed `UPnPError` entry gives that entry's code and description |
| Device.FaultWithoutDetail | src/device.ts:40-41 | a fault without that `detail` entry is a malformed response |
| Device.ChildDevices | src/device.ts:103-105 | the child devices are smaller than their parent, so the traversal terminates |
| Device.PresentOnly | src/device.ts:92 | falsy services are skipped, and every other one is kept |
| Device.PresentOnlyAppend | src/device.ts:92 | filtering distributes over concatenation, so the kept nodes stay in their original order |
| Device.ServicesInPostOrder | src/device.ts:99-110 | the recorded services are the devices' own services taken in post-order |
| Device.ServicesInPostOrderIn | src/device.ts:104 | the same for a list of sibling devices |
| Device.PostOrderPermutesDevices | src/device.ts:99-105 | the pre-order device list and the post-order are permutations of each other |
| Device.Survivors | src/device.ts:52 | every service the whitelist filter keeps has a whitelisted type |
| Device.FirstSurvivor | src/device.ts:52 | the first kept service is the first whitelisted one in traversal order |
| Device.GetServiceChoosesFirstOffered | src/device.ts:52-56 | the first whitelisted service is chosen if and only if it has both URLs; otherwise the result is "Service not found" |
| Device.GetServiceNoneOffered | src/device.ts:54-56 | with no whitelisted service the result is "Service not found" |
| Device.SurvivorsIgnoreWhitelistOrder | src/device.ts:52 | the filter depends on the whitelist's members, not their order |
| Device.GetServiceIgnoresWhitelistOrder | src/device.ts:50-78 | so does the chosen service |
| Device.Run | src/device.ts:13-48 | `run` fails when no service is found; otherwise it posts the action's envelope with the quoted SOAPAction to the control URL and interprets the reply |
| SsdpMessage.QueryIsJoinedLines | src/ssdp.ts:56-63 | the query is its five lines, each ended by CRLF, then a final CRLF |
| SsdpMessage.QuerySplit | src/ssdp.ts:56-63 | the query splits on CRLF into exactly those lines and two empty pieces |
| SsdpMessage.QueryHeaders | src/ssdp.ts:56-63 | parsing the query gives `host`, `man`, `mx` and `st` with their values |
| SsdpMessage.QueryMethod | src/ssdp.ts:127-131 | the method of the query is `m-search` |
| SsdpMessage.GetHeaders | src/ssdp.ts:133-145 | the header loop computes the specification function `Headers` |
| SsdpMessage.HeaderLineParts | src/ssdp.ts:7 | a matching line splits at its first colon after a non-empty name, and the value is the rest after leading whitespace |
| SsdpMessage.HeaderLineName | src/ssdp.ts:7 | the name is the non-empty, colon-free text before the first colon |
| SsdpMessage.HeaderLineValue | src/ssdp.ts:7 | the value is the end of the line, and only whitespace separates it from the colon, so later colons stay in the value |
| SsdpMessage.HeaderLineValueClean | src/ssdp.ts:7 | the value starts with no whitespace and holds no line terminator |
| SsdpMessage.HeaderLineOf | src/ssdp.ts:7 | `name: value` matches with that name and value |
| SsdpMessage.HeaderLineWithoutColon | src/ssdp.ts:7 | a line without a colon does not match |
| SsdpMessage.RequestLineIsNoHeader | src/ssdp.ts:7 | the request line is not a header |
| SsdpMessage.HeaderLastWins | src/ssdp.ts:137-140 | a key holds the value of the last line that sets it |
| SsdpMessage.HeaderNeedsLine | src/ssdp.ts:137-142 | a key no line sets is absent |
| SsdpMessage.ApplySettingLine | src/ssdp.ts:138-140 | a matching line sets its lower-cased name to its value |
| SsdpMessage.ApplyOtherLine | src/ssdp.ts:138-140 | a line leaves the keys it does not set unchanged |
| SsdpMessage.ApplyHeaderLine | src/ssdp.ts:138-140 | `name: value` stores `value` under the lower-cased name |
| SsdpMessage.HeadersOfHeaderLine | src/ssdp.ts:137-140 | appending a header line updates the map at its lower-cased name |
| SsdpMessage.HeadersOfSnoc | src/ssdp.ts:137-142 | lines are applied in order |
| SsdpMessage.GetMethodIsFirstWord | src/ssdp.ts:127-131 | the method is the lower-cased text before the first space or CRLF |
| SsdpMessage.GetMethodOfWord | src/ssdp.ts:127-131 | a message starting with a word and a space has that word, lower-cased, as its method |
| SsdpMessage.RequestLineMethod | src/ssdp.ts:127-131 | every message starting with the `M-SEARCH` request line has method `m-search` |
| SsdpMessage.MethodOfPrefix | src/ssdp.ts:127-131 | the method depends only on the message's first word |
| Ssdp.NetworkInterfacesMembers | src/ssdp.ts:93-96 | an address is used if and only if some interface reports it and it is external and IPv4 |
| Ssdp.UsableOnlyMembers | src/ssdp.ts:95 | the filter keeps exactly the external IPv4 addresses |
| Ssdp.FlattenMembers | src/ssdp.ts:94 | flattening keeps exactly the addresses of all interfaces |
| Ssdp.OpenedAt | src/ssdp.ts:87-88 | the k-th usable address gets the k-th new socket |
| Ssdp.Ssdp.constructor | src/ssdp.ts:41-51 | the options override the defaults, except `multicastAddress`; then one socket is opened per usable address |
| Ssdp.Ssdp.CreateSockets | src/ssdp.ts:85-91 | fails with "client is destroyed" once destroyed and changes nothing; otherwise appends one fresh socket per usable address, in order |
| Ssdp.Ssdp.AddSocket | src/ssdp.ts:88 | adding a socket with a new identity keeps the set's identities distinct |
| Ssdp.Ssdp.Destroy | src/ssdp.ts:77-83 | marks the client destroyed, closes every socket in insertion order and leaves the set empty |
| Ssdp.Ssdp.OnClose | src/ssdp.ts:104-106 | the close handler removes the socket, and removing an absent one changes nothing |
| Ssdp.Ssdp.OnError | src/ssdp.ts:101-103 | the error handler closes the socket, and the close handler then removes it |
| Ssdp.Ssdp.Search | src/ssdp.ts:53-75 | not bound: fails; otherwise one outcome per socket held at call time, in order, each the socket's first answer to the query or its timeout |
| Ssdp.Remove | src/ssdp.ts:105 | deleting from the set keeps exactly the other sockets |
| Ssdp.RemoveTwice | src/ssdp.ts:81 | deleting twice is deleting once |
| Ssdp.RemoveAbsent | src/ssdp.ts:105 | deleting an absent socket changes nothing |
| Ssdp.RemoveAt | src/ssdp.ts:105 | deleting the socket at any position of a distinct list drops exactly that position and keeps the rest in order |
| Ssdp.RemoveFirst | src/ssdp.ts:79-81 | deleting the first socket of the set leaves the rest |
| Ssdp.RemoveKeepsDistinct | src/ssdp.ts:105 | deleting keeps the identities distinct |
| Ssdp.SearchWithoutSockets | src/ssdp.ts:65 | a client without sockets settles a search to no outcome, without an error |
| Upnp.CreateGateway | src/upnp.ts:58-63 | the gateway is the first outcome's `location`, remote and local information; an empty list or a first timeout is a TypeError |
| Upnp.FirstOutcomeDecides | src/upnp.ts:59 | only the first outcome matters |
| Upnp.TimedOutFirst | src/upnp.ts:59 | a first timeout fails even when a later socket got an answer |
| Upnp.GatewayOfClient | src/upnp.ts:58-62 | through a client, the gateway is the answer its first socket got to the gateway query |
| Upnp.FirstKey | src/upnp.ts:71-76 | the first key, in order, that satisfies the test |
| Upnp.FirstKeyAt | src/upnp.ts:71-76 | a matching key with no match before it is the one found |
| Upnp.ScanKeys | src/upnp.ts:71-76 | the early-exit scan finds the first matching key |
| Upnp.ExternalIp | src/upnp.ts:65-81 | `externalIp` fails with the gateway's error or the call's error; otherwise it reads the reply through `ExternalIpOf` |
| Upnp.ExternalIpFirstMatch | src/upnp.ts:70-78 | the address is `NewExternalIPAddress` of the first key ending in `:GetExternalIPAddressResponse` |
| Upnp.ExternalIpNoMatch | src/upnp.ts:78-80 | without such a key the result is "Incorrect response" |
| Upnp.EntryRequest | src/upnp.ts:87-90 | one request yields the value of the first key containing `:GetGenericPortMappingEntryResponse` |
| Upnp.FetchEntry | src/upnp.ts:86-110 | the inner `GetGenericPortMappingEntry` gives the step the listing is specified with |
| Upnp.ConvertEntryNode | src/upnp.ts:91-108 | an entry reads back as its remote host, ports, protocol, client, flag (`'1'`), description and lease, and `local` holds if and only if the client is the local address |
| Upnp.GetMappings | src/upnp.ts:83-131 | fails with the gateway's error, or lists the mappings the specification function `Mappings` defines |
| Upnp.ListMappings | src/upnp.ts:112-130 | the `while (true)` loop computes the listing `Enumerate` defines |
| Upnp.EntriesFromRun | src/upnp.ts:115-127 | the collected mappings are the entries at consecutive indices, and the index after them fails |
| Upnp.EnumerateFrom | src/upnp.ts:115-127 | from any index the loop lists the run up to the first failure, or rejects with "invalid data" if a mapping in it has no protocol |
| Upnp.ListingIsFirstRun | src/upnp.ts:112-130 | the listing starts at index 0, or at 1 when index 0 fails, and ends before the next failure |
| Upnp.ProtocolOf | src/upnp.ts:141 | a string protocol is kept; anything else becomes `TCP` |
| Upnp.AcceptedIgnoresCase | src/upnp.ts:142 | a protocol passes if and only if it is `tcp` or `udp` in any mix of cases |
| Upnp.CompleteEndpoints | src/upnp.ts:136-139 | a missing remote is created; a falsy remote port becomes the internal port; a falsy internal host becomes the local address |
| Upnp.AddWithDefaults | src/upnp.ts:141-159 | the protocol is defaulted and checked; then `enabled`, `description` and `ttl` are defaulted and `AddPortMapping` is called with the completed values |
| Upnp.PortMapping | src/upnp.ts:133-160 | on a gateway error nothing changes; otherwise the endpoints are completed, the protocol is defaulted, `enabled`, `description` and `ttl` get their defaults when the protocol is accepted and are untouched otherwise, and the result is as `AddRequested` states |
| Upnp.PortUnmapping | src/upnp.ts:162-173 | the protocol is defaulted in place and checked; then `DeletePortMapping` gets host, port and the upper-cased protocol |
| Upnp.AddMappingEnvelope | src/upnp.ts:148-157 | the `AddPortMapping` envelope carries exactly the eight named arguments in fixed order, with the protocol upper-cased |
| Upnp.RenderedMapping | src/upnp.ts:148-157 | the eight arguments render as their names with their texts |

## Left out

- Sockets, binding, multicast sending, the `bound` and `listening` events, the 5-second readiness timer and the per-socket timeouts are not modelled. Their results are parameters: `bound` and the per-socket `answer`.
- Concurrent searches, and settling in any order, are not modelled. `Promise.allSettled` is modelled by its ordered result.
- `fetch` and the `Content-Length` byte count are not modelled.
- The xml2js parser is not modelled. Its output is an input of the model, in the 0.1-default shape described in `xml.dfy`.
- `addPrefix` and the WHATWG URL library are not modelled. They are the `resolve` parameter.
- `os.networkInterfaces()` is not modelled. Its table is a parameter.
- `Object.keys` puts integer-like keys first. The model keeps keys in document order, since the keys it scans (XML names, `xmlns:` attributes) are never integer-like.
- `toLowerCase` and `toUpperCase` are modelled on ASCII letters only. For the protocol check this is exact only for ASCII input. For header names it ignores non-ASCII case mappings.
- Numbers are modelled as integers; floats, `NaN` and `Infinity` given as option values are not.
- Option values are JavaScript primitives. Objects, arrays and functions as values are not modelled.
- Option keys other than the four the SSDP client knows are not modelled. The constructor would copy them onto the client as well.
- `Upnp.GetMappings`: termination relies on a ghost bound past which every index fails, as on any real gateway. The source loop does not terminate against a device that answers every index.
- The class returned by `new Device(url)` is not modelled. It is the record `Device.Device`, because it holds only its URL.
- `Device.Run`: the description document is a parameter, because `getXml` is fetching and parsing.
- Device.EnvelopeRoundTrip: reads the envelope back only for a service type with nothing to escape, an action without spaces and arguments whose texts hold no `<`. `JSON.stringify` itself is modelled with its escapes.
- Upnp.AddMappingEnvelope: holds under the same conditions on the service type and the argument texts.
- `_parseCommand` is not modelled separately. It is `_getMethod` and `_getHeaders` side by side, and only the headers reach the response.
