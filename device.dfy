/** The control side of a UPnP gateway (UPnP Device Architecture 1.1,
    section 2 for the description document and section 3.2 for action
    invocation): the SOAP 1.1 envelope a client sends, how it finds the
    envelope namespace prefix the device chose, how a reply becomes a Body or
    a fault, and how the description tree is flattened to choose the service
    to control. HTTP transport, XML parsing and URL resolution are outside
    the model: their results are parameters. */
module Device {
  import opened Results
  import opened Text
  import Js
  import opened Xml

  const SoapEnvelopeUri: string := "http://schemas.xmlsoap.org/soap/envelope/"
  const SoapEncodingUri: string := "http://schemas.xmlsoap.org/soap/encoding/"
  const ContentType: string := "text/xml; charset=\"utf-8\""
  const XmlnsPrefix: string := "xmlns:"
  const ControlUri: string := "urn:schemas-upnp-org:control-1-0"

  /** The service types a gateway may offer for port mapping, in the
      client's order. */
  const GatewayServices: seq<string> := [
    "urn:schemas-upnp-org:service:WANIPConnection:1",
    "urn:schemas-upnp-org:service:WANIPConnection:2",
    "urn:schemas-upnp-org:service:WANPPPConnection:1"
  ]

  /** A gateway, known by the URL of its description document. */
  datatype Device = Device(url: string)

  /** How a control call fails. `MalformedResponse` stands for the runtime
      TypeError raised when a document lacks the structure being indexed. */
  datatype Error =
    | ServiceNotFound
    | Fault(code: Option<Node>, description: Option<Node>)
    | MalformedResponse

  /** One action argument: a name and a JavaScript value. */
  datatype Arg = Arg(name: string, value: Js.Value)

  /** The service chosen for control, with both URLs resolved. */
  datatype ServiceInfo = ServiceInfo(service: string, scpdUrl: string, controlUrl: string)

  /** The HTTP POST that carries an action (its Content-Length is not modelled). */
  datatype Request = Request(url: string, contentType: string, soapAction: string, body: string)

  /** The HTTP status and the decoded body of a reply; `None` is the `null`
      that an empty body decodes to. */
  datatype Reply = Reply(status: int, data: Option<Node>)

  // ---------------------------------------------------------------------
  // The request

  /** The text of an argument value: `undefined` gives the empty string. */
  function ArgText(v: Js.Value): string {
    if v.Undefined? then "" else Js.ToString(v)
  }

  function ArgElement(a: Arg): string {
    "<" + a.name + ">" + ArgText(a.value) + "</" + a.name + ">"
  }

  /** The argument elements, concatenated without separator. */
  function ArgsXml(args: seq<Arg>): string {
    if args == [] then "" else ArgElement(args[0]) + ArgsXml(args[1..])
  }

  /** The text before the action name: the XML declaration, the Envelope
      start tag with its namespace and encoding style, the Body start tag and
      the start of the action element. */
  const EnvelopeStart: string :=
    "<?xml version=\"1.0\"?>"
    + "<s:Envelope xmlns:s=\"" + SoapEnvelopeUri + "\" "
    + "s:encodingStyle=\"" + SoapEncodingUri + "\">"
    + "<s:Body>"
    + "<u:"

  /** The text after the closing action tag. */
  const EnvelopeEnd: string := "</s:Body>" + "</s:Envelope>"

  /** The text that closes the action element and the envelope. */
  function EnvelopeTail(action: string): string {
    "</u:" + action + ">" + EnvelopeEnd
  }

  /** The envelope for `action` of `service` with the given arguments. */
  function Envelope(service: string, action: string, args: seq<Arg>): string {
    EnvelopeStart + action + " xmlns:u=" + Js.JsonQuote(service) + ">" + ArgsXml(args) + EnvelopeTail(action)
  }

  /** The SOAPAction header value. */
  function SoapAction(service: string, action: string): string {
    Js.JsonQuote(service + "#" + action)
  }

  function ActionRequest(info: ServiceInfo, action: string, args: seq<Arg>): Request {
    Request(info.controlUrl, ContentType, SoapAction(info.service, action),
            Envelope(info.service, action, args))
  }

  /** The SOAPAction header is `SERVICE#ACTION` in double quotes whenever
      nothing in it needs a JSON escape. */
  lemma SoapActionQuoted(service: string, action: string)
    requires forall k :: 0 <= k < |service| ==> !Js.NeedsEscape(service[k])
    requires forall k :: 0 <= k < |action| ==> !Js.NeedsEscape(action[k])
    ensures SoapAction(service, action) == "\"" + service + "#" + action + "\""
  {
    var s := service + "#" + action;
    forall k | 0 <= k < |s| ensures !Js.NeedsEscape(s[k]) {
      if k < |service| {
        assert s[k] == service[k];
      } else if k > |service| {
        assert s[k] == action[k - |service| - 1];
      }
    }
    Js.JsonQuotePlain(s);
  }

  // ---------------------------------------------------------------------
  // Reading the arguments back out of an envelope

  /** The (name, text) pairs an argument list is written as. */
  function Rendered(args: seq<Arg>): (r: seq<(string, string)>)
    ensures |r| == |args|
  {
    if args == [] then [] else [(args[0].name, ArgText(args[0].value))] + Rendered(args[1..])
  }

  /** Arguments whose element can be read back: the name holds no `>` and
      the text no `<`. */
  predicate Readable(a: Arg) {
    && (forall k :: 0 <= k < |a.name| ==> a.name[k] != '>')
    && (a.value.Str? ==> forall k :: 0 <= k < |a.value.s| ==> a.value.s[k] != '<')
  }

  /** Reads the element `<name>text</name>` that `s` starts with: its name,
      its text and the position right after it. */
  function DecodeElement(s: string): (r: Option<(string, string, nat)>)
    ensures r.Some? ==> 0 < r.value.2 <= |s|
  {
    if s == [] || s[0] != '<' then None
    else match IndexFrom(s, ">", 1)
      case None => None
      case Some(i) =>
        match IndexFrom(s, "<", i + 1)
        case None => None
        case Some(j) =>
          var close := "</" + s[1..i] + ">";
          if OccursAt(s, close, j) then Some((s[1..i], s[i + 1..j], j + |close|)) else None
  }

  /** Reads a run of `<name>text</name>` elements. */
  function DecodeArgs(s: string): Option<seq<(string, string)>>
    decreases |s|
  {
    if s == [] then Some([])
    else match DecodeElement(s)
      case None => None
      case Some((name, text, end)) =>
        match DecodeArgs(s[end..])
        case None => None
        case Some(rest) => Some([(name, text)] + rest)
  }

  lemma ArgTextHasNoLt(a: Arg)
    requires Readable(a)
    ensures forall k :: 0 <= k < |ArgText(a.value)| ==> ArgText(a.value)[k] != '<'
  {
  }

  /** One element followed by anything: the decoder reads that element and
      continues right after it. */
  lemma DecodeOneElement(n: string, t: string, rest: string)
    requires forall k :: 0 <= k < |n| ==> n[k] != '>'
    requires forall k :: 0 <= k < |t| ==> t[k] != '<'
    ensures DecodeElement("<" + n + ">" + t + "</" + n + ">" + rest) ==
      Some((n, t, |n| + |t| + |n| + 5))
  {
    var s := "<" + n + ">" + t + "</" + n + ">" + rest;
    var i := 1 + |n|;
    var j := i + 1 + |t|;
    ElementBrackets(n, t, rest, s, i, j);
    ElementParts(n, t, rest, s, i, j);
    DecodeElementAt(s, i, j);
  }

  /** Where the decoder finds the brackets of a written element. */
  lemma ElementBrackets(n: string, t: string, rest: string, s: string, i: nat, j: nat)
    requires forall k :: 0 <= k < |n| ==> n[k] != '>'
    requires forall k :: 0 <= k < |t| ==> t[k] != '<'
    requires s == "<" + n + ">" + t + "</" + n + ">" + rest && i == 1 + |n| && j == i + 1 + |t|
    ensures IndexFrom(s, ">", 1) == Some(i) && IndexFrom(s, "<", i + 1) == Some(j)
  {
    var after := "</" + n + ">" + rest;
    ElementGrouping("<", n, ">", t, "</", rest);
    ClosingBracket(n, t + after);
    StartTagLength(n, t + after, s);
    OpeningBracket(t, after, s, i + 1);
  }

  /** The pieces of a written element. */
  lemma ElementParts(n: string, t: string, rest: string, s: string, i: nat, j: nat)
    requires s == "<" + n + ">" + t + "</" + n + ">" + rest && i == 1 + |n| && j == i + 1 + |t|
    ensures s[0] == '<' && j <= |s| && s[1..i] == n && s[i + 1..j] == t
    ensures OccursAt(s, "</" + n + ">", j)
  {
    var open, close := "<" + n + ">", "</" + n + ">";
    var after := close + rest;
    ElementGrouping("<", n, ">", t, "</", rest);
    ElementSlices(open, t, after, s);
    assert s[1..i] == open[1..i];
    assert s[j..j + |close|] == after[..|close|];
  }

  lemma ElementGrouping(lt: string, n: string, gt: string, t: string, ltSlash: string, rest: string)
    ensures lt + n + gt + t + ltSlash + n + gt + rest == lt + n + gt + (t + (ltSlash + n + gt + rest))
  {
  }

  lemma StartTagLength(n: string, more: string, s: string)
    requires s == "<" + n + ">" + more
    ensures s[2 + |n|..] == more
  {
  }

  /** The decoder's steps, once the brackets have been found. */
  lemma DecodeElementAt(s: string, i: nat, j: nat)
    requires s != [] && s[0] == '<'
    requires IndexFrom(s, ">", 1) == Some(i) && IndexFrom(s, "<", i + 1) == Some(j)
    requires OccursAt(s, "</" + s[1..i] + ">", j)
    ensures DecodeElement(s) == Some((s[1..i], s[i + 1..j], j + |s[1..i]| + 3))
  {
  }

  lemma ElementSlices(open: string, t: string, after: string, s: string)
    requires s == open + (t + after)
    ensures s[..|open|] == open && s[|open|..] == t + after
    ensures s[|open|..|open| + |t|] == t && s[|open| + |t|..] == after
  {
  }

  lemma ClosingBracket(n: string, more: string)
    requires forall k :: 0 <= k < |n| ==> n[k] != '>'
    ensures IndexFrom("<" + n + ">" + more, ">", 1) == Some(1 + |n|)
  {
    var s := "<" + n + ">" + more;
    forall m | 1 <= m < 1 + |n| ensures s[m] != '>' {
      assert s[m] == n[m - 1];
    }
    FirstChar(s, '>', 1, 1 + |n|);
  }

  lemma OpeningBracket(t: string, after: string, s: string, from: nat)
    requires forall k :: 0 <= k < |t| ==> t[k] != '<'
    requires |after| > 0 && after[0] == '<'
    requires from <= |s| && s[from..] == t + after
    ensures IndexFrom(s, "<", from) == Some(from + |t|)
  {
    forall m | from <= m < from + |t| ensures s[m] != '<' {
      assert s[m] == s[from..][m - from];
    }
    assert s[from + |t|] == s[from..][|t|];
    FirstChar(s, '<', from, from + |t|);
  }

  /** Decoding the written arguments gives back every name and text, in order. */
  lemma {:induction false} DecodeArgsXml(args: seq<Arg>)
    requires forall k :: 0 <= k < |args| ==> Readable(args[k])
    ensures DecodeArgs(ArgsXml(args)) == Some(Rendered(args))
  {
    if args != [] {
      var a := args[0];
      ArgTextHasNoLt(a);
      DecodeArgsXml(args[1..]);
      var s := ArgsXml(args);
      DecodeOneElement(a.name, ArgText(a.value), ArgsXml(args[1..]));
      assert s == "<" + a.name + ">" + ArgText(a.value) + "</" + a.name + ">" + ArgsXml(args[1..]);
      assert s[2 * |a.name| + |ArgText(a.value)| + 5..] == ArgsXml(args[1..]);
    }
  }

  const ServiceAttribute: string := " xmlns:u=\""

  /** Reads service, action and arguments back out of an envelope. */
  function DecodeEnvelope(env: string): Option<(string, string, seq<(string, string)>)> {
    if !StartsWith(env, EnvelopeStart) then None else DecodeAction(env[|EnvelopeStart|..])
  }

  /** The action name runs up to the first space, which opens the service attribute. */
  function DecodeAction(r: string): Option<(string, string, seq<(string, string)>)> {
    match IndexFrom(r, " ", 0)
    case None => None
    case Some(a) =>
      if !OccursAt(r, ServiceAttribute, a) then None
      else DecodeService(r[a + |ServiceAttribute|..], r[..a])
  }

  /** The service runs up to the next double quote, which closes the start tag. */
  function DecodeService(r: string, action: string): Option<(string, string, seq<(string, string)>)> {
    match IndexFrom(r, "\"", 0)
    case None => None
    case Some(e) =>
      if !OccursAt(r, "\">", e) then None
      else match DecodeBody(r[e + 2..], action)
        case None => None
        case Some(args) => Some((r[..e], action, args))
  }

  /** The arguments fill the rest, up to the closing tags. */
  function DecodeBody(r: string, action: string): Option<seq<(string, string)>> {
    var tail := EnvelopeTail(action);
    if !EndsWith(r, tail) then None else DecodeArgs(r[..|r| - |tail|])
  }

  lemma DecodeBodyOf(body: string, action: string)
    ensures DecodeBody(body + EnvelopeTail(action), action) == DecodeArgs(body)
  {
    var r := body + EnvelopeTail(action);
    assert r[|r| - |EnvelopeTail(action)|..] == EnvelopeTail(action);
    assert r[..|r| - |EnvelopeTail(action)|] == body;
  }

  lemma DecodeServiceOf(service: string, body: string, action: string)
    requires forall k :: 0 <= k < |service| ==> service[k] != '"'
    ensures DecodeService(service + "\">" + body + EnvelopeTail(action), action) ==
      (match DecodeArgs(body) case None => None case Some(args) => Some((service, action, args)))
  {
    var more := "\">" + body + EnvelopeTail(action);
    var r := service + more;
    assert r == service + "\">" + body + EnvelopeTail(action);
    var e := |service|;
    forall m | 0 <= m < e ensures r[m] != '"' {
      assert r[m] == service[m];
    }
    assert r[e] == '"';
    FirstChar(r, '"', 0, e);
    assert r[e..] == more;
    assert r[e..e + 2] == "\">";
    assert r[e + 2..] == body + EnvelopeTail(action);
    assert r[..e] == service;
    DecodeBodyOf(body, action);
  }

  lemma DecodeActionOf(action: string, more: string)
    requires forall k :: 0 <= k < |action| ==> action[k] != ' '
    ensures DecodeAction(action + ServiceAttribute + more) == DecodeService(more, action)
  {
    var r := action + ServiceAttribute + more;
    var a := |action|;
    forall m | 0 <= m < a ensures r[m] != ' ' {
      assert r[m] == action[m];
    }
    assert r[a] == ' ';
    FirstChar(r, ' ', 0, a);
    assert r[a..a + |ServiceAttribute|] == ServiceAttribute;
    assert r[a + |ServiceAttribute|..] == more;
    assert r[..a] == action;
  }

  /** The envelope is the fixed start, the action, the quoted service, the
      arguments and the closing tags. */
  lemma EnvelopeLayout(service: string, action: string, args: seq<Arg>)
    requires forall k :: 0 <= k < |service| ==> !Js.NeedsEscape(service[k])
    ensures Envelope(service, action, args) ==
      EnvelopeStart + (action + ServiceAttribute + (service + "\">" + ArgsXml(args) + EnvelopeTail(action)))
  {
    Js.JsonQuotePlain(service);
    AttributeQuotes();
    Regroup(EnvelopeStart, action, " xmlns:u=", "\"", service, ">", ArgsXml(args), EnvelopeTail(action));
  }

  lemma AttributeQuotes()
    ensures " xmlns:u=" + "\"" == ServiceAttribute && "\"" + ">" == "\">"
  {
  }

  lemma Regroup(s: string, a: string, x: string, q: string, v: string, g: string, b: string, t: string)
    ensures s + a + x + (q + v + q) + g + b + t == s + (a + (x + q) + (v + (q + g) + b + t))
  {
  }

  /** The envelope carries exactly the service, the action and the arguments
      in the order given, with an `undefined` value as an empty element. */
  lemma EnvelopeRoundTrip(service: string, action: string, args: seq<Arg>)
    requires forall k :: 0 <= k < |service| ==> !Js.NeedsEscape(service[k])
    requires forall k :: 0 <= k < |action| ==> action[k] != ' '
    requires forall k :: 0 <= k < |args| ==> Readable(args[k])
    ensures DecodeEnvelope(Envelope(service, action, args)) == Some((service, action, Rendered(args)))
  {
    var body := ArgsXml(args);
    var more := service + "\">" + body + EnvelopeTail(action);
    var r := action + ServiceAttribute + more;
    var env := Envelope(service, action, args);
    EnvelopeLayout(service, action, args);
    assert env[..|EnvelopeStart|] == EnvelopeStart;
    assert env[|EnvelopeStart|..] == r;
    DecodeActionOf(action, more);
    DecodeServiceOf(service, body, action);
    DecodeArgsXml(args);
  }

  // ---------------------------------------------------------------------
  // The envelope namespace prefix

  /** An attribute that declares a namespace prefix for `uri`. */
  predicate Declares(attr: (string, Node), uri: string) {
    StartsWith(attr.0, XmlnsPrefix) && attr.1 == Leaf(uri)
  }

  /** The position of the first attribute, from `from` on, declaring `uri`. */
  function FirstDeclaration(attrs: seq<(string, Node)>, uri: string, from: nat): (r: Option<nat>)
    decreases |attrs| - from
    ensures r.Some? ==> from <= r.value < |attrs| && Declares(attrs[r.value], uri)
    ensures r.Some? ==> forall j :: from <= j < r.value ==> !Declares(attrs[j], uri)
    ensures r.None? ==> forall j :: from <= j < |attrs| ==> !Declares(attrs[j], uri)
  {
    if from >= |attrs| then None
    else if Declares(attrs[from], uri) then Some(from)
    else FirstDeclaration(attrs, uri, from + 1)
  }

  /** `p:` for a non-empty prefix `p`, nothing for the empty one. */
  function Qualifier(p: string): string {
    if p == "" then "" else p + ":"
  }

  /** The prefix, with its colon, that the root element binds to `uri`: the
      first `xmlns:p` attribute in key order whose value is `uri` decides;
      the empty string when the root has no attribute object or no such
      attribute. */
  function Namespace(data: Node, uri: string): string {
    match Prop(data, AttributesKey)
    case Some(Obj(attrs)) =>
      (match FirstDeclaration(attrs, uri, 0)
       case Some(i) => Qualifier(attrs[i].0[|XmlnsPrefix|..])
       case None => "")
    case _ => ""
  }

  /** `getNamespace`: scans the root's attribute keys in order and stops at
      the first one that declares `uri`. */
  method GetNamespace(data: Node, uri: string) returns (ns: string)
    ensures ns == Namespace(data, uri)
  {
    var attrs := Prop(data, AttributesKey);
    var prefix: Option<string> := None;
    if Truthy(attrs) && attrs.value.Obj? {
      var fields := attrs.value.fields;
      var i := 0;
      while i < |fields|
        invariant 0 <= i <= |fields|
        invariant FirstDeclaration(fields, uri, 0) == FirstDeclaration(fields, uri, i)
      {
        var (key, value) := fields[i];
        if StartsWith(key, XmlnsPrefix) && value == Leaf(uri) {
          prefix := Some(key[|XmlnsPrefix|..]);
          break;
        }
        i := i + 1;
      }
    }
    ns := if prefix.Some? && prefix.value != "" then prefix.value + ":" else "";
  }

  /** The first declaration of `uri` decides the prefix, whatever follows. */
  lemma NamespaceOfFirstDeclaration(data: Node, uri: string, attrs: seq<(string, Node)>, i: nat, p: string)
    requires Prop(data, AttributesKey) == Some(Obj(attrs))
    requires i < |attrs| && attrs[i] == (XmlnsPrefix + p, Leaf(uri))
    requires forall j :: 0 <= j < i ==> !Declares(attrs[j], uri)
    ensures Namespace(data, uri) == Qualifier(p)
  {
    assert Declares(attrs[i], uri) by {
      assert attrs[i].0[..|XmlnsPrefix|] == XmlnsPrefix;
    }
    assert FirstDeclaration(attrs, uri, 0) == Some(i);
    assert attrs[i].0[|XmlnsPrefix|..] == p;
  }

  /** Without a declaration of `uri` the prefix is empty. */
  lemma NamespaceUndeclared(data: Node, uri: string)
    requires forall attrs :: Prop(data, AttributesKey) == Some(Obj(attrs)) ==>
               forall j :: 0 <= j < |attrs| ==> !Declares(attrs[j], uri)
    ensures Namespace(data, uri) == ""
  {
    match Prop(data, AttributesKey)
    case Some(Obj(attrs)) =>
      assert FirstDeclaration(attrs, uri, 0).None?;
    case _ =>
  }

  // ---------------------------------------------------------------------
  // The reply

  /** The error raised from a Fault node: `detail[faultstring]` supplies
      `errorCode` and `errorDescription`. */
  function FaultError(fault: Node): Error {
    var faultstring := Prop(fault, "faultstring");
    var detail := Prop(fault, "detail");
    if detail.None? then MalformedResponse
    else
      var entry := Prop(detail.value, StringOf(faultstring));
      if entry.None? then MalformedResponse
      else Fault(Prop(entry.value, "errorCode"), Prop(entry.value, "errorDescription"))
  }

  /** What `run` makes of a reply: an empty body is malformed; on status 200
      the Body node under the discovered prefix; on any other status the
      error of the Fault in that Body, or a malformed response when the
      Body or its Fault is missing. */
  function HandleResponse(reply: Reply): (r: Result<Option<Node>, Error>)
    ensures reply.data.None? ==> r == Err(MalformedResponse)
    ensures reply.data.Some? ==>
      var data := reply.data.value;
      var ns := Namespace(data, SoapEnvelopeUri);
      var body := Prop(data, ns + "Body");
      && (reply.status == 200 ==> r == Ok(body))
      && (reply.status != 200 && body.None? ==> r == Err(MalformedResponse))
      && (reply.status != 200 && body.Some? && Prop(body.value, ns + "Fault").None? ==>
            r == Err(MalformedResponse))
      && (reply.status != 200 && body.Some? && Prop(body.value, ns + "Fault").Some? ==>
            r == Err(FaultError(Prop(body.value, ns + "Fault").value)))
    ensures reply.status != 200 ==> r.Err?
  {
    if reply.data.None? then Err(MalformedResponse)
    else
      var data := reply.data.value;
      var ns := Namespace(data, SoapEnvelopeUri);
      if reply.status != 200 then
        var body := Prop(data, ns + "Body");
        if body.None? then Err(MalformedResponse)
        else
          var fault := Prop(body.value, ns + "Fault");
          if fault.None? then Err(MalformedResponse) else Err(FaultError(fault.value))
      else Ok(Prop(data, ns + "Body"))
  }

  /** A non-200 reply whose envelope prefix is `p:` and whose `p:Body` holds a
      `p:Fault` fails with the error that Fault describes. */
  lemma FaultReply(data: Node, p: string, body: Node, fault: Node, status: int)
    requires status != 200
    requires Namespace(data, SoapEnvelopeUri) == Qualifier(p)
    requires Prop(data, Qualifier(p) + "Body") == Some(body)
    requires Prop(body, Qualifier(p) + "Fault") == Some(fault)
    ensures HandleResponse(Reply(status, Some(data))) == Err(FaultError(fault))
  {
  }

  /** The Body of a 200 reply does not depend on the prefix the device binds
      to the envelope namespace: documents holding the same node under
      `p:Body` and under `q:Body` give the same result. */
  lemma PrefixIndependence(d: Node, p: string, e: Node, q: string)
    requires Namespace(d, SoapEnvelopeUri) == Qualifier(p)
    requires Namespace(e, SoapEnvelopeUri) == Qualifier(q)
    requires Prop(d, Qualifier(p) + "Body") == Prop(e, Qualifier(q) + "Body")
    ensures HandleResponse(Reply(200, Some(d))) == HandleResponse(Reply(200, Some(e)))
  {
  }

  /** Nor does the error of any other reply: documents whose Bodies hold the
      same node, or none, under `p:Fault` and under `q:Fault` fail alike. */
  lemma FaultPrefixIndependence(d: Node, p: string, bd: Node, e: Node, q: string, be: Node, status: int)
    requires status != 200
    requires Namespace(d, SoapEnvelopeUri) == Qualifier(p)
    requires Namespace(e, SoapEnvelopeUri) == Qualifier(q)
    requires Prop(d, Qualifier(p) + "Body") == Some(bd) && Prop(e, Qualifier(q) + "Body") == Some(be)
    requires Prop(bd, Qualifier(p) + "Fault") == Prop(be, Qualifier(q) + "Fault")
    ensures HandleResponse(Reply(status, Some(d))) == HandleResponse(Reply(status, Some(e)))
  {
  }

  /** A UPnP fault: when `faultstring` names an entry of `detail` (for UPnP
      `UPnPError`), the error carries that entry's `errorCode` and
      `errorDescription` unchanged, whatever else the fault holds. */
  lemma FaultCarriesDetail(fault: Node, name: string, detail: Node, entry: Node)
    requires Prop(fault, "faultstring") == Some(Leaf(name))
    requires Prop(fault, "detail") == Some(detail) && Prop(detail, name) == Some(entry)
    ensures FaultError(fault) == Fault(Prop(entry, "errorCode"), Prop(entry, "errorDescription"))
  {
  }

  /** The `UPnPError` entry of a fault, with its own namespace attribute. */
  function ErrorEntry(code: Node, description: Node): Node {
    Obj([(AttributesKey, Obj([("xmlns", Leaf(ControlUri))])), ("errorCode", code), ("errorDescription", description)])
  }

  /** A UPnP fault as a gateway sends it, `faultcode` first. */
  function UpnpFault(p: string, code: Node, description: Node): Node {
    Obj([("faultcode", Leaf(Qualifier(p) + "Client")), ("faultstring", Leaf("UPnPError")),
         ("detail", Obj([("UPnPError", ErrorEntry(code, description))]))])
  }

  /** An error reply whose envelope declares prefix `p` and an encoding style
      and whose Body holds `fault`. */
  function ErrorReply(p: string, fault: Node): Node {
    Obj([(AttributesKey, Obj([(XmlnsPrefix + p, Leaf(SoapEnvelopeUri)),
                              (Qualifier(p) + "encodingStyle", Leaf(SoapEncodingUri))])),
         (Qualifier(p) + "Body", Obj([(Qualifier(p) + "Fault", fault)]))])
  }

  /** The error of a UPnP fault is its entry's code and description. */
  lemma UpnpFaultError(p: string, code: Node, description: Node)
    ensures FaultError(UpnpFault(p, code, description)) == Fault(Some(code), Some(description))
  {
    var entry := ErrorEntry(code, description);
    var detail := Obj([("UPnPError", entry)]);
    var fault := UpnpFault(p, code, description);
    PropAt(fault.fields, 1);
    PropAt(fault.fields, 2);
    PropAt(detail.fields, 0);
    PropAt(entry.fields, 1);
    PropAt(entry.fields, 2);
    FaultCarriesDetail(fault, "UPnPError", detail, entry);
  }

  /** A UPnP error reply, whatever prefix `p` the gateway chooses, fails with
      the code and description of its `UPnPError` entry. */
  lemma UpnpErrorReply(p: string, code: Node, description: Node, status: int)
    requires status != 200
    ensures HandleResponse(Reply(status, Some(ErrorReply(p, UpnpFault(p, code, description))))) ==
            Err(Fault(Some(code), Some(description)))
  {
    var fault := UpnpFault(p, code, description);
    var data := ErrorReply(p, fault);
    var body := Obj([(Qualifier(p) + "Fault", fault)]);
    var attrs := [(XmlnsPrefix + p, Leaf(SoapEnvelopeUri)), (Qualifier(p) + "encodingStyle", Leaf(SoapEncodingUri))];
    assert Prop(data, AttributesKey) == Some(Obj(attrs));
    NamespaceOfFirstDeclaration(data, SoapEnvelopeUri, attrs, 0, p);
    assert |Qualifier(p) + "Body"| >= 4;
    PropAt(data.fields, 1);
    PropAt(body.fields, 0);
    FaultReply(data, p, body, fault, status);
    UpnpFaultError(p, code, description);
  }

  /** A fault without a `detail` object, or whose `detail` has no entry named
      by `faultstring`, is a malformed response rather than a fault. */
  lemma FaultWithoutDetail(fault: Node)
    requires Prop(fault, "detail").None? ||
             Prop(Prop(fault, "detail").value, StringOf(Prop(fault, "faultstring"))).None?
    ensures FaultError(fault) == MalformedResponse
  {
  }

  // ---------------------------------------------------------------------
  // The description tree

  /** Falsy devices and services (`''`) are skipped. */
  predicate Present(n: Node) {
    n != Leaf("")
  }

  /** `toArray(device.deviceList.device)` when both are present, else nothing. */
  function ChildDevices(d: Node): (r: seq<Node>)
    ensures ListSize(r) < Size(d)
  {
    var list := Prop(d, "deviceList");
    if Truthy(list) && Truthy(Prop(list.value, "device")) then ToArray(Prop(list.value, "device").value)
    else []
  }

  /** The services a device lists itself, present ones only, in order. */
  function OwnServices(d: Node): seq<Node> {
    var list := Prop(d, "serviceList");
    if Truthy(list) && Truthy(Prop(list.value, "service")) then PresentOnly(ToArray(Prop(list.value, "service").value))
    else []
  }

  function PresentOnly(xs: seq<Node>): (r: seq<Node>)
    ensures forall x :: x in r <==> x in xs && Present(x)
  {
    if xs == [] then [] else (if Present(xs[0]) then [xs[0]] else []) + PresentOnly(xs[1..])
  }

  /** Filtering distributes over concatenation, so the kept nodes stay in
      their original order. */
  lemma {:induction false} PresentOnlyAppend(xs: seq<Node>, ys: seq<Node>)
    ensures PresentOnly(xs + ys) == PresentOnly(xs) + PresentOnly(ys)
  {
    if xs == [] {
      assert xs + ys == ys;
    } else {
      assert (xs + ys)[0] == xs[0] && (xs + ys)[1..] == xs[1..] + ys;
      PresentOnlyAppend(xs[1..], ys);
    }
  }

  /** The devices `traverseDevices(d)` records, in the order it pushes them. */
  function DevicesOf(d: Node): seq<Node>
    decreases Size(d), 1
  {
    if !Present(d) then [] else [d] + DevicesIn(ChildDevices(d))
  }

  function DevicesIn(ds: seq<Node>): seq<Node>
    decreases ListSize(ds), 2
  {
    if ds == [] then [] else DevicesOf(ds[0]) + DevicesIn(ds[1..])
  }

  /** The services `traverseDevices(d)` records: those of the child devices
      first, then the device's own. */
  function ServicesOf(d: Node): seq<Node>
    decreases Size(d), 1
  {
    if !Present(d) then [] else ServicesIn(ChildDevices(d)) + OwnServices(d)
  }

  function ServicesIn(ds: seq<Node>): seq<Node>
    decreases ListSize(ds), 2
  {
    if ds == [] then [] else ServicesOf(ds[0]) + ServicesIn(ds[1..])
  }

  /** `parseDescription(info).services`: the traversal from `info.device`. */
  function DescriptionServices(info: Node): seq<Node> {
    match Prop(info, "device")
    case None => []
    case Some(d) => ServicesOf(d)
  }

  /** `parseDescription(info).devices`. */
  function DescriptionDevices(info: Node): seq<Node> {
    match Prop(info, "device")
    case None => []
    case Some(d) => DevicesOf(d)
  }

  /** The devices in post-order: every device after all of its descendants. */
  function PostOrder(d: Node): seq<Node>
    decreases Size(d), 1
  {
    if !Present(d) then [] else PostOrderIn(ChildDevices(d)) + [d]
  }

  function PostOrderIn(ds: seq<Node>): seq<Node>
    decreases ListSize(ds), 2
  {
    if ds == [] then [] else PostOrder(ds[0]) + PostOrderIn(ds[1..])
  }

  /** The own services of each device in turn. */
  function ConcatServices(ds: seq<Node>): seq<Node> {
    if ds == [] then [] else OwnServices(ds[0]) + ConcatServices(ds[1..])
  }

  lemma {:induction false} ConcatServicesAppend(xs: seq<Node>, ys: seq<Node>)
    ensures ConcatServices(xs + ys) == ConcatServices(xs) + ConcatServices(ys)
  {
    if xs == [] {
      assert xs + ys == ys;
    } else {
      assert (xs + ys)[0] == xs[0] && (xs + ys)[1..] == xs[1..] + ys;
      ConcatServicesAppend(xs[1..], ys);
    }
  }

  /** The recorded services are the own services of the devices taken in
      post-order: a device's services come after those of all its
      descendants, while the devices themselves are recorded in pre-order. */
  lemma {:induction false} ServicesInPostOrder(d: Node)
    decreases Size(d), 1
    ensures ServicesOf(d) == ConcatServices(PostOrder(d))
  {
    if Present(d) {
      var cs := ChildDevices(d);
      ServicesInPostOrderIn(cs);
      ConcatServicesAppend(PostOrderIn(cs), [d]);
      assert ConcatServices([d]) == OwnServices(d) by {
        assert [d][1..] == [];
      }
    }
  }

  lemma {:induction false} ServicesInPostOrderIn(ds: seq<Node>)
    decreases ListSize(ds), 2
    ensures ServicesIn(ds) == ConcatServices(PostOrderIn(ds))
  {
    if ds != [] {
      ServicesInPostOrder(ds[0]);
      ServicesInPostOrderIn(ds[1..]);
      ConcatServicesAppend(PostOrder(ds[0]), PostOrderIn(ds[1..]));
    }
  }

  /** Pre-order and post-order visit the same devices. */
  lemma {:induction false} PostOrderPermutesDevices(d: Node)
    decreases Size(d), 1
    ensures multiset(PostOrder(d)) == multiset(DevicesOf(d))
  {
    if Present(d) {
      PostOrderPermutesDevicesIn(ChildDevices(d));
    }
  }

  lemma {:induction false} PostOrderPermutesDevicesIn(ds: seq<Node>)
    decreases ListSize(ds), 2
    ensures multiset(PostOrderIn(ds)) == multiset(DevicesIn(ds))
  {
    if ds != [] {
      PostOrderPermutesDevices(ds[0]);
      PostOrderPermutesDevicesIn(ds[1..]);
    }
  }

  // ---------------------------------------------------------------------
  // Choosing the service

  /** The service's `serviceType` is one of `types`. */
  predicate Offered(service: Node, types: seq<string>) {
    var t := Prop(service, "serviceType");
    t.Some? && t.value.Leaf? && t.value.text in types
  }

  /** The services of one of the given types, in traversal order. */
  function Survivors(services: seq<Node>, types: seq<string>): (r: seq<Node>)
    ensures forall x :: x in r ==> Offered(x, types)
  {
    if services == [] then []
    else (if Offered(services[0], types) then [services[0]] else []) + Survivors(services[1..], types)
  }

  /** `getService`: the first offered service in traversal order, which must
      have both a control URL and a description URL; `resolve` stands for the
      URL library resolving each against the base. */
  function GetService(url: string, description: Option<Node>, types: seq<string>,
                      resolve: (Node, Node) -> string): Result<ServiceInfo, Error>
  {
    if description.None? then Err(MalformedResponse)
    else
      var info := description.value;
      var s := Survivors(DescriptionServices(info), types);
      if |s| == 0 || !Truthy(Prop(s[0], "controlURL")) || !Truthy(Prop(s[0], "SCPDURL")) then Err(ServiceNotFound)
      else
        assert s[0] in s;
        var baseUrl := Prop(info, "baseURL");
        var base := if Truthy(baseUrl) then baseUrl.value else Leaf(url);
        Ok(ServiceInfo(Prop(s[0], "serviceType").value.text,
                       resolve(base, Prop(s[0], "SCPDURL").value),
                       resolve(base, Prop(s[0], "controlURL").value)))
  }

  lemma {:induction false} FirstSurvivor(services: seq<Node>, types: seq<string>, i: nat)
    requires i < |services| && Offered(services[i], types)
    requires forall j :: 0 <= j < i ==> !Offered(services[j], types)
    ensures |Survivors(services, types)| > 0 && Survivors(services, types)[0] == services[i]
  {
    if i > 0 {
      FirstSurvivor(services[1..], types, i - 1);
    }
  }

  lemma {:induction false} NoSurvivor(services: seq<Node>, types: seq<string>)
    requires forall j :: 0 <= j < |services| ==> !Offered(services[j], types)
    ensures Survivors(services, types) == []
  {
    if services != [] {
      NoSurvivor(services[1..], types);
    }
  }

  /** The first service in traversal order whose type is offered decides
      alone: it is chosen when it has both URLs, and otherwise the call fails
      without trying a later one. */
  lemma GetServiceChoosesFirstOffered(url: string, info: Node, types: seq<string>,
                                      resolve: (Node, Node) -> string, i: nat)
    requires i < |DescriptionServices(info)|
    requires Offered(DescriptionServices(info)[i], types)
    requires forall j :: 0 <= j < i ==> !Offered(DescriptionServices(info)[j], types)
    ensures GetService(url, Some(info), types, resolve).Ok? <==>
            Truthy(Prop(DescriptionServices(info)[i], "controlURL")) &&
            Truthy(Prop(DescriptionServices(info)[i], "SCPDURL"))
    ensures GetService(url, Some(info), types, resolve).Err? ==>
            GetService(url, Some(info), types, resolve) == Err(ServiceNotFound)
    ensures GetService(url, Some(info), types, resolve).Ok? ==>
            Some(Leaf(GetService(url, Some(info), types, resolve).value.service)) ==
            Prop(DescriptionServices(info)[i], "serviceType")
  {
    FirstSurvivor(DescriptionServices(info), types, i);
  }

  /** With no offered service the call fails with "Service not found". */
  lemma GetServiceNoneOffered(url: string, info: Node, types: seq<string>, resolve: (Node, Node) -> string)
    requires forall j :: 0 <= j < |DescriptionServices(info)| ==> !Offered(DescriptionServices(info)[j], types)
    ensures GetService(url, Some(info), types, resolve) == Err(ServiceNotFound)
  {
    NoSurvivor(DescriptionServices(info), types);
  }

  /** Only the set of acceptable types matters, not the order they are listed in. */
  lemma {:induction false} SurvivorsIgnoreWhitelistOrder(services: seq<Node>, t1: seq<string>, t2: seq<string>)
    requires forall t :: t in t1 <==> t in t2
    ensures Survivors(services, t1) == Survivors(services, t2)
  {
    if services != [] {
      SurvivorsIgnoreWhitelistOrder(services[1..], t1, t2);
    }
  }

  lemma GetServiceIgnoresWhitelistOrder(url: string, description: Option<Node>, t1: seq<string>, t2: seq<string>,
                                        resolve: (Node, Node) -> string)
    requires forall t :: t in t1 <==> t in t2
    ensures GetService(url, description, t1, resolve) == GetService(url, description, t2, resolve)
  {
    if description.Some? {
      SurvivorsIgnoreWhitelistOrder(DescriptionServices(description.value), t1, t2);
    }
  }

  // ---------------------------------------------------------------------
  // One action call

  /** `run`: choose the service from the description, post the envelope to
      its control URL through `post`, and interpret the reply. */
  function Run(device: Device, description: Option<Node>, action: string, args: seq<Arg>,
               resolve: (Node, Node) -> string, post: Request -> Reply): (r: Result<Option<Node>, Error>)
    ensures GetService(device.url, description, GatewayServices, resolve).Err? ==>
      r == Err(GetService(device.url, description, GatewayServices, resolve).error)
    ensures GetService(device.url, description, GatewayServices, resolve).Ok? ==>
      var info := GetService(device.url, description, GatewayServices, resolve).value;
      r == HandleResponse(post(Request(info.controlUrl, ContentType, SoapAction(info.service, action),
                                       Envelope(info.service, action, args))))
  {
    match GetService(device.url, description, GatewayServices, resolve)
    case Err(e) => Err(e)
    case Ok(info) => HandleResponse(post(ActionRequest(info, action, args)))
  }
}
