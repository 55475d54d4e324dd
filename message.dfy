/** The SSDP messages of a search (UPnP Device Architecture 1.1, section
    1.3.2 for the M-SEARCH request and section 1.3.3 for the response): the
    request datagram the client sends, and the line parser that turns a
    response into its method and its header map. */
module SsdpMessage {
  import opened Results
  import opened Text
  import Js

  /** The one header key a JavaScript object does not store as an own
      property: assigning a string to `__proto__` is ignored. */
  const ProtoKey: string := "__proto__"

  // ---------------------------------------------------------------------
  // The request

  /** The M-SEARCH datagram for search target `device`. */
  function Query(multicast: string, port: int, device: string): string {
    "M-SEARCH * HTTP/1.1" + Crlf
    + ("HOST: " + multicast + ":" + Js.NumberString(port)) + Crlf
    + "MAN: \"ssdp:discover\"" + Crlf
    + "MX: 1" + Crlf
    + ("ST: " + device) + Crlf
    + Crlf
  }

  /** The query's lines: the request line, four header lines and two empty
      pieces after the final CRLF pair. */
  function QueryLines(multicast: string, port: int, device: string): seq<string> {
    ["M-SEARCH * HTTP/1.1",
     "HOST: " + multicast + ":" + Js.NumberString(port),
     "MAN: \"ssdp:discover\"",
     "MX: 1",
     "ST: " + device,
     "",
     ""]
  }

  lemma QueryIsJoinedLines(multicast: string, port: int, device: string)
    ensures Query(multicast, port, device) == Join(QueryLines(multicast, port, device), Crlf)
  {
    var ls := QueryLines(multicast, port, device);
    JoinSevenLines(ls[0], ls[1], ls[2], ls[3], ls[4], Crlf);
    assert ls == [ls[0], ls[1], ls[2], ls[3], ls[4], "", ""];
  }

  /** Five lines and two empty pieces, joined by `sep`. */
  lemma JoinSevenLines(a: string, b: string, c: string, d: string, e: string, sep: string)
    ensures Join([a, b, c, d, e, "", ""], sep) == a + sep + b + sep + c + sep + d + sep + e + sep + sep
  {
    JoinSnoc([a], b, sep);
    assert [a] + [b] == [a, b];
    JoinSnoc([a, b], c, sep);
    assert [a, b] + [c] == [a, b, c];
    JoinSnoc([a, b, c], d, sep);
    assert [a, b, c] + [d] == [a, b, c, d];
    JoinSnoc([a, b, c, d], e, sep);
    assert [a, b, c, d] + [e] == [a, b, c, d, e];
    var five := a + sep + b + sep + c + sep + d + sep + e;
    JoinSnoc([a, b, c, d, e], "", sep);
    assert [a, b, c, d, e] + [""] == [a, b, c, d, e, ""];
    assert five + sep + "" == five + sep;
    JoinSnoc([a, b, c, d, e, ""], "", sep);
    assert [a, b, c, d, e, ""] + [""] == [a, b, c, d, e, "", ""];
    assert five + sep + sep + "" == five + sep + sep;
  }

  /** Joining one more piece appends the separator and the piece. */
  lemma {:induction false} JoinSnoc(ls: seq<string>, x: string, sep: string)
    requires |ls| >= 1
    ensures Join(ls + [x], sep) == Join(ls, sep) + sep + x
  {
    if |ls| == 1 {
      assert ls + [x] == [ls[0], x];
      assert [ls[0], x][1..] == [x];
    } else {
      assert (ls + [x])[1..] == ls[1..] + [x];
      JoinSnoc(ls[1..], x, sep);
      var j := Join(ls[1..], sep);
      assert ls[0] + sep + (j + sep + x) == ls[0] + sep + j + sep + x;
    }
  }

  /** The query splits back into its lines when neither the multicast
      address nor the search target holds a line break. */
  lemma QuerySplit(multicast: string, port: int, device: string)
    requires forall k :: 0 <= k < |multicast| ==> !IsLineTerminator(multicast[k])
    requires forall k :: 0 <= k < |device| ==> !IsLineTerminator(device[k])
    ensures Split(Query(multicast, port, device), Crlf) == QueryLines(multicast, port, device)
  {
    QueryIsJoinedLines(multicast, port, device);
    NoCrlfInLines(multicast, port, device);
    SplitJoinCrlf(QueryLines(multicast, port, device));
  }

  // ---------------------------------------------------------------------
  // Parsing a response

  /** Whether `s` holds a character that `.` does not match. */
  predicate HasLineTerminator(s: string) {
    s != [] && (IsLineTerminator(s[0]) || HasLineTerminator(s[1..]))
  }

  lemma {:induction false} LineTerminatorAt(s: string)
    ensures !HasLineTerminator(s) <==> forall k :: 0 <= k < |s| ==> !IsLineTerminator(s[k])
  {
    if s != [] {
      LineTerminatorAt(s[1..]);
      assert forall k :: 0 < k < |s| ==> s[k] == s[1..][k - 1];
    }
  }

  /** The position of the first colon of `line` from `from` on. */
  function FirstColon(line: string, from: nat): (r: Option<nat>)
    decreases |line| - from
    ensures r.Some? ==> from <= r.value < |line|
  {
    if from >= |line| then None
    else if line[from] == ':' then Some(from)
    else FirstColon(line, from + 1)
  }

  lemma {:induction false} FirstColonFound(line: string, from: nat)
    ensures FirstColon(line, from).Some? ==>
      var c := FirstColon(line, from).value;
      from <= c < |line| && line[c] == ':' && forall k :: from <= k < c ==> line[k] != ':'
    ensures FirstColon(line, from).None? ==> forall k :: from <= k < |line| ==> line[k] != ':'
    decreases |line| - from
  {
    if from < |line| && line[from] != ':' {
      FirstColonFound(line, from + 1);
    }
  }

  lemma {:induction false} FirstColonAt(line: string, from: nat, c: nat)
    requires from <= c < |line| && line[c] == ':'
    requires forall k :: from <= k < c ==> line[k] != ':'
    ensures FirstColon(line, from) == Some(c)
    decreases c - from
  {
    if from < c {
      FirstColonAt(line, from + 1, c);
    }
  }

  /** A line's `name: value` pair as the pattern `^([^:]+):\s*(.*)$` reads it:
      the name is the non-empty text before the first colon, the value is the
      rest after leading whitespace, and the line does not match when that
      value still holds a line terminator (which `.` does not match). */
  function HeaderLine(line: string): Option<(string, string)> {
    match FirstColon(line, 0)
    case None => None
    case Some(c) =>
      var value := TrimStart(line[c + 1..]);
      if c == 0 || HasLineTerminator(value) then None
      else Some((line[..c], value))
  }

  /** Where a matched line splits: its first colon `c`, after a non-empty
      name. */
  lemma HeaderLineParts(line: string) returns (c: nat)
    requires HeaderLine(line).Some?
    ensures 0 < c < |line| && line[c] == ':' && forall k :: 0 <= k < c ==> line[k] != ':'
    ensures HeaderLine(line).value == (line[..c], TrimStart(line[c + 1..]))
    ensures !HasLineTerminator(TrimStart(line[c + 1..]))
  {
    FirstColonFound(line, 0);
    c := FirstColon(line, 0).value;
  }

  /** The name of a matched pair is the non-empty, colon-free text before
      the line's first colon. */
  lemma HeaderLineName(line: string)
    requires HeaderLine(line).Some?
    ensures var name := HeaderLine(line).value.0;
      && 0 < |name| < |line| && line[..|name|] == name && line[|name|] == ':'
      && forall k :: 0 <= k < |name| ==> name[k] != ':'
  {
    var c := HeaderLineParts(line);
    var name := line[..c];
    forall k | 0 <= k < c ensures name[k] != ':' {
      assert name[k] == line[k];
    }
  }

  /** The value of a matched pair is the rest of the line after the colon
      and the whitespace that follows it. */
  lemma HeaderLineValue(line: string)
    requires HeaderLine(line).Some?
    ensures var name := HeaderLine(line).value.0; var value := HeaderLine(line).value.1;
      && |name| + 1 + |value| <= |line| && line[|line| - |value|..] == value
      && forall k :: |name| < k < |line| - |value| ==> IsWhitespace(line[k])
  {
    var c := HeaderLineParts(line);
    TrimmedTail(line, c);
  }

  lemma TrimmedTail(line: string, c: nat)
    requires c < |line|
    ensures var value := TrimStart(line[c + 1..]);
      && c + 1 + |value| <= |line| && line[|line| - |value|..] == value
      && forall k :: c < k < |line| - |value| ==> IsWhitespace(line[k])
  {
    var rest := line[c + 1..];
    var value := TrimStart(rest);
    TrimStartSuffix(rest);
    TrimStartDropsWhitespace(rest);
    forall k | c < k < |line| - |value| ensures IsWhitespace(line[k]) {
      assert line[k] == rest[k - c - 1];
    }
  }

  /** The value of a matched pair neither starts with whitespace nor holds a
      line break. */
  lemma HeaderLineValueClean(line: string)
    requires HeaderLine(line).Some?
    ensures var value := HeaderLine(line).value.1;
      && (value == [] || !IsWhitespace(value[0]))
      && forall k :: 0 <= k < |value| ==> !IsLineTerminator(value[k])
  {
    var c := HeaderLineParts(line);
    TrimStartSuffix(line[c + 1..]);
    LineTerminatorAt(TrimStart(line[c + 1..]));
  }

  /** A line written as `name: value` reads back as that pair. */
  lemma HeaderLineOf(name: string, value: string)
    requires 0 < |name| && forall k :: 0 <= k < |name| ==> name[k] != ':'
    requires value == [] || !IsWhitespace(value[0])
    requires forall k :: 0 <= k < |value| ==> !IsLineTerminator(value[k])
    ensures HeaderLine(name + ": " + value) == Some((name, value))
  {
    var line := name + ": " + value;
    assert line == name + ":" + (" " + value);
    ColonAfterName(name, " " + value);
    SpaceThenValue(value);
    HeaderLineFromParts(name, value, line);
  }

  lemma HeaderLineFromParts(name: string, value: string, line: string)
    requires 0 < |name| && line == name + ":" + (" " + value)
    requires FirstColon(line, 0) == Some(|name|)
    requires TrimStart(" " + value) == value && !HasLineTerminator(value)
    ensures HeaderLine(line) == Some((name, value))
  {
    assert line[|name| + 1..] == " " + value;
    assert line[..|name|] == name;
  }

  lemma ColonAfterName(name: string, more: string)
    requires forall k :: 0 <= k < |name| ==> name[k] != ':'
    ensures FirstColon(name + ":" + more, 0) == Some(|name|)
  {
    var line := name + ":" + more;
    forall k | 0 <= k < |name| ensures line[k] != ':' {
      assert line[k] == name[k];
    }
    FirstColonAt(line, 0, |name|);
  }

  lemma SpaceThenValue(value: string)
    requires value == [] || !IsWhitespace(value[0])
    requires forall k :: 0 <= k < |value| ==> !IsLineTerminator(value[k])
    ensures TrimStart(" " + value) == value && !HasLineTerminator(value)
  {
    assert (" " + value)[1..] == value;
    LineTerminatorAt(value);
  }

  /** A line without a colon, such as the status line, gives no header. */
  lemma HeaderLineWithoutColon(line: string)
    requires forall k :: 0 <= k < |line| ==> line[k] != ':'
    ensures HeaderLine(line) == None
  {
    FirstColonFound(line, 0);
  }

  /** The entry a non-empty line adds: the lower-cased name and the value. */
  predicate SetsKey(line: string, key: string) {
    && |line| > 0
    && HeaderLine(line).Some?
    && Lower(HeaderLine(line).value.0) == key
    && key != ProtoKey
  }

  /** One iteration of the header loop. */
  function ApplyLine(headers: map<string, string>, line: string): map<string, string> {
    if |line| == 0 then headers
    else match HeaderLine(line)
      case None => headers
      case Some((name, value)) =>
        if Lower(name) == ProtoKey then headers else headers[Lower(name) := value]
  }

  /** The header map after the given lines, taken in order. */
  function HeadersOf(lines: seq<string>): map<string, string> {
    if lines == [] then map[] else ApplyLine(HeadersOf(lines[..|lines| - 1]), lines[|lines| - 1])
  }

  /** `_getHeaders(msg)`. */
  function Headers(msg: string): map<string, string> {
    HeadersOf(Split(msg, Crlf))
  }

  /** `_getHeaders`: one assignment per matching line, in order. */
  method GetHeaders(msg: string) returns (headers: map<string, string>)
    ensures headers == Headers(msg)
  {
    var lines := Split(msg, Crlf);
    headers := map[];
    var i := 0;
    while i < |lines|
      invariant 0 <= i <= |lines|
      invariant headers == HeadersOf(lines[..i])
    {
      assert lines[..i + 1][..i] == lines[..i];
      var line := lines[i];
      if |line| > 0 {
        var pairs := HeaderLine(line);
        if pairs.Some? {
          var key := Lower(pairs.value.0);
          if key != ProtoKey {
            headers := headers[key := pairs.value.1];
          }
        }
      }
      i := i + 1;
    }
    assert lines[..|lines|] == lines;
  }

  /** A key holds the value of the last line that sets it. */
  lemma {:induction false} HeaderLastWins(lines: seq<string>, i: nat, key: string)
    requires i < |lines| && SetsKey(lines[i], key)
    requires forall j :: i < j < |lines| ==> !SetsKey(lines[j], key)
    ensures key in HeadersOf(lines) && HeadersOf(lines)[key] == HeaderLine(lines[i]).value.1
  {
    var last := |lines| - 1;
    var init := lines[..last];
    assert HeadersOf(lines) == ApplyLine(HeadersOf(init), lines[last]);
    if i < last {
      assert init[i] == lines[i];
      assert forall j :: i < j < |init| ==> init[j] == lines[j];
      HeaderLastWins(init, i, key);
      ApplyOtherLine(HeadersOf(init), lines[last], key);
    } else {
      ApplySettingLine(HeadersOf(init), lines[last], key);
    }
  }

  /** A line that sets `key` gives it the line's value. */
  lemma ApplySettingLine(headers: map<string, string>, line: string, key: string)
    requires SetsKey(line, key)
    ensures key in ApplyLine(headers, line) && ApplyLine(headers, line)[key] == HeaderLine(line).value.1
  {
  }

  /** A line that does not set `key` leaves its entry alone. */
  lemma ApplyOtherLine(headers: map<string, string>, line: string, key: string)
    requires key in headers && key != ProtoKey && !SetsKey(line, key)
    ensures key in ApplyLine(headers, line) && ApplyLine(headers, line)[key] == headers[key]
  {
  }

  /** A key no line sets is absent: nothing but matching lines adds entries. */
  lemma {:induction false} HeaderNeedsLine(lines: seq<string>, key: string)
    requires forall j :: 0 <= j < |lines| ==> !SetsKey(lines[j], key)
    ensures key !in HeadersOf(lines)
  {
    if lines != [] {
      HeaderNeedsLine(lines[..|lines| - 1], key);
    }
  }

  lemma HeadersOfSnoc(lines: seq<string>, line: string)
    ensures HeadersOf(lines + [line]) == ApplyLine(HeadersOf(lines), line)
  {
    assert (lines + [line])[..|lines|] == lines;
  }

  lemma LowerAscii()
    ensures Lower("HOST") == "host" && Lower("MAN") == "man" && Lower("MX") == "mx" && Lower("ST") == "st"
  {
    assert Lower("HOST")[0] == 'h';
    assert Lower("MAN")[0] == 'm';
    assert Lower("MX")[0] == 'm';
    assert Lower("ST")[0] == 's';
  }

  /** A line `name: value` adds the lower-cased name with the value. */
  lemma ApplyHeaderLine(headers: map<string, string>, name: string, value: string)
    requires 0 < |name| && forall k :: 0 <= k < |name| ==> name[k] != ':'
    requires value == [] || !IsWhitespace(value[0])
    requires forall k :: 0 <= k < |value| ==> !IsLineTerminator(value[k])
    requires Lower(name) != ProtoKey
    ensures ApplyLine(headers, name + ": " + value) == headers[Lower(name) := value]
  {
    HeaderLineOf(name, value);
  }

  /** A device answering the client's own query would find exactly the four
      header fields it sent, under lower-case names. */
  lemma QueryHeaders(multicast: string, port: int, device: string)
    requires forall k :: 0 <= k < |multicast| ==> !IsLineTerminator(multicast[k])
    requires multicast == [] || !IsWhitespace(multicast[0])
    requires forall k :: 0 <= k < |device| ==> !IsLineTerminator(device[k])
    requires device == [] || !IsWhitespace(device[0])
    ensures Headers(Query(multicast, port, device)) ==
      map["host" := multicast + ":" + Js.NumberString(port),
          "man" := "\"ssdp:discover\"",
          "mx" := "1",
          "st" := device]
  {
    QuerySplit(multicast, port, device);
    QueryLinesHeaders(multicast, port, device);
  }

  lemma QueryLinesHeaders(multicast: string, port: int, device: string)
    requires forall k :: 0 <= k < |multicast| ==> !IsLineTerminator(multicast[k])
    requires multicast == [] || !IsWhitespace(multicast[0])
    requires forall k :: 0 <= k < |device| ==> !IsLineTerminator(device[k])
    requires device == [] || !IsWhitespace(device[0])
    ensures HeadersOf(QueryLines(multicast, port, device)) ==
      map["host" := multicast + ":" + Js.NumberString(port),
          "man" := "\"ssdp:discover\"",
          "mx" := "1",
          "st" := device]
  {
    var host := multicast + ":" + Js.NumberString(port);
    HostValue(multicast, Js.NumberString(port));
    QueryLineParts(multicast, Js.NumberString(port), device);
    QueryHeaderNames();
    QueryHeaderValues();
    RequestLineIsNoHeader();
    HeadersOfLines("M-SEARCH * HTTP/1.1", "HOST", host, "MAN", "\"ssdp:discover\"", "MX", "1", "ST", device);
  }

  /** The HOST value reads back unchanged. */
  lemma HostValue(multicast: string, portText: string)
    requires forall k :: 0 <= k < |multicast| ==> !IsLineTerminator(multicast[k])
    requires multicast == [] || !IsWhitespace(multicast[0])
    requires forall k :: 0 <= k < |portText| ==> IsDigit(portText[k]) || portText[k] == '-'
    ensures HeaderValue(multicast + ":" + portText)
  {
    var host := multicast + ":" + portText;
    forall k | 0 <= k < |host| ensures !IsLineTerminator(host[k]) {
      if k > |multicast| {
        assert host[k] == portText[k - |multicast| - 1];
      }
    }
    assert host[0] == (if multicast == [] then ':' else multicast[0]);
  }

  lemma QueryLineParts(multicast: string, portText: string, device: string)
    ensures ["M-SEARCH * HTTP/1.1", "HOST: " + multicast + ":" + portText, "MAN: \"ssdp:discover\"", "MX: 1", "ST: " + device, "", ""]
      == ["M-SEARCH * HTTP/1.1", "HOST" + ": " + (multicast + ":" + portText), "MAN" + ": " + "\"ssdp:discover\"",
          "MX" + ": " + "1", "ST" + ": " + device, "", ""]
  {
    assert "HOST: " + multicast + ":" + portText == "HOST" + ": " + (multicast + ":" + portText);
    assert "ST: " + device == "ST" + ": " + device;
    assert "MAN: \"ssdp:discover\"" == "MAN" + ": " + "\"ssdp:discover\"";
    assert "MX: 1" == "MX" + ": " + "1";
  }

  /** The query's header names, and their lower-case forms. */
  lemma QueryHeaderNames()
    ensures HeaderName("HOST") && HeaderName("MAN") && HeaderName("MX") && HeaderName("ST")
    ensures Lower("HOST") == "host" && Lower("MAN") == "man" && Lower("MX") == "mx" && Lower("ST") == "st"
  {
    LowerAscii();
    ColonFree("HOST");
    ColonFree("MAN");
    ColonFree("MX");
    ColonFree("ST");
  }

  lemma QueryHeaderValues()
    ensures HeaderValue("\"ssdp:discover\"") && HeaderValue("1")
  {
  }

  lemma ColonFree(name: string)
    requires 0 < |name| && forall k :: 0 <= k < |name| ==> 'A' <= name[k] <= 'Z'
    ensures forall k :: 0 <= k < |name| ==> name[k] != ':'
  {
  }

  lemma RequestLineIsNoHeader()
    ensures HeaderLine("M-SEARCH * HTTP/1.1") == None
  {
    HeaderLineWithoutColon("M-SEARCH * HTTP/1.1");
  }

  /** A name that a header line may carry. */
  predicate HeaderName(name: string) {
    0 < |name| && (forall k :: 0 <= k < |name| ==> name[k] != ':') && Lower(name) != ProtoKey
  }

  /** A value that reads back unchanged. */
  predicate HeaderValue(value: string) {
    (value == [] || !IsWhitespace(value[0])) && forall k :: 0 <= k < |value| ==> !IsLineTerminator(value[k])
  }

  /** Appending a header line adds its entry. */
  lemma HeadersOfHeaderLine(lines: seq<string>, name: string, value: string)
    requires HeaderName(name) && HeaderValue(value)
    ensures HeadersOf(lines + [name + ": " + value]) == HeadersOf(lines)[Lower(name) := value]
  {
    HeadersOfSnoc(lines, name + ": " + value);
    HeaderLineOf(name, value);
  }

  /** A request line that is no header, four header lines and two empty
      pieces give exactly the four entries, the later of two equal names
      winning. */
  lemma HeadersOfLines(l0: string, n1: string, v1: string, n2: string, v2: string,
                       n3: string, v3: string, n4: string, v4: string)
    requires HeaderLine(l0) == None
    requires HeaderName(n1) && HeaderName(n2) && HeaderName(n3) && HeaderName(n4)
    requires HeaderValue(v1) && HeaderValue(v2) && HeaderValue(v3) && HeaderValue(v4)
    ensures HeadersOf([l0, n1 + ": " + v1, n2 + ": " + v2, n3 + ": " + v3, n4 + ": " + v4, "", ""]) ==
      map[Lower(n1) := v1, Lower(n2) := v2, Lower(n3) := v3, Lower(n4) := v4]
  {
    var l1, l2, l3, l4 := n1 + ": " + v1, n2 + ": " + v2, n3 + ": " + v3, n4 + ": " + v4;
    assert HeadersOf([l0]) == map[] by { HeadersOfSnoc([], l0); }
    HeadersOfHeaderLine([l0], n1, v1);
    assert [l0] + [l1] == [l0, l1];
    HeadersOfHeaderLine([l0, l1], n2, v2);
    assert [l0, l1] + [l2] == [l0, l1, l2];
    HeadersOfHeaderLine([l0, l1, l2], n3, v3);
    assert [l0, l1, l2] + [l3] == [l0, l1, l2, l3];
    HeadersOfHeaderLine([l0, l1, l2, l3], n4, v4);
    assert [l0, l1, l2, l3] + [l4] == [l0, l1, l2, l3, l4];
    HeadersOfSnoc([l0, l1, l2, l3, l4], "");
    assert [l0, l1, l2, l3, l4] + [""] == [l0, l1, l2, l3, l4, ""];
    HeadersOfSnoc([l0, l1, l2, l3, l4, ""], "");
    assert [l0, l1, l2, l3, l4, ""] + [""] == [l0, l1, l2, l3, l4, "", ""];
  }

  lemma NoCrlfInLines(multicast: string, port: int, device: string)
    requires forall k :: 0 <= k < |multicast| ==> !IsLineTerminator(multicast[k])
    requires forall k :: 0 <= k < |device| ==> !IsLineTerminator(device[k])
    ensures forall k :: 0 <= k < |QueryLines(multicast, port, device)| ==>
      IndexFrom(QueryLines(multicast, port, device)[k], Crlf, 0).None?
  {
    var ls := QueryLines(multicast, port, device);
    var portText := Js.NumberString(port);
    assert ls[1] == "HOST: " + multicast + ":" + portText;
    assert ls[4] == "ST: " + device;
    FixedLinesHaveNoCr();
    NoCrJoined("HOST: " + multicast, ":" + portText);
    NoCrJoined("HOST: ", multicast);
    NoCrJoined(":", portText);
    NoCrJoined("ST: ", device);
    forall k | 0 <= k < |ls| ensures IndexFrom(ls[k], Crlf, 0).None? {
      NoTerminatorNoCrlf(ls[k]);
    }
  }

  predicate NoCr(s: string) {
    forall k :: 0 <= k < |s| ==> s[k] != '\r'
  }

  lemma NoCrJoined(a: string, b: string)
    requires NoCr(a) && NoCr(b)
    ensures NoCr(a + b)
  {
    forall k | 0 <= k < |a + b| ensures (a + b)[k] != '\r' {
      if k >= |a| {
        assert (a + b)[k] == b[k - |a|];
      }
    }
  }

  lemma FixedLinesHaveNoCr()
    ensures NoCr("M-SEARCH * HTTP/1.1") && NoCr("HOST: ") && NoCr(":") && NoCr("MAN: \"ssdp:discover\"")
    ensures NoCr("MX: 1") && NoCr("ST: ") && NoCr("")
  {
  }

  lemma NoTerminatorNoCrlf(s: string)
    requires NoCr(s)
    ensures IndexFrom(s, Crlf, 0).None?
  {
    forall j: nat | j + 2 <= |s| ensures !OccursAt(s, Crlf, j) {
      assert s[j..j + 2][0] == s[j];
    }
  }

  /** `_getMethod`: the lower-cased first space-separated word of the first line. */
  function GetMethod(msg: string): string {
    Lower(Split(Split(msg, Crlf)[0], " ")[0])
  }

  /** The method is the lower-cased text before the first space or CRLF. */
  lemma GetMethodIsFirstWord(msg: string)
    ensures |GetMethod(msg)| <= |msg| && GetMethod(msg) == Lower(msg[..|GetMethod(msg)|])
    ensures forall k :: 0 <= k < |GetMethod(msg)| ==> msg[k] != ' ' && !OccursAt(msg, Crlf, k)
    ensures |GetMethod(msg)| == |msg| || msg[|GetMethod(msg)|] == ' ' || OccursAt(msg, Crlf, |GetMethod(msg)|)
  {
    var lines := Split(msg, Crlf);
    var first := lines[0];
    var words := Split(first, " ");
    FirstPiece(msg, Crlf, lines);
    FirstPiece(first, " ", words);
    FirstLineHasNoCrlf(msg);
    var w := words[0];
    forall k | 0 <= k < |w| ensures msg[k] != ' ' {
      assert msg[k] == first[k] == w[k];
      assert !OccursAt(w, " ", k);
      assert w[k..k + 1] == [w[k]];
    }
    if |w| < |first| {
      assert first[|w|..|w| + 1] == " ";
      assert msg[|w|] == first[|w|];
    }
    assert msg[..|w|] == w;
  }

  /** The first line holds no CRLF, even one that starts at its last character. */
  lemma FirstLineHasNoCrlf(msg: string)
    ensures forall k :: 0 <= k < |Split(msg, Crlf)[0]| ==> !OccursAt(msg, Crlf, k)
  {
    FirstPiece(msg, Crlf, Split(msg, Crlf));
    NoCrlfInPrefix(msg, Split(msg, Crlf)[0]);
  }

  /** A CRLF-free prefix that ends at the end or at a CRLF has no CRLF
      starting inside it. */
  lemma NoCrlfInPrefix(msg: string, f: string)
    requires |f| <= |msg| && msg[..|f|] == f
    requires |f| == |msg| || OccursAt(msg, Crlf, |f|)
    requires forall k :: 0 <= k < |f| ==> !OccursAt(f, Crlf, k)
    ensures forall k :: 0 <= k < |f| ==> !OccursAt(msg, Crlf, k)
  {
    forall k | 0 <= k < |f| ensures !OccursAt(msg, Crlf, k) {
      if k + 2 <= |f| {
        assert msg[k..k + 2] == f[k..k + 2];
        assert !OccursAt(f, Crlf, k);
      } else if |f| < |msg| {
        assert msg[|f|..|f| + 2][0] == msg[|f|] == '\r';
        assert msg[k..k + 2][1] == '\r';
      }
    }
  }

  /** The first piece of a split is a prefix that ends at the end or at the
      first occurrence of the separator. */
  lemma FirstPiece(s: string, sep: string, parts: seq<string>)
    requires |sep| > 0 && parts == Split(s, sep)
    ensures |parts[0]| <= |s| && s[..|parts[0]|] == parts[0]
    ensures |parts[0]| == |s| || OccursAt(s, sep, |parts[0]|)
    ensures forall k :: 0 <= k < |parts[0]| ==> !OccursAt(parts[0], sep, k)
  {
    if |parts| > 1 {
      assert s == parts[0] + sep + Join(parts[1..], sep);
      assert s[|parts[0]|..|parts[0]| + |sep|] == sep;
    }
    assert IndexFrom(parts[0], sep, 0).None?;
  }

  /** A message whose first word is `w` has method `w`, lower-cased. */
  lemma GetMethodOfWord(w: string, rest: string)
    requires forall k :: 0 <= k < |w| ==> w[k] != ' ' && w[k] != '\r'
    requires rest != [] && rest[0] == ' '
    ensures GetMethod(w + rest) == Lower(w)
  {
    var msg := w + rest;
    var r := GetMethod(msg);
    GetMethodIsFirstWord(msg);
    NoBreakInWord(w, rest);
    assert msg[|w|] == ' ';
    assert |r| == |w|;
    assert msg[..|w|] == w;
  }

  lemma NoBreakInWord(w: string, rest: string)
    requires forall k :: 0 <= k < |w| ==> w[k] != ' ' && w[k] != '\r'
    ensures forall k :: 0 <= k < |w| ==> (w + rest)[k] != ' ' && !OccursAt(w + rest, Crlf, k)
  {
    var msg := w + rest;
    forall k | 0 <= k < |w| ensures msg[k] != ' ' && !OccursAt(msg, Crlf, k) {
      assert msg[k] == w[k];
      if k + 2 <= |msg| {
        assert msg[k..k + 2][0] == msg[k];
      }
    }
  }

  lemma QueryMethod(multicast: string, port: int, device: string)
    ensures GetMethod(Query(multicast, port, device)) == "m-search"
  {
    var q := Query(multicast, port, device);
    QueryPrefix(multicast, port, device);
    RequestLineMethod(q);
  }

  lemma QueryPrefix(multicast: string, port: int, device: string)
    ensures StartsWith(Query(multicast, port, device), "M-SEARCH * HTTP/1.1")
  {
  }

  lemma RequestLineMethod(msg: string)
    requires StartsWith(msg, "M-SEARCH * HTTP/1.1")
    ensures GetMethod(msg) == "m-search"
  {
    var w := "M-SEARCH";
    RequestLineWord();
    assert msg[..|w|] == msg[..19][..|w|];
    assert msg[|w|] == msg[..19][|w|];
    MethodOfPrefix(msg, w);
  }

  lemma RequestLineWord()
    ensures "M-SEARCH * HTTP/1.1"[..8] == "M-SEARCH" && "M-SEARCH * HTTP/1.1"[8] == ' '
    ensures Lower("M-SEARCH") == "m-search"
    ensures forall k :: 0 <= k < 8 ==> "M-SEARCH"[k] != ' ' && "M-SEARCH"[k] != '\r'
  {
  }

  lemma MethodOfPrefix(msg: string, w: string)
    requires forall k :: 0 <= k < |w| ==> w[k] != ' ' && w[k] != '\r'
    requires |w| < |msg| && msg[..|w|] == w && msg[|w|] == ' '
    ensures GetMethod(msg) == Lower(w)
  {
    assert msg == w + msg[|w|..];
    GetMethodOfWord(w, msg[|w|..]);
  }
}
