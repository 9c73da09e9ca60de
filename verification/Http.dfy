/** Writing a template out as an HTTP response. */
module Http {
  import opened Search
  import opened Tree
  import opened Render
  import opened Buffers
  import opened Templates
  import opened Output
  import opened Decimal

  const HTTP_START := "HTTP/1.1 200 OK\r\n" + "Content-Type: text/html\r\n" + "Content-Length: "
  const HTTP_END := "\r\n\r\n"

  /** The content length is assumed to have at most this many digits. */
  const LENGTH_DIGITS := 10

  function Response(start: string, end: string, content: string): string {
    start + Digits(|content|) + end + content
  }

  /** The size of the buffer: both headers with their final NULs, the digits, the content and a NUL. */
  function Allocated(start: string, end: string, content: string): nat {
    |content| + (|start| + 1 + |end| + 1 + LENGTH_DIGITS) + 1
  }

  // --- reading a response

  function DigitsEnd(s: string, from: nat): (to: nat)
    requires from <= |s|
    ensures from <= to <= |s| && AllDigits(s[from..to])
    decreases |s| - from
  {
    if from < |s| && IsDigit(s[from]) then
      var to := DigitsEnd(s, from + 1);
      assert s[from..to] == [s[from]] + s[from + 1..to];
      to
    else from
  }

  /** The announced length and the body of a message, if its headers are these. */
  function ReadResponse(start: string, end: string, message: string): Option<(nat, string)> {
    if !StartsWith(message, start) then None
    else
      var to := DigitsEnd(message, |start|);
      if to == |start| || !StartsWith(message[to..], end) then None
      else Some((Value(message[|start|..to]), message[to + |end|..]))
  }

  lemma {:induction false} DigitsEndAt(s: string, from: nat, to: nat)
    requires from <= to <= |s| && AllDigits(s[from..to]) && (to < |s| ==> !IsDigit(s[to]))
    ensures DigitsEnd(s, from) == to
    decreases |s| - from
  {
    if from < to {
      assert s[from..to][0] == s[from] && s[from + 1..to] == s[from..to][1..];
      DigitsEndAt(s, from + 1, to);
    }
  }

  /** The announced length is the length of the body, and the body is the content. */
  lemma {:induction false} ResponseReads(start: string, end: string, content: string)
    requires end != "" && !IsDigit(end[0])
    ensures ReadResponse(start, end, Response(start, end, content)) == Some((|content|, content))
  {
    var digits := Digits(|content|);
    var message, to := Response(start, end, content), |start| + |digits|;
    DigitsRead(|content|);
    hide Digits, Value;
    Split(start, digits, end, content);
    DigitsEndAt(message, |start|, to);
  }

  lemma Split(a: string, b: string, c: string, d: string)
    ensures var s := a + b + c + d; var x, y, z := |a|, |a| + |b|, |a| + |b| + |c|;
      && |s| == z + |d| && s[..x] == a && s[x..y] == b && s[y..] == c + d && s[y..z] == c && s[z..] == d
      && s[y..][..|c|] == c
  {
    var s := a + b + c + d;
    assert s == a + (b + (c + d)) == (a + b) + (c + d);
    Halved(a, b + (c + d));
    Halved(a + b, c + d);
    Halved(a + b + c, d);
    Halved(c, d);
    assert (a + b)[|a|..] == b && s[|a|..|a| + |b|] == (a + b)[|a|..];
  }

  lemma Halved(a: string, b: string)
    ensures (a + b)[..|a|] == a && (a + b)[|a|..] == b
  {
  }

  // --- reading a message

  const CRLF := "\r\n"

  datatype HeaderField = HeaderField(name: string, value: string)

  datatype Message = Message(status: string, fields: seq<HeaderField>, body: string)

  /** A header line: a name, a colon with a space, and a value. */
  function ReadField(line: string): Option<HeaderField> {
    FirstAtSpec(line, ": ", 0);
    match FirstAt(line, ": ", 0)
    case None => None
    case Some(k) => Some(HeaderField(line[..k], line[k + 2..]))
  }

  /** Header lines up to an empty one, and what follows it. */
  function ReadFields(s: string): Option<(seq<HeaderField>, string)>
    decreases |s|
  {
    FirstAtSpec(s, CRLF, 0);
    match FirstAt(s, CRLF, 0)
    case None => None
    case Some(e) =>
      if e == 0 then Some(([], s[2..]))
      else
        match ReadField(s[..e])
        case None => None
        case Some(f) =>
          match ReadFields(s[e + 2..])
          case None => None
          case Some((fields, body)) => Some(([f] + fields, body))
  }

  /** A message by its lines: section 3 of RFC 7230. */
  function ReadMessage(s: string): Option<Message> {
    FirstAtSpec(s, CRLF, 0);
    match FirstAt(s, CRLF, 0)
    case None => None
    case Some(e) =>
      match ReadFields(s[e + 2..])
      case None => None
      case Some((fields, body)) => Some(Message(s[..e], fields, body))
  }

  lemma LineRead(line: string, rest: string)
    requires '\r' !in line
    ensures var s := line + CRLF + rest;
      FirstAt(s, CRLF, 0) == Some(|line|) && s[..|line|] == line && s[|line| + 2..] == rest
  {
    var s := line + CRLF + rest;
    forall i: nat | i < |line| ensures !OccursAt(s, i, CRLF) {
      if i + 2 <= |s| { CharsAt(s, i, CRLF, 0); }
    }
    OccursByIndex(s, |line|, CRLF);
    FirstAtUnique(s, CRLF, 0, |line|);
  }

  lemma FieldRead(name: string, value: string)
    requires ':' !in name
    ensures ReadField(name + ": " + value) == Some(HeaderField(name, value))
  {
    var s := name + ": " + value;
    forall i: nat | i < |name| ensures !OccursAt(s, i, ": ") {
      if i + 2 <= |s| { CharsAt(s, i, ": ", 0); }
    }
    OccursByIndex(s, |name|, ": ");
    FirstAtUnique(s, ": ", 0, |name|);
    assert s[..|name|] == name && s[|name| + 2..] == value;
  }

  lemma FieldLine(name: string, value: string, rest: string)
    requires ':' !in name && '\r' !in name && '\r' !in value && ReadFields(rest).Some?
    ensures ReadFields(name + ": " + value + CRLF + rest)
      == Some(([HeaderField(name, value)] + ReadFields(rest).value.0, ReadFields(rest).value.1))
  {
    var line := name + ": " + value;
    hide FirstAt, ReadField;
    LineRead(line, rest);
    FieldRead(name, value);
  }

  lemma NoMoreFields(body: string)
    ensures ReadFields(CRLF + body) == Some(([], body))
  {
    hide FirstAt;
    LineRead("", body);
    assert "" + CRLF + body == CRLF + body;
  }

  /** A status line, two header lines, an empty line and a body read as what they are. */
  lemma TwoFieldsRead(status: string, a: HeaderField, b: HeaderField, body: string)
    requires '\r' !in status && ':' !in a.name && ':' !in b.name
    requires '\r' !in a.name && '\r' !in a.value && '\r' !in b.name && '\r' !in b.value
    ensures ReadMessage(status + CRLF
                        + (a.name + ": " + a.value + CRLF + (b.name + ": " + b.value + CRLF + (CRLF + body))))
      == Some(Message(status, [a, b], body))
  {
    hide ReadFields, FirstAt;
    assert [a] + ([b] + []) == [a, b];
    NoMoreFields(body);
    FieldLine(b.name, b.value, CRLF + body);
    FieldLine(a.name, a.value, b.name + ": " + b.value + CRLF + (CRLF + body));
    LineRead(status, a.name + ": " + a.value + CRLF + (b.name + ": " + b.value + CRLF + (CRLF + body)));
  }

  lemma Assembled(s: string, x: string, y: string, status: string, a: HeaderField, b: HeaderField, body: string)
    requires s == status + CRLF && x == a.name + ": " + a.value + CRLF && y == b.name + ": "
    requires '\r' !in status && ':' !in a.name && ':' !in b.name
    requires '\r' !in a.name && '\r' !in a.value && '\r' !in b.name && '\r' !in b.value
    ensures ReadMessage(s + x + y + b.value + (CRLF + CRLF) + body) == Some(Message(status, [a, b], body))
  {
    hide ReadMessage;
    TwoFieldsRead(status, a, b, body);
    Grouped(status, a.name + ": " + a.value, y, b.value, body);
    assert s + x + y == status + CRLF + (a.name + ": " + a.value + CRLF + y);
  }

  lemma Grouped(status: string, a: string, b: string, n: string, body: string)
    ensures (status + CRLF + (a + CRLF + b)) + n + (CRLF + CRLF) + body
      == status + CRLF + (a + CRLF + (b + n + CRLF + (CRLF + body)))
  {
  }

  lemma StatusLine()
    ensures "HTTP/1.1 200 OK\r\n" == "HTTP/1.1 200 OK" + CRLF && '\r' !in "HTTP/1.1 200 OK"
  {
  }

  lemma TypeLine()
    ensures "Content-Type: text/html\r\n" == "Content-Type" + ": " + "text/html" + CRLF
    ensures ':' !in "Content-Type" && '\r' !in "Content-Type" && '\r' !in "text/html"
  {
  }

  lemma LengthStart()
    ensures "Content-Length: " == "Content-Length" + ": " && ':' !in "Content-Length" && '\r' !in "Content-Length"
    ensures HTTP_END == CRLF + CRLF
  {
  }

  lemma DigitsOnly(n: string)
    requires AllDigits(n)
    ensures '\r' !in n
  {
  }

  /** The response to a content: success, HTML, the content's length as a canonical number, and the content. */
  lemma {:induction false} HttpMessage(content: string)
    ensures var n := Digits(|content|);
      && ReadMessage(Response(HTTP_START, HTTP_END, content))
         == Some(Message("HTTP/1.1 200 OK",
                         [HeaderField("Content-Type", "text/html"), HeaderField("Content-Length", n)], content))
      && Canonical(n) && Value(n) == |content|
  {
    hide ReadMessage, Digits, Value;
    var n := Digits(|content|);
    DigitsRead(|content|);
    DigitsOnly(n);
    StatusLine();
    TypeLine();
    LengthStart();
    hide Canonical, AllDigits;
    Assembled("HTTP/1.1 200 OK\r\n", "Content-Type: text/html\r\n", "Content-Length: ", "HTTP/1.1 200 OK",
              HeaderField("Content-Type", "text/html"), HeaderField("Content-Length", n), content);
  }

  // --- writing it

  /** What follows a part that is already written. */
  lemma Follows(part: string, after: string, len: nat)
    requires |part| + len <= |after| && after[..|part|] == part
    ensures after[..|part| + len] == part + after[|part|..|part| + len]
  {
  }

  method AppendText(response: array<char>, p: nat, s: string) returns (p': nat)
    requires p + |s| <= response.Length
    modifies response
    ensures p' == p + |s| && response[..p'] == old(response[..p]) + s
  {
    ghost var part := response[..p];
    MemCpy(response, p, s);
    Follows(part, response[..], |s|);
    p' := p + |s|;
  }

  method AppendNumber(response: array<char>, p: nat, n: nat) returns (p': nat)
    requires n <= INT_MAX && p + LENGTH_DIGITS < response.Length
    modifies response
    ensures p' == p + |Digits(n)| <= p + LENGTH_DIGITS && response[..p'] == old(response[..p]) + Digits(n)
  {
    hide Digits;
    ghost var part := response[..p];
    TenDigits(n);
    var lengthDigits := IntToString(response, p, LENGTH_DIGITS, n, false);
    Follows(part, response[..], lengthDigits);
    p' := p + lengthDigits;
  }

  method WriteHeaders(response: array<char>, start: string, end: string, contentLen: nat) returns (p: nat)
    requires contentLen <= INT_MAX && |start| + LENGTH_DIGITS + |end| < response.Length
    modifies response
    ensures p == |start + Digits(contentLen) + end| <= |start| + LENGTH_DIGITS + |end|
    ensures response[..p] == start + Digits(contentLen) + end
  {
    hide Digits;
    p := AppendText(response, 0, start);
    p := AppendNumber(response, p, contentLen);
    p := AppendText(response, p, end);
  }

  /** Formats the response in a buffer of the computed size. */
  method WriteResponse(t: Template, start: string, end: string) returns (response: array<char>, size: nat)
    requires t.Valid() && Placed(t.Abs()) && Tidy(t.repr)
    requires Allocated(start, end, Content(t.Abs())) <= INT_MAX
    ensures fresh(response) && response.Length == Allocated(start, end, Content(t.Abs()))
    ensures size < response.Length && response[..size] == Response(start, end, Content(t.Abs()))
    ensures response[size] == '\0'
  {
    hide Digits, Content, Placed, Tidy, Template.Valid, Template.Abs;
    LinksExist(t.repr);
    var headerLen := |start| + 1 + (|end| + 1) + LENGTH_DIGITS;
    var contentLen := Length(t);
    response := new char[contentLen + headerLen + 1](_ => '\0');
    var p := WriteHeaders(response, start, end, contentLen);
    GetContent(t, response, p);
    size := p + contentLen;
    Follows(start + Digits(contentLen) + end, response[..], contentLen);
  }

  method HttpWrite(t: Template) returns (response: array<char>, size: nat)
    requires t.Valid() && Placed(t.Abs()) && Tidy(t.repr)
    requires Allocated(HTTP_START, HTTP_END, Content(t.Abs())) <= INT_MAX
    ensures size < response.Length
    ensures response[..size] == Response(HTTP_START, HTTP_END, Content(t.Abs()))
    ensures ReadResponse(HTTP_START, HTTP_END, response[..size]) == Some((|Content(t.Abs())|, Content(t.Abs())))
    ensures ReadMessage(response[..size])
      == Some(Message("HTTP/1.1 200 OK", [HeaderField("Content-Type", "text/html"),
                                          HeaderField("Content-Length", Digits(|Content(t.Abs())|))], Content(t.Abs())))
  {
    hide Response, ReadResponse, ReadMessage, Allocated, Content, Digits;
    response, size := WriteResponse(t, HTTP_START, HTTP_END);
    ResponseReads(HTTP_START, HTTP_END, Content(t.Abs()));
    HttpMessage(Content(t.Abs()));
  }
}
