/** The SHCP text protocol: `src/protocol/HttpProtocol.cpp`. */
module Protocol {
  import opened Text
  import opened OrderedKeys

  datatype HttpRequest = HttpRequest(
    verb: string,
    path: string,
    version: string,
    headers: map<string, string>,
    body: string)

  datatype HttpResponse = HttpResponse(
    statusCode: int,
    statusMessage: string,
    version: string,
    headers: map<string, string>,
    body: string)

  const CRLF := "\r\n"

  // ---------- path segments ----------

  function NonEmpty(ps: seq<string>): (r: seq<string>)
    ensures forall p :: p in r <==> p in ps && p != ""
  {
    if ps == [] then []
    else if ps[0] == "" then NonEmpty(ps[1..])
    else [ps[0]] + NonEmpty(ps[1..])
  }

  function Segments(path: string): seq<string> {
    NonEmpty(Pieces(path, '/'))
  }

  method GetPathSegments(path: string) returns (segments: seq<string>)
    ensures segments == Segments(path)
  {
    segments := [];
    var unread := path;
    while unread != ""
      invariant Segments(path) == segments + Segments(unread)
      decreases |unread|
    {
      var segment := Line(unread, '/');
      unread := Rest(unread, '/');
      if segment != "" {
        segments := segments + [segment];
      }
    }
  }

  // ---------- parsing ----------

  function StripCR(line: string): string {
    if line != "" && line[|line| - 1] == '\r' then line[..|line| - 1] else line
  }

  /** `find_first_not_of(' ')`; the length of the text when there is nothing but blanks. */
  function FirstNonBlank(s: string): (n: nat)
    ensures n <= |s|
    ensures forall i :: 0 <= i < n ==> s[i] == ' '
    ensures n < |s| ==> s[n] != ' '
  {
    if s == "" || s[0] != ' ' then 0 else 1 + FirstNonBlank(s[1..])
  }

  /** Leading blanks go, unless there is nothing else. */
  function TrimLeft(value: string): string {
    var n := FirstNonBlank(value);
    if n < |value| then value[n..] else value
  }

  /** A header line is split at its first colon; a line without one is skipped. */
  function AddHeader(headers: map<string, string>, line: string): map<string, string> {
    var colon := IndexOf(line, ':');
    if colon < |line| then headers[line[..colon] := TrimLeft(line[colon + 1..])] else headers
  }

  /** Header lines up to an empty one or the end of the text; the rest is the body. */
  function ParseHeaders(unread: string, headers: map<string, string>): (map<string, string>, string)
    decreases |unread|
  {
    if unread == "" then (headers, "")
    else
      var line := StripCR(Line(unread, '\n'));
      if line == "" then (headers, Rest(unread, '\n'))
      else ParseHeaders(Rest(unread, '\n'), AddHeader(headers, line))
  }

  function RequestLine(line: string): (string, string, string) {
    var a1 := AfterToken(line);
    var version := Token(AfterToken(a1));
    (Token(line), Token(a1), if version == "" then "SHCP/1.0" else version)
  }

  function Parse(raw: string): HttpRequest {
    if raw == "" then HttpRequest("", "", "", map[], "")
    else
      var (verb, path, version) := RequestLine(StripCR(Line(raw, '\n')));
      var (headers, body) := ParseHeaders(Rest(raw, '\n'), map[]);
      HttpRequest(verb, path, version, headers, body)
  }

  method ParseRequest(raw: string) returns (req: HttpRequest)
    ensures req == Parse(raw)
  {
    hide Token, AfterToken, Line, Rest;
    var verb, path, version := "", "", "";
    var unread := raw;
    if unread != "" {
      var line := Line(unread, '\n');
      unread := Rest(unread, '\n');
      if line != "" && line[|line| - 1] == '\r' {
        line := line[..|line| - 1];
      }
      verb := Token(line);
      line := AfterToken(line);
      path := Token(line);
      line := AfterToken(line);
      version := Token(line);
      if version == "" {
        version := "SHCP/1.0";
      }
    }
    var headers, body := ReadHeaders(unread);
    return HttpRequest(verb, path, version, headers, body);
  }

  /** The header loop of `parseRequest`. */
  method ReadHeaders(stream: string) returns (headers: map<string, string>, body: string)
    ensures (headers, body) == ParseHeaders(stream, map[])
  {
    hide AddHeader, Line, Rest;
    headers := map[];
    var unread := stream;
    while unread != ""
      invariant ParseHeaders(stream, map[]) == ParseHeaders(unread, headers)
      decreases |unread|
    {
      var line := Line(unread, '\n');
      var rest := Rest(unread, '\n');
      if line != "" && line[|line| - 1] == '\r' {
        line := line[..|line| - 1];
      }
      if line == "" {
        return headers, rest;
      }
      headers := ReadHeader(headers, line);
      unread := rest;
    }
    return headers, "";
  }

  method ReadHeader(headers: map<string, string>, line: string) returns (r: map<string, string>)
    ensures r == AddHeader(headers, line)
  {
    hide IndexOf, FirstNonBlank;
    var colonPos := IndexOf(line, ':');
    if colonPos == |line| {
      return headers;
    }
    var key := line[..colonPos];
    var value := line[colonPos + 1..];
    var start := FirstNonBlank(value);
    if start < |value| {
      value := value[start..];
    }
    return headers[key := value];
  }

  // ---------- printing ----------

  function HeaderLine(key: string, value: string): string {
    key + ": " + value + CRLF
  }

  function FirstLine(verb: string, path: string): string {
    verb + " " + path + " SHCP/1.0" + CRLF
  }

  function LengthLine(body: string): string {
    if body == "" then "" else HeaderLine("Content-Length", Decimal(|body|))
  }

  /** The text of a built request: first line, headers, an empty line, the body. */
  function RequestText(verb: string, path: string, body: string): string {
    FirstLine(verb, path) + (HeaderLine("Host", "SmartHome") + (LengthLine(body) + (CRLF + body)))
  }

  lemma Regroup3(a: string, b: string, c: string)
    ensures a + b + c == a + (b + c)
  {
  }

  lemma Regroup5(a: string, b: string, c: string, d: string, e: string)
    ensures a + b + c + d + e == a + (b + (c + (d + e)))
  {
  }

  method BuildRequest(verb: string, path: string, body: string := "") returns (raw: string)
    ensures raw == RequestText(verb, path, body)
  {
    hide Decimal;
    raw := verb + " " + path + " SHCP/1.0" + CRLF;
    raw := raw + ("Host: SmartHome" + CRLF);
    if body != "" {
      raw := raw + ("Content-Length: " + Decimal(|body|) + CRLF);
    }
    raw := raw + CRLF;
    if body != "" {
      raw := raw + body;
    }
    ghost var host := "Host: SmartHome" + CRLF;
    ghost var length := if body == "" then "" else "Content-Length: " + Decimal(|body|) + CRLF;
    assert raw == FirstLine(verb, path) + host + length + CRLF + body;
    Regroup5(FirstLine(verb, path), host, length, CRLF, body);
    assert host == HeaderLine("Host", "SmartHome");
    assert length == LengthLine(body);
  }

  function HeaderLines(headers: map<string, string>, keys: seq<string>): string
    requires forall k :: k in keys ==> k in headers
  {
    if keys == [] then "" else HeaderLine(keys[0], headers[keys[0]]) + HeaderLines(headers, keys[1..])
  }

  function StatusLine(resp: HttpResponse): string {
    resp.version + " " + IntText(resp.statusCode) + " " + resp.statusMessage + CRLF
  }

  /** The text of a response: status line, headers in key order, the body length, an empty line, the
      body. */
  function ResponseText(resp: HttpResponse): string {
    StatusLine(resp)
    + (HeaderLines(resp.headers, Keys(resp.headers.Keys))
       + (HeaderLine("Content-Length", Decimal(|resp.body|)) + (CRLF + resp.body)))
  }

  method Serialize(resp: HttpResponse) returns (raw: string)
    ensures raw == ResponseText(resp)
  {
    hide Decimal, IntText, Keys, HeaderLine;
    raw := resp.version + " " + IntText(resp.statusCode) + " " + resp.statusMessage + CRLF;
    var keys := Keys(resp.headers.Keys);
    ghost var headerLines := HeaderLines(resp.headers, keys);
    ghost var printed := "";
    while keys != []
      invariant forall k :: k in keys ==> k in resp.headers
      invariant raw == StatusLine(resp) + printed
      invariant printed + HeaderLines(resp.headers, keys) == headerLines
      decreases |keys|
    {
      ghost var line := HeaderLine(keys[0], resp.headers[keys[0]]);
      raw := PrintHeader(raw, keys[0], resp.headers[keys[0]]);
      Regroup3(StatusLine(resp), printed, line);
      Regroup3(printed, line, HeaderLines(resp.headers, keys[1..]));
      printed := printed + line;
      keys := keys[1..];
    }
    raw := PrintHeader(raw, "Content-Length", Decimal(|resp.body|));
    raw := raw + CRLF;
    raw := raw + resp.body;
    Regroup5(StatusLine(resp), printed, HeaderLine("Content-Length", Decimal(|resp.body|)), CRLF, resp.body);
  }

  /** `oss << key << ": " << value << "\r\n"` */
  method PrintHeader(oss: string, key: string, value: string) returns (r: string)
    ensures r == oss + HeaderLine(key, value)
  {
    r := oss + key;
    r := r + ": ";
    r := r + value;
    r := r + CRLF;
    Regroup5(oss, key, ": ", value, CRLF);
    Regroup3(key, ": ", value);
  }

  function StatusMessage(statusCode: int): string {
    match statusCode
    case 200 => "OK"
    case 404 => "Not Found"
    case 400 => "Bad Request"
    case 500 => "Internal Server Error"
    case _ => "Unknown"
  }

  function BuildResponse(statusCode: int, body: string): HttpResponse {
    HttpResponse(statusCode, StatusMessage(statusCode), "SHCP/1.0",
                 map["Server" := "SmartHomeServer/1.0", "Content-Type" := "text/plain"], body)
  }
}
