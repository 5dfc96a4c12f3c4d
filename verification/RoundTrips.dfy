/** The printers and the parser of the protocol undo each other, and the laws of the path splitter. */
module RoundTrips {
  import opened Text
  import opened OrderedKeys
  import opened Protocol

  // ---------- reading printed lines ----------

  predicate NewlineFree(s: string) {
    '\n' !in s
  }

  lemma PrintedLine(line: string, rest: string)
    requires NewlineFree(line)
    ensures StripCR(Line(line + CRLF + rest, '\n')) == line && Rest(line + CRLF + rest, '\n') == rest
    ensures line + CRLF + rest != ""
  {
    var s := line + "\r";
    assert line + CRLF + rest == s + ['\n'] + rest;
    GetLineDelimited(s, '\n', rest);
    assert s[..|s| - 1] == line;
  }

  lemma ReadPrintedHeader(line: string, rest: string, headers: map<string, string>)
    requires NewlineFree(line) && line != ""
    ensures ParseHeaders(line + CRLF + rest, headers) == ParseHeaders(rest, AddHeader(headers, line))
  {
    hide Line, Rest, StripCR, AddHeader;
    PrintedLine(line, rest);
  }

  /** After an empty line everything is body, whatever it contains. */
  lemma ReadEmptyLine(body: string, headers: map<string, string>)
    ensures ParseHeaders(CRLF + body, headers) == (headers, body)
  {
    hide Line, Rest, StripCR, AddHeader;
    PrintedLine("", body);
    assert "" + CRLF + body == CRLF + body;
  }

  function HeaderText(key: string, value: string): string {
    key + ": " + value
  }

  lemma FirstNonBlankUnique(s: string, n: nat)
    requires n <= |s| && (forall i :: 0 <= i < n ==> s[i] == ' ') && (n < |s| ==> s[n] != ' ')
    ensures FirstNonBlank(s) == n
  {
  }

  /** A header value survives printing and parsing exactly when it is non-empty and does not start
      with a blank. */
  lemma ValueSurvives(value: string)
    ensures TrimLeft(" " + value) == value <==> value != "" && value[0] != ' '
  {
    var s := " " + value;
    if value != "" && value[0] != ' ' {
      FirstNonBlankUnique(s, 1);
    }
  }

  /** A printed header line adds its key, cut at the first colon. */
  lemma AddPrintedHeader(headers: map<string, string>, key: string, value: string)
    ensures ':' !in key ==> AddHeader(headers, HeaderText(key, value)) == headers[key := TrimLeft(" " + value)]
    ensures AddHeader(headers, HeaderText(key, value)).Keys == headers.Keys + {Line(HeaderText(key, value), ':')}
  {
    hide TrimLeft;
    var line := HeaderText(key, value);
    assert line[|key|] == ':';
    var colon := IndexOf(line, ':');
    assert forall k :: 0 <= k < colon ==> line[k] == line[..colon][k];
    if ':' !in key {
      assert line[..|key|] == key;
      IndexOfUnique(line, ':', |key|);
      assert line[|key| + 1..] == " " + value;
    }
  }

  lemma ReadHeaderLine(key: string, value: string, rest: string, headers: map<string, string>)
    requires NewlineFree(key) && NewlineFree(value)
    ensures ParseHeaders(HeaderLine(key, value) + rest, headers)
            == ParseHeaders(rest, AddHeader(headers, HeaderText(key, value)))
  {
    hide ParseHeaders, AddHeader;
    ReadPrintedHeader(HeaderText(key, value), rest, headers);
  }

  // ---------- responses ----------

  /** The map the parser builds from the printed lines of `keys`. */
  function Fold(headers: map<string, string>, keys: seq<string>, acc: map<string, string>): map<string, string>
    requires forall k :: k in keys ==> k in headers
  {
    if keys == [] then acc
    else Fold(headers, keys[1..], AddHeader(acc, HeaderText(keys[0], headers[keys[0]])))
  }

  lemma {:induction false} ReadHeaderLines(headers: map<string, string>, keys: seq<string>, rest: string,
                                           acc: map<string, string>)
    requires forall k :: k in keys ==> k in headers && NewlineFree(k) && NewlineFree(headers[k])
    ensures ParseHeaders(HeaderLines(headers, keys) + rest, acc) == ParseHeaders(rest, Fold(headers, keys, acc))
  {
    hide ParseHeaders, AddHeader, HeaderLine;
    if keys == [] {
      assert "" + rest == rest;
    } else {
      var k := keys[0];
      assert k in keys;
      var others := HeaderLines(headers, keys[1..]);
      Regroup3(HeaderLine(k, headers[k]), others, rest);
      ReadHeaderLine(k, headers[k], others + rest, acc);
      ReadHeaderLines(headers, keys[1..], rest, AddHeader(acc, HeaderText(k, headers[k])));
    }
  }

  predicate ColonFree(s: string) {
    ':' !in s
  }

  lemma {:induction false} FoldOfColonFree(headers: map<string, string>, keys: seq<string>, acc: map<string, string>)
    requires forall k :: k in keys ==> k in headers && ColonFree(k)
    ensures forall k :: k in Fold(headers, keys, acc) <==> k in acc || k in keys
    ensures forall k :: k in keys ==> Fold(headers, keys, acc)[k] == TrimLeft(" " + headers[k])
    ensures forall k :: k in acc && k !in keys ==> Fold(headers, keys, acc)[k] == acc[k]
  {
    hide AddHeader, TrimLeft;
    if keys != [] {
      var k := keys[0];
      assert k in keys;
      AddPrintedHeader(acc, k, headers[k]);
      FoldOfColonFree(headers, keys[1..], AddHeader(acc, HeaderText(k, headers[k])));
    }
  }

  /** The parser never produces a key with a colon. */
  lemma {:induction false} FoldKeysColonFree(headers: map<string, string>, keys: seq<string>, acc: map<string, string>)
    requires forall k :: k in keys ==> k in headers
    requires forall k :: k in acc ==> ColonFree(k)
    ensures forall k :: k in Fold(headers, keys, acc) ==> ColonFree(k)
  {
    hide AddHeader;
    if keys != [] {
      AddPrintedHeader(acc, keys[0], headers[keys[0]]);
      FoldKeysColonFree(headers, keys[1..], AddHeader(acc, HeaderText(keys[0], headers[keys[0]])));
    }
  }

  const LENGTH := "Content-Length"

  /** Nothing in the status line or the headers breaks a line. */
  ghost predicate OneLineFields(resp: HttpResponse) {
    && NewlineFree(resp.version) && NewlineFree(resp.statusMessage)
    && forall k :: k in resp.headers ==> NewlineFree(k) && NewlineFree(resp.headers[k])
  }

  ghost predicate CleanHeader(key: string, value: string) {
    ColonFree(key) && value != "" && value[0] != ' '
  }

  lemma DecimalIsPlain(n: nat)
    ensures NewlineFree(Decimal(n)) && Decimal(n)[0] != ' ' && SpaceFree(Decimal(n)) && Decimal(n) != ""
  {
    var d := Decimal(n);
    assert forall i :: 0 <= i < |d| ==> IsDigit(d[i]) && !IsSpace(d[i]) && d[i] != '\n';
  }

  lemma IntTextIsPlain(n: int)
    ensures NewlineFree(IntText(n)) && SpaceFree(IntText(n)) && IntText(n) != ""
  {
    hide Decimal;
    DecimalIsPlain(if n < 0 then -n else n);
  }

  function StatusText(resp: HttpResponse): string {
    resp.version + " " + IntText(resp.statusCode) + " " + resp.statusMessage
  }

  function ParsedHeaders(resp: HttpResponse): map<string, string> {
    Fold(resp.headers, Keys(resp.headers.Keys), map[])[LENGTH := Decimal(|resp.body|)]
  }

  lemma ReadHeaderSection(resp: HttpResponse)
    requires OneLineFields(resp)
    ensures ParseHeaders(HeaderLines(resp.headers, Keys(resp.headers.Keys))
                         + (HeaderLine(LENGTH, Decimal(|resp.body|)) + (CRLF + resp.body)), map[])
            == (ParsedHeaders(resp), resp.body)
  {
    hide ParseHeaders, AddHeader, TrimLeft, Decimal, Keys, Fold, HeaderLines, HeaderLine;
    var keys := Keys(resp.headers.Keys);
    var length := Decimal(|resp.body|);
    ReadHeaderLines(resp.headers, keys, HeaderLine(LENGTH, length) + (CRLF + resp.body), map[]);
    var h := Fold(resp.headers, keys, map[]);
    DecimalIsPlain(|resp.body|);
    ReadHeaderLine(LENGTH, length, CRLF + resp.body, h);
    AddPrintedHeader(h, LENGTH, length);
    ValueSurvives(length);
    ReadEmptyLine(resp.body, AddHeader(h, HeaderText(LENGTH, length)));
  }

  /** Parsing a serialized response whose fields stay on their lines recovers its exact body and a
      header map with the body length. */
  lemma ParseSerialized(resp: HttpResponse)
    requires OneLineFields(resp)
    ensures var (verb, path, version) := RequestLine(StatusText(resp));
            Parse(ResponseText(resp)) == HttpRequest(verb, path, version, ParsedHeaders(resp), resp.body)
  {
    hide ParseHeaders, AddHeader, Decimal, Keys, Fold, HeaderLines, HeaderLine, RequestLine, ParsedHeaders,
         Line, Rest, StripCR, IntText, OneLineFields;
    var tail := HeaderLines(resp.headers, Keys(resp.headers.Keys))
                + (HeaderLine(LENGTH, Decimal(|resp.body|)) + (CRLF + resp.body));
    assert NewlineFree(StatusText(resp)) by {
      StatusTextOneLine(resp);
    }
    PrintedLine(StatusText(resp), tail);
    ReadHeaderSection(resp);
    assert ResponseText(resp) == StatusText(resp) + CRLF + tail;
  }

  lemma StatusTextOneLine(resp: HttpResponse)
    requires OneLineFields(resp)
    ensures NewlineFree(StatusText(resp))
  {
    hide IntText;
    IntTextIsPlain(resp.statusCode);
  }

  lemma MapsAgree(headers: map<string, string>, folded: map<string, string>, key: string, length: string)
    requires forall k :: k in folded <==> k in headers
    requires forall k :: k in headers ==> folded[k] == TrimLeft(" " + headers[k])
    requires forall k :: k in headers && k != key ==> ColonFree(k)
    ensures folded[key := length] == headers[key := length]
            <==> forall k :: k in headers && k != key ==> CleanHeader(k, headers[k])
  {
    hide TrimLeft;
    forall k | k in headers ensures folded[k] == headers[k] <==> headers[k] != "" && headers[k][0] != ' ' {
      ValueSurvives(headers[k]);
    }
    if folded[key := length] == headers[key := length] {
      forall k | k in headers && k != key ensures CleanHeader(k, headers[k]) {
        assert folded[key := length][k] == headers[key := length][k];
      }
    }
  }

  lemma FoldedHeadersAgree(headers: map<string, string>, keys: seq<string>, key: string, length: string)
    requires (forall k :: k in keys <==> k in headers) && ColonFree(key)
    ensures Fold(headers, keys, map[])[key := length] == headers[key := length]
            <==> forall k :: k in headers && k != key ==> CleanHeader(k, headers[k])
  {
    hide Fold, AddHeader, TrimLeft;
    if forall k :: k in headers && k != key ==> ColonFree(k) {
      FoldOfColonFree(headers, keys, map[]);
      MapsAgree(headers, Fold(headers, keys, map[]), key, length);
    } else {
      var k :| k in headers && k != key && !ColonFree(k);
      FoldKeysColonFree(headers, keys, map[]);
      assert k in headers[key := length] && k !in Fold(headers, keys, map[])[key := length];
    }
  }

  /** The header map is recovered, with the body length added, exactly when every header other than
      Content-Length has no colon in its key and a non-empty value that does not start with a blank. */
  lemma ResponseRoundTrip(resp: HttpResponse)
    requires OneLineFields(resp)
    ensures Parse(ResponseText(resp)).body == resp.body
    ensures Parse(ResponseText(resp)).headers == resp.headers["Content-Length" := Decimal(|resp.body|)]
            <==> forall k :: k in resp.headers && k != "Content-Length" ==> CleanHeader(k, resp.headers[k])
  {
    hide Parse, ResponseText, Decimal, RequestLine, Fold, StatusText, CleanHeader;
    ParseSerialized(resp);
    FoldedHeadersAgree(resp.headers, Keys(resp.headers.Keys), LENGTH, Decimal(|resp.body|));
  }

  lemma ServerHeader()
    ensures NewlineFree("Server") && NewlineFree("SmartHomeServer/1.0")
    ensures CleanHeader("Server", "SmartHomeServer/1.0")
  {
  }

  lemma TypeHeader()
    ensures NewlineFree("Content-Type") && NewlineFree("text/plain")
    ensures CleanHeader("Content-Type", "text/plain")
  {
  }

  lemma MessageOneLine(statusCode: int)
    ensures NewlineFree(StatusMessage(statusCode)) && NewlineFree("SHCP/1.0") && SpaceFree("SHCP/1.0")
  {
  }

  lemma ReplyFields(statusCode: int, body: string)
    ensures var resp := BuildResponse(statusCode, body);
            && OneLineFields(resp)
            && forall k :: k in resp.headers ==> CleanHeader(k, resp.headers[k])
  {
    hide NewlineFree, CleanHeader, StatusMessage;
    ServerHeader();
    TypeHeader();
    MessageOneLine(statusCode);
  }

  /** Every reply of the server comes back whole: version, status code, the two fixed headers and the
      length, and the exact body. */
  lemma ReplyRoundTrip(statusCode: int, body: string)
    ensures var req := Parse(ResponseText(BuildResponse(statusCode, body)));
            && req.verb == "SHCP/1.0" && req.path == IntText(statusCode) && req.body == body
            && req.headers == map["Server" := "SmartHomeServer/1.0", "Content-Type" := "text/plain"]
                                 ["Content-Length" := Decimal(|body|)]
  {
    hide Parse, ResponseText, Decimal, ParsedHeaders, Token, IntText, OneLineFields, CleanHeader, RequestLine,
         SpaceFree, StatusMessage, NewlineFree;
    var resp := BuildResponse(statusCode, body);
    MessageOneLine(statusCode);
    ReplyFields(statusCode, body);
    ParseSerialized(resp);
    ResponseRoundTrip(resp);
    IntTextIsPlain(statusCode);
    StatusLineTokens(resp.version, IntText(statusCode), resp.statusMessage);
  }

  lemma StatusLineTokens(version: string, code: string, message: string)
    requires SpaceFree(version) && version != "" && SpaceFree(code) && code != ""
    ensures RequestLine(version + " " + code + " " + message).0 == version
    ensures RequestLine(version + " " + code + " " + message).1 == code
  {
    hide Token, AfterToken;
    var rest := " " + message;
    var line := version + (" " + code + rest);
    assert line == version + " " + code + " " + message;
    TokenAt(version, " " + code + rest);
    TokenAt(code, rest);
  }

  // ---------- requests ----------

  function FirstText(verb: string, path: string): string {
    verb + " " + path + " SHCP/1.0"
  }

  lemma SpaceFreeIsNewlineFree(s: string)
    requires SpaceFree(s)
    ensures NewlineFree(s)
  {
  }

  lemma FirstTextOneLine(verb: string, path: string)
    requires SpaceFree(verb) && SpaceFree(path)
    ensures NewlineFree(FirstText(verb, path))
  {
    hide SpaceFree;
    SpaceFreeIsNewlineFree(verb);
    SpaceFreeIsNewlineFree(path);
  }

  /** The first line of a request delivers method, path and version exactly when method and path are
      not empty. */
  lemma FirstLineTokens(verb: string, path: string)
    requires SpaceFree(verb) && SpaceFree(path)
    ensures verb != "" && path != "" ==> RequestLine(FirstText(verb, path)) == (verb, path, "SHCP/1.0")
    ensures verb == "" ==> RequestLine(FirstText(verb, path)).0 != ""
    ensures verb != "" && path == "" ==> RequestLine(FirstText(verb, path)).1 != ""
  {
    hide Token, AfterToken;
    var version := "SHCP/1.0";
    MessageOneLine(200);
    TokenAt(version, "");
    assert " " + version + "" == " SHCP/1.0";
    if verb != "" {
      var rest := " " + path + " SHCP/1.0";
      assert FirstText(verb, path) == verb + rest;
      TokenAt(verb, rest);
      if path != "" {
        TokenAt(path, " SHCP/1.0");
      } else {
        assert rest == " " + (" SHCP/1.0");
        BlankBeforeToken(" SHCP/1.0");
      }
    } else if path != "" {
      assert FirstText(verb, path) == " " + path + " SHCP/1.0";
      TokenAt(path, " SHCP/1.0");
    } else {
      assert FirstText(verb, path) == " " + " SHCP/1.0";
      BlankBeforeToken(" SHCP/1.0");
    }
  }

  lemma BlankBeforeToken(s: string)
    ensures Token(" " + s) == Token(s)
  {
    assert (" " + s)[1..] == s;
  }

  function RequestHeaders(body: string): map<string, string> {
    var host := map["Host" := "SmartHome"];
    if body == "" then host else host["Content-Length" := Decimal(|body|)]
  }

  lemma HostHeader()
    ensures NewlineFree("Host") && NewlineFree("SmartHome") && CleanHeader("Host", "SmartHome")
    ensures ColonFree(LENGTH) && NewlineFree(LENGTH)
  {
  }

  lemma ReadRequestHeaders(body: string)
    ensures ParseHeaders(HeaderLine("Host", "SmartHome") + (LengthLine(body) + (CRLF + body)), map[])
            == (RequestHeaders(body), body)
  {
    hide ParseHeaders, AddHeader, TrimLeft, Decimal, HeaderLine;
    HostHeader();
    ReadHeaderLine("Host", "SmartHome", LengthLine(body) + (CRLF + body), map[]);
    AddPrintedHeader(map[], "Host", "SmartHome");
    ValueSurvives("SmartHome");
    var host := map["Host" := "SmartHome"];
    if body == "" {
      assert LengthLine(body) + (CRLF + body) == CRLF + body;
      ReadEmptyLine(body, host);
    } else {
      DecimalIsPlain(|body|);
      ReadHeaderLine(LENGTH, Decimal(|body|), CRLF + body, host);
      AddPrintedHeader(host, LENGTH, Decimal(|body|));
      ValueSurvives(Decimal(|body|));
      ReadEmptyLine(body, RequestHeaders(body));
    }
  }

  lemma ParseBuiltRequest(verb: string, path: string, body: string)
    requires SpaceFree(verb) && SpaceFree(path)
    ensures Parse(RequestText(verb, path, body))
            == HttpRequest(RequestLine(FirstText(verb, path)).0, RequestLine(FirstText(verb, path)).1,
                           RequestLine(FirstText(verb, path)).2, RequestHeaders(body), body)
  {
    hide ParseHeaders, HeaderLine, LengthLine, Line, Rest, StripCR, RequestLine, RequestHeaders, SpaceFree;
    var tail := HeaderLine("Host", "SmartHome") + (LengthLine(body) + (CRLF + body));
    FirstTextOneLine(verb, path);
    PrintedLine(FirstText(verb, path), tail);
    ReadRequestHeaders(body);
    assert RequestText(verb, path, body) == FirstText(verb, path) + CRLF + tail;
  }

  /** Parsing a built request gives its method and path back exactly when both are non-empty and free
      of white space; then it also gives the version, the Host header, the body length if there is a
      body, and the exact body, whatever characters it contains. */
  lemma RequestRoundTrip(verb: string, path: string, body: string)
    ensures var req := Parse(RequestText(verb, path, body));
            req.verb == verb && req.path == path
            <==> verb != "" && path != "" && SpaceFree(verb) && SpaceFree(path)
    ensures verb != "" && path != "" && SpaceFree(verb) && SpaceFree(path)
            ==> Parse(RequestText(verb, path, body))
                == HttpRequest(verb, path, "SHCP/1.0", RequestHeaders(body), body)
  {
    hide Parse, RequestText, RequestHeaders, FirstText, RequestLine, SpaceFree;
    ParsedTokensSpaceFree(RequestText(verb, path, body));
    if SpaceFree(verb) && SpaceFree(path) {
      ParseBuiltRequest(verb, path, body);
      FirstLineTokens(verb, path);
    }
  }

  lemma ParsedTokensSpaceFree(raw: string)
    ensures SpaceFree(Parse(raw).verb) && SpaceFree(Parse(raw).path)
  {
    hide Token, AfterToken, ParseHeaders, Line, Rest;
  }

  // ---------- path segments ----------

  predicate SlashFree(s: string) {
    '/' !in s
  }

  predicate IsSegmentList(ps: seq<string>) {
    forall p :: p in ps ==> p != "" && SlashFree(p)
  }

  lemma NonEmptyStep(ps: seq<string>)
    requires ps != []
    ensures NonEmpty(ps) == NonEmpty([ps[0]]) + NonEmpty(ps[1..])
  {
    assert [ps[0]][1..] == [] && NonEmpty([]) == [];
    assert [ps[0]] + [] == [ps[0]] && [] + NonEmpty(ps[1..]) == NonEmpty(ps[1..]);
  }

  lemma NonEmptyOfNothing()
    ensures NonEmpty([]) == []
  {
  }

  lemma {:induction false} NonEmptyConcat(ps: seq<string>, qs: seq<string>)
    ensures NonEmpty(ps + qs) == NonEmpty(ps) + NonEmpty(qs)
  {
    hide NonEmpty;
    if ps == [] {
      NonEmptyOfNothing();
      assert ps + qs == qs && [] + NonEmpty(qs) == NonEmpty(qs);
    } else {
      NonEmptyConcat(ps[1..], qs);
      NonEmptyStep(ps);
      NonEmptyStep(ps + qs);
      assert (ps + qs)[0] == ps[0] && (ps + qs)[1..] == ps[1..] + qs;
      Regroup3Seq(NonEmpty([ps[0]]), NonEmpty(ps[1..]), NonEmpty(qs));
    }
  }

  lemma {:induction false} NonEmptyKeepsAll(ps: seq<string>)
    requires forall p :: p in ps ==> p != ""
    ensures NonEmpty(ps) == ps
  {
    if ps != [] {
      assert ps[0] in ps && forall p :: p in ps[1..] ==> p in ps;
      NonEmptyKeepsAll(ps[1..]);
    }
  }

  /** Segments are never empty and never contain a slash. */
  lemma SegmentsAreSegments(path: string)
    ensures IsSegmentList(Segments(path))
  {
    hide NonEmpty, Pieces;
    assert forall p :: p in Pieces(path, '/') ==> SlashFree(p);
  }

  /** Splitting two paths joined by a slash gives the segments of the one followed by those of the
      other. */
  lemma {:induction false} SegmentsConcat(p: string, q: string)
    ensures Segments(p + "/" + q) == Segments(p) + Segments(q)
    decreases |p|
  {
    hide NonEmpty, Pieces;
    var line, rest := Line(p, '/'), Rest(p, '/');
    if p == line {
      PiecesDelimited(p, '/', q);
      NonEmptyConcat([p], Pieces(q, '/'));
      OneSegment(p);
    } else {
      assert p == line + "/" + rest;
      SegmentsConcat(rest, q);
      PiecesDelimited(line, '/', rest);
      PiecesDelimited(line, '/', rest + "/" + q);
      Regroup5(line, "/", rest, "/", q);
      assert p + "/" + q == line + ['/'] + (rest + "/" + q);
      NonEmptyConcat([line], Pieces(rest, '/'));
      NonEmptyConcat([line], Pieces(rest + "/" + q, '/'));
      Regroup3Seq(NonEmpty([line]), Segments(rest), Segments(q));
    }
  }

  lemma Regroup3Seq(a: seq<string>, b: seq<string>, c: seq<string>)
    ensures a + b + c == a + (b + c)
  {
  }

  lemma OneSegment(p: string)
    requires SlashFree(p)
    ensures NonEmpty([p]) == Segments(p)
  {
    if p != "" {
      PiecesLast(p, '/');
    }
  }

  /** Splitting the slash-join of a list returns the list exactly when it is a list of non-empty texts
      without slashes; a leading slash makes no difference. */
  lemma SegmentsOfJoin(ps: seq<string>)
    ensures Segments(Join(ps, '/')) == ps <==> IsSegmentList(ps)
    ensures Segments("/" + Join(ps, '/')) == Segments(Join(ps, '/'))
  {
    hide Join, NonEmpty, Pieces;
    SegmentsAreSegments(Join(ps, '/'));
    if IsSegmentList(ps) {
      assert ps != [] ==> ps[|ps| - 1] in ps;
      PiecesOfJoin(ps, '/');
      NonEmptyKeepsAll(ps);
    }
    SegmentsConcat("", Join(ps, '/'));
    OneSegment("");
    assert "" + "/" + Join(ps, '/') == "/" + Join(ps, '/');
    NoSegments();
  }

  lemma NoSegments()
    ensures Segments("") == []
  {
  }

  lemma {:induction false} JoinSpaceFree(ps: seq<string>)
    requires forall p :: p in ps ==> SpaceFree(p)
    ensures SpaceFree(Join(ps, '/'))
  {
    if ps != [] {
      assert ps[0] in ps && forall p :: p in ps[1..] ==> p in ps;
      JoinSpaceFree(ps[1..]);
    }
  }

  /** A request built for a list of segments delivers that list to the server. */
  lemma SegmentsDelivered(verb: string, ps: seq<string>, body: string)
    requires verb != "" && SpaceFree(verb) && IsSegmentList(ps) && forall p :: p in ps ==> SpaceFree(p)
    ensures Segments(Parse(RequestText(verb, "/" + Join(ps, '/'), body)).path) == ps
  {
    hide Join, Segments, Parse, RequestText, RequestHeaders;
    JoinSpaceFree(ps);
    assert SpaceFree("/" + Join(ps, '/'));
    RequestRoundTrip(verb, "/" + Join(ps, '/'), body);
    SegmentsOfJoin(ps);
  }
}
