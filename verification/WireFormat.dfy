/** What the protocol's texts look like on the wire, and how the parser reads texts that its own printers
    do not produce. */
module WireFormat {
  import opened Text
  import opened OrderedKeys
  import opened Protocol
  import opened RoundTrips

  // ---------- replies ----------

  lemma TwoInOrder(ks: seq<string>, a: string, b: string)
    requires Ascending(ks) && a != b && !Less(a, a) && !Less(b, b) && !Less(b, a)
    requires a in ks && b in ks && forall k :: k in ks ==> k == a || k == b
    ensures ks == [a, b]
  {
    hide Less;
    var i :| 0 <= i < |ks| && ks[i] == a;
    var j :| 0 <= j < |ks| && ks[j] == b;
    forall k | 0 <= k < |ks| ensures (k == i || k == j) && (ks[k] == a || ks[k] == b) {
      assert ks[k] in ks;
    }
    assert i < j;
    assert ks[0] in ks && ks[1] in ks && ks[|ks| - 1] in ks;
  }

  lemma KeysOfTwo(a: string, b: string)
    requires Less(a, b)
    ensures Keys({a, b}) == [a, b]
  {
    hide Keys, Less;
    LessIrreflexive(a);
    LessIrreflexive(b);
    if Less(b, a) {
      LessTransitive(a, b, a);
    }
    var ks := Keys({a, b});
    assert a in ks && b in ks;
    assert forall k :: k in ks ==> k == a || k == b;
    TwoInOrder(ks, a, b);
  }

  lemma ReplyHeaders(body: string)
    ensures HeaderLines(BuildResponse(200, body).headers, Keys(BuildResponse(200, body).headers.Keys))
            == "Content-Type: text/plain\r\n" + "Server: SmartHomeServer/1.0\r\n"
  {
    hide Keys;
    var headers := BuildResponse(200, body).headers;
    assert "Content-Type"[0] == 'C' && "Server"[0] == 'S';
    KeysOfTwo("Content-Type", "Server");
    assert headers.Keys == {"Content-Type", "Server"};
    TwoHeaderLines(headers);
  }

  lemma TwoHeaderLines(headers: map<string, string>)
    requires headers == map["Server" := "SmartHomeServer/1.0", "Content-Type" := "text/plain"]
    ensures HeaderLines(headers, ["Content-Type", "Server"])
            == "Content-Type: text/plain\r\n" + "Server: SmartHomeServer/1.0\r\n"
  {
    assert "Content-Type"[0] != "Server"[0];
    assert HeaderLine("Server", "SmartHomeServer/1.0") == "Server: SmartHomeServer/1.0\r\n";
    assert HeaderLine("Content-Type", "text/plain") == "Content-Type: text/plain\r\n";
    TwoLines(headers, "Content-Type", "Server");
  }

  lemma TwoLines(headers: map<string, string>, a: string, b: string)
    requires a in headers && b in headers
    ensures HeaderLines(headers, [a, b]) == HeaderLine(a, headers[a]) + HeaderLine(b, headers[b])
  {
    hide HeaderLine;
    assert [a, b][1..] == [b] && [b][1..] == [];
    assert HeaderLines(headers, [b]) == HeaderLine(b, headers[b]) + HeaderLines(headers, []);
    assert HeaderLine(b, headers[b]) + "" == HeaderLine(b, headers[b]);
  }

  /** The reason phrase of a status code. */
  ghost predicate IsReason(code: int, reason: string) {
    || (code == 200 && reason == "OK")
    || (code == 404 && reason == "Not Found")
    || (code == 400 && reason == "Bad Request")
    || (code == 500 && reason == "Internal Server Error")
    || (code !in {200, 400, 404, 500} && reason == "Unknown")
  }

  /** The whole text of a reply: status line with the reason phrase of the code, the headers in the
      order of their keys, the length of the body, an empty line, the body. */
  lemma ReplyText(code: int, reason: string, body: string)
    requires IsReason(code, reason)
    ensures ResponseText(BuildResponse(code, body))
            == "SHCP/1.0 " + IntText(code) + " " + reason + "\r\n"
               + ("Content-Type: text/plain\r\n" + "Server: SmartHomeServer/1.0\r\n"
                  + ("Content-Length: " + Decimal(|body|) + "\r\n" + ("\r\n" + body)))
  {
    hide Keys, HeaderLines, HeaderLine, StatusLine, Decimal, IntText, IsReason;
    ReplyHeaders(body);
    assert BuildResponse(200, body).headers == BuildResponse(code, body).headers;
    StatusLineText(code, reason, body);
    LengthHeader(body);
  }

  lemma StatusLineText(code: int, reason: string, body: string)
    requires IsReason(code, reason)
    ensures StatusLine(BuildResponse(code, body)) == "SHCP/1.0 " + IntText(code) + " " + reason + "\r\n"
  {
    hide IntText;
    assert "SHCP/1.0" + " " == "SHCP/1.0 ";
  }

  lemma LengthHeader(body: string)
    ensures HeaderLine("Content-Length", Decimal(|body|)) == "Content-Length: " + Decimal(|body|) + "\r\n"
  {
    hide Decimal;
    assert "Content-Length" + ": " == "Content-Length: ";
  }

  lemma CodeTexts()
    ensures IntText(200) == "200" && IntText(404) == "404" && IntText(400) == "400" && IntText(500) == "500"
  {
    assert Decimal(20) == "20" && Decimal(40) == "40" && Decimal(50) == "50";
  }

  lemma FirstLineIs(code: int, codeText: string, reason: string, body: string)
    requires IsReason(code, reason) && IntText(code) == codeText
    ensures "SHCP/1.0 " + codeText + " " + reason + "\r\n" <= ResponseText(BuildResponse(code, body))
  {
    hide ResponseText, IntText, Decimal, IsReason;
    ReplyText(code, reason, body);
  }

  lemma GoodLines(body: string)
    ensures "SHCP/1.0 200 OK\r\n" <= ResponseText(BuildResponse(200, body))
    ensures "SHCP/1.0 404 Not Found\r\n" <= ResponseText(BuildResponse(404, body))
  {
    hide ResponseText, IntText, BuildResponse;
    CodeTexts();
    FirstLineIs(200, "200", "OK", body);
    FirstLineIs(404, "404", "Not Found", body);
    assert "SHCP/1.0 " + "200" + " " + "OK" + "\r\n" == "SHCP/1.0 200 OK\r\n";
    assert "SHCP/1.0 " + "404" + " " + "Not Found" + "\r\n" == "SHCP/1.0 404 Not Found\r\n";
  }

  lemma BadLines(body: string)
    ensures "SHCP/1.0 400 Bad Request\r\n" <= ResponseText(BuildResponse(400, body))
    ensures "SHCP/1.0 500 Internal Server Error\r\n" <= ResponseText(BuildResponse(500, body))
  {
    hide ResponseText, IntText, BuildResponse;
    CodeTexts();
    FirstLineIs(400, "400", "Bad Request", body);
    FirstLineIs(500, "500", "Internal Server Error", body);
    assert "SHCP/1.0 " + "400" + " " + "Bad Request" + "\r\n" == "SHCP/1.0 400 Bad Request\r\n";
    assert "SHCP/1.0 " + "500" + " " + "Internal Server Error" + "\r\n" == "SHCP/1.0 500 Internal Server Error\r\n";
  }

  /** The first lines of the replies the server gives. */
  lemma ReplyFirstLines(body: string)
    ensures "SHCP/1.0 200 OK\r\n" <= ResponseText(BuildResponse(200, body))
    ensures "SHCP/1.0 404 Not Found\r\n" <= ResponseText(BuildResponse(404, body))
    ensures "SHCP/1.0 400 Bad Request\r\n" <= ResponseText(BuildResponse(400, body))
    ensures "SHCP/1.0 500 Internal Server Error\r\n" <= ResponseText(BuildResponse(500, body))
  {
    hide ResponseText, BuildResponse;
    GoodLines(body);
    BadLines(body);
  }

  /** The whole text of a request. */
  lemma RequestWire(verb: string, path: string, body: string)
    ensures RequestText(verb, path, body)
            == verb + " " + path + " SHCP/1.0\r\n"
               + ("Host: SmartHome\r\n"
                  + ((if body == "" then "" else "Content-Length: " + Decimal(|body|) + "\r\n") + ("\r\n" + body)))
  {
    hide Decimal, FirstLine, HeaderLine;
    FirstLineText(verb, path);
    LengthHeader(body);
    HostLine();
  }

  lemma FirstLineText(verb: string, path: string)
    ensures FirstLine(verb, path) == verb + " " + path + " SHCP/1.0\r\n"
  {
    Regroup3(verb + " " + path, " SHCP/1.0", "\r\n");
    assert " SHCP/1.0" + "\r\n" == " SHCP/1.0\r\n";
  }

  lemma HostLine()
    ensures HeaderLine("Host", "SmartHome") == "Host: SmartHome\r\n"
  {
  }

  // ---------- white space between tokens ----------

  /** One of the six characters that separate tokens. */
  predicate Blank(c: char) {
    c in {' ', '\t', '\n', '\r'} || c as int == 11 || c as int == 12
  }

  ghost predicate Blanks(w: string) {
    forall i :: 0 <= i < |w| ==> Blank(w[i])
  }

  lemma {:induction false} SkipBlanks(w: string, s: string)
    requires Blanks(w)
    ensures SkipSpace(w + s) == SkipSpace(s)
  {
    if w == "" {
      assert w + s == s;
    } else {
      assert (w + s)[0] == w[0] && (w + s)[1..] == w[1..] + s;
      SkipBlanks(w[1..], s);
    }
  }

  /** A token runs up to the next white space, and white space before it makes no difference. */
  lemma TokenAfterBlanks(w: string, t: string, rest: string)
    requires Blanks(w) && t != "" && (forall i :: 0 <= i < |t| ==> !Blank(t[i])) && (rest != "" ==> Blank(rest[0]))
    ensures Token(w + (t + rest)) == t && AfterToken(w + (t + rest)) == rest
  {
    hide SkipSpace;
    SkipBlanks(w, t + rest);
    TokenAt(t, rest);
  }

  lemma NoTokenInBlanks(w: string)
    requires Blanks(w)
    ensures Token(w) == "" && AfterToken(w) == ""
  {
    hide SkipSpace, Token, AfterToken, Blanks;
    SkipAll(w);
    NoToken(w);
  }

  lemma {:induction false} SkipAll(w: string)
    requires Blanks(w)
    ensures SkipSpace(w) == ""
  {
    if w != "" {
      SkipAll(w[1..]);
    }
  }

  lemma NoToken(w: string)
    requires SkipSpace(w) == ""
    ensures Token(w) == "" && AfterToken(w) == ""
  {
    hide SkipSpace, SpaceFree;
  }

  ghost predicate IsToken(t: string) {
    t != "" && forall i :: 0 <= i < |t| ==> !Blank(t[i])
  }

  /** A request line in any spacing: method, path and version, with whatever follows ignored; a missing
      version is SHCP/1.0, a missing path is empty. */
  lemma RequestLineReads(w0: string, verb: string, w1: string, path: string, w2: string, version: string, rest: string)
    requires Blanks(w0) && Blanks(w1) && Blanks(w2) && w1 != "" && w2 != ""
    requires IsToken(verb) && IsToken(path) && IsToken(version) && (rest != "" ==> Blank(rest[0]))
    ensures RequestLine(w0 + (verb + (w1 + (path + (w2 + (version + rest)))))) == (verb, path, version)
    ensures RequestLine(w0 + (verb + (w1 + (path + w2)))) == (verb, path, "SHCP/1.0")
    ensures RequestLine(w0 + (verb + (w1 + path))) == (verb, path, "SHCP/1.0")
    ensures RequestLine(w0 + (verb + w1)) == (verb, "", "SHCP/1.0")
    ensures RequestLine(w0) == ("", "", "SHCP/1.0")
  {
    hide Token, AfterToken, Blank;
    var tail := w2 + (version + rest);
    TokenAfterBlanks(w0, verb, w1 + (path + tail));
    TokenAfterBlanks(w1, path, tail);
    TokenAfterBlanks(w2, version, rest);
    TokenAfterBlanks(w0, verb, w1 + (path + w2));
    TokenAfterBlanks(w1, path, w2);
    TokenAfterBlanks(w0, verb, w1 + path);
    assert path + "" == path;
    TokenAfterBlanks(w1, path, "");
    TokenAfterBlanks(w0, verb, w1);
    NoTokenInBlanks(w0);
    NoTokenInBlanks(w1);
    NoTokenInBlanks(w2);
    NoTokenInBlanks("");
  }

  // ---------- lines and headers ----------

  /** A line may end in a bare newline as well as in CRLF. */
  lemma EitherLineEnding(line: string, cr: bool, rest: string)
    requires NewlineFree(line) && (line == "" || line[|line| - 1] != '\r')
    ensures var raw := line + (if cr then "\r\n" else "\n") + rest;
            raw != "" && StripCR(Line(raw, '\n')) == line && Rest(raw, '\n') == rest
  {
    if cr {
      PrintedLine(line, rest);
    } else {
      GetLineDelimited(line, '\n', rest);
    }
  }

  /** What one header line means: the key is what stands before the first colon, the value what follows
      without its leading blanks, unless there is nothing else; a line without a colon means nothing. */
  lemma HeaderLineMeans(headers: map<string, string>, key: string, blanks: string, value: string)
    requires ColonFree(key) && (forall i :: 0 <= i < |blanks| ==> blanks[i] == ' ') && (value == "" || value[0] != ' ')
    ensures AddHeader(headers, key + ":" + blanks + value) == headers[key := if value == "" then blanks else value]
    ensures AddHeader(headers, key) == headers
  {
    hide IndexOf, FirstNonBlank, TrimLeft;
    var line := key + ":" + blanks + value;
    assert line[|key|] == ':' && line[..|key|] == key && line[|key| + 1..] == blanks + value;
    IndexOfUnique(line, ':', |key|);
    TrimLeftMeans(blanks, value);
    assert key[..|key|] == key;
    IndexOfUnique(key, ':', |key|);
  }

  lemma TrimLeftMeans(blanks: string, value: string)
    requires (forall i :: 0 <= i < |blanks| ==> blanks[i] == ' ') && (value == "" || value[0] != ' ')
    ensures TrimLeft(blanks + value) == if value == "" then blanks else value
  {
    hide FirstNonBlank;
    FirstNonBlankUnique(blanks + value, |blanks|);
    assert (blanks + value)[|blanks|..] == value;
    assert value == "" ==> blanks + value == blanks;
  }

  /** The text of header lines with the given line endings. */
  function HeaderSection(lines: seq<string>, crs: seq<bool>): string
    requires |lines| == |crs|
  {
    if lines == [] then ""
    else lines[0] + (if crs[0] then "\r\n" else "\n") + HeaderSection(lines[1..], crs[1..])
  }

  /** The map after the header lines, a later line with the same key replacing an earlier one. */
  function HeaderMap(lines: seq<string>): map<string, string> {
    if lines == [] then map[] else AddHeader(HeaderMap(lines[..|lines| - 1]), lines[|lines| - 1])
  }

  ghost predicate HeaderTexts(lines: seq<string>) {
    forall l :: l in lines ==> l != "" && NewlineFree(l) && l[|l| - 1] != '\r'
  }

  lemma {:induction false} ReadSection(lines: seq<string>, crs: seq<bool>, done: seq<string>, rest: string)
    requires |lines| == |crs| && HeaderTexts(lines)
    ensures ParseHeaders(HeaderSection(lines, crs) + rest, HeaderMap(done))
            == ParseHeaders(rest, HeaderMap(done + lines))
  {
    hide AddHeader, Line, Rest, StripCR, ParseHeaders, HeaderMap, NewlineFree;
    if lines == [] {
      assert "" + rest == rest && done + lines == done;
    } else {
      assert lines[0] in lines && forall l :: l in lines[1..] ==> l in lines;
      var ending := if crs[0] then "\r\n" else "\n";
      var others := HeaderSection(lines[1..], crs[1..]);
      Regroup3(lines[0] + ending, others, rest);
      EitherLineEnding(lines[0], crs[0], others + rest);
      ParseHeadersStep(lines[0] + ending + (others + rest), HeaderMap(done));
      HeaderMapStep(done, lines[0]);
      ReadSection(lines[1..], crs[1..], done + [lines[0]], rest);
      Regroup3Seq(done, [lines[0]], lines[1..]);
      assert [lines[0]] + lines[1..] == lines;
    }
  }

  lemma HeaderMapStep(done: seq<string>, line: string)
    ensures HeaderMap(done + [line]) == AddHeader(HeaderMap(done), line)
  {
    hide AddHeader;
    assert (done + [line])[..|done|] == done;
  }

  lemma ParseHeadersStep(unread: string, headers: map<string, string>)
    requires unread != ""
    ensures ParseHeaders(unread, headers)
            == var line := StripCR(Line(unread, '\n'));
               if line == "" then (headers, Rest(unread, '\n'))
               else ParseHeaders(Rest(unread, '\n'), AddHeader(headers, line))
  {
    hide AddHeader, Line, Rest, StripCR;
  }

  /** The parser on any text of a request line, header lines, an empty line and a body, each line ending
      in CRLF or a bare newline: the request line is read as such, the headers add up in their order, and
      the body is everything after the empty line, untouched. */
  lemma ParseReads(first: string, cr: bool, lines: seq<string>, crs: seq<bool>, crEmpty: bool, body: string)
    requires NewlineFree(first) && (first == "" || first[|first| - 1] != '\r')
    requires |lines| == |crs| && HeaderTexts(lines)
    ensures var raw := first + (if cr then "\r\n" else "\n")
                       + (HeaderSection(lines, crs) + ("" + (if crEmpty then "\r\n" else "\n") + body));
            var (verb, path, version) := RequestLine(first);
            Parse(raw) == HttpRequest(verb, path, version, HeaderMap(lines), body)
  {
    hide Line, Rest, StripCR, ParseHeaders, HeaderSection, AddHeader, RequestLine;
    var end := "" + (if crEmpty then "\r\n" else "\n") + body;
    EitherLineEnding(first, cr, HeaderSection(lines, crs) + end);
    ReadSection(lines, crs, [], end);
    assert [] + lines == lines;
    EitherLineEnding("", crEmpty, body);
    ParseHeadersStep(end, HeaderMap(lines));
  }

  /** A text that stops after its request line, with or without a line ending, has no headers and no body;
      the empty text has nothing at all. */
  lemma ParseStopsEarly(first: string)
    requires first != "" && NewlineFree(first) && first[|first| - 1] != '\r'
    ensures var (verb, path, version) := RequestLine(first);
            && Parse(first) == HttpRequest(verb, path, version, map[], "")
            && Parse(first + "\n") == HttpRequest(verb, path, version, map[], "")
    ensures Parse("") == HttpRequest("", "", "", map[], "")
  {
    hide Line, Rest, RequestLine;
    GetLineLast(first, '\n');
    EitherLineEnding(first, false, "");
    assert first + "\n" + "" == first + "\n";
  }

  // ---------- numbers ----------

  /** std::stoi reads white space, a sign, and digits up to the first character that is none, and fails
      when there is no digit or the number is no int. */
  lemma StoiReads(w: string, sign: string, digits: string, tail: string)
    requires Blanks(w) && sign in {"", "+", "-"} && AllDigits(digits) && (tail != "" ==> !IsDigit(tail[0]))
    requires digits == "" && sign == "" && tail != "" ==> !Blank(tail[0]) && tail[0] !in {'+', '-'}
    ensures Stoi(w + (sign + (digits + tail)))
            == if digits == "" then None
               else var v := if sign == "-" then 0 - DigitsValue(digits) else DigitsValue(digits);
                    if -0x8000_0000 <= v <= 0x7FFF_FFFF then Some(v) else None
  {
    hide Stoi, DigitsValue, Blank;
    StoiSkips(w, sign + (digits + tail));
    if sign == "" {
      assert sign + (digits + tail) == digits + tail;
      StoiUnsigned(digits, tail);
    } else {
      assert sign == [sign[0]] && (sign[0] == '-' <==> sign == "-");
      StoiSigned(sign[0], digits, tail);
    }
  }

  lemma StoiSkips(w: string, s: string)
    requires Blanks(w)
    ensures Stoi(w + s) == Stoi(s)
  {
    hide SkipSpace, DigitRun, DigitsValue, Blank;
    SkipBlanks(w, s);
  }

  lemma StoiUnsigned(digits: string, tail: string)
    requires AllDigits(digits) && (tail != "" ==> !IsDigit(tail[0]))
    requires digits == "" && tail != "" ==> !Blank(tail[0]) && tail[0] !in {'+', '-'}
    ensures Stoi(digits + tail)
            == if digits == "" then None
               else if DigitsValue(digits) <= 0x7FFF_FFFF then Some(DigitsValue(digits)) else None
  {
    hide Stoi, NumberIn, SkipSpace, DigitsValue, AllDigits, IsDigit, Blank;
    UnsignedHead(digits, tail);
    StoiWithoutSign(digits + tail);
    NumberInDigits(digits, tail, false);
  }

  lemma StoiWithoutSign(t: string)
    requires (t != "" ==> t[0] != '+' && t[0] != '-') && SkipSpace(t) == t
    ensures Stoi(t) == NumberIn(t, false)
  {
    hide SkipSpace, DigitRun, DigitsValue, AllDigits, IsSpace;
  }

  lemma UnsignedHead(digits: string, tail: string)
    requires AllDigits(digits) && (tail != "" ==> !IsDigit(tail[0]))
    requires digits == "" && tail != "" ==> !Blank(tail[0]) && tail[0] !in {'+', '-'}
    ensures var u := digits + tail; SkipSpace(u) == u && (u != "" ==> u[0] != '-' && u[0] != '+')
  {
    hide SkipSpace;
    var u := digits + tail;
    if digits == "" {
      assert u == tail;
    } else {
      assert u[0] == digits[0];
    }
    SkipNothing(u);
  }

  lemma SignedHead(c: char, u: string)
    requires c == '+' || c == '-'
    ensures var t := [c] + u; SkipSpace(t) == t && t[0] == c && t[1..] == u
  {
    hide SkipSpace;
    var t := [c] + u;
    assert t[0] == c;
    SkipNothing(t);
  }

  /** std::stoi once white space and sign are out of the way. */
  function NumberIn(u: string, negative: bool): Option<int> {
    var digits := u[..DigitRun(u)];
    if digits == "" then None
    else
      var v := if negative then 0 - DigitsValue(digits) else DigitsValue(digits);
      if -0x8000_0000 <= v <= 0x7FFF_FFFF then Some(v) else None
  }

  lemma StoiAfterSign(t: string)
    requires t != "" && (t[0] == '+' || t[0] == '-') && SkipSpace(t) == t
    ensures Stoi(t) == NumberIn(t[1..], t[0] == '-')
  {
    hide SkipSpace, DigitRun, DigitsValue, AllDigits, IsSpace;
  }

  lemma NumberInDigits(digits: string, tail: string, negative: bool)
    requires AllDigits(digits) && (tail != "" ==> !IsDigit(tail[0]))
    ensures NumberIn(digits + tail, negative)
            == if digits == "" then None
               else var v := if negative then 0 - DigitsValue(digits) else DigitsValue(digits);
                    if -0x8000_0000 <= v <= 0x7FFF_FFFF then Some(v) else None
  {
    hide DigitRun, DigitsValue, AllDigits;
    DigitRunStops(digits, tail);
    assert (digits + tail)[..|digits|] == digits;
  }

  lemma StoiSigned(c: char, digits: string, tail: string)
    requires (c == '+' || c == '-') && AllDigits(digits) && (tail != "" ==> !IsDigit(tail[0]))
    ensures Stoi([c] + (digits + tail))
            == if digits == "" then None
               else var v := if c == '-' then 0 - DigitsValue(digits) else DigitsValue(digits);
                    if -0x8000_0000 <= v <= 0x7FFF_FFFF then Some(v) else None
  {
    hide Stoi, NumberIn, SkipSpace, DigitsValue, AllDigits, IsDigit;
    SignedHead(c, digits + tail);
    StoiAfterSign([c] + (digits + tail));
    NumberInDigits(digits, tail, c == '-');
  }

  lemma SkipNothing(s: string)
    ensures s == "" || !IsSpace(s[0]) ==> SkipSpace(s) == s
  {
  }

  lemma {:induction false} DigitRunStops(digits: string, tail: string)
    requires AllDigits(digits) && (tail != "" ==> !IsDigit(tail[0]))
    ensures DigitRun(digits + tail) == |digits|
  {
    if digits == "" {
      assert digits + tail == tail;
    } else {
      assert (digits + tail)[1..] == digits[1..] + tail;
      DigitRunStops(digits[1..], tail);
    }
  }
}
