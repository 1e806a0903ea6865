/** The local web proxy of EdiManager/EdimaxControl.cs (the `Web` command):
    one browser request read off a connection, turned into a device URL
    command, and the device's response written back to the browser. */
module Proxy {
  import opened Wrappers
  import opened Text
  import opened Framing
  import opened Tunnel
  import opened Wire

  /** Why serving one browser request throws (and the loop logs it). */
  datatype ProxyError =
    | HeadLost(cause: ReadError)   // the request header never ends
    | NoUrl                        // the request line has no second word
    | NoContentLength              // a POST without a Content-Length line
    | BadContentLength             // its value is not a 32-bit integer
    | BodyLost(cause: ReadError)   // the POST body does not arrive (or the length is negative)
    | DeviceFailed                 // the device exchange threw

  // ---------------------------------------------------------------------
  // Reading the request

  datatype RequestLine = RequestLine(verb: string, url: string)

  /** The first two space-separated words of the text before the first CR. */
  function ParseRequestLine(head: string): (r: Result<RequestLine, ProxyError>)
    ensures r.Success? ==> ' ' !in r.value.verb && ' ' !in r.value.url
    ensures r.Failure? <==> ' ' !in Split(head, '\r')[0]
    ensures r.Failure? ==> r.error == NoUrl
  {
    var line := Split(head, '\r')[0];
    var words := Split(line, ' ');
    if |words| < 2 then Failure(NoUrl) else Success(RequestLine(words[0], words[1]))
  }

  const ContentLengthStem: string := "Content-Length"

  /** The value of the first `Content-Length:` line, as `int.Parse` reads it. */
  function ContentLength(head: string): (r: Result<int, ProxyError>)
    ensures r.Success? ==> MinInt32 <= r.value <= MaxInt32
    ensures r == Failure(NoContentLength) <==> HeaderValue(head, ContentLengthStem + ":").None?
    ensures r.Failure? ==> r == Failure(NoContentLength) || r == Failure(BadContentLength)
  {
    match HeaderValue(head, ContentLengthStem + ":")
    case None => Failure(NoContentLength)
    case Some(v) =>
      match ParseInt32(v)
      case None => Failure(BadContentLength)
      case Some(n) => Success(n)
  }

  /** A request as the proxy sees it: the verb, the URL (for a POST with
      the body appended as a query), and the connection after it. */
  datatype Request = Request(verb: string, url: string, rest: Stream)

  /** What follows the header read: the request line, and for a POST the
      body of the declared length, decoded and appended after '?'. */
  function RequestAfter(head: string, s: Stream): (r: Result<Request, ProxyError>)
    ensures r == Failure(NoUrl) <==> ParseRequestLine(head).Failure?
    ensures r.Success? ==> ParseRequestLine(head).Success? && r.value.verb == ParseRequestLine(head).value.verb
    ensures r.Success? && r.value.verb != "POST" ==>
      r.value.url == ParseRequestLine(head).value.url && r.value.rest == s
    ensures r.Success? && r.value.verb == "POST" ==>
      && ContentLength(head).Success?
      && var n := ContentLength(head).value;
      && 0 <= n <= |Flatten(s)|
      && r.value.url == ParseRequestLine(head).value.url + "?" + Decode(Flatten(s)[..n])
      && Flatten(r.value.rest) == Flatten(s)[n..]
  {
    match ParseRequestLine(head)
    case Failure(e) => Failure(e)
    case Success(line) =>
      if line.verb != "POST" then Success(Request(line.verb, line.url, s))
      else
        match ContentLength(head)
        case Failure(e) => Failure(e)
        case Success(n) =>
          match ReadExact(s, n)
          case Broke(e, _) => Failure(BodyLost(e))
          case Got(body, rest) =>
            assert Flatten(s) == body + Flatten(rest);
            assert Flatten(s)[..n] == body && Flatten(s)[n..] == Flatten(rest);
            Success(Request(line.verb, line.url + "?" + Decode(body), rest))
  }

  /** The header up to the first CR LF CR LF, decoded, then the rest. */
  function ReadRequest(s: Stream): (r: Result<Request, ProxyError>)
    ensures ReadUntil(s, CrLfCrLfBytes).Broke? <==> r.Failure? && r.error.HeadLost?
    ensures r.Success? ==>
      var u := ReadUntil(s, CrLfCrLfBytes);
      u.Got? && r == RequestAfter(Decode(u.value), u.rest)
  {
    match ReadUntil(s, CrLfCrLfBytes)
    case Broke(e, _) => Failure(HeadLost(e))
    case Got(head, s1) => RequestAfter(Decode(head), s1)
  }

  // ---------------------------------------------------------------------
  // Requests a browser sends

  function RequestLineText(verb: string, url: string, version: string): string {
    verb + " " + url + " " + version
  }

  /** A request header of a request line and one header field. */
  function RequestHead(verb: string, url: string, version: string, field: string): string {
    RequestLineText(verb, url, version) + "\r\n" + field + CrLfCrLf
  }

  predicate RequestWellFormed(verb: string, url: string, version: string, field: string) {
    && IsAscii(verb) && IsAscii(url) && IsAscii(version) && IsAscii(field)
    && ' ' !in verb && ' ' !in url && ':' !in verb
    && '\r' !in verb && '\r' !in url && '\r' !in version && '\r' !in field
    && '\n' !in verb && '\n' !in url && '\n' !in version && '\n' !in field
    && |field| > 0
  }

  /** The request line gives back its verb and URL, whatever follows the
      first CR. */
  lemma RequestLineRoundTrip(verb: string, url: string, version: string, more: string)
    requires ' ' !in verb && ' ' !in url
    requires '\r' !in verb && '\r' !in url && '\r' !in version
    ensures ParseRequestLine(RequestLineText(verb, url, version) + "\r" + more)
         == Success(RequestLine(verb, url))
  {
    var line := RequestLineText(verb, url, version);
    LineBeforeCr(line, more);
    RequestLineWords(verb, url, version);
  }

  lemma LineBeforeCr(line: string, more: string)
    requires '\r' !in line
    ensures Split(line + "\r" + more, '\r')[0] == line
  {
    assert line + "\r" + more == line + ['\r'] + more;
    SplitAfter(line, '\r', more);
  }

  lemma RequestLineWords(verb: string, url: string, version: string)
    requires ' ' !in verb && ' ' !in url
    ensures var words := Split(RequestLineText(verb, url, version), ' ');
      |words| >= 2 && words[0] == verb && words[1] == url
  {
    assert RequestLineText(verb, url, version) == verb + [' '] + (url + [' '] + version);
    SplitAfter(verb, ' ', url + [' '] + version);
    SplitAfter(url, ' ', version);
  }

  /** The header of a well-formed request is ASCII and ends at its first
      blank line. */
  lemma RequestHeadShape(verb: string, url: string, version: string, field: string)
    requires RequestWellFormed(verb, url, version, field)
    ensures var h := RequestHead(verb, url, version, field);
      IsAscii(h) && |h| >= 4 && IndexOf(h, CrLfCrLf) == |h| - 4
  {
    var a := RequestLineText(verb, url, version);
    AsciiConcat(verb, " ");
    AsciiConcat(verb + " ", url);
    AsciiConcat(verb + " " + url, " ");
    AsciiConcat(verb + " " + url + " ", version);
    AsciiConcat(a, "\r\n");
    AsciiConcat(a + "\r\n", field);
    AsciiConcat(a + "\r\n" + field, CrLfCrLf);
    FirstBlankLine(a, field);
  }

  /** The request line of a well-formed header is read back. */
  lemma RequestHeadLine(verb: string, url: string, version: string, field: string)
    requires RequestWellFormed(verb, url, version, field)
    ensures ParseRequestLine(RequestHead(verb, url, version, field)) == Success(RequestLine(verb, url))
  {
    var a := RequestLineText(verb, url, version);
    var more := "\n" + field + CrLfCrLf;
    assert RequestHead(verb, url, version, field) == a + "\r" + more;
    RequestLineRoundTrip(verb, url, version, more);
  }

  /** The Content-Length field of a POST header is read back as the number
      written into it. */
  lemma ContentLengthRoundTrip(url: string, version: string, n: nat)
    requires n <= MaxInt32
    requires RequestWellFormed("POST", url, version, FieldLine(ContentLengthStem, Decimal(n)))
    ensures ContentLength(RequestHead("POST", url, version, FieldLine(ContentLengthStem, Decimal(n)))) == Success(n)
  {
    var a := RequestLineText("POST", url, version);
    var d := Decimal(n);
    DigitsExclude(d, '\r');
    DigitsExclude(d, '\n');
    DigitsExclude(d, ':');
    assert a[4] == ' ' && a[..4] == "POST";
    LineIsNotField(a, 4, ContentLengthStem + ":");
    FieldFound(a, ContentLengthStem, d);
    ParseDecimal(n);
  }

  /** A Content-Length value followed by NUL characters, which `int.Parse`
      accepts, declares the number before them. */
  lemma ContentLengthNulTail(head: string, n: nat, nuls: string)
    requires n <= MaxInt32
    requires forall i :: 0 <= i < |nuls| ==> nuls[i] == '\0'
    requires HeaderValue(head, ContentLengthStem + ":") == Some(Decimal(n) + nuls)
    ensures ContentLength(head) == Success(n)
  {
    ParseNulTail(n, nuls);
  }

  /** An ASCII header that ends at its first blank line, at the head of a
      dense connection: the header read returns exactly its bytes. */
  lemma HeadRead(h: string, p: seq<byte>, t: Stream)
    requires IsAscii(h) && |h| >= 4 && IndexOf(h, CrLfCrLf) == |h| - 4 && Dense(t)
    ensures var u := ReadUntil([Chunk(Utf8(h) + p)] + t, CrLfCrLfBytes);
      && u.Got? && u.value == Utf8(h)
      && Dense(u.rest) && Flatten(u.rest) == p + Flatten(t)
  {
    AsciiFirstMarker(h);
    FirstMarkerRead(Utf8(h), p, t, CrLfCrLfBytes);
  }

  /** The bytes of such a header end with the terminator and show it nowhere
      earlier. */
  lemma AsciiFirstMarker(h: string)
    requires IsAscii(h) && |h| >= 4 && IndexOf(h, CrLfCrLf) == |h| - 4
    ensures |Utf8(h)| > 0 && EndsWith(Utf8(h), CrLfCrLfBytes)
    ensures forall k :: 1 <= k < |Utf8(h)| ==> !EndsWith(Utf8(h)[..k], CrLfCrLfBytes)
  {
    var b := Utf8(h);
    TerminatorBytes(h);
    forall k | 1 <= k < |b|
      ensures !EndsWith(b[..k], CrLfCrLfBytes)
    {
      if k >= 4 {
        NoMarkerWindow(h, k - 4);
        EndsWithWindow(b, k, CrLfCrLfBytes);
      }
    }
  }

  lemma EndsWithWindow(b: seq<byte>, k: nat, marker: seq<byte>)
    requires |marker| <= k <= |b|
    ensures EndsWith(b[..k], marker) <==> b[k - |marker|..k] == marker
  {
    assert b[..k][k - |marker|..] == b[k - |marker|..k];
  }

  /** Text ending with CR LF CR LF encodes to bytes ending with it. */
  lemma TerminatorBytes(h: string)
    requires |h| >= 4 && h[|h| - 4..] == CrLfCrLf
    ensures EndsWith(Utf8(h), CrLfCrLfBytes)
  {
    var a := h[..|h| - 4];
    assert h == a + CrLfCrLf;
    Utf8Append(a, CrLfCrLf);
    TerminatorCodes();
  }

  /** In ASCII text, four bytes that are the terminator encode four
      characters that are. */
  lemma NoMarkerWindow(h: string, j: nat)
    requires IsAscii(h) && j + 4 <= |h| && !OccursAt(h, CrLfCrLf, j)
    ensures Utf8(h)[j..j + 4] != CrLfCrLfBytes
  {
    var b := Utf8(h);
    DecodeUtf8(h);
    DecodeSlice(b, j, j + 4);
    TerminatorCodes();
  }

  /** Such a header at the head of a dense connection is read in full and
      handed on decoded, with the connection right after it. */
  lemma HeadThenRest(h: string, p: seq<byte>, t: Stream)
    requires IsAscii(h) && |h| >= 4 && IndexOf(h, CrLfCrLf) == |h| - 4 && Dense(t)
    ensures var s := [Chunk(Utf8(h) + p)] + t;
      var u := ReadUntil(s, CrLfCrLfBytes);
      && u.Got? && ReadRequest(s) == RequestAfter(h, u.rest)
      && Dense(u.rest) && Flatten(u.rest) == p + Flatten(t)
  {
    HeadRead(h, p, t);
    DecodeUtf8(h);
  }

  /** Round trip of a GET (any verb but POST): the request read off the
      connection has the verb and URL of its request line, and the
      connection continues right after the header. */
  lemma NonPostRoundTrip(verb: string, url: string, version: string, field: string, p: seq<byte>, t: Stream)
    requires verb != "POST" && RequestWellFormed(verb, url, version, field) && Dense(t)
    ensures var r := ReadRequest([Chunk(Utf8(RequestHead(verb, url, version, field)) + p)] + t);
      && r.Success? && r.value.verb == verb && r.value.url == url
      && Flatten(r.value.rest) == p + Flatten(t)
  {
    RequestHeadShape(verb, url, version, field);
    HeadThenRest(RequestHead(verb, url, version, field), p, t);
    RequestHeadLine(verb, url, version, field);
  }

  /** Round trip of a POST: the body of the declared length comes back
      decoded after the URL and a '?', and the connection continues after
      the body. */
  lemma PostRoundTrip(url: string, version: string, body: seq<byte>, t: Stream)
    requires |body| <= MaxInt32 && Dense(t)
    requires RequestWellFormed("POST", url, version, FieldLine(ContentLengthStem, Decimal(|body|)))
    ensures var h := RequestHead("POST", url, version, FieldLine(ContentLengthStem, Decimal(|body|)));
      var r := ReadRequest([Chunk(Utf8(h) + body)] + t);
      && r.Success? && r.value.verb == "POST" && r.value.url == url + "?" + Decode(body)
      && Flatten(r.value.rest) == Flatten(t)
  {
    var field := FieldLine(ContentLengthStem, Decimal(|body|));
    var h := RequestHead("POST", url, version, field);
    RequestHeadShape("POST", url, version, field);
    HeadThenRest(h, body, t);
    var s1 := ReadUntil([Chunk(Utf8(h) + body)] + t, CrLfCrLfBytes).rest;
    PostBodyRead(url, version, body, s1, t);
  }

  /** After the header of a POST, the body of the declared length is read. */
  lemma PostBodyRead(url: string, version: string, body: seq<byte>, s1: Stream, t: Stream)
    requires |body| <= MaxInt32 && Dense(s1) && Flatten(s1) == body + Flatten(t)
    requires RequestWellFormed("POST", url, version, FieldLine(ContentLengthStem, Decimal(|body|)))
    ensures var h := RequestHead("POST", url, version, FieldLine(ContentLengthStem, Decimal(|body|)));
      var r := RequestAfter(h, s1);
      && r.Success? && r.value.verb == "POST" && r.value.url == url + "?" + Decode(body)
      && Flatten(r.value.rest) == Flatten(t)
  {
    var field := FieldLine(ContentLengthStem, Decimal(|body|));
    RequestHeadLine("POST", url, version, field);
    ContentLengthRoundTrip(url, version, |body|);
    DenseRead(|body|, body, t, s1);
    assert body[..|body|] == body && body[|body|..] == [];
    assert Flatten(s1)[..|body|] == body && Flatten(s1)[|body|..] == Flatten(t);
  }

  // ---------------------------------------------------------------------
  // The device command

  /** The one URL the proxy rewrites: the camera snapshot becomes the
      device's mobile-sized image. */
  function DeviceUrl(url: string): (r: string)
    ensures r != url <==> url == "/snapshot.cgi"
    ensures r == "/mobile.jpg" <==> url == "/snapshot.cgi" || url == "/mobile.jpg"
  {
    if url == "/snapshot.cgi" then "/mobile.jpg" else url
  }

  /** `RequestHttpUrlCmd` around its two holes, element by element. */
  const UrlCommandHead: string :=
    "<param>" + "<code value=\"1080\" />" + "<media value=\"4\" />" + "</param>"
    + "<param>" + "<code value=\"1100\" />" + "<url value=\""
  const UrlCommandMiddle: string := "\" />" + "<auth value=\""
  const UrlCommandTail: string := "\" />" + "</param>"

  /** `string.Format(RequestHttpUrlCmd, url, auth)`. */
  function UrlCommand(url: string, auth: string): (c: string)
    ensures |c| > 0 && c[0] == '<'
  {
    UrlCommandHead + url + UrlCommandMiddle + auth + UrlCommandTail
  }

  /** An ASCII URL and credential make an ASCII command, whose frame as
      written declares its length correctly. */
  lemma UrlCommandFramed(url: string, auth: string)
    requires IsAscii(url) && IsAscii(auth)
    ensures IsAscii(UrlCommand(url, auth))
    ensures CommandMessageAsWritten(UrlCommand(url, auth)) == CommandMessage(UrlCommand(url, auth))
  {
    TemplateAscii();
    AsciiConcat(UrlCommandHead, url);
    AsciiConcat(UrlCommandHead + url, UrlCommandMiddle);
    AsciiConcat(UrlCommandHead + url + UrlCommandMiddle, auth);
    AsciiConcat(UrlCommandHead + url + UrlCommandMiddle + auth, UrlCommandTail);
    AsciiCommandMessage(UrlCommand(url, auth));
  }

  lemma TemplateAscii()
    ensures IsAscii(UrlCommandHead) && IsAscii(UrlCommandMiddle) && IsAscii(UrlCommandTail)
  {
    var p, q := "<param>", "</param>";
    var c1, m, c2, u := "<code value=\"1080\" />", "<media value=\"4\" />", "<code value=\"1100\" />", "<url value=\"";
    assert IsAscii(p) && IsAscii(q) && IsAscii(u);
    assert IsAscii(c1);
    assert IsAscii(m);
    assert IsAscii(c2);
    AsciiConcat(p, c1);
    AsciiConcat(p + c1, m);
    AsciiConcat(p + c1 + m, q);
    AsciiConcat(p + c1 + m + q, p);
    AsciiConcat(p + c1 + m + q + p, c2);
    AsciiConcat(p + c1 + m + q + p + c2, u);
    var e, a := "\" />", "<auth value=\"";
    assert IsAscii(e) && IsAscii(a);
    AsciiConcat(e, a);
    AsciiConcat(e, q);
  }

  /** A POST body with a byte outside ASCII puts a character outside ASCII
      into the command: its frame as written declares fewer bytes than it
      carries, and the reader leaves the surplus on the stream. */
  lemma PostBytesOverrunFrame(url: string, body: seq<byte>, auth: string, i: nat, t: Stream)
    requires i < |body| && body[i] >= 0x80 && Dense(t)
    requires |Utf8(UrlCommand(url + "?" + Decode(body), auth))| <= MaxInt32
    ensures var c := UrlCommand(url + "?" + Decode(body), auth);
      var r := ReceivePnv([Chunk(CommandMessageAsWritten(c))] + t);
      r.Some? && |Flatten(r.value.rest)| > |Flatten(t)|
  {
    var u := url + "?" + Decode(body);
    CommandHoldsUrl(u, auth);
    AsciiParts(url + "?", Decode(body));
    assert Decode(body)[i] == '\U{FFFD}';
    AsWrittenLeavesSurplus(UrlCommand(u, auth), t);
  }

  /** An ASCII command holds an ASCII URL. */
  lemma CommandHoldsUrl(url: string, auth: string)
    ensures IsAscii(UrlCommand(url, auth)) ==> IsAscii(url)
  {
    var h, m := UrlCommandHead, UrlCommandMiddle;
    AsciiParts(h + url + m + auth, UrlCommandTail);
    AsciiParts(h + url + m, auth);
    AsciiParts(h + url, m);
    AsciiParts(h, url);
  }

  // ---------------------------------------------------------------------
  // The response to the browser

  const CacheControl: string := "Cache-Control: public, max-age=86400"

  /** Scripts and style sheets may be cached by the browser. */
  predicate Cacheable(url: string) {
    Contains(url, ".js") || Contains(url, ".css")
  }

  /** The device's header block, with a caching field put before every blank
      line when the URL is cacheable. */
  function WithCaching(url: string, headers: string): (r: string)
    ensures !Cacheable(url) ==> r == headers
  {
    if Cacheable(url) then Replace(headers, CrLfCrLf, "\r\n" + CacheControl + CrLfCrLf) else headers
  }

  /** A header block that ends at its only blank line gains exactly one
      caching field, as its last line. */
  lemma CachingAddsField(url: string, h: string)
    requires Cacheable(url) && IndexOf(h + CrLfCrLf, CrLfCrLf) == |h|
    ensures WithCaching(url, h + CrLfCrLf) == h + "\r\n" + CacheControl + CrLfCrLf
  {
    assert "\r\n" + CacheControl + CrLfCrLf == ("\r\n" + CacheControl) + CrLfCrLf;
    ReplaceOnlySuffix(h, CrLfCrLf, "\r\n" + CacheControl + CrLfCrLf);
  }

  /** A header block without a blank line (the three characters the tunnel
      keeps when the device sent none) passes unchanged. */
  lemma CachingNeedsBlankLine(url: string, h: string)
    requires !Contains(h, CrLfCrLf)
    ensures WithCaching(url, h) == h
  {
    if Cacheable(url) {
      ReplaceAbsent(h, CrLfCrLf, "\r\n" + CacheControl + CrLfCrLf);
    }
  }

  /** The test is a substring test: a JSON document is cached as a script. */
  lemma JsonIsCacheable(url: string)
    requires Contains(url, ".json")
    ensures Cacheable(url)
  {
    var j := IndexOf(url, ".json");
    assert url[j..j + 3] == url[j..j + 5][..3] == ".js";
    assert OccursAt(url, ".js", j);
  }

  /** The bytes written to the browser as the code writes them: the UTF-8
      header bytes, cut to `headers.Length` (UTF-16 units), then the body. */
  function ResponseBytesAsWritten(headers: string, body: seq<byte>): (w: seq<byte>)
    ensures |w| == Utf16Length(headers) + |body|
  {
    Utf16BelowUtf8(headers);
    Utf8(headers)[..Utf16Length(headers)] + body
  }

  /** The bytes meant to be written: all the header bytes, then the body. */
  function ResponseBytes(headers: string, body: seq<byte>): (w: seq<byte>)
    ensures |w| == |Utf8(headers)| + |body|
  {
    Utf8(headers) + body
  }

  /** The two agree on ASCII headers, and only there. */
  lemma ResponseAsWrittenAscii(headers: string, body: seq<byte>)
    ensures ResponseBytesAsWritten(headers, body) == ResponseBytes(headers, body) <==> IsAscii(headers)
  {
    Utf16BelowUtf8(headers);
    var u := Utf8(headers);
    if IsAscii(headers) {
      assert u[..|u|] == u;
    } else {
      assert |ResponseBytesAsWritten(headers, body)| < |ResponseBytes(headers, body)|;
    }
  }

  /** The replacement character U+FFFD, which decoding gives for a byte of
      0x80 or above: one UTF-16 unit, three UTF-8 bytes. */
  const Replacement: char := '\U{FFFD}'

  lemma ReplacementCodes()
    ensures Utf8([Replacement]) == [0xEF, 0xBF, 0xBD]
    ensures Utf16Length([Replacement]) == 1
    ensures Decode([0x80]) == [Replacement]
  {
    EncodeReplacement();
    assert Utf8([Replacement]) == EncodeChar(Replacement) + Utf8([]);
  }

  lemma EncodeReplacement()
    ensures EncodeChar(Replacement) == [0xEF, 0xBF, 0xBD]
  {
    var n := Replacement as int;
    assert n == 0xFFFD;
    assert n / 0x1000 == 0xF && n / 0x40 % 0x40 == 0x3F && n / 1 % 0x40 == 0x3D;
    assert Lead(0xE0, n, 0x1000, 0x10) == 0xEF;
    assert Continuation(n, 0x40) == 0xBF;
    assert Continuation(n, 1) == 0xBD;
  }

  /** A device header holding a lone byte 0x80 decodes with U+FFFD in its
      place. */
  lemma InvalidByteDecodes(a: string)
    requires IsAscii(a)
    ensures Decode(Utf8(a) + [0x80] + CrLfCrLfBytes) == a + [Replacement] + CrLfCrLf
  {
    ReplacementCodes();
    TerminatorCodes();
    DecodeAppend(Utf8(a) + [0x80], CrLfCrLfBytes);
    DecodeAppend(Utf8(a), [0x80]);
    DecodeUtf8(a);
  }

  /** As written, such a header reaches the browser without its blank
      line: U+FFFD re-encodes to three bytes but counts one unit, so the cut
      to `headers.Length` drops the last two bytes, CR LF, of the
      terminator, and the body follows the first CR LF directly. */
  lemma InvalidByteCutsBlankLine(a: string, body: seq<byte>)
    requires IsAscii(a)
    ensures ResponseBytesAsWritten(a + [Replacement] + CrLfCrLf, body)
         == Utf8(a) + [0xEF, 0xBF, 0xBD, 0x0D, 0x0A] + body
  {
    ReplacementSizes(a);
    CutTerminator(Utf8(a));
  }

  /** Five bytes into U+FFFD and the terminator end after its first CR LF. */
  lemma CutTerminator(x: seq<byte>)
    ensures (x + [0xEF, 0xBF, 0xBD] + CrLfCrLfBytes)[..|x| + 5] == x + [0xEF, 0xBF, 0xBD, 0x0D, 0x0A]
  {
  }

  lemma ReplacementSizes(a: string)
    requires IsAscii(a)
    ensures Utf8(a + [Replacement] + CrLfCrLf) == Utf8(a) + [0xEF, 0xBF, 0xBD] + CrLfCrLfBytes
    ensures Utf16Length(a + [Replacement] + CrLfCrLf) == |Utf8(a)| + 5
  {
    ReplacementBytes(a);
    ReplacementUnits(a);
  }

  lemma ReplacementBytes(a: string)
    ensures Utf8(a + [Replacement] + CrLfCrLf) == Utf8(a) + [0xEF, 0xBF, 0xBD] + CrLfCrLfBytes
  {
    ReplacementCodes();
    TerminatorCodes();
    Utf8Append(a + [Replacement], CrLfCrLf);
    Utf8Append(a, [Replacement]);
  }

  lemma ReplacementUnits(a: string)
    requires IsAscii(a)
    ensures Utf16Length(a + [Replacement] + CrLfCrLf) == |Utf8(a)| + 5
  {
    ReplacementCodes();
    Utf16Append(a + [Replacement], CrLfCrLf);
    Utf16Append(a, [Replacement]);
    assert IsAscii(CrLfCrLf);
  }

  /** Written in full, an ASCII header block that ends at its first blank
      line reaches the browser cut where the device's reply was cut: the
      browser reads back the same header block and the same body. */
  lemma ResponseReadsBack(h: string, body: seq<byte>)
    requires IsAscii(h) && |h| >= 4 && IndexOf(h, CrLfCrLf) == |h| - 4
    ensures ParseHttp(ResponseBytes(h, body)) == ParseHeaders(h, body)
  {
    ParseCut(h, body);
  }

  /** Written in full, any header block keeps its terminator: the bytes
      before the body are exactly the UTF-8 encoding of the whole block. */
  lemma ResponseKeepsBlankLine(h: string, body: seq<byte>)
    ensures var w := ResponseBytes(h + CrLfCrLf, body);
      w == Utf8(h) + CrLfCrLfBytes + body && EndsWith(w[..|w| - |body|], CrLfCrLfBytes)
  {
    Utf8Append(h, CrLfCrLf);
    TerminatorCodes();
    var w := ResponseBytes(h + CrLfCrLf, body);
    assert w[..|w| - |body|] == Utf8(h) + CrLfCrLfBytes;
  }

  // ---------------------------------------------------------------------
  // One browser request

  /** What serving one request produces: the command sent to the device,
      the bytes written back to the browser, and the browser connection
      after the request. */
  datatype Served = Served(command: string, written: seq<byte>, rest: Stream)

  /** One turn of the proxy loop. The device exchange (the reconnecting
      tunnel request) is the parameter `fetch`; None when it throws. The
      header block is written as the code writes it, cut to its UTF-16
      length, which keeps every byte only when it is ASCII. */
  function Serve(s: Stream, auth: string, fetch: string -> Option<HttpReply>): (r: Result<Served, ProxyError>)
    ensures ReadRequest(s).Failure? ==> r == Failure(ReadRequest(s).error)
    ensures ReadRequest(s).Success? ==>
      var url := DeviceUrl(ReadRequest(s).value.url);
      var command := UrlCommand(url, auth);
      && (fetch(command).None? <==> r == Failure(DeviceFailed))
      && (r.Success? ==>
            && r.value.command == command
            && r.value.written == ResponseBytesAsWritten(WithCaching(url, fetch(command).value.headers), fetch(command).value.body)
            && (IsAscii(WithCaching(url, fetch(command).value.headers)) ==>
                  r.value.written == ResponseBytes(WithCaching(url, fetch(command).value.headers), fetch(command).value.body))
            && r.value.rest == ReadRequest(s).value.rest)
  {
    match ReadRequest(s)
    case Failure(e) => Failure(e)
    case Success(req) =>
      var url := DeviceUrl(req.url);
      var command := UrlCommand(url, auth);
      match fetch(command)
      case None => Failure(DeviceFailed)
      case Some(reply) =>
        ResponseAsWrittenAscii(WithCaching(url, reply.headers), reply.body);
        Success(Served(command, ResponseBytesAsWritten(WithCaching(url, reply.headers), reply.body), req.rest))
  }

  /** A browser asking for the snapshot gets the device asked for its
      mobile image. */
  lemma SnapshotServed(version: string, field: string, p: seq<byte>, t: Stream,
                       auth: string, fetch: string -> Option<HttpReply>)
    requires RequestWellFormed("GET", "/snapshot.cgi", version, field) && Dense(t)
    requires fetch(UrlCommand("/mobile.jpg", auth)).Some?
    ensures var r := Serve([Chunk(Utf8(RequestHead("GET", "/snapshot.cgi", version, field)) + p)] + t, auth, fetch);
      r.Success? && r.value.command == UrlCommand("/mobile.jpg", auth)
  {
    NonPostRoundTrip("GET", "/snapshot.cgi", version, field, p, t);
  }
}
