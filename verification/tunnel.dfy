/** The HTTP tunnel of the relay connection (`TcpSendAndReceiveHttp`).
    After a URL request the relay answers with a 12-byte binary preamble
    whose first four bytes give, little-endian, the length of the plain
    (unencrypted) HTTP response that follows it. The response is cut at its
    first blank line into header text and body bytes, and the status code
    and content type are picked out of the header text. */
module Tunnel {
  import opened Wrappers
  import opened Text
  import opened Framing

  const PreambleLength: nat := 12

  // ---------------------------------------------------------------------
  // The length in the preamble

  /** A byte's value as a number. */
  function Val(b: byte): (v: nat)
    ensures v < 0x100 && v == b as nat
  {
    b as nat
  }

  lemma ByteOfVal(b: byte)
    ensures ByteOf(Val(b)) == b
  {
  }

  function Base256(p0: nat, p1: nat, p2: nat, p3: nat): nat {
    p0 + 0x100 * (p1 + 0x100 * (p2 + 0x100 * p3))
  }

  /** The four length bytes read as an unsigned little-endian number. */
  function Unsigned(pre: seq<byte>): (u: nat)
    requires |pre| >= 4
    ensures u <= 0xFFFF_FFFF
  {
    Base256(Val(pre[0]), Val(pre[1]), Val(pre[2]), Val(pre[3]))
  }

  /** C# `int` reading of 32 bits: bit 31 is the sign. */
  function Signed(u: nat): (n: int)
    requires u <= 0xFFFF_FFFF
    ensures MinInt32 <= n <= MaxInt32
  {
    if u > MaxInt32 then u - 0x1_0000_0000 else u
  }

  /** The 32 bits of a C# `int`. */
  function Wrap(n: int): (u: nat)
    requires MinInt32 <= n <= MaxInt32
    ensures u <= 0xFFFF_FFFF && Signed(u) == n
  {
    if n < 0 then n + 0x1_0000_0000 else n
  }

  lemma WrapSigned(u: nat)
    requires u <= 0xFFFF_FFFF
    ensures Wrap(Signed(u)) == u
  {
  }

  /** `binPre[0] + (binPre[1] << 8) + (binPre[2] << 16) + (binPre[3] << 24)`
      in C# `int` arithmetic: the last shift pushes bit 7 of the fourth byte
      into the sign bit, so the sum is the two's-complement reading. */
  function TunnelLength(pre: seq<byte>): (n: int)
    requires |pre| >= 4
    ensures MinInt32 <= n <= MaxInt32
    ensures n < 0 <==> Val(pre[3]) >= 0x80
  {
    Signed(Unsigned(pre))
  }

  function LittleEndian(u: nat): (b: seq<byte>)
    requires u <= 0xFFFF_FFFF
    ensures |b| == 4
  {
    [ByteOf(u % 0x100), ByteOf(u / 0x100 % 0x100), ByteOf(u / 0x100 / 0x100 % 0x100), ByteOf(u / 0x100 / 0x100 / 0x100)]
  }

  /** The four bytes a relay writes for a length `n`. */
  function LengthBytes(n: int): (b: seq<byte>)
    requires MinInt32 <= n <= MaxInt32
    ensures |b| == 4
  {
    LittleEndian(Wrap(n))
  }

  /** Every 32-bit length survives the preamble, whatever follows it. */
  lemma LengthRoundTrip(n: int, more: seq<byte>)
    requires MinInt32 <= n <= MaxInt32
    ensures TunnelLength(LengthBytes(n) + more) == n
  {
    var u := Wrap(n);
    var b := LengthBytes(n) + more;
    assert Unsigned(b) == Unsigned(LittleEndian(u));
    Recompose(u);
  }

  lemma Recompose(u: nat)
    requires u <= 0xFFFF_FFFF
    ensures Unsigned(LittleEndian(u)) == u
  {
  }

  /** And every preamble is the encoding of the length read from it: the
      reading is one-to-one on the four length bytes. */
  lemma LengthBytesOf(pre: seq<byte>)
    requires |pre| >= 4
    ensures LengthBytes(TunnelLength(pre)) == pre[..4]
  {
    var u := Unsigned(pre);
    WrapSigned(u);
    BytesOfDigits(u, Val(pre[0]), Val(pre[1]), Val(pre[2]), Val(pre[3]));
    ByteOfVal(pre[0]);
    ByteOfVal(pre[1]);
    ByteOfVal(pre[2]);
    ByteOfVal(pre[3]);
    assert pre[..4] == [pre[0], pre[1], pre[2], pre[3]];
  }

  lemma BytesOfDigits(u: nat, p0: nat, p1: nat, p2: nat, p3: nat)
    requires p0 < 0x100 && p1 < 0x100 && p2 < 0x100 && p3 < 0x100
    requires u == Base256(p0, p1, p2, p3)
    ensures u <= 0xFFFF_FFFF
    ensures LittleEndian(u) == [ByteOf(p0), ByteOf(p1), ByteOf(p2), ByteOf(p3)]
  {
    Digits(u, p0, p1, p2, p3);
  }
  lemma Digits(u: nat, p0: nat, p1: nat, p2: nat, p3: nat)
    requires p0 < 0x100 && p1 < 0x100 && p2 < 0x100
    requires u == Base256(p0, p1, p2, p3)
    ensures u % 0x100 == p0 && u / 0x100 % 0x100 == p1
    ensures u / 0x100 / 0x100 % 0x100 == p2 && u / 0x100 / 0x100 / 0x100 == p3
  {
    DivStep(p0, p1 + 0x100 * (p2 + 0x100 * p3));
    DivStep(p1, p2 + 0x100 * p3);
    DivStep(p2, p3);
  }
  lemma DivStep(lo: nat, hi: nat)
    requires lo < 0x100
    ensures (lo + 0x100 * hi) / 0x100 == hi && (lo + 0x100 * hi) % 0x100 == lo
  {
  }

  // ---------------------------------------------------------------------
  // The HTTP response

  datatype HttpReply = HttpReply(headers: string, body: seq<byte>, status: string, contentType: string)

  /** The ways the tunnel read throws. */
  datatype TunnelError =
    | PreambleLost(cause: ReadError)  // the 12-byte preamble read failed
    | ResponseLost(cause: ReadError)  // the response read failed (a negative length too)
    | HeadersOverrun                  // `Substring(0, bodyIdx)` past the end of the text
    | NoStatus                        // no second space-separated token in the headers
    | NoContentType                   // the content type is null and is then used

  /** `headers.Split('\n').Select(h => h.Trim('\r'))`. */
  function HeaderLines(headers: string): (lines: seq<string>)
    ensures |lines| == |Split(headers, '\n')|
  {
    TrimEach(Split(headers, '\n'), '\r')
  }

  /** Every piece with `c` trimmed off both ends, in order. */
  function TrimEach(parts: seq<string>, c: char): (r: seq<string>)
    ensures |r| == |parts|
    decreases |parts|
  {
    if |parts| == 0 then [] else [TrimChar(parts[0], c)] + TrimEach(parts[1..], c)
  }

  /** The position of the first line starting with `prefix`, or -1. */
  function FirstStartingAt(lines: seq<string>, prefix: string): (k: int)
    ensures -1 <= k < |lines|
    ensures k >= 0 ==> StartsWith(lines[k], prefix)
    ensures forall j :: 0 <= j < |lines| && (k < 0 || j < k) ==> !StartsWith(lines[j], prefix)
  {
    if |lines| == 0 then -1
    else if StartsWith(lines[0], prefix) then 0
    else
      var k := FirstStartingAt(lines[1..], prefix);
      assert forall j :: 1 <= j < |lines| ==> lines[j] == lines[1..][j - 1];
      if k < 0 then -1 else k + 1
  }

  /** `.Where(h => h.StartsWith(prefix)).FirstOrDefault()`. */
  function FirstStarting(lines: seq<string>, prefix: string): (r: Option<string>)
    ensures r.Some? ==> StartsWith(r.value, prefix)
    ensures r.Some? ==> exists k :: (0 <= k < |lines| && r.value == lines[k] &&
                                     forall j :: 0 <= j < k ==> !StartsWith(lines[j], prefix))
    ensures r.None? <==> forall j :: 0 <= j < |lines| ==> !StartsWith(lines[j], prefix)
  {
    var k := FirstStartingAt(lines, prefix);
    if k < 0 then None else Some(lines[k])
  }

  /** The value of the first header line starting with `name`: whatever
      follows its last ':', without surrounding spaces; null when no line
      starts with `name`. */
  function HeaderValue(headers: string, name: string): (v: Option<string>)
    ensures v.None? <==> FirstStarting(HeaderLines(headers), name).None?
    ensures v.Some? ==>
      var fields := Split(FirstStarting(HeaderLines(headers), name).value, ':');
      v.value == TrimChar(fields[|fields| - 1], ' ')
    ensures v.Some? ==> ':' !in v.value
  {
    var first := FirstStarting(HeaderLines(headers), name);
    if first.None? then None
    else
      var fields := Split(first.value, ':');
      var v := TrimChar(fields[|fields| - 1], ' ');
      TrimCharLacks(fields[|fields| - 1], ' ', ':');
      Some(v)
  }

  const ContentTypeStem: string := "Content-Type"
  const ContentTypeName: string := ContentTypeStem + ":"

  /** Where `TcpSendAndReceiveHttp` cuts the response text: after the first
      CR LF CR LF, or after the first three characters when there is none
      (the index search returns -1, and 4 is added to it). */
  function BodyStart(text: string): (k: int)
    ensures 3 <= k
    ensures k == 3 <==> !Contains(text, CrLfCrLf)
    ensures Contains(text, CrLfCrLf) ==> k <= |text| && IndexOf(text[..k], CrLfCrLf) == k - 4
  {
    var j := IndexOf(text, CrLfCrLf);
    if j >= 0 then
      CutAtFirst(text, j);
      j + 4
    else j + 4
  }

  /** The status code and the content type picked out of the header text. */
  function ParseHeaders(headers: string, body: seq<byte>): (r: Result<HttpReply, TunnelError>)
    ensures r.Success? ==> r.value.headers == headers && r.value.body == body
    ensures r.Success? ==> ' ' !in r.value.status && ':' !in r.value.contentType
    ensures r == Failure(NoStatus) <==> ' ' !in headers
    ensures r == Failure(NoContentType) <==> ' ' in headers && HeaderValue(headers, ContentTypeName).None?
    ensures r.Failure? ==> r == Failure(NoStatus) || r == Failure(NoContentType)
  {
    var tokens := Split(headers, ' ');
    if |tokens| < 2 then Failure(NoStatus)
    else match HeaderValue(headers, ContentTypeName)
      case None => Failure(NoContentType)
      case Some(ct) => Success(HttpReply(headers, body, tokens[1], ct))
  }

  /** The whole parse of a response read through the tunnel. */
  function ParseHttp(msg: seq<byte>): (r: Result<HttpReply, TunnelError>)
    ensures r == Failure(HeadersOverrun) <==> |msg| < 3
    ensures r.Success? ==> |r.value.headers| <= |msg|
    ensures r.Success? ==> r.value.headers == Decode(msg[..|r.value.headers|])
    ensures r.Success? ==> r.value.body == msg[|r.value.headers|..]
    ensures r.Success? && !Contains(Decode(msg), CrLfCrLf) ==> |r.value.headers| == 3
    ensures r.Success? && Contains(Decode(msg), CrLfCrLf) ==>
      IndexOf(r.value.headers, CrLfCrLf) == |r.value.headers| - 4
  {
    var text := Decode(msg);
    var k := BodyStart(text);
    if k > |text| then Failure(HeadersOverrun)
    else
      DecodePrefix(msg, k);
      ParseHeaders(text[..k], msg[k..])
  }

  lemma DecodePrefix(msg: seq<byte>, k: nat)
    requires k <= |msg|
    ensures Decode(msg)[..k] == Decode(msg[..k])
  {
  }

  /** The first occurrence is still the first one once the text after it is
      cut away. */
  lemma CutAtFirst(text: string, j: nat)
    requires IndexOf(text, CrLfCrLf) == j
    ensures IndexOf(text[..j + 4], CrLfCrLf) == j
  {
    var h := text[..j + 4];
    assert h[j..j + 4] == text[j..j + 4];
    assert OccursAt(h, CrLfCrLf, j);
    forall i | 0 <= i < j
      ensures !OccursAt(h, CrLfCrLf, i)
    {
      assert h[i..i + 4] == text[i..i + 4];
      assert !OccursAt(text, CrLfCrLf, i);
    }
  }

  // ---------------------------------------------------------------------
  // The whole read

  datatype Received = Received(reply: HttpReply, rest: Stream)

  /** The bytes of `f` start with a preamble declaring a length that fits. */
  predicate Declares(f: seq<byte>) {
    && PreambleLength <= |f|
    && 0 <= TunnelLength(f[..PreambleLength])
    && PreambleLength + TunnelLength(f[..PreambleLength]) <= |f|
  }

  /** The response bytes the preamble of `f` declares. */
  function Declared(f: seq<byte>): seq<byte>
    requires Declares(f)
  {
    f[PreambleLength..PreambleLength + TunnelLength(f[..PreambleLength])]
  }

  /** What follows the declared response. */
  function Following(f: seq<byte>): seq<byte>
    requires Declares(f)
  {
    f[PreambleLength + TunnelLength(f[..PreambleLength])..]
  }

  /** Reading one tunnelled response: the preamble, then as many bytes as it
      declares, then the parse. */
  function ReceiveHttp(s: Stream): (r: Result<Received, TunnelError>)
    ensures r.Success? ==> Declares(Flatten(s))
    ensures r.Success? ==> ParseHttp(Declared(Flatten(s))) == Success(r.value.reply)
    ensures r.Success? ==> Flatten(r.value.rest) == Following(Flatten(s))
  {
    match ReadExact(s, PreambleLength)
    case Broke(e, _) => Failure(PreambleLost(e))
    case Got(pre, s1) =>
      match ReadExact(s1, TunnelLength(pre))
      case Broke(e, _) => Failure(ResponseLost(e))
      case Got(msg, s2) =>
        match ParseHttp(msg)
        case Failure(e) => Failure(e)
        case Success(reply) =>
          ReceiveLayout(Flatten(s), pre, msg, Flatten(s2));
          Success(Received(reply, s2))
  }

  lemma ReceiveLayout(f: seq<byte>, pre: seq<byte>, msg: seq<byte>, tail: seq<byte>)
    requires f == pre + (msg + tail) && |pre| == PreambleLength && TunnelLength(pre) == |msg|
    ensures Declares(f) && Declared(f) == msg && Following(f) == tail
  {
    assert f[..PreambleLength] == pre;
  }

  /** A preamble that declares a negative length makes the response read
      throw before any parsing. */
  lemma NegativeLengthFails(s: Stream)
    requires ReadExact(s, PreambleLength).Got?
    requires TunnelLength(ReadExact(s, PreambleLength).value) < 0
    ensures ReceiveHttp(s) == Failure(ResponseLost(NegativeCount))
  {
  }

  // ---------------------------------------------------------------------
  // Round trip

  /** The minimal header block of a reply: a status line and the content
      type, closed by the blank line. */
  function HttpHeaders(version: string, code: string, reason: string, contentType: string): string {
    StatusLine(version, code, reason) + "\r\n" + ContentTypeLine(contentType) + CrLfCrLf
  }

  function StatusLine(version: string, code: string, reason: string): string {
    version + " " + code + " " + reason
  }

  function ContentTypeLine(contentType: string): string {
    FieldLine(ContentTypeStem, contentType)
  }

  /** A header line `Name: value`. */
  function FieldLine(stem: string, v: string): string {
    stem + ":" + " " + v
  }

  /** The relay's frame around an HTTP response: the length bytes, eight more
      preamble bytes, the response. */
  function TunnelFrame(pad: seq<byte>, msg: seq<byte>): (f: seq<byte>)
    requires |pad| == 8 && |msg| <= MaxInt32
    ensures |f| == PreambleLength + |msg|
  {
    LengthBytes(|msg|) + pad + msg
  }

  /** What a well-formed header block has to satisfy. */
  predicate WellFormed(version: string, code: string, reason: string, contentType: string) {
    && IsAscii(version) && IsAscii(code) && IsAscii(reason) && IsAscii(contentType)
    && ' ' !in version && ':' !in version && ' ' !in code
    && '\r' !in version && '\r' !in code && '\r' !in reason && '\r' !in contentType
    && '\n' !in version && '\n' !in code && '\n' !in reason && '\n' !in contentType
    && ':' !in contentType && |contentType| > 0
    && contentType[0] != ' ' && contentType[|contentType| - 1] != ' '
  }

  /** Round trip: a response framed by the relay is read back as its header
      block, its body, the status code and the content type, and the stream
      continues after it. */
  lemma HttpRoundTrip(version: string, code: string, reason: string, contentType: string,
                      body: seq<byte>, pad: seq<byte>, t: Stream)
    requires WellFormed(version, code, reason, contentType)
    requires |pad| == 8 && Dense(t)
    requires |Utf8(HttpHeaders(version, code, reason, contentType)) + body| <= MaxInt32
    ensures var h := HttpHeaders(version, code, reason, contentType);
      var r := ReceiveHttp([Chunk(TunnelFrame(pad, Utf8(h) + body))] + t);
      && r.Success?
      && r.value.reply == HttpReply(h, body, code, contentType)
      && Flatten(r.value.rest) == Flatten(t)
  {
    var h := HttpHeaders(version, code, reason, contentType);
    ParseReply(version, code, reason, contentType, body);
    TunnelRead(pad, Utf8(h) + body, t);
  }

  /** The framing is transparent: a framed response on a dense stream parses
      exactly as the response bytes alone do. */
  lemma TunnelRead(pad: seq<byte>, msg: seq<byte>, t: Stream)
    requires |pad| == 8 && |msg| <= MaxInt32 && Dense(t)
    ensures var r := ReceiveHttp([Chunk(TunnelFrame(pad, msg))] + t);
      && (ParseHttp(msg).Failure? ==> r == Failure(ParseHttp(msg).error))
      && (ParseHttp(msg).Success? ==>
            r.Success? && r.value.reply == ParseHttp(msg).value && Flatten(r.value.rest) == Flatten(t))
  {
    var s := [Chunk(TunnelFrame(pad, msg))] + t;
    PreambleRead(pad, msg, t);
    var s1 := ReadExact(s, PreambleLength).rest;
    DenseRead(|msg|, msg, t, s1);
    assert msg[..|msg|] == msg && msg[|msg|..] == [];
  }

  /** The first read takes the preamble, which declares the response length. */
  lemma PreambleRead(pad: seq<byte>, msg: seq<byte>, t: Stream)
    requires |pad| == 8 && |msg| <= MaxInt32 && Dense(t)
    ensures var rd := ReadExact([Chunk(TunnelFrame(pad, msg))] + t, PreambleLength);
      && rd.Got? && TunnelLength(rd.value) == |msg|
      && Dense(rd.rest) && Flatten(rd.rest) == msg + Flatten(t)
  {
    var frame := TunnelFrame(pad, msg);
    var s := [Chunk(frame)] + t;
    assert Flatten(s) == frame + Flatten(t);
    var pre := LengthBytes(|msg|) + pad;
    assert frame == pre + msg;
    DenseRead(PreambleLength, frame, t, s);
    assert frame[..PreambleLength] == pre && frame[PreambleLength..] == msg;
    LengthRoundTrip(|msg|, pad);
  }

  /** The parse half of the round trip. */
  lemma ParseReply(version: string, code: string, reason: string, contentType: string, body: seq<byte>)
    requires WellFormed(version, code, reason, contentType)
    ensures var h := HttpHeaders(version, code, reason, contentType);
      ParseHttp(Utf8(h) + body) == Success(HttpReply(h, body, code, contentType))
  {
    var a := StatusLine(version, code, reason);
    var b := ContentTypeLine(contentType);
    var h := HttpHeaders(version, code, reason, contentType);
    AsciiHeaders(version, code, reason, contentType);
    FirstBlankLine(a, b);
    ParseCut(h, body);
    StatusToken(version, code, reason, b);
    ContentTypeFound(version, code, reason, contentType);
  }

  /** An ASCII header block that ends with its first blank line is cut off
      exactly, whatever body bytes follow it. */
  lemma ParseCut(h: string, body: seq<byte>)
    requires IsAscii(h) && |h| >= 4 && IndexOf(h, CrLfCrLf) == |h| - 4
    ensures ParseHttp(Utf8(h) + body) == ParseHeaders(h, body)
  {
    var msg := Utf8(h) + body;
    DecodeAppend(Utf8(h), body);
    DecodeUtf8(h);
    var text := Decode(msg);
    assert text == h + Decode(body);
    IndexOfPrefix(h, Decode(body), CrLfCrLf, |h| - 4);
    assert text[..|h|] == h;
    assert msg[..|h|] == Utf8(h) && msg[|h|..] == body;
  }

  lemma AsciiHeaders(version: string, code: string, reason: string, contentType: string)
    requires WellFormed(version, code, reason, contentType)
    ensures IsAscii(HttpHeaders(version, code, reason, contentType))
  {
    var h := HttpHeaders(version, code, reason, contentType);
    var a := StatusLine(version, code, reason);
    AsciiConcat(version, " ");
    AsciiConcat(version + " ", code);
    AsciiConcat(version + " " + code, " ");
    AsciiConcat(version + " " + code + " ", reason);
    AsciiConcat(ContentTypeName, " ");
    AsciiConcat(ContentTypeName + " ", contentType);
    AsciiConcat(a, "\r\n");
    AsciiConcat(a + "\r\n", ContentTypeLine(contentType));
    AsciiConcat(a + "\r\n" + ContentTypeLine(contentType), CrLfCrLf);
  }

  /** With no CR inside the two lines, the blank line ends the block. */
  lemma FirstBlankLine(a: string, b: string)
    requires '\r' !in a && '\r' !in b && |b| > 0
    ensures IndexOf(a + "\r\n" + b + CrLfCrLf, CrLfCrLf) == |a| + |b| + 2
  {
    var h := a + "\r\n" + b + CrLfCrLf;
    var e := |a| + |b| + 2;
    assert h[e..e + 4] == CrLfCrLf;
    assert OccursAt(h, CrLfCrLf, e);
    forall j | 0 <= j < e
      ensures !OccursAt(h, CrLfCrLf, j)
    {
      if j < |a| {
        assert h[j] == a[j];
      } else if j == |a| {
        assert h[j + 2] == b[0];
      } else if j == |a| + 1 {
        assert h[j] == '\n';
      } else {
        assert h[j] == b[j - |a| - 2];
      }
    }
  }

  /** The second space-separated token of the block is the status code. */
  lemma StatusToken(version: string, code: string, reason: string, more: string)
    requires ' ' !in version && ' ' !in code
    ensures Split(StatusLine(version, code, reason) + "\r\n" + more + CrLfCrLf, ' ')[1] == code
  {
    var tail := reason + "\r\n" + more + CrLfCrLf;
    assert StatusLine(version, code, reason) + "\r\n" + more + CrLfCrLf
        == version + [' '] + (code + [' '] + tail);
    SplitAfter(version, ' ', code + [' '] + tail);
    SplitAfter(code, ' ', tail);
  }

  /** The content type read from the block is the one written into it. */
  lemma ContentTypeFound(version: string, code: string, reason: string, contentType: string)
    requires WellFormed(version, code, reason, contentType)
    ensures HeaderValue(HttpHeaders(version, code, reason, contentType), ContentTypeName) == Some(contentType)
  {
    var a := StatusLine(version, code, reason);
    assert a[|version|] == ' ' && a[..|version|] == version;
    LineIsNotField(a, |version|, ContentTypeName);
    FieldFound(a, ContentTypeStem, contentType);
  }

  /** The value of a field on the line after a first line that is not that
      field is found and read back. */
  lemma FieldFound(a: string, stem: string, v: string)
    requires '\r' !in a && '\n' !in a && |a| > 0 && !StartsWith(a, stem + ":")
    requires '\r' !in stem && '\n' !in stem && ':' !in stem
    requires '\r' !in v && '\n' !in v && ':' !in v && |v| > 0 && v[0] != ' ' && v[|v| - 1] != ' '
    ensures HeaderValue(a + "\r\n" + FieldLine(stem, v) + CrLfCrLf, stem + ":") == Some(v)
  {
    var b := FieldLine(stem, v);
    var h := a + "\r\n" + b + CrLfCrLf;
    FieldOnSecondLine(a, stem, v);
    FieldValue(stem, v);
    HeaderValueOf(h, stem + ":", b);
  }

  /** `HeaderValue` read from a known first matching line, kept apart so
      that the header text stays unexpanded. */
  lemma HeaderValueOf(h: string, name: string, line: string)
    requires FirstStarting(HeaderLines(h), name) == Some(line)
    ensures var fields := Split(line, ':');
      HeaderValue(h, name) == Some(TrimChar(fields[|fields| - 1], ' '))
  {
  }

  lemma FieldOnSecondLine(a: string, stem: string, v: string)
    requires '\r' !in a && '\n' !in a && |a| > 0 && !StartsWith(a, stem + ":")
    requires '\r' !in stem && '\n' !in stem && '\r' !in v && '\n' !in v
    ensures var b := FieldLine(stem, v);
      FirstStarting(HeaderLines(a + "\r\n" + b + CrLfCrLf), stem + ":") == Some(b)
  {
    var b := FieldLine(stem, v);
    FieldLineLacks(stem, v, '\r');
    FieldLineLacks(stem, v, '\n');
    FieldLineStarts(stem, v);
    SecondLineFirst(a, b, stem + ":");
  }

  /** The field on the second line is the first one with its name. */
  lemma SecondLineFirst(a: string, b: string, name: string)
    requires '\r' !in a && '\n' !in a && '\r' !in b && '\n' !in b && |a| > 0 && |b| > 0
    requires !StartsWith(a, name) && StartsWith(b, name)
    ensures FirstStarting(HeaderLines(a + "\r\n" + b + CrLfCrLf), name) == Some(b)
  {
    HeaderBlockLines(a, b);
    FirstOfTwo(HeaderLines(a + "\r\n" + b + CrLfCrLf), name);
  }

  lemma FieldLineLacks(stem: string, v: string, c: char)
    requires c !in stem && c !in v && c != ':' && c != ' '
    ensures c !in FieldLine(stem, v)
  {
  }

  lemma FieldLineStarts(stem: string, v: string)
    ensures StartsWith(FieldLine(stem, v), stem + ":")
  {
    assert FieldLine(stem, v)[..|stem + ":"|] == stem + ":";
  }

  lemma FirstOfTwo(lines: seq<string>, name: string)
    requires |lines| >= 2 && !StartsWith(lines[0], name) && StartsWith(lines[1], name)
    ensures FirstStarting(lines, name) == Some(lines[1])
  {
    assert FirstStartingAt(lines, name) == 1;
  }

  /** Split into lines and trimmed of CR, the block gives back its two lines. */
  lemma HeaderBlockLines(a: string, b: string)
    requires '\r' !in a && '\n' !in a && '\r' !in b && '\n' !in b && |a| > 0 && |b| > 0
    ensures var lines := HeaderLines(a + "\r\n" + b + CrLfCrLf);
      |lines| >= 2 && lines[0] == a && lines[1] == b
  {
    HeaderBlockSplit(a, b);
    TrimEachFirstTwo(Split(a + "\r\n" + b + CrLfCrLf, '\n'), '\r');
    TrimCharAfter(a, '\r');
    TrimCharAfter(b, '\r');
  }

  lemma TrimEachFirstTwo(parts: seq<string>, c: char)
    requires |parts| >= 2
    ensures var r := TrimEach(parts, c);
      r[0] == TrimChar(parts[0], c) && r[1] == TrimChar(parts[1], c)
  {
    assert TrimEach(parts, c) == [TrimChar(parts[0], c)] + TrimEach(parts[1..], c);
    assert TrimEach(parts[1..], c)[0] == TrimChar(parts[1], c);
  }

  lemma HeaderBlockSplit(a: string, b: string)
    requires '\n' !in a && '\n' !in b
    ensures var parts := Split(a + "\r\n" + b + CrLfCrLf, '\n');
      |parts| >= 2 && parts[0] == a + "\r" && parts[1] == b + "\r"
  {
    var x, y, rest := a + "\r", b + "\r", "\r\n";
    BlockShape(a, b);
    SplitAfter(y, '\n', rest);
    SplitAfter(x, '\n', y + ['\n'] + rest);
  }

  lemma BlockShape(a: string, b: string)
    ensures a + "\r\n" + b + CrLfCrLf == (a + "\r") + ['\n'] + ((b + "\r") + ['\n'] + "\r\n")
  {
  }

  /** A line whose first word holds no ':' cannot start with a field name
      (a word ending in ':'). */
  lemma LineIsNotField(a: string, k: nat, name: string)
    requires k < |a| && a[k] == ' ' && ':' !in a[..k]
    requires |name| > 0 && name[|name| - 1] == ':' && ' ' !in name
    ensures !StartsWith(a, name)
  {
    var n := |name|;
    if n <= |a| {
      if k < n {
        assert a[..n][k] == ' ' != name[k];
      } else {
        assert a[..n][n - 1] == a[..k][n - 1] != ':';
      }
    }
  }

  /** `Split(':').LastOrDefault().Trim(' ')` of a field line. */
  lemma FieldValue(stem: string, v: string)
    requires ':' !in stem && ':' !in v && |v| > 0 && v[0] != ' ' && v[|v| - 1] != ' '
    ensures var fields := Split(FieldLine(stem, v), ':');
      TrimChar(fields[|fields| - 1], ' ') == v
  {
    var rest := " " + v;
    assert FieldLine(stem, v) == stem + [':'] + rest;
    SplitAfter(stem, ':', rest);
    assert Split(FieldLine(stem, v), ':') == [stem, rest];
    TrimCharBefore(v, ' ');
  }
}
