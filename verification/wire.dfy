/** The envelopes the client puts on the wire (EdiManager/EdimaxControl.cs):
    the Pnv command frame sent through the relay and the reply read back,
    the relay handshake, and the UDP probe request. */
module Wire {
  import opened Wrappers
  import opened Text
  import opened Cipher
  import opened Framing
  import Decoders

  // ---------------------------------------------------------------------
  // The Pnv frame: "PnvDataLen: <n>\r\n\r\n" in clear, then n encrypted bytes

  const PnvLengthName: string := "PnvDataLen"

  /** The header text up to the terminator. */
  function PnvLead(n: nat): (t: string)
    ensures IsAscii(t)
    ensures '\r' !in t && 'r' !in t
  {
    var d := Decimal(n);
    DigitsExclude(d, '\r');
    DigitsExclude(d, 'r');
    AsciiConcat(PnvLengthName + ": ", d);
    PnvLengthName + ": " + d
  }

  /** The clear-text header of a frame whose payload is declared `n` long. */
  function PnvHeader(n: nat): (h: string)
    ensures IsAscii(h) && 'r' !in h
  {
    AsciiConcat(PnvLead(n), CrLfCrLf);
    PnvLead(n) + CrLfCrLf
  }

  /** `CreateCommandMessage` as written: the header declares `command.Length`,
      the number of UTF-16 units, while the payload is the encrypted UTF-8
      bytes. */
  function CommandMessageAsWritten(command: string): (m: seq<byte>)
    ensures |m| == |Utf8(PnvHeader(Utf16Length(command)))| + |Utf8(command)|
  {
    Utf8(PnvHeader(Utf16Length(command))) + EncryptText(command, ClientRotation)
  }

  /** The Pnv frame with the length the reader needs: the number of payload
      bytes that follow the header. For ASCII commands, which are all the
      client builds from its own templates, it is the message written above. */
  function CommandMessage(command: string): (m: seq<byte>)
    ensures |m| == |Utf8(PnvHeader(|Utf8(command)|))| + |Utf8(command)|
  {
    Utf8(PnvHeader(|Utf8(command)|)) + EncryptText(command, ClientRotation)
  }

  lemma AsciiCommandMessage(command: string)
    requires IsAscii(command)
    ensures CommandMessage(command) == CommandMessageAsWritten(command)
  {
    Utf16BelowUtf8(command);
  }

  /** The payload length a received header declares: split on the letter
      'r' and keep the first piece, split that on ':', and parse the second
      field trimmed of white space. A header with no ':' or a field that is
      not a 32-bit integer declares nothing (the C# code throws). */
  function DeclaredLength(header: string): (r: Option<int>)
    ensures r.Some? ==> MinInt32 <= r.value <= MaxInt32
    ensures ':' !in header ==> r.None?
  {
    var line := Split(header, 'r')[0];
    var fields := Split(line, ':');
    if |fields| < 2 then None
    else
      assert ':' !in header ==> false by {
        if ':' !in header {
          SplitFirstExcludes(header, 'r', ':');
        }
      }
      ParseInt32(Trim(fields[1], IsWhiteSpace))
  }

  /** A character missing from a string is missing from its first piece. */
  lemma SplitFirstExcludes(s: string, sep: char, c: char)
    requires c !in s
    ensures Split(Split(s, sep)[0], c) == [Split(s, sep)[0]]
  {
    JoinSplit(s, sep);
    var parts := Split(s, sep);
    if |parts| > 1 {
      assert s == parts[0] + [sep] + Join(parts[1..], [sep]);
    }
  }

  /** The header the client writes declares the length it was given. */
  lemma HeaderLength(n: nat)
    requires n <= MaxInt32
    ensures DeclaredLength(PnvHeader(n)) == Some(n)
  {
    var d := Decimal(n);
    var h := PnvHeader(n);
    var value := " " + d + CrLfCrLf;
    DigitsExclude(d, ':');
    assert h == Join([PnvLengthName, value], [':']);
    SplitJoin([PnvLengthName, value], ':');
    TrimAround(" ", d, CrLfCrLf, IsWhiteSpace);
    ParseDecimal(n);
  }

  /** NUL characters after the number, which `int.Parse` accepts, leave the
      declared length unchanged. */
  lemma DeclaredNulTail(n: nat, nuls: string)
    requires n <= MaxInt32
    requires forall i :: 0 <= i < |nuls| ==> nuls[i] == '\0'
    ensures DeclaredLength(PnvLengthName + ": " + Decimal(n) + nuls + CrLfCrLf) == Some(n)
  {
    NulTailField(Decimal(n), nuls);
    ParseNulTail(n, nuls);
  }

  /** The length field of such a header, trimmed: the digits and the NULs. */
  lemma NulTailField(d: string, nuls: string)
    requires |d| > 0 && AllDigits(d)
    requires forall i :: 0 <= i < |nuls| ==> nuls[i] == '\0'
    ensures var fields := Split(Split(PnvLengthName + ": " + d + nuls + CrLfCrLf, 'r')[0], ':');
      |fields| >= 2 && Trim(fields[1], IsWhiteSpace) == d + nuls
  {
    var core := d + nuls;
    var value := " " + core + CrLfCrLf;
    var h := PnvLengthName + ": " + d + nuls + CrLfCrLf;
    NulTailShape(d, nuls);
    SplitJoin([PnvLengthName, value], ':');
    assert Split(Split(h, 'r')[0], ':') == [PnvLengthName, value];
    NulTailTrim(d, nuls);
  }

  lemma NulTailTrim(d: string, nuls: string)
    requires |d| > 0 && AllDigits(d)
    requires forall i :: 0 <= i < |nuls| ==> nuls[i] == '\0'
    ensures Trim(" " + (d + nuls) + CrLfCrLf, IsWhiteSpace) == d + nuls
  {
    var core := d + nuls;
    assert core[0] == d[0];
    assert !IsWhiteSpace(core[|core| - 1]) by {
      if |nuls| > 0 {
        assert core[|core| - 1] == nuls[|nuls| - 1];
      } else {
        assert core[|core| - 1] == d[|d| - 1];
      }
    }
    TrimAround(" ", core, CrLfCrLf, IsWhiteSpace);
  }

  lemma NulTailShape(d: string, nuls: string)
    requires AllDigits(d)
    requires forall i :: 0 <= i < |nuls| ==> nuls[i] == '\0'
    ensures var value := " " + (d + nuls) + CrLfCrLf;
      var h := PnvLengthName + ": " + d + nuls + CrLfCrLf;
      && ':' !in value && Split(h, 'r') == [h] && h == Join([PnvLengthName, value], [':'])
  {
    var value := " " + (d + nuls) + CrLfCrLf;
    var h := PnvLengthName + ": " + d + nuls + CrLfCrLf;
    DigitsExclude(d, ':');
    DigitsExclude(d, 'r');
    assert h == PnvLengthName + [':'] + value;
    assert 'r' !in h;
  }

  // ---------------------------------------------------------------------
  // Reading a Pnv reply (`TcpSendAndReceivePnv`, after the request is written)

  /** A reply frame as read: its header and payload bytes, the decrypted
      payload, and the stream after it. */
  datatype PnvReply = PnvReply(header: seq<byte>, body: seq<byte>, text: string, rest: Stream)

  /** The header up to the first CR LF CR LF, the payload of the declared
      length, decrypted. Any failure on the way (the stream ends, the
      header has no usable length, the length is negative, the payload does
      not arrive) gives no reply: the C# code returns null. */
  function ReceivePnv(s: Stream): (r: Option<PnvReply>)
    ensures r.Some? ==>
      && Flatten(s) == r.value.header + r.value.body + Flatten(r.value.rest)
      && EndsWith(r.value.header, CrLfCrLfBytes)
      && (forall k :: 1 <= k < |r.value.header| ==> !EndsWith(r.value.header[..k], CrLfCrLfBytes))
      && DeclaredLength(Decode(r.value.header)) == Some(|r.value.body|)
      && r.value.text == Decrypt(r.value.body).text
    ensures ReadUntil(s, CrLfCrLfBytes).Broke? ==> r.None?
  {
    match ReadUntil(s, CrLfCrLfBytes)
    case Broke(_, _) => None
    case Got(header, afterHeader) =>
      match DeclaredLength(Decode(header))
      case None => None
      case Some(n) =>
        match ReadExact(afterHeader, n)
        case Broke(_, _) => None
        case Got(body, rest) => Some(PnvReply(header, body, Decrypt(body).text, rest))
  }

  /** A header that declares a negative length gives no reply, whatever follows. */
  lemma NegativeLengthNoReply(header: seq<byte>, s: Stream)
    requires ReadUntil(s, CrLfCrLfBytes) == Got(header, ReadUntil(s, CrLfCrLfBytes).rest)
    requires DeclaredLength(Decode(header)).Some? && DeclaredLength(Decode(header)).value < 0
    ensures ReceivePnv(s).None?
  {
  }

  /** The header bytes are the lead followed by the terminator, and the lead
      holds no carriage return. */
  lemma HeaderBytes(n: nat)
    ensures Utf8(PnvHeader(n)) == Utf8(PnvLead(n)) + CrLfCrLfBytes
    ensures forall i :: 0 <= i < |Utf8(PnvLead(n))| ==> Utf8(PnvLead(n))[i] != CrLfCrLfBytes[0]
  {
    var lead := PnvLead(n);
    Utf8Append(lead, CrLfCrLf);
    TerminatorCodes();
    forall i | 0 <= i < |Utf8(lead)|
      ensures Utf8(lead)[i] != CrLfCrLfBytes[0]
    {
      assert lead[i] in lead;
    }
  }

  /** The header bytes end with the terminator and show it nowhere earlier. */
  lemma HeaderFirstMarker(n: nat)
    ensures |Utf8(PnvHeader(n))| > 0 && EndsWith(Utf8(PnvHeader(n)), CrLfCrLfBytes)
    ensures forall k :: 1 <= k < |Utf8(PnvHeader(n))| ==> !EndsWith(Utf8(PnvHeader(n))[..k], CrLfCrLfBytes)
  {
    HeaderBytes(n);
    MarkerOnlyAtEnd(Utf8(PnvLead(n)), CrLfCrLfBytes);
  }

  /** A frame at the head of a dense stream: the marker read returns exactly
      its header. */
  lemma HeaderRead(n: nat, p: seq<byte>, t: Stream)
    requires Dense(t)
    ensures var u := ReadUntil([Chunk(Utf8(PnvHeader(n)) + p)] + t, CrLfCrLfBytes);
      && u.Got? && u.value == Utf8(PnvHeader(n))
      && Dense(u.rest) && Flatten(u.rest) == p + Flatten(t)
  {
    HeaderFirstMarker(n);
    FirstMarkerRead(Utf8(PnvHeader(n)), p, t, CrLfCrLfBytes);
  }

  /** Any frame whose header declares `n` and is followed by at least `n`
      bytes is read as those `n` bytes, leaving the rest on the stream. */
  lemma FrameRead(n: nat, p: seq<byte>, t: Stream)
    requires n <= |p| && n <= MaxInt32 && Dense(t)
    ensures var r := ReceivePnv([Chunk(Utf8(PnvHeader(n)) + p)] + t);
      && r.Some? && r.value.header == Utf8(PnvHeader(n)) && r.value.body == p[..n]
      && Flatten(r.value.rest) == p[n..] + Flatten(t)
  {
    var h := Utf8(PnvHeader(n));
    var s := [Chunk(h + p)] + t;
    HeaderRead(n, p, t);
    var s1 := ReadUntil(s, CrLfCrLfBytes).rest;
    DecodeUtf8(PnvHeader(n));
    HeaderLength(n);
    DenseRead(n, p, t, s1);
    var rd := ReadExact(s1, n);
    ReceiveSteps(s, h, s1, n, rd.value, rd.rest);
  }

  /** How the reply reader composes its three steps. */
  lemma ReceiveSteps(s: Stream, header: seq<byte>, s1: Stream, n: int, body: seq<byte>, rest: Stream)
    requires ReadUntil(s, CrLfCrLfBytes) == Got(header, s1)
    requires DeclaredLength(Decode(header)) == Some(n)
    requires ReadExact(s1, n) == Got(body, rest)
    ensures ReceivePnv(s) == Some(PnvReply(header, body, Decrypt(body).text, rest))
  {
  }

  /** Round trip: a command that starts with '<' (every command does), framed
      by the client and read back by the reply reader, comes back as the
      characters of its UTF-8 bytes, and the stream continues where the frame
      ended. */
  lemma PnvRoundTrip(command: string, t: Stream)
    requires |command| > 0 && command[0] == '<'
    requires |Utf8(command)| <= MaxInt32 && Dense(t)
    ensures var r := ReceivePnv([Chunk(CommandMessage(command))] + t);
      && r.Some? && r.value.text == Chars(Utf8(command))
      && Flatten(r.value.rest) == Flatten(t)
  {
    var p := EncryptText(command, ClientRotation);
    var n := |Utf8(command)|;
    FrameRead(n, p, t);
    assert p[..n] == p && p[n..] == [];
    assert Utf8(command)[0] == Marker;
    RoundTrip(Utf8(command), ClientRotation);
  }

  /** For ASCII commands the text read back is the command itself. */
  lemma PnvAsciiRoundTrip(command: string, t: Stream)
    requires |command| > 0 && command[0] == '<' && IsAscii(command)
    requires |command| <= MaxInt32 && Dense(t)
    ensures var r := ReceivePnv([Chunk(CommandMessageAsWritten(command))] + t);
      && r.Some? && r.value.text == command
      && Flatten(r.value.rest) == Flatten(t)
  {
    AsciiCommandMessage(command);
    PnvRoundTrip(command, t);
    assert Chars(Utf8(command)) == command;
  }

  /** As written, a command with a character outside ASCII declares fewer
      bytes than it sends: the reader takes the declared count and leaves the
      surplus payload bytes on the stream, where the next read takes them for
      the start of a header. */
  lemma AsWrittenLeavesSurplus(command: string, t: Stream)
    requires !IsAscii(command) && |Utf8(command)| <= MaxInt32 && Dense(t)
    ensures var r := ReceivePnv([Chunk(CommandMessageAsWritten(command))] + t);
      && r.Some? && |r.value.body| == Utf16Length(command) < |Utf8(command)|
      && |Flatten(r.value.rest)| == |Flatten(t)| + |Utf8(command)| - Utf16Length(command)
  {
    Utf16BelowUtf8(command);
    FrameRead(Utf16Length(command), EncryptText(command, ClientRotation), t);
  }

  /** The smallest such command: "<é" is 2 UTF-16 units and 3 UTF-8 bytes,
      so reading its frame back leaves one byte behind. */
  lemma AsWrittenCounterexample()
    ensures var r := ReceivePnv([Chunk(CommandMessageAsWritten(Accented))]);
      r.Some? && |r.value.body| == 2 && |Flatten(r.value.rest)| == 1
  {
    var c := Accented;
    SmallCommandSizes(c);
    var t: Stream := [];
    assert Flatten(t) == [];
    AsWrittenLeavesSurplus(c, t);
    assert [Chunk(CommandMessageAsWritten(c))] + t == [Chunk(CommandMessageAsWritten(c))];
  }

  /** A two-character command whose second character needs two UTF-8 bytes. */
  const Accented: string := "<\U{E9}"

  lemma SmallCommandSizes(c: string)
    requires c == Accented
    ensures !IsAscii(c) && |Utf8(c)| <= MaxInt32
    ensures Utf16Length(c) == 2 && |Utf8(c)| == 3
  {
    assert c[1] as int >= 0x80;
    assert Utf8(c) == EncodeChar('<') + Utf8(c[1..]);
    assert c[1..] == ['\U{E9}'];
    assert Utf8(['\U{E9}']) == EncodeChar('\U{E9}') + Utf8([]);
  }

  // ---------------------------------------------------------------------
  // The relay handshake (`ConnectToRelay`)

  /** The handshake text: '<', 'r', then the device id and the relay id
      after '&' each, and the terminator. A null relay id formats as empty. */
  function HandshakeText(deviceId: string, relayId: Option<string>): (t: string)
    ensures |t| > 0 && t[0] == '<'
  {
    "<r&" + deviceId + "&" + relayId.GetOr("") + CrLfCrLf
  }

  /** The bytes written to the relay: the handshake encrypted with the
      client's rotation. Nothing is read back. */
  function Handshake(deviceId: string, relayId: Option<string>): (m: seq<byte>)
    ensures |m| == |Utf8(HandshakeText(deviceId, relayId))|
  {
    EncryptText(HandshakeText(deviceId, relayId), ClientRotation)
  }

  /** The relay can split the handshake on '&' back into the tag and the two
      ids, as long as neither id holds an '&'. */
  lemma HandshakeFields(deviceId: string, relayId: Option<string>)
    requires '&' !in deviceId && '&' !in relayId.GetOr("")
    ensures Split(HandshakeText(deviceId, relayId), '&') == ["<r", deviceId, relayId.GetOr("") + CrLfCrLf]
  {
    var parts := ["<r", deviceId, relayId.GetOr("") + CrLfCrLf];
    assert Join(parts, ['&']) == HandshakeText(deviceId, relayId) by {
      assert Join(parts[1..], ['&']) == deviceId + ['&'] + Join(parts[2..], ['&']);
    }
    SplitJoin(parts, '&');
  }

  /** An ASCII handshake decrypts back to its text with the client's rotation. */
  lemma HandshakeDecrypts(deviceId: string, relayId: Option<string>)
    requires IsAscii(deviceId) && IsAscii(relayId.GetOr(""))
    ensures Decrypt(Handshake(deviceId, relayId)).text == HandshakeText(deviceId, relayId)
    ensures Decrypt(Handshake(deviceId, relayId)).rotate == ClientRotation
  {
    AsciiConcat("<r&", deviceId);
    AsciiConcat("<r&" + deviceId, "&");
    AsciiConcat("<r&" + deviceId + "&", relayId.GetOr(""));
    AsciiConcat("<r&" + deviceId + "&" + relayId.GetOr(""), CrLfCrLf);
    TextRoundTrip(HandshakeText(deviceId, relayId));
  }

  // ---------------------------------------------------------------------
  // The UDP probe request (`UdpSendAndReceive`)

  /** A lower-case hex digit. */
  function HexChar(d: nat): (c: char)
    requires d < 16
    ensures Decoders.HexDigit(c) == Some(d)
  {
    if d < 10 then ('0' as int + d) as char else ('a' as int + d - 10) as char
  }

  /** `b.ToString("x2")`: two lower-case hex digits. */
  function Hex2(b: byte): (r: string)
    ensures |r| == 2 && IsAscii(r)
    ensures Decoders.HexDigit(r[0]).Some? && Decoders.HexDigit(r[1]).Some?
    ensures Decoders.HexDigit(r[0]).value * 16 + Decoders.HexDigit(r[1]).value == b as int
  {
    var v := b as int;
    [HexChar(v / 16), HexChar(v % 16)]
  }

  /** The hex text of a digest, two digits per byte. */
  function HexText(data: seq<byte>): (r: string)
    ensures |r| == 2 * |data| && IsAscii(r)
  {
    if |data| == 0 then [] else
      AsciiConcat(Hex2(data[0]), HexText(data[1..]));
      Hex2(data[0]) + HexText(data[1..])
  }

  /** Digits 2i and 2i+1 of the hex text are those of byte i. */
  lemma {:induction false} HexTextAt(data: seq<byte>, i: nat)
    requires i < |data|
    ensures HexText(data)[2 * i] == Hex2(data[i])[0]
    ensures HexText(data)[2 * i + 1] == Hex2(data[i])[1]
  {
    if i > 0 {
      HexTextAt(data[1..], i - 1);
      PairAt(Hex2(data[0]), HexText(data[1..]), 2 * i - 2);
    }
  }

  lemma PairAt(h: string, r: string, j: nat)
    requires |h| == 2 && j + 1 < |r|
    ensures (h + r)[j + 2] == r[j] && (h + r)[j + 3] == r[j + 1]
  {
  }

  /** The hex text reads back to the digest: digits 2i and 2i+1 give byte i. */
  lemma HexTextReadsBack(data: seq<byte>)
    ensures forall i :: 0 <= i < |data| ==>
      && Decoders.HexDigit(HexText(data)[2 * i]).Some?
      && Decoders.HexDigit(HexText(data)[2 * i + 1]).Some?
      && Decoders.HexDigit(HexText(data)[2 * i]).value * 16
         + Decoders.HexDigit(HexText(data)[2 * i + 1]).value == data[i] as int
  {
    forall i | 0 <= i < |data|
      ensures Decoders.HexDigit(HexText(data)[2 * i]).Some?
      ensures Decoders.HexDigit(HexText(data)[2 * i + 1]).Some?
      ensures Decoders.HexDigit(HexText(data)[2 * i]).value * 16
              + Decoders.HexDigit(HexText(data)[2 * i + 1]).value == data[i] as int
    {
      HexTextAt(data, i);
    }
  }

  /** `GetMD5(input)`: the hex text of the digest of the UTF-8 bytes; the
      digest itself (RFC 1321) is the parameter `md5`. */
  function Md5Hex(input: string, md5: seq<byte> -> seq<byte>): (r: string)
    ensures |r| == 2 * |md5(Utf8(input))| && IsAscii(r)
  {
    HexText(md5(Utf8(input)))
  }

  /** The fixed part of the probe between the device id and the digest:
      the client's advertised LAN address, port, NAT type and firmware. */
  const UdpProbeMiddle: string :=
    "\" /><lanip value=\"192.168.1.2\" /><lanport value=\"36587\" /><nattype value=\"7\" /><reqdirport value=\"0\" /><reqfwver value=\"1.0#010000\" /><auth value=\""

  /** The probe template with the device id, the credential digest and the
      millisecond timestamp filled in; the id is repeated in the sequence
      value, directly followed by the timestamp. */
  function UdpRequestText(deviceId: string, auth: string, timestamp: int): (t: string)
    ensures |t| > 0 && t[0] == '<'
  {
    "<param>" + ("<code value=\"1030\" /><id value=\"" + deviceId + UdpProbeMiddle + auth
      + "\" /><seq value=\"" + deviceId + IntText(timestamp) + "\" /></param>")
  }

  /** The datagram the probe sends: the request, with the digest of
      "admin:" and the password as credential, encrypted with the client's
      rotation. */
  function UdpRequest(deviceId: string, password: string, timestamp: int, md5: seq<byte> -> seq<byte>): (m: seq<byte>)
    ensures |m| == |Utf8(UdpRequestText(deviceId, Md5Hex("admin:" + password, md5), timestamp))|
  {
    EncryptText(UdpRequestText(deviceId, Md5Hex("admin:" + password, md5), timestamp), ClientRotation)
  }

  /** The device recovers the client's rotation from the datagram, and the
      text of the request, whatever the id, password and timestamp. */
  lemma UdpRequestDecrypts(deviceId: string, password: string, timestamp: int, md5: seq<byte> -> seq<byte>)
    ensures var t := UdpRequestText(deviceId, Md5Hex("admin:" + password, md5), timestamp);
      && Decrypt(UdpRequest(deviceId, password, timestamp, md5)).rotate == ClientRotation
      && Decrypt(UdpRequest(deviceId, password, timestamp, md5)).text == Chars(Utf8(t))
  {
    var t := UdpRequestText(deviceId, Md5Hex("admin:" + password, md5), timestamp);
    assert Utf8(t)[0] == Marker;
    RoundTrip(Utf8(t), ClientRotation);
  }
}
