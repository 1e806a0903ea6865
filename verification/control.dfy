/** The decisions of a cloud request (`EdimaxCloudRequest` in
    EdiManager/EdimaxControl.cs): whether to go to the relay at all, which
    plug commands are sent and in which order, the state a toggle asks for,
    the access gate of the camera's web interface, and the daily chunks of
    the power history. */
module Control {
  import opened Wrappers
  import opened Text
  import opened Framing
  import opened Wire
  import opened Tunnel
  import Discovery
  import Decoders

  /** `EdimaxCommand`. */
  datatype Disposition = Probe | PlugInfo | On | Off | Toggle | GetSchedule | Power | History | Image | Web

  /** The dispositions served by plug commands in Pnv envelopes. */
  predicate PlugFamily(d: Disposition) {
    d in {PlugInfo, GetSchedule, On, Off, Toggle, Power, History}
  }

  /** The dispositions served through the camera's web interface. */
  predicate WebFamily(d: Disposition) {
    d == Image || d == Web
  }

  /** Every disposition but the probe goes through exactly one of the two
      sessions. */
  lemma FamiliesPartition(d: Disposition)
    ensures d != Probe <==> PlugFamily(d) || WebFamily(d)
    ensures !(PlugFamily(d) && WebFamily(d))
  {
  }

  // ---------------------------------------------------------------------
  // Whether to go to the relay

  /** What follows the probe: stop with the probe's result, report that the
      device cannot be reached (with the description of its status code),
      or connect to the relay. */
  datatype Plan = Finish | Unreachable(description: string) | Connect

  function PlanFor(udp: Discovery.UdpResponse, d: Disposition): (p: Plan)
    ensures p.Connect? <==> udp.success && !IsNullOrWhiteSpace(udp.relayId) && d != Probe
    ensures p.Unreachable? <==> udp.success && IsNullOrWhiteSpace(udp.relayId)
    ensures p.Unreachable? ==> p.description == Decoders.CodeDescription(udp.status)
  {
    if !udp.success then Finish
    else if IsNullOrWhiteSpace(udp.relayId) then Unreachable(Decoders.CodeDescription(udp.status))
    else if d == Probe then Finish
    else Connect
  }

  /** A failed probe never leads to the relay, and says nothing more. */
  lemma FailedProbeFinishes(d: Disposition)
    ensures PlanFor(Discovery.Failed, d) == Finish
  {
  }

  /** A device that names a relay is reached for every disposition but the
      probe, whatever its status code. */
  lemma RelayNamedConnects(udp: Discovery.UdpResponse, d: Disposition)
    requires udp.success && !IsNullOrWhiteSpace(udp.relayId)
    ensures PlanFor(udp, d) == (if d == Probe then Finish else Connect)
  {
  }

  // ---------------------------------------------------------------------
  // Plug commands

  /** An element with its content: `<name>inner</name>`. */
  function Tagged(name: string, inner: string): string {
    "<" + name + ">" + inner + "</" + name + ">"
  }

  const XmlDeclaration: string := "<?xml version=\"1.0\"" + " encoding=\"UTF8\"?>"
  const PlugOpen: string := "<SMARTPLUG id=\"edimax\">"
  const PlugClose: string := "</CMD>" + "</SMARTPLUG>"

  /** The envelope every plug command shares: a `CMD` of the given kind
      ("get" or "setup") holding `body`. */
  function PlugCommand(kind: string, body: string): (c: string)
    ensures |c| > 0 && c[0] == '<'
  {
    XmlDeclaration + PlugOpen + "<CMD id=\"" + kind + "\">" + body + PlugClose
  }

  const PowerState: string := "Device.System.Power.State"
  const NextToggle: string := "Device.System.Power.NextToggle"
  const HistoryEnergy: string := "Device.System.Power.History.Energy"

  /** `PlugInfoCmd`: system information, power state and next toggle. */
  const PlugInfoCommand: string :=
    PlugCommand("get", Tagged("SYSTEM_INFO", "") + Tagged(PowerState, "") + Tagged(NextToggle, ""))

  /** `SetPlugStateCmd` for a state. */
  function SetStateCommand(state: string): string {
    PlugCommand("setup", Tagged(PowerState, state))
  }

  /** `GetScheduleCmd`. */
  const ScheduleCommand: string := PlugCommand("get", Tagged("SCHEDULE", ""))

  /** `GetPowerCmd`. */
  const PowerCommand: string := PlugCommand("get", Tagged("NOW_POWER", ""))

  /** `GetHistoryCmd` for the hours from `from` to `to`. */
  function HistoryCommand(from: string, to: string): string {
    PlugCommand("get", Tagged("NOW_POWER", "") + Tagged("POWER_HISTORY", HistoryRange(from, to)))
  }

  function HistoryRange(from: string, to: string): string {
    "<" + HistoryEnergy + " unit=\"HOUR\"" + " date=\"" + from + "-" + to + "\">" + "</" + HistoryEnergy + ">"
  }

  lemma Ascii3(a: string, b: string, c: string)
    requires IsAscii(a) && IsAscii(b) && IsAscii(c)
    ensures IsAscii(a + b + c)
  {
    AsciiConcat(a, b);
    AsciiConcat(a + b, c);
  }

  lemma TaggedAscii(name: string, inner: string)
    requires IsAscii(name) && IsAscii(inner)
    ensures IsAscii(Tagged(name, inner))
  {
    assert IsAscii("<") && IsAscii(">") && IsAscii("</");
    Ascii3("<", name, ">");
    Ascii3("<" + name + ">", inner, "</");
    Ascii3("<" + name + ">" + inner + "</", name, ">");
  }

  lemma EnvelopeAscii()
    ensures IsAscii(XmlDeclaration) && IsAscii(PlugOpen) && IsAscii(PlugClose)
  {
    DeclarationAscii();
    assert IsAscii(PlugOpen);
    var c, d := "</CMD>", "</SMARTPLUG>";
    assert IsAscii(c) && IsAscii(d);
    AsciiConcat(c, d);
  }

  lemma DeclarationAscii()
    ensures IsAscii(XmlDeclaration)
  {
    var a, b := "<?xml version=\"1.0\"", " encoding=\"UTF8\"?>";
    assert IsAscii(a);
    assert IsAscii(b);
    AsciiConcat(a, b);
  }

  /** A plug command with an ASCII kind and body is ASCII, so the frame the
      client writes declares its length correctly and the relay reads it
      back whole. */
  lemma PlugCommandFramed(kind: string, body: string)
    requires IsAscii(kind) && IsAscii(body)
    ensures IsAscii(PlugCommand(kind, body))
    ensures CommandMessageAsWritten(PlugCommand(kind, body)) == CommandMessage(PlugCommand(kind, body))
  {
    EnvelopeAscii();
    var q := "\">";
    assert IsAscii("<CMD id=\"") && IsAscii(q);
    Ascii3(XmlDeclaration, PlugOpen, "<CMD id=\"");
    Ascii3(XmlDeclaration + PlugOpen + "<CMD id=\"", kind, q);
    Ascii3(XmlDeclaration + PlugOpen + "<CMD id=\"" + kind + q, body, PlugClose);
    AsciiCommandMessage(PlugCommand(kind, body));
  }

  lemma HistoryRangeAscii(from: string, to: string)
    requires IsAscii(from) && IsAscii(to)
    ensures IsAscii(HistoryRange(from, to))
  {
    var u, dt, q, sl := " unit=\"HOUR\"", " date=\"", "\">", "</";
    assert IsAscii(u) && IsAscii(dt) && IsAscii(q) && IsAscii(sl) && IsAscii("<") && IsAscii("-") && IsAscii(">");
    assert IsAscii(HistoryEnergy);
    Ascii3("<", HistoryEnergy, u);
    Ascii3("<" + HistoryEnergy + u, dt, from);
    Ascii3("<" + HistoryEnergy + u + dt + from, "-", to);
    Ascii3("<" + HistoryEnergy + u + dt + from + "-" + to, q, sl);
    Ascii3("<" + HistoryEnergy + u + dt + from + "-" + to + q + sl, HistoryEnergy, ">");
  }

  // ---------------------------------------------------------------------
  // Toggle

  /** The state a switching command asks for; none for the other
      dispositions. A toggle asks for "OFF" after "ON" and for "ON" after
      anything else, an unknown state included. */
  function TargetState(d: Disposition, last: Option<string>): (r: Option<string>)
    ensures r.Some? <==> d in {On, Off, Toggle}
    ensures r.Some? ==> r.value == "ON" || r.value == "OFF"
    ensures d == Toggle ==> (r == Some("OFF") <==> last == Some("ON"))
    ensures d == Toggle ==> (r == Some("ON") <==> last != Some("ON"))
  {
    match d
    case On => Some("ON")
    case Off => Some("OFF")
    case Toggle => Some(if last == Some("ON") then "OFF" else "ON")
    case _ => None
  }

  /** Toggling twice from a known state comes back to it. */
  lemma ToggleTwice(last: string)
    requires last == "ON" || last == "OFF"
    ensures TargetState(Toggle, TargetState(Toggle, Some(last))) == Some(last)
  {
  }

  /** Switching on or off ignores the state the plug reported. */
  lemma SwitchIgnoresState(a: Option<string>, b: Option<string>)
    ensures TargetState(On, a) == TargetState(On, b) == Some("ON")
    ensures TargetState(Off, a) == TargetState(Off, b) == Some("OFF")
  {
  }

  // ---------------------------------------------------------------------
  // The plug session

  const DocumentMarker: string := "<SMARTPLUG"

  /** `GetDocumentFromHttpLikeString`: the text from the first
      "<SMARTPLUG" on, to be parsed as XML; none without one. */
  function DocumentText(text: string): (r: Option<string>)
    ensures r.Some? <==> Contains(text, DocumentMarker)
    ensures r.Some? ==> StartsWith(r.value, DocumentMarker)
    ensures r.Some? ==> |r.value| <= |text| && text[|text| - |r.value|..] == r.value
    ensures r.Some? ==> forall j :: 0 <= j < |text| - |r.value| ==> !OccursAt(text, DocumentMarker, j)
  {
    var k := IndexOf(text, DocumentMarker);
    if k < 0 then None else Some(text[k..])
  }

  /** Cutting an already cut document changes nothing. */
  lemma DocumentTextIdempotent(text: string)
    requires DocumentText(text).Some?
    ensures DocumentText(DocumentText(text).value) == DocumentText(text)
  {
    var d := DocumentText(text).value;
    assert OccursAt(d, DocumentMarker, 0);
  }

  /** What `GetDocumentFromHttpLikeString` makes of a text: no document
      (null), a throw, or the parsed document, given here by its text. */
  datatype Document = NoDocument | Throws | Parsed(xml: string)

  /** `GetDocumentFromHttpLikeString` on a text that may be null: a null
      text throws on `IndexOf`, a text without the marker gives null, and
      the cut text is handed to `XDocument.Parse`, which throws unless
      `parses` accepts it. */
  function ReadDocument(text: Option<string>, parses: string -> bool): (r: Document)
    ensures r.Throws? <==> text.None? || (Contains(text.value, DocumentMarker) && !parses(DocumentText(text.value).value))
    ensures r.NoDocument? <==> text.Some? && !Contains(text.value, DocumentMarker)
    ensures r.Parsed? ==> text.Some? && Some(r.xml) == DocumentText(text.value) && parses(r.xml)
  {
    match text
    case None => Throws
    case Some(t) =>
      match DocumentText(t)
      case None => NoDocument
      case Some(xml) => if parses(xml) then Parsed(xml) else Throws
  }

  /** The power state the plug reported in its answer to the info command:
      `stateOf` is the XML lookup of `Device.System.Power.State`; without a
      document the state is unknown. */
  function LastState(info: string, parses: string -> bool, stateOf: string -> Option<string>): Option<string> {
    match ReadDocument(Some(info), parses)
    case Parsed(xml) => stateOf(xml)
    case _ => None
  }

  /** The plug commands, by what they ask. */
  datatype PlugRequest =
    | InfoRequest
    | SetState(state: string)
    | ScheduleRequest
    | PowerRequest
    | HistoryRequest(from: string, to: string)

  /** The text of a plug command. */
  function CommandText(r: PlugRequest): (c: string)
    ensures |c| > 0 && c[0] == '<'
  {
    match r
    case InfoRequest => PlugInfoCommand
    case SetState(state) => SetStateCommand(state)
    case ScheduleRequest => ScheduleCommand
    case PowerRequest => PowerCommand
    case HistoryRequest(from, to) => HistoryCommand(from, to)
  }

  /** The command that follows the info command, if any. */
  function FollowUp(d: Disposition, last: Option<string>, from: string, to: string): (c: Option<PlugRequest>)
    requires PlugFamily(d)
    ensures c.None? <==> d == PlugInfo
  {
    match d
    case GetSchedule => Some(ScheduleRequest)
    case Power => Some(PowerRequest)
    case History => Some(HistoryRequest(from, to))
    case PlugInfo => None
    case On | Off | Toggle => Some(SetState(TargetState(d, last).value))
  }

  /** A follow-up answer the session cannot use: one whose document read
      throws (a null answer or an unparsable document), or, for the
      commands whose answer is read without a check, one without a
      document. */
  predicate FollowUpBreaks(d: Disposition, answer: Document) {
    answer.Throws? || (d in {GetSchedule, Power, History} && answer.NoDocument?)
  }

  /** What the plug session did: the commands it sent, whether the relay
      answered the first, and whether it ended in an error. */
  datatype PlugSession = PlugSession(sent: seq<PlugRequest>, tcpSuccess: bool, failed: bool)

  /** The plug session: the info command first; only when it was answered
      and its document read did not throw, the follow-up of the
      disposition. `info` and `answer` are the texts the relay returned
      (none when the exchange failed); `parses` is the XML parser's
      verdict on a cut document. */
  function RunPlugSession(d: Disposition, info: Option<string>, answer: Option<string>, parses: string -> bool,
                          stateOf: string -> Option<string>, from: string, to: string): (s: PlugSession)
    requires PlugFamily(d)
    ensures |s.sent| >= 1 && s.sent[0] == InfoRequest
    ensures s.tcpSuccess <==> info.Some?
    ensures |s.sent| == 2 <==> info.Some? && !ReadDocument(info, parses).Throws? && d != PlugInfo
    ensures |s.sent| <= 2
    ensures s.failed <==>
      || (info.Some? && ReadDocument(info, parses).Throws?)
      || (|s.sent| == 2 && FollowUpBreaks(d, ReadDocument(answer, parses)))
    ensures |s.sent| == 2 && d in {On, Off, Toggle} ==>
      s.sent[1] == SetState(TargetState(d, LastState(info.value, parses, stateOf)).value)
    ensures |s.sent| == 2 && d == History ==> s.sent[1] == HistoryRequest(from, to)
    ensures |s.sent| == 2 && d == GetSchedule ==> s.sent[1] == ScheduleRequest
    ensures |s.sent| == 2 && d == Power ==> s.sent[1] == PowerRequest
  {
    match info
    case None => PlugSession([InfoRequest], false, false)
    case Some(text) =>
      if ReadDocument(info, parses).Throws? then PlugSession([InfoRequest], true, true)
      else
        match FollowUp(d, LastState(text, parses, stateOf), from, to)
        case None => PlugSession([InfoRequest], true, false)
        case Some(c) => PlugSession([InfoRequest, c], true, FollowUpBreaks(d, ReadDocument(answer, parses)))
  }

  /** An info answer whose document the parser rejects ends the session
      after the info command, whatever the disposition. */
  lemma UnparsableInfoStops(d: Disposition, text: string, answer: Option<string>, parses: string -> bool,
                            stateOf: string -> Option<string>, from: string, to: string)
    requires PlugFamily(d)
    requires Contains(text, DocumentMarker) && !parses(DocumentText(text).value)
    ensures RunPlugSession(d, Some(text), answer, parses, stateOf, from, to) == PlugSession([InfoRequest], true, true)
  {
  }

  /** A command the relay reads back whole: ASCII, opening with '<' (the
      rotation marker), framed with the length the relay reads. */
  predicate Framed(c: string) {
    IsAscii(c) && |c| > 0 && c[0] == '<' && CommandMessageAsWritten(c) == CommandMessage(c)
  }

  /** The text a request carries is ASCII. */
  predicate AsciiRequest(r: PlugRequest) {
    match r
    case SetState(state) => IsAscii(state)
    case HistoryRequest(from, to) => IsAscii(from) && IsAscii(to)
    case _ => true
  }

  lemma PlugInfoFramed()
    ensures Framed(PlugInfoCommand)
  {
    assert IsAscii("") && IsAscii("get") && IsAscii("SYSTEM_INFO");
    assert IsAscii(PowerState);
    assert IsAscii(NextToggle);
    TaggedAscii("SYSTEM_INFO", "");
    TaggedAscii(PowerState, "");
    TaggedAscii(NextToggle, "");
    Ascii3(Tagged("SYSTEM_INFO", ""), Tagged(PowerState, ""), Tagged(NextToggle, ""));
    PlugCommandFramed("get", Tagged("SYSTEM_INFO", "") + Tagged(PowerState, "") + Tagged(NextToggle, ""));
  }

  lemma SetStateFramed(state: string)
    requires IsAscii(state)
    ensures Framed(SetStateCommand(state))
  {
    assert IsAscii("setup");
    assert IsAscii(PowerState);
    TaggedAscii(PowerState, state);
    PlugCommandFramed("setup", Tagged(PowerState, state));
  }

  lemma ScheduleFramed()
    ensures Framed(ScheduleCommand)
  {
    assert IsAscii("") && IsAscii("get") && IsAscii("SCHEDULE");
    TaggedAscii("SCHEDULE", "");
    PlugCommandFramed("get", Tagged("SCHEDULE", ""));
  }

  lemma PowerFramed()
    ensures Framed(PowerCommand)
  {
    assert IsAscii("") && IsAscii("get") && IsAscii("NOW_POWER");
    TaggedAscii("NOW_POWER", "");
    PlugCommandFramed("get", Tagged("NOW_POWER", ""));
  }

  lemma HistoryFramed(from: string, to: string)
    requires IsAscii(from) && IsAscii(to)
    ensures Framed(HistoryCommand(from, to))
  {
    assert IsAscii("") && IsAscii("get") && IsAscii("NOW_POWER") && IsAscii("POWER_HISTORY");
    HistoryRangeAscii(from, to);
    TaggedAscii("NOW_POWER", "");
    TaggedAscii("POWER_HISTORY", HistoryRange(from, to));
    AsciiConcat(Tagged("NOW_POWER", ""), Tagged("POWER_HISTORY", HistoryRange(from, to)));
    PlugCommandFramed("get", Tagged("NOW_POWER", "") + Tagged("POWER_HISTORY", HistoryRange(from, to)));
  }

  /** Every plug command with ASCII text in it is read back whole. */
  lemma RequestFramed(r: PlugRequest)
    requires AsciiRequest(r)
    ensures Framed(CommandText(r))
  {
    match r
    case InfoRequest => PlugInfoFramed();
    case SetState(state) => SetStateFramed(state);
    case ScheduleRequest => ScheduleFramed();
    case PowerRequest => PowerFramed();
    case HistoryRequest(from, to) => HistoryFramed(from, to);
  }

  /** Every command a plug session sends is read back whole by the relay,
      provided the history range is ASCII. */
  lemma PlugSessionFramed(d: Disposition, info: Option<string>, answer: Option<string>,
                          parses: string -> bool, stateOf: string -> Option<string>,
                          from: string, to: string, k: nat)
    requires PlugFamily(d) && IsAscii(from) && IsAscii(to)
    requires k < |RunPlugSession(d, info, answer, parses, stateOf, from, to).sent|
    ensures Framed(CommandText(RunPlugSession(d, info, answer, parses, stateOf, from, to).sent[k]))
  {
    var r := RunPlugSession(d, info, answer, parses, stateOf, from, to).sent[k];
    if r.SetState? {
      assert r.state == "ON" || r.state == "OFF";
      assert IsAscii("ON") && IsAscii("OFF");
    }
    RequestFramed(r);
  }

  // ---------------------------------------------------------------------
  // The web session

  const AdminUser: string := "admin"

  /** The user-pass of the Basic scheme (section 2 of RFC 7617): the user,
      a colon, the password. */
  function Credentials(password: string): (c: string)
    ensures |c| == |AdminUser| + 1 + |password|
  {
    AdminUser + ":" + password
  }

  /** The `Authorization` token: `base64` stands for
      `Convert.ToBase64String`, applied to the UTF-8 bytes of the
      credentials. */
  function AuthToken(password: string, base64: seq<byte> -> string): string {
    base64(Utf8(Credentials(password)))
  }

  /** How a server splits a user-pass: at the first colon, since a user-id
      cannot hold one. */
  function SplitCredentials(c: string): (r: Option<(string, string)>)
    ensures r.None? <==> ':' !in c
    ensures r.Some? ==> ':' !in r.value.0 && c == r.value.0 + ":" + r.value.1
  {
    var k := Find(c, ':');
    if k < 0 then None
    else
      assert c == c[..k] + ":" + c[k + 1..];
      Some((c[..k], c[k + 1..]))
  }

  /** The server recovers the user and the password, whatever colons the
      password holds. */
  lemma CredentialsRoundTrip(password: string)
    ensures SplitCredentials(Credentials(password)) == Some((AdminUser, password))
  {
    FindAfter(AdminUser, ':', password);
    var c := Credentials(password);
    assert c[..5] == AdminUser;
    assert c[6..] == password;
  }

  /** The statuses of the main page that grant access. */
  predicate Grants(status: string) {
    status == "200" || status == "301" || status == "302"
  }

  /** The access gate: the descriptor's password is cleared and set again
      only when the main page answered with a granting status; otherwise the
      request stops there. */
  function Gate(udp: Discovery.UdpResponse, status: string, password: string): (r: Option<Discovery.UdpResponse>)
    ensures r.Some? <==> Grants(status)
    ensures r.Some? ==> r.value.password == Some(password)
    ensures r.Some? ==> r.value.(password := udp.password) == udp
  {
    if Grants(status) then Some(udp.(password := Some(password))) else None
  }

  /** The gate decides alone: whatever password the probe left in the
      descriptor, granted or withheld, the page's status decides. */
  lemma GateOverridesProbe(udp: Discovery.UdpResponse, a: Option<string>, b: Option<string>,
                           status: string, password: string)
    ensures Gate(udp.(password := a), status, password) == Gate(udp.(password := b), status, password)
  {
  }

  /** What the image request does with the reply. */
  datatype ImageOutcome = Saved(image: seq<byte>) | ShownText(text: string) | Discarded

  function ImageResult(reply: HttpReply): (r: ImageOutcome)
    ensures r.Saved? <==> reply.status == "200" && Contains(reply.contentType, "image/")
    ensures r.Saved? ==> r.image == reply.body
    ensures r.ShownText? <==> !r.Saved? && Contains(reply.contentType, "text/")
    ensures r.ShownText? ==> r.text == Decode(reply.body)
  {
    if reply.status == "200" && Contains(reply.contentType, "image/") then Saved(reply.body)
    else if Contains(reply.contentType, "text/") then ShownText(Decode(reply.body))
    else Discarded
  }

  /** An image the relay frames with status 200 and an image content type
      is saved byte for byte. */
  lemma ImageSaved(version: string, reason: string, contentType: string,
                   body: seq<byte>, pad: seq<byte>, t: Stream)
    requires WellFormed(version, "200", reason, contentType) && Contains(contentType, "image/")
    requires |pad| == 8 && Dense(t)
    requires |Utf8(HttpHeaders(version, "200", reason, contentType)) + body| <= MaxInt32
    ensures var h := HttpHeaders(version, "200", reason, contentType);
      var r := ReceiveHttp([Chunk(TunnelFrame(pad, Utf8(h) + body))] + t);
      r.Success? && ImageResult(r.value.reply) == Saved(body)
  {
    HttpRoundTrip(version, "200", reason, contentType, body, pad, t);
  }

  // ---------------------------------------------------------------------
  // Daily power history

  const HoursPerDay: nat := 24

  /** Consecutive groups of `n`, in order; the last may be shorter. */
  function Groups<T>(xs: seq<T>, n: nat): (gs: seq<seq<T>>)
    requires n > 0
    ensures forall k :: 0 <= k < |gs| ==> 0 < |gs[k]| <= n
    ensures forall k :: 0 <= k < |gs| - 1 ==> |gs[k]| == n
    decreases |xs|
  {
    if |xs| == 0 then []
    else if |xs| <= n then [xs]
    else [xs[..n]] + Groups(xs[n..], n)
  }

  function Concat<T>(gs: seq<seq<T>>): seq<T> {
    if |gs| == 0 then [] else gs[0] + Concat(gs[1..])
  }

  /** The groups hold the values in their original order. */
  lemma {:induction false} GroupsConcat<T>(xs: seq<T>, n: nat)
    requires n > 0
    ensures Concat(Groups(xs, n)) == xs
    decreases |xs|
  {
    if |xs| > n {
      var gs := Groups(xs, n);
      assert gs[1..] == Groups(xs[n..], n);
      GroupsConcat(xs[n..], n);
      assert xs == xs[..n] + xs[n..];
    } else if |xs| > 0 {
      assert Concat([xs]) == xs + Concat([xs][1..]);
    }
  }

  function JoinEach<T>(gs: seq<seq<seq<T>>>, sep: seq<T>): (r: seq<seq<T>>)
    ensures |r| == |gs|
  {
    if |gs| == 0 then [] else [Join(gs[0], sep)] + JoinEach(gs[1..], sep)
  }

  /** The hourly values split into days, each day's values joined with '-'
      again. */
  function DailyHistory(history: string): (days: seq<string>)
    ensures |days| >= 1
  {
    JoinEach(Groups(Split(history, '-'), HoursPerDay), "-")
  }

  lemma {:induction false} JoinAppend<T>(a: seq<seq<T>>, b: seq<seq<T>>, sep: seq<T>)
    requires |a| > 0 && |b| > 0
    ensures Join(a + b, sep) == Join(a, sep) + sep + Join(b, sep)
    decreases |a|
  {
    if |a| == 1 {
      JoinCons(a[0], b, sep);
      assert a + b == [a[0]] + b;
    } else {
      assert (a + b)[1..] == a[1..] + b;
      JoinAppend(a[1..], b, sep);
    }
  }

  /** Joining the joined groups joins the values. */
  lemma {:induction false} JoinGroups<T>(gs: seq<seq<seq<T>>>, sep: seq<T>)
    requires forall k :: 0 <= k < |gs| ==> |gs[k]| > 0
    ensures Join(JoinEach(gs, sep), sep) == Join(Concat(gs), sep)
  {
    if |gs| > 1 {
      JoinGroups(gs[1..], sep);
      ConcatNonEmpty(gs[1..]);
      JoinCons(Join(gs[0], sep), JoinEach(gs[1..], sep), sep);
      JoinAppend(gs[0], Concat(gs[1..]), sep);
    } else if |gs| == 1 {
      assert gs[1..] == [];
      assert JoinEach(gs, sep) == [Join(gs[0], sep)];
      assert Concat(gs) == gs[0] + Concat(gs[1..]);
      assert Concat(gs[1..]) == [];
      assert Concat(gs) == gs[0];
      assert Join(JoinEach(gs, sep), sep) == Join(gs[0], sep);
    }
  }

  lemma ConcatNonEmpty<T>(gs: seq<seq<seq<T>>>)
    requires |gs| > 0 && forall k :: 0 <= k < |gs| ==> |gs[k]| > 0
    ensures |Concat(gs)| > 0
  {
  }

  /** Joining the days with '-' gives back the history. */
  lemma HistoryRoundTrip(history: string)
    ensures Join(DailyHistory(history), "-") == history
  {
    var gs := Groups(Split(history, '-'), HoursPerDay);
    JoinGroups(gs, "-");
    GroupsConcat(Split(history, '-'), HoursPerDay);
    JoinSplit(history, '-');
  }

  /** Every day but the last splits back into exactly 24 hourly values. */
  lemma FullDays(history: string, k: nat)
    requires k < |DailyHistory(history)| - 1
    ensures |Split(DailyHistory(history)[k], '-')| == HoursPerDay
  {
    var gs := Groups(Split(history, '-'), HoursPerDay);
    JoinEachAt(gs, "-", k);
    GroupsWithout(Split(history, '-'), HoursPerDay, '-', k);
    SplitJoin(gs[k], '-');
  }

  lemma {:induction false} JoinEachAt<T>(gs: seq<seq<seq<T>>>, sep: seq<T>, k: nat)
    requires k < |gs|
    ensures JoinEach(gs, sep)[k] == Join(gs[k], sep)
  {
    if k > 0 {
      JoinEachAt(gs[1..], sep, k - 1);
    }
  }

  /** A value absent from every element is absent from every group. */
  lemma {:induction false} GroupsWithout<T>(xs: seq<seq<T>>, n: nat, x: T, k: nat)
    requires n > 0 && k < |Groups(xs, n)|
    requires forall i :: 0 <= i < |xs| ==> x !in xs[i]
    ensures forall i :: 0 <= i < |Groups(xs, n)[k]| ==> x !in Groups(xs, n)[k][i]
    decreases |xs|
  {
    if |xs| > n && k > 0 {
      assert Groups(xs, n)[k] == Groups(xs[n..], n)[k - 1];
      GroupsWithout(xs[n..], n, x, k - 1);
    }
  }
}
