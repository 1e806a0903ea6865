/** Finding a device through the cloud (`QueryUdp` in
    EdiManager/EdimaxControl.cs): the UDP probe, retried on failure, and the
    descriptor built from the answer. */
module Discovery {
  import opened Wrappers
  import opened Text
  import opened Cipher

  /** Failed exchanges tolerated; the next one gives up. */
  const UdpMaxRetries: nat := 10

  /** The receive buffer: a longer datagram makes the receive throw. */
  const ReceiveBufferSize: nat := 2048

  // ---------------------------------------------------------------------
  // The retry loop

  /** One send-and-receive of the probe, as the network played it: the
      datagram that came back, or a failure (the send threw, the receive
      timed out). */
  datatype Exchange = Reply(datagram: seq<byte>) | Lost

  /** What one exchange yields: the decrypted datagram, or None when the
      exchange threw. */
  function Answer(e: Exchange): (r: Option<string>)
    ensures r.Some? <==> e.Reply? && |e.datagram| <= ReceiveBufferSize
    ensures r.Some? ==> |r.value| == |e.datagram|
  {
    if e.Reply? && |e.datagram| <= ReceiveBufferSize then Some(Decrypt(e.datagram).text) else None
  }

  /** The `i`-th exchange; past the ones supplied, the network stays silent. */
  function ExchangeAt(es: seq<Exchange>, i: nat): Exchange {
    if i < |es| then es[i] else Lost
  }

  predicate Fails(es: seq<Exchange>, i: nat) {
    Answer(ExchangeAt(es, i)).None?
  }

  /** How the probe ended: with the answer of the last of `sends`
      exchanges, or by giving up after `sends` failed ones. */
  datatype Probe = Answered(text: string, sends: nat) | GaveUp(sends: nat)

  /** The retry loop after `i` failed exchanges (each failure is one
      attempt): the first answer ends it; the failure that takes the count
      past `UdpMaxRetries` gives up. */
  function ProbeFrom(es: seq<Exchange>, i: nat): (p: Probe)
    requires i <= UdpMaxRetries
    ensures i < p.sends <= UdpMaxRetries + 1
    ensures forall k :: i <= k < p.sends - 1 ==> Fails(es, k)
    ensures p.Answered? ==> Answer(ExchangeAt(es, p.sends - 1)) == Some(p.text)
    ensures p.GaveUp? <==> p.sends == UdpMaxRetries + 1 && Fails(es, UdpMaxRetries)
    decreases UdpMaxRetries - i
  {
    match Answer(ExchangeAt(es, i))
    case Some(text) => Answered(text, i + 1)
    case None => if i + 1 > UdpMaxRetries then GaveUp(i + 1) else ProbeFrom(es, i + 1)
  }

  function RunProbe(es: seq<Exchange>): Probe {
    ProbeFrom(es, 0)
  }

  /** The probe gives up exactly when the first `UdpMaxRetries + 1`
      exchanges all fail; then it has sent that many. */
  lemma GiveUpExactly(es: seq<Exchange>)
    ensures RunProbe(es).GaveUp? <==> forall k :: 0 <= k <= UdpMaxRetries ==> Fails(es, k)
    ensures RunProbe(es).GaveUp? ==> RunProbe(es).sends == UdpMaxRetries + 1
  {
    var p := RunProbe(es);
    if forall k :: 0 <= k <= UdpMaxRetries ==> Fails(es, k) {
      if p.Answered? {
        assert Fails(es, p.sends - 1);
      }
    }
  }

  /** The do-while of `QueryUdp`, with its attempt counter. */
  method ProbeLoop(es: seq<Exchange>) returns (p: Probe)
    ensures p == RunProbe(es)
  {
    var attempt := 0;
    var sends := 0;
    var response: Option<string> := None;
    while true
      invariant attempt == sends <= UdpMaxRetries
      invariant response.None?
      invariant ProbeFrom(es, sends) == RunProbe(es)
      decreases UdpMaxRetries - attempt
    {
      response := Answer(ExchangeAt(es, sends));
      sends := sends + 1;
      if response.Some? {
        return Answered(response.value, sends);
      }
      attempt := attempt + 1;
      if attempt > UdpMaxRetries {
        return GaveUp(sends);
      }
    }
  }

  // ---------------------------------------------------------------------
  // The descriptor

  /** A child of the reply's root element and its `value` attribute. */
  datatype Element = Element(name: string, value: Option<string>)

  /** The parsed reply: the children of its root, in order. */
  type Doc = seq<Element>

  /** The position of the first child called `name`, or -1. */
  function FirstNamed(doc: Doc, name: string): (k: int)
    ensures -1 <= k < |doc|
    ensures k >= 0 ==> doc[k].name == name
    ensures forall j :: 0 <= j < |doc| && (k < 0 || j < k) ==> doc[j].name != name
  {
    if |doc| == 0 then -1
    else if doc[0].name == name then 0
    else
      var k := FirstNamed(doc[1..], name);
      assert forall j :: 1 <= j < |doc| ==> doc[j] == doc[1..][j - 1];
      if k < 0 then -1 else k + 1
  }

  /** `k` is the position of the first child called `name`. */
  predicate IsFirstNamed(doc: Doc, name: string, k: int) {
    0 <= k < |doc| && doc[k].name == name && forall j :: 0 <= j < k ==> doc[j].name != name
  }

  /** `GetXmlValue`: the `value` attribute of the first child called
      `name`; null when there is no such child or it has no attribute,
      whatever later children of that name hold. */
  function XmlValue(doc: Doc, name: string): (v: Option<string>)
    ensures v.Some? ==> exists k :: IsFirstNamed(doc, name, k) && doc[k] == Element(name, v)
    ensures forall k :: IsFirstNamed(doc, name, k) ==> v == doc[k].value
    ensures (forall k :: 0 <= k < |doc| ==> doc[k].name != name) ==> v.None?
  {
    var k := FirstNamed(doc, name);
    if k < 0 then None else doc[k].value
  }

  /** `UdpResponse`. */
  datatype UdpResponse = UdpResponse(
    success: bool,
    status: Option<string>,
    isOnline: bool,
    relayIp: Option<string>,
    relayPort: int,
    relayId: Option<string>,
    password: Option<string>,
    deviceIp: Option<string>,
    alias: Option<string>,
    model: Option<string>,
    kind: Option<string>,
    prodId: Option<string>)

  /** The response of a failed probe: everything unset. */
  const Failed: UdpResponse :=
    UdpResponse(false, None, false, None, 0, None, None, None, None, None, None, None)

  const OfflineCode: string := "5000"
  const GrantedCode: string := "1070"

  /** The relay port: 0 when absent, otherwise `int.Parse` of the value. */
  function RelayPort(doc: Doc): (r: Option<int>)
    ensures XmlValue(doc, "relayreqport").None? ==> r == Some(0)
    ensures XmlValue(doc, "relayreqport").Some? ==> r == ParseInt32(XmlValue(doc, "relayreqport").value)
  {
    match XmlValue(doc, "relayreqport")
    case None => Some(0)
    case Some(p) => ParseInt32(p)
  }

  /** The descriptor of an answer. `parse` is the XML parser: None when the
      text is not a document. A parse failure or a relay port that is not
      a number makes the whole probe fail. */
  function Describe(text: string, password: string, parse: string -> Option<Doc>): (r: UdpResponse)
    ensures parse(text).None? ==> r == Failed
    ensures parse(text).Some? ==>
      var doc := parse(text).value;
      && (r.success <==> RelayPort(doc).Some?)
      && (r.success ==>
            && r.status == XmlValue(doc, "code")
            && r.relayIp == XmlValue(doc, "relayip")
            && r.relayId == XmlValue(doc, "relayid")
            && r.relayPort == RelayPort(doc).value
            && r.deviceIp == XmlValue(doc, "ip")
            && r.alias == XmlValue(doc, "alias")
            && r.model == XmlValue(doc, "model")
            && r.kind == XmlValue(doc, "type")
            && r.prodId == XmlValue(doc, "prodid"))
    ensures r.success ==> (r.isOnline <==> r.status != Some(OfflineCode))
    ensures r.success ==> (r.password == Some(password) <==> r.status == Some(GrantedCode))
    ensures r.success ==> (r.password.None? <==> r.status != Some(GrantedCode))
    ensures !r.success ==> r == Failed
  {
    match parse(text)
    case None => Failed
    case Some(doc) =>
      match RelayPort(doc)
      case None => Failed
      case Some(port) =>
        var status := XmlValue(doc, "code");
        UdpResponse(
          true, status, status != Some(OfflineCode),
          XmlValue(doc, "relayip"), port, XmlValue(doc, "relayid"),
          if status == Some(GrantedCode) then Some(password) else None,
          XmlValue(doc, "ip"), XmlValue(doc, "alias"), XmlValue(doc, "model"),
          XmlValue(doc, "type"), XmlValue(doc, "prodid"))
  }

  /** `QueryUdp`: probe, then describe the answer; giving up fails. */
  function QueryUdp(es: seq<Exchange>, password: string, parse: string -> Option<Doc>): (r: UdpResponse)
    ensures RunProbe(es).GaveUp? ==> r == Failed
    ensures RunProbe(es).Answered? ==> r == Describe(RunProbe(es).text, password, parse)
  {
    match RunProbe(es)
    case GaveUp(_) => Failed
    case Answered(text, _) => Describe(text, password, parse)
  }

  /** The method form, with the probe loop. */
  method QueryUdpLoop(es: seq<Exchange>, password: string, parse: string -> Option<Doc>)
    returns (r: UdpResponse, sends: nat)
    ensures r == QueryUdp(es, password, parse)
    ensures 1 <= sends <= UdpMaxRetries + 1
    ensures !r.success ==> r == Failed
  {
    var p := ProbeLoop(es);
    sends := p.sends;
    if p.GaveUp? {
      r := Failed;
    } else {
      r := Describe(p.text, password, parse);
    }
  }

  /** A reply naming the relay address, the code, the relay id and the
      relay port is read back field by field. */
  lemma DescribeReadsBack(relayIp: string, code: string, relayId: string, port: nat, password: string,
                          text: string, parse: string -> Option<Doc>)
    requires port <= MaxInt32
    requires parse(text) == Some([Element("relayip", Some(relayIp)), Element("code", Some(code)),
                                  Element("relayid", Some(relayId)), Element("relayreqport", Some(Decimal(port)))])
    ensures var r := Describe(text, password, parse);
      && r.success && r.relayIp == Some(relayIp) && r.status == Some(code)
      && r.relayId == Some(relayId) && r.relayPort == port
      && (r.isOnline <==> code != OfflineCode)
      && (r.password.Some? <==> code == GrantedCode)
  {
    var doc := parse(text).value;
    assert IsFirstNamed(doc, "relayip", 0);
    assert "code"[0] != "relayip"[0];
    assert IsFirstNamed(doc, "code", 1);
    assert "relayid"[6] != "relayip"[6];
    assert IsFirstNamed(doc, "relayid", 2);
    assert "relayreqport"[5] != "relayid"[5] && "relayreqport"[5] != "relayip"[5] && "relayreqport"[0] != "code"[0];
    assert IsFirstNamed(doc, "relayreqport", 3);
    ParseDecimal(port);
  }

  /** Without a relay port in the reply the port is 0. */
  lemma AbsentPortIsZero(text: string, password: string, parse: string -> Option<Doc>)
    requires parse(text).Some?
    requires forall k :: 0 <= k < |parse(text).value| ==> parse(text).value[k].name != "relayreqport"
    ensures Describe(text, password, parse).success
    ensures Describe(text, password, parse).relayPort == 0
  {
  }
}
