/**
 * The CONNECT packet of MQTT v3.1.1 as the client builds it: the connection
 * parameters it must be given before use, its variable header, its payload,
 * and its pairing with the CONNACK reply.
 */
module ConnectPacket {
  import opened Results
  import opened Wire

  /** The CONNECT control packet type (Table 2.1 of MQTT v3.1.1). */
  const ControlPacketValue: nat := 1

  /** The CONNACK control packet type, the reply a CONNECT expects. */
  const ConnackControlPacketValue: nat := 2

  /** The protocol name "MQTT" (section 3.1.2.1 of MQTT v3.1.1). */
  const ProtocolName: MqttString := [0x4D, 0x51, 0x54, 0x54]

  /**
   * The connection parameters the packet reads. The flags byte is taken as
   * the parameters report it; how they derive it is decided in the
   * `Parameters` class, outside Connect.php.
   */
  datatype Parameters = Parameters(
    clientId: MqttString,
    willTopic: MqttString,
    willMessage: MqttString,
    username: MqttString,
    password: MqttString,
    keepAlivePeriod: Uint16,
    flags: Byte)

  datatype ConnectError = NoConnectionParametersDefined

  /** A CONNECT packet: its parameters are absent until they are set. */
  datatype Connect = Connect(connectionParameters: Option<Parameters>)

  /** What the packet exposes once a reply has been read. */
  datatype ReadableContent = Readable(controlPacketValue: nat, populatedFrom: Bytes)

  /** A fresh packet: no parameters have been set yet. */
  function NewConnect(): (r: Connect)
    ensures r.connectionParameters.None?
  {
    Connect(None)
  }

  /** Stores the parameters, replacing any set before. */
  function SetConnectionParameters(c: Connect, p: Parameters): (r: Connect)
    ensures r.connectionParameters == Some(p)
  {
    Connect(Some(p))
  }

  function GetConnectionParameters(c: Connect): (r: Result<Parameters, ConnectError>)
    ensures r.Failure? <==> c.connectionParameters.None?
    ensures r.Failure? ==> r.error == NoConnectionParametersDefined
    ensures r.Success? ==> c.connectionParameters == Some(r.value)
  {
    match c.connectionParameters
    case None => Failure(NoConnectionParametersDefined)
    case Some(p) => Success(p)
  }

  /** Parameters are missing on a fresh packet; once set, the last ones set are returned. */
  lemma ParametersLifecycle(c: Connect, p: Parameters, q: Parameters)
    ensures GetConnectionParameters(NewConnect()) == Failure(NoConnectionParametersDefined)
    ensures GetConnectionParameters(SetConnectionParameters(c, p)) == Success(p)
    ensures GetConnectionParameters(SetConnectionParameters(SetConnectionParameters(c, p), q)) == Success(q)
  {
  }

  // ---------------------------------------------------------------------
  // Variable header (section 3.1.2 of MQTT v3.1.1)
  // ---------------------------------------------------------------------

  /** The three values a CONNECT variable header carries besides the protocol name. */
  datatype VariableHeaderFields = VariableHeaderFields(protocolLevel: Byte, flags: Byte, keepAlive: Uint16)

  /** The length-prefixed protocol name, as it opens the variable header. */
  const ProtocolNamePrefix: Bytes := [0x00, 0x04, 0x4D, 0x51, 0x54, 0x54]

  /**
   * The variable header. `protocolLevel` is the byte the library's
   * `getProtocolLevel` supplies, taken as opaque.
   */
  function VariableHeader(c: Connect, protocolLevel: Byte): (r: Bytes)
    requires c.connectionParameters.Some?
    ensures |r| == 10
    ensures r[..6] == ProtocolNamePrefix
    ensures r[6] == protocolLevel
    ensures r[7] == c.connectionParameters.value.flags
    ensures DecodeUint16(r[8..]) == c.connectionParameters.value.keepAlivePeriod
  {
    var p := c.connectionParameters.value;
    Uint16RoundTrip(p.keepAlivePeriod);
    EncodeString(ProtocolName) + [protocolLevel] + [p.flags] + EncodeUint16(p.keepAlivePeriod)
  }

  /** Reads a CONNECT variable header; `None` unless it has exactly that layout. */
  function ParseVariableHeader(b: Bytes): Option<VariableHeaderFields> {
    if |b| == 10 && b[..6] == ProtocolNamePrefix then
      Some(VariableHeaderFields(b[6], b[7], DecodeUint16(b[8..])))
    else
      None
  }

  /** The header reads back as the level, flags and keep-alive it was built from. */
  lemma ParseVariableHeaderInverse(c: Connect, protocolLevel: Byte)
    requires c.connectionParameters.Some?
    ensures ParseVariableHeader(VariableHeader(c, protocolLevel))
         == Some(VariableHeaderFields(protocolLevel, c.connectionParameters.value.flags,
                                      c.connectionParameters.value.keepAlivePeriod))
  {
  }

  /**
   * Conversely, any bytes that parse as a variable header are exactly the
   * header built from the values parsed: it holds nothing else.
   */
  lemma VariableHeaderDeterminedByFields(b: Bytes, p: Parameters)
    requires ParseVariableHeader(b).Some?
    requires p.flags == ParseVariableHeader(b).value.flags
    requires p.keepAlivePeriod == ParseVariableHeader(b).value.keepAlive
    ensures VariableHeader(Connect(Some(p)), ParseVariableHeader(b).value.protocolLevel) == b
  {
  }

  // ---------------------------------------------------------------------
  // Payload (section 3.1.3 of MQTT v3.1.1)
  // ---------------------------------------------------------------------

  /** The payload fields in the order the packet writes them. */
  function Fields(p: Parameters): seq<MqttString> {
    [p.clientId, p.willTopic, p.willMessage, p.username, p.password]
  }

  /** The non-empty fields, in their original order. */
  function Present(fields: seq<MqttString>): (r: seq<MqttString>)
    ensures |r| <= |fields|
    ensures forall i :: 0 <= i < |r| ==> r[i] != []
  {
    if fields == [] then []
    else
      var init := Present(fields[..|fields| - 1]);
      if fields[|fields| - 1] == [] then init else init + [fields[|fields| - 1]]
  }

  /** The concatenation of the fields, each as a length-prefixed string. */
  function EncodeAll(fields: seq<MqttString>): Bytes {
    if fields == [] then []
    else EncodeAll(fields[..|fields| - 1]) + EncodeString(fields[|fields| - 1])
  }

  /** The bytes a field adds to the payload: none at all when it is empty. */
  function Contribution(f: MqttString): (r: Bytes)
    ensures r == [] <==> f == []
    ensures |r| == if f == [] then 0 else 2 + |f|
  {
    if f == [] then [] else EncodeString(f)
  }

  /**
   * Appending one more field to the list appends exactly that field's
   * contribution to the encoding, and nothing when the field is empty.
   */
  lemma {:induction false} PresentStep(fields: seq<MqttString>, k: nat)
    requires k < |fields|
    ensures EncodeAll(Present(fields[..k + 1])) == EncodeAll(Present(fields[..k])) + Contribution(fields[k])
  {
    var front := fields[..k + 1];
    assert front[..k] == fields[..k];
    assert front[k] == fields[k];
    var init := Present(fields[..k]);
    if fields[k] != [] {
      assert Present(front) == init + [fields[k]];
      assert (init + [fields[k]])[..|init|] == init;
    }
  }

  /**
   * Writing the fields one after another, each adding its contribution to
   * what was written before, produces the encoding of the present fields.
   */
  lemma {:induction false} AppendingBuildsEncoding(fields: seq<MqttString>, outs: seq<Bytes>)
    requires |outs| == |fields| + 1 && outs[0] == []
    requires forall k :: 0 <= k < |fields| ==> outs[k + 1] == outs[k] + Contribution(fields[k])
    ensures outs[|fields|] == EncodeAll(Present(fields))
  {
    if fields != [] {
      var n := |fields| - 1;
      AppendingBuildsEncoding(fields[..n], outs[..n + 1]);
      PresentStep(fields, n);
      assert fields[..n + 1] == fields;
    }
  }

  /**
   * The payload: each of client id, will topic, will message, username and
   * password as a length-prefixed string, in that order, each written only
   * when it is non-empty.
   */
  function Payload(c: Connect): (r: Bytes)
    requires c.connectionParameters.Some?
    ensures r == EncodeAll(Present(Fields(c.connectionParameters.value)))
  {
    var p := c.connectionParameters.value;
    var out0: Bytes := [];
    var out1 := if p.clientId != [] then out0 + EncodeString(p.clientId) else out0;
    var out2 := if p.willTopic != [] then out1 + EncodeString(p.willTopic) else out1;
    var out3 := if p.willMessage != [] then out2 + EncodeString(p.willMessage) else out2;
    var out4 := if p.username != [] then out3 + EncodeString(p.username) else out3;
    var out5 := if p.password != [] then out4 + EncodeString(p.password) else out4;
    AppendingBuildsEncoding(Fields(p), [out0, out1, out2, out3, out4, out5]);
    out5
  }

  /** The size the present fields take on the wire: two bytes of prefix plus the bytes of each. */
  function EncodedLength(fields: seq<MqttString>): nat {
    if fields == [] then 0
    else
      var last := fields[|fields| - 1];
      EncodedLength(fields[..|fields| - 1]) + (if last == [] then 0 else 2 + |last|)
  }

  lemma {:induction false} EncodeAllPresentLength(fields: seq<MqttString>)
    ensures |EncodeAll(Present(fields))| == EncodedLength(fields)
  {
    if fields != [] {
      var n := |fields| - 1;
      EncodeAllPresentLength(fields[..n]);
      PresentStep(fields, n);
      assert fields[..n + 1] == fields;
    }
  }

  /** The payload is as long as the sum of `2 + |f|` over its non-empty fields `f`. */
  lemma PayloadLength(c: Connect)
    requires c.connectionParameters.Some?
    ensures |Payload(c)| == EncodedLength(Fields(c.connectionParameters.value))
  {
    EncodeAllPresentLength(Fields(c.connectionParameters.value));
  }

  /** The payload is empty exactly when all five fields are empty; an empty field never fails. */
  lemma PayloadEmptyIffAllFieldsEmpty(c: Connect)
    requires c.connectionParameters.Some?
    ensures var p := c.connectionParameters.value;
            Payload(c) == [] <==>
              p.clientId == [] && p.willTopic == [] && p.willMessage == [] && p.username == [] && p.password == []
  {
  }

  /**
   * Because an empty client id is left out rather than written as a
   * zero-length string, the payload alone does not say which field a string
   * belongs to: any non-empty will topic with no client id is written exactly
   * like the same string as client id with no will topic.
   */
  lemma PayloadOmitsEmptyClientId(s: MqttString, m: MqttString, u: MqttString, pw: MqttString,
                                  keepAlive: Uint16, flags: Byte)
    requires s != []
    ensures var p1 := Parameters([], s, m, u, pw, keepAlive, flags);
            var p2 := Parameters(s, [], m, u, pw, keepAlive, flags);
            p1 != p2 && Payload(Connect(Some(p1))) == Payload(Connect(Some(p2)))
  {
  }

  // ---------------------------------------------------------------------
  // Reading a payload back
  // ---------------------------------------------------------------------

  /** Splits a buffer into consecutive length-prefixed strings; `None` if it does not split exactly. */
  function DecodeStrings(buf: Bytes): Option<seq<MqttString>>
    decreases |buf|
  {
    if buf == [] then Some([])
    else
      match DecodeString(buf)
      case None => None
      case Some((s, rest)) =>
        match DecodeStrings(rest)
        case None => None
        case Some(tail) => Some([s] + tail)
  }

  lemma {:induction false} EncodeAllFront(fields: seq<MqttString>)
    requires fields != []
    ensures EncodeAll(fields) == EncodeString(fields[0]) + EncodeAll(fields[1..])
  {
    var n := |fields| - 1;
    if n == 0 {
      assert fields[1..] == [];
    } else {
      var head, last := EncodeString(fields[0]), EncodeString(fields[n]);
      var tail := fields[1..];
      var middle := EncodeAll(tail[..n - 1]);
      assert EncodeAll(fields) == (head + middle) + last by {
        EncodeAllFront(fields[..n]);
        assert fields[..n][1..] == tail[..n - 1];
      }
      assert EncodeAll(tail) == middle + last by {
        assert tail[n - 1] == fields[n];
      }
      assert (head + middle) + last == head + (middle + last);
    }
  }

  lemma {:induction false} DecodeEncodeAll(fields: seq<MqttString>)
    ensures DecodeStrings(EncodeAll(fields)) == Some(fields)
    decreases |fields|
  {
    if fields != [] {
      EncodeAllFront(fields);
      DecodeEncodeString(fields[0], EncodeAll(fields[1..]));
      DecodeEncodeAll(fields[1..]);
      assert [fields[0]] + fields[1..] == fields;
    }
  }

  lemma {:induction false} EncodeAllDecodeStrings(buf: Bytes)
    requires DecodeStrings(buf).Some?
    ensures EncodeAll(DecodeStrings(buf).value) == buf
    decreases |buf|
  {
    if buf != [] {
      var (s, rest) := DecodeString(buf).value;
      EncodeDecodeString(buf);
      EncodeAllDecodeStrings(rest);
      var fields := DecodeStrings(buf).value;
      assert fields == [s] + DecodeStrings(rest).value;
      EncodeAllFront(fields);
      assert fields[1..] == DecodeStrings(rest).value;
    }
  }

  /** The payload splits back into exactly the non-empty fields, in order. */
  lemma PayloadDecodes(c: Connect)
    requires c.connectionParameters.Some?
    ensures DecodeStrings(Payload(c)) == Some(Present(Fields(c.connectionParameters.value)))
  {
    DecodeEncodeAll(Present(Fields(c.connectionParameters.value)));
  }

  // ---------------------------------------------------------------------
  // The reply
  // ---------------------------------------------------------------------

  /** A CONNECT is always answered by the broker. */
  function ShouldExpectAnswer(c: Connect): (r: bool)
    ensures r
  {
    true
  }

  /**
   * The reply to a CONNECT, built from the bytes received. Parsing those
   * bytes is the business of the CONNACK packet, whose code lies outside
   * Connect.php, so the result records which packet type was populated and
   * from what.
   */
  function ExpectAnswer(c: Connect, data: Bytes): (r: ReadableContent)
    ensures r.controlPacketValue == ConnackControlPacketValue
    ensures r.populatedFrom == data
  {
    Readable(ConnackControlPacketValue, data)
  }

  /** The reply type is CONNACK (2), the type that follows CONNECT (1), whatever the packet and the bytes. */
  lemma ConnectIsAnsweredByConnack(c: Connect, data: Bytes)
    ensures ShouldExpectAnswer(c)
    ensures ControlPacketValue == 1
    ensures ExpectAnswer(c, data) == Readable(2, data)
  {
  }
}
