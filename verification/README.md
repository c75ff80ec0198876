# MQTT v3.1.1 CONNECT serialisation and subscription topics

A Dafny model of two parts of the client packet layer of the `unreal4u/mqtt`
PHP library:

- **`ConnectPacket`** (`src/Protocol/Connect.php`) models the CONNECT packet.
  It holds the connection parameters, which must be set before they can be
  read back. It builds the variable header: the length-prefixed protocol name
  "MQTT", the protocol level byte, the connect-flags byte and the keep-alive
  as a big-endian 16-bit integer. It builds the payload: client id, will topic,
  will message, username and password, each as a length-prefixed string, each
  written only when non-empty. It always expects an answer, and that answer is
  a CONNACK populated from the bytes received.
- **`SubscribeTopic`** (`src/Protocol/Subscribe/Topic.php`) models the topic
  filter of a subscription. It is an immutable `(name, qos)` value. Its
  constructor rejects an empty name (`InvalidArgument`) and then a QoS outside
  0..2 (`InvalidQoSLevel`). The QoS defaults to 0. Validity is the subset type
  `Topic`.
- **`Wire`** holds the wire primitives. The library's helpers for them are not
  part of this model: `createUTF8String`, `Utilities::convertNumberToBinaryString`,
  `getProtocolLevel` and `Parameters::getFlags`. They are **assumed** to behave
  as MQTT v3.1.1 prescribes:
  - a Two Byte Integer is big-endian (section 1.5.2);
  - a UTF-8 Encoded String is a Two Byte Integer length followed by the bytes
    (section 1.5.3);
  - the protocol level and the flags byte are opaque bytes.

  `Wire` also gives decoders for both encodings. They are the inverses the
  round-trip lemmas are stated against.
- **`Results`** holds the `Option`/`Result` wrappers. They stand for the PHP
  exceptions.

PHP strings are byte strings, so every string is `seq<Byte>`. `Byte` is an
integer in 0..255.

## Model

| member | source | states |
|---|---|---|
| ConnectPacket.NewConnect | src/Protocol/Connect.php:22-25 | a fresh packet holds no connection parameters |
| ConnectPacket.SetConnectionParameters | src/Protocol/Connect.php:33-37 | after setting, the packet holds exactly the given parameters, whatever it held before |
| ConnectPacket.GetConnectionParameters | src/Protocol/Connect.php:45-52 | fails with NoConnectionParametersDefined exactly when no parameters are held; otherwise returns the parameters held |
| ConnectPacket.ParametersLifecycle | src/Protocol/Connect.php:33-52 | a fresh packet reports NoConnectionParametersDefined; after setting `p` the getter returns exactly `p`; a second set replaces the first |
| ConnectPacket.VariableHeader | src/Protocol/Connect.php:54-60 | the header is 10 bytes: 00 04 'M' 'Q' 'T' 'T', then the protocol level, then the flags byte exactly as the parameters report it, then two bytes that read back as the keep-alive period |
| ConnectPacket.ParseVariableHeaderInverse | src/Protocol/Connect.php:54-60 | reading a built header gives back exactly the protocol level, flags and keep-alive it was built from |
| ConnectPacket.VariableHeaderDeterminedByFields | src/Protocol/Connect.php:54-60 | any bytes that read as a CONNECT variable header are exactly the header built from the values read, so the header carries nothing else |
| ConnectPacket.Payload | src/Protocol/Connect.php:63-92 | the payload is the in-order concatenation of the length-prefixed client id, will topic, will message, username and password, keeping only the non-empty ones |
| ConnectPacket.PresentStep | src/Protocol/Connect.php:65-89 | adding a field appends exactly its length-prefixed encoding, and zero bytes when the field is empty |
| ConnectPacket.AppendingBuildsEncoding | src/Protocol/Connect.php:65-91 | writing the fields one after another, each adding its contribution, produces the encoding of the non-empty fields in order |
| ConnectPacket.PayloadLength | src/Protocol/Connect.php:67-89 | the payload length is two bytes plus the field length, summed over the non-empty fields |
| ConnectPacket.EncodeAllPresentLength | src/Protocol/Connect.php:67-89 | for any list of fields, the encoding of the non-empty ones takes two bytes plus the field length for each non-empty field |
| ConnectPacket.PayloadEmptyIffAllFieldsEmpty | src/Protocol/Connect.php:65-91 | the payload is empty if and only if all five fields are empty |
| ConnectPacket.PayloadOmitsEmptyClientId | src/Protocol/Connect.php:67-74 | for every non-empty string s and any other fields, an empty client id with will topic s gives the same payload as client id s with no will topic |
| ConnectPacket.PayloadDecodes | src/Protocol/Connect.php:63-92 | splitting the payload into length-prefixed strings gives back exactly the non-empty fields, in order |
| ConnectPacket.DecodeEncodeAll | src/Protocol/Connect.php:63-92 | any list of strings, concatenated as length-prefixed strings, splits back into that same list |
| ConnectPacket.EncodeAllDecodeStrings | src/Protocol/Connect.php:63-92 | any buffer that splits into length-prefixed strings is exactly their concatenation |
| ConnectPacket.ShouldExpectAnswer | src/Protocol/Connect.php:94-97 | a CONNECT always expects an answer |
| ConnectPacket.ExpectAnswer | src/Protocol/Connect.php:103-109 | the answer is a CONNACK (packet type 2) populated from exactly the bytes received, whatever the packet's parameters |
| ConnectPacket.ConnectIsAnsweredByConnack | src/Protocol/Connect.php:94-109 | CONNECT is packet type 1; it always expects an answer, and the answer is a CONNACK holding the received bytes |
| Wire.EncodeUint16 | src/Protocol/Connect.php:59 | the keep-alive is written as two bytes, high byte first |
| Wire.Uint16RoundTrip | src/Protocol/Connect.php:59 | reading the two bytes back gives the original 16-bit value |
| Wire.Uint16Injective | src/Protocol/Connect.php:59 | every two-byte sequence is the encoding of the value it reads as |
| Wire.EncodeString | src/Protocol/Connect.php:56 | a string is written as its length in two big-endian bytes followed by the string itself |
| Wire.DecodeEncodeString | src/Protocol/Connect.php:68 | a length-prefixed string reads back as that string, with whatever followed it left unconsumed |
| Wire.EncodeDecodeString | src/Protocol/Connect.php:68 | a buffer that reads as a length-prefixed string is exactly that string's encoding followed by the rest |
| SubscribeTopic.SetTopicName | src/Protocol/Subscribe/Topic.php:61-70 | an empty name fails with InvalidArgument; any other name is stored as given and the QoS level is left as it was |
| SubscribeTopic.SetQoSLevel | src/Protocol/Subscribe/Topic.php:79-88 | a level below 0 or above 2 fails with InvalidQoSLevel; 0, 1 and 2 are stored as given and the name is left as it was |
| SubscribeTopic.NewTopic | src/Protocol/Subscribe/Topic.php:47-52 | succeeds if and only if the name is non-empty and the QoS is 0, 1 or 2; an empty name reports InvalidArgument whatever the QoS; the getters of the result return exactly the inputs |
| SubscribeTopic.NewTopicWithDefaultQoS | src/Protocol/Subscribe/Topic.php:47-52 | with no QoS given, any non-empty name is accepted with QoS 0, and an empty name fails with InvalidArgument |
| SubscribeTopic.GetTopicName | src/Protocol/Subscribe/Topic.php:93-96 | the name of a constructed topic is never empty |
| SubscribeTopic.GetTopicQoSLevel | src/Protocol/Subscribe/Topic.php:101-104 | the QoS level of a constructed topic is always 0, 1 or 2 |
| SubscribeTopic.ReconstructFromGetters | src/Protocol/Subscribe/Topic.php:47-104 | constructing from a topic's own name and level gives back that same topic |
| SubscribeTopic.NewTopicInjective | src/Protocol/Subscribe/Topic.php:47-104 | two successful constructions give the same topic only when their names and levels are equal |
| SubscribeTopic.AcceptsLongNames | src/Protocol/Subscribe/Topic.php:61-70 | no length bound is enforced: names longer than 65535 bytes are accepted |

## Left out

- The fixed header, the remaining-length encoding and the serialisation of a whole packet are not part of this model. They come from the `CommonFunctionality` and `WritableContent` traits, whose code lies outside Connect.php.
- The logger call in `expectAnswer` (src/Protocol/Connect.php:105) is observability only.
- Parsing the CONNACK is not modelled. `Connack::populate` lives in the `Connack` class, outside Connect.php, so `ExpectAnswer` records only the packet type and the bytes it was populated from.
- ExpectAnswer: `Connack::populate` (src/Protocol/Connect.php:107) is assumed to succeed on any bytes, so the model always returns a CONNACK and never models an error raised while parsing the reply.
- Parameters: how `Parameters` derives the flags byte is not modelled, because that code lies in the `Parameters` class, outside Connect.php. The flags are an opaque byte.
- Parameters: the five string fields are typed as at most 65535 bytes, and the keep-alive as 0..65535. The behaviour outside those ranges is decided by the encoding helpers, whose code lies outside Connect.php.
- VariableHeader: the protocol level is a parameter. `getProtocolLevel` comes from a trait whose code lies outside Connect.php.
- VariableHeader, Payload: both require parameters to be set. The PHP code reads the field directly, not through the guarded getter, so with no parameters it dereferences null instead of raising NoConnectionParametersDefined.
- UTF-8 well-formedness is not checked by either file, so strings are plain byte sequences.
- The PHP objects are mutable and `setConnectionParameters` returns `$this`. Here a packet is a value, and setting parameters returns the updated value. The topic's private setters are functions on its state, chained by the constructor exactly as in the source.

## Divergence from the standard

Section 3.1.3.1 of MQTT v3.1.1 requires the client identifier to be present in the payload, even as a zero-length string. The code omits it when it is empty (src/Protocol/Connect.php:67), and the model follows the code. `PayloadOmitsEmptyClientId` shows the consequence: the payload alone no longer says which field a string belongs to.
