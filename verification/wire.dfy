/**
 * The MQTT v3.1.1 wire primitives the CONNECT packet is built from. The
 * library's own helpers for them live outside Connect.php; their behaviour
 * is taken from the standard: a Two Byte Integer is big-endian (section 1.5.2
 * of MQTT v3.1.1) and a UTF-8 Encoded String is a Two Byte Integer length
 * followed by that many bytes (section 1.5.3).
 */
module Wire {
  import opened Results

  /** An octet. A bounded integer rather than `bv8`, so that the arithmetic of
      the length prefix stays linear for the solver. */
  type Byte = b: int | 0 <= b < 0x100
  type Bytes = seq<Byte>

  /** The range of a Two Byte Integer. */
  type Uint16 = n: int | 0 <= n < 0x1_0000

  /** A byte string short enough for its length to fit the two-byte prefix. */
  type MqttString = s: Bytes | |s| < 0x1_0000

  /** Big-endian Two Byte Integer (the library's `convertNumberToBinaryString`). */
  function EncodeUint16(n: Uint16): (r: Bytes)
    ensures |r| == 2
    ensures r[0] == n / 0x100 && r[1] == n % 0x100
  {
    [n / 0x100, n % 0x100]
  }

  /** Reads a big-endian Two Byte Integer. */
  function DecodeUint16(b: Bytes): (n: Uint16)
    requires |b| == 2
  {
    b[0] as int * 0x100 + b[1] as int
  }

  lemma Uint16RoundTrip(n: Uint16)
    ensures DecodeUint16(EncodeUint16(n)) == n
  {
  }

  lemma Uint16Injective(b: Bytes)
    requires |b| == 2
    ensures EncodeUint16(DecodeUint16(b)) == b
  {
  }

  /**
   * A UTF-8 Encoded String (the library's `createUTF8String`): the length as
   * a Two Byte Integer, then the bytes themselves. Well-formedness of the
   * UTF-8 is not checked.
   */
  function EncodeString(s: MqttString): (r: Bytes)
    ensures |r| == 2 + |s|
    ensures DecodeUint16(r[..2]) == |s|
    ensures r[2..] == s
  {
    Uint16RoundTrip(|s|);
    EncodeUint16(|s|) + s
  }

  /**
   * Reads one length-prefixed string from the front of `buf` and returns it
   * with the bytes that follow it; `None` when the buffer is too short for
   * the prefix or for the length the prefix declares.
   */
  function DecodeString(buf: Bytes): (r: Option<(MqttString, Bytes)>)
    ensures r.Some? ==> |r.value.1| < |buf|
  {
    if |buf| < 2 then None
    else
      var n := DecodeUint16(buf[..2]);
      if |buf| - 2 < n then None
      else Some((buf[2..2 + n], buf[2 + n..]))
  }

  lemma DecodeEncodeString(s: MqttString, rest: Bytes)
    ensures DecodeString(EncodeString(s) + rest) == Some((s, rest))
  {
  }

  /** A successful decode consumed exactly one encoded string. */
  lemma EncodeDecodeString(buf: Bytes)
    requires DecodeString(buf).Some?
    ensures EncodeString(DecodeString(buf).value.0) + DecodeString(buf).value.1 == buf
  {
  }
}
