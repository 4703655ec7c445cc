/** MQTT control packets: the fixed header with its variable-length size, and
    the PUBLISH payload of protocol levels 4 and 5. */
module Packets {
  import opened Text

  type byte = b: int | 0 <= b < 256

  const LENGTH_LIMIT: nat := 128 * 128 * 128 * 128
  const DEFAULT_MAXIMUM: nat := 0x10_0000

  // ------------------------------------------------------- remaining length

  function Encoded(length: nat): (r: seq<byte>)
    ensures |r| >= 1
  {
    if length < 128 then [length] else [length % 128 + 128] + Encoded(length / 128)
  }

  lemma EncodedStep(length: nat)
    ensures Encoded(length) == if length / 128 > 0 then [length % 128 + 128] + Encoded(length / 128) else [length % 128]
  {
  }

  method EncodeRemainingLength(length: nat) returns (out: seq<byte>)
    ensures out == Encoded(length) && OnTheWire(length, out)
  {
    EncodedDigits(length);
    hide Encoded, OnTheWire;
    out := [];
    var rest := length;
    while true
      invariant out + Encoded(rest) == Encoded(length)
      decreases rest
    {
      EncodedStep(rest);
      var encoded: byte := rest % 128;
      rest := rest / 128;
      if rest > 0 { encoded := encoded + 128; }
      out := out + [encoded];
      if rest == 0 { return; }
    }
  }

  function Shifted(value: nat, b: byte, multiplier: nat): nat {
    var digit: nat := b % 128;
    value + digit * multiplier
  }

  /** Reads a size from byte i on: its value and the number of bytes used. At
      most four bytes are looked at. */
  function DecodeFrom(data: seq<byte>, i: nat, multiplier: nat, value: nat): (r: Result<(nat, nat)>)
    ensures r.Ok? ==> i < r.value.1 <= 4 && r.value.1 <= |data|
    decreases 4 - i
  {
    if i >= 4 || i >= |data| then Err("malformed remaining length")
    else
      var next := Shifted(value, data[i], multiplier);
      if data[i] < 128 then Ok((next, i + 1)) else DecodeFrom(data, i + 1, multiplier * 128, next)
  }

  function Decoded(data: seq<byte>): Result<(nat, nat)> {
    DecodeFrom(data, 0, 1, 0)
  }

  method DecodeRemainingLengthBytes(data: seq<byte>) returns (r: Result<(nat, nat)>)
    ensures r == Decoded(data)
  {
    var multiplier: nat, value: nat := 1, 0;
    for i := 0 to 4
      invariant Decoded(data) == DecodeFrom(data, i, multiplier, value)
    {
      if |data| <= i { return Err("malformed remaining length"); }
      value := Shifted(value, data[i], multiplier);
      if data[i] < 128 { return Ok((value, i + 1)); }
      multiplier := multiplier * 128;
    }
    return Err("malformed remaining length");
  }

  function Power(n: nat): (p: nat)
    ensures p >= 1
  {
    if n == 0 then 1 else 128 * Power(n - 1)
  }

  lemma {:induction false} DecodeAt(data: seq<byte>, i: nat, value: nat, length: nat, rest: seq<byte>)
    requires i <= |data| && data[i..] == Encoded(length) + rest
    ensures var r := DecodeFrom(data, i, Power(i), value);
      if i + |Encoded(length)| <= 4 then r == Ok((value + length * Power(i), i + |Encoded(length)|)) else r.Err?
    decreases length
  {
    assert data[i] == data[i..][0] && data[i] == Encoded(length)[0];
    if length >= 128 {
      FirstByte(length);
      assert data[i + 1..] == data[i..][1..] == Encoded(length / 128) + rest;
      DecodeAt(data, i + 1, value + (length % 128) * Power(i), length / 128, rest);
      Digits(length, Power(i));
      DecodeNext(data, i, length, value);
      hide Encoded, DecodeFrom, Power;
    }
  }

  lemma FirstByte(length: nat)
    requires length >= 128
    ensures Encoded(length) == [length % 128 + 128] + Encoded(length / 128)
  {
  }

  lemma DecodeNext(data: seq<byte>, i: nat, length: nat, value: nat)
    requires i < |data| && data[i] == length % 128 + 128
    ensures Power(i + 1) == 128 * Power(i)
    ensures i < 4 ==> DecodeFrom(data, i, Power(i), value) == DecodeFrom(data, i + 1, Power(i + 1), value + (length % 128) * Power(i))
    ensures i >= 4 ==> DecodeFrom(data, i, Power(i), value).Err?
  {
  }

  lemma Digits(length: nat, p: nat)
    ensures (length % 128) * p + (length / 128) * (128 * p) == length * p
  {
    var a, q := length % 128, length / 128;
    assert length == 128 * q + a;
    assert (128 * q + a) * p == (128 * q) * p + a * p;
    assert (128 * q) * p == q * (128 * p);
  }

  lemma {:induction false} EncodedSize(length: nat, n: nat)
    ensures |Encoded(length)| <= n + 1 <==> length < Power(n + 1)
  {
    if n > 0 && length >= 128 {
      EncodedSize(length / 128, n - 1);
      assert length / 128 < Power(n) <==> length < 128 * Power(n);
    } else if length < 128 {
      assert Power(n + 1) >= 128;
    }
  }

  /** A size is read back exactly when it fits four bytes. */
  lemma LengthRoundTrip(length: nat, rest: seq<byte>)
    ensures length < 268_435_456 ==> Decoded(Encoded(length) + rest) == Ok((length, |Encoded(length)|)) && |Encoded(length)| <= 4
    ensures length >= 268_435_456 ==> Decoded(Encoded(length) + rest).Err?
  {
    var data := Encoded(length) + rest;
    assert data[0..] == data;
    DecodeAt(data, 0, 0, length, rest);
    EncodedSize(length, 3);
    assert Power(4) == LENGTH_LIMIT;
    assert length * Power(0) == length;
  }

  /** No byte sequence that decodes to the size is shorter than its encoding. */
  lemma EncodingIsMinimal(data: seq<byte>)
    requires Decoded(data).Ok?
    ensures var (length, used) := Decoded(data).value;
      used <= 4 && |Encoded(length)| <= used
  {
    var (length, used) := Decoded(data).value;
    DecodedBelow(data, 0, 0);
    EncodedSize(length, used - 1);
  }

  lemma {:induction false} DecodedBelow(data: seq<byte>, i: nat, value: nat)
    requires value < Power(i) && DecodeFrom(data, i, Power(i), value).Ok?
    ensures var (length, used) := DecodeFrom(data, i, Power(i), value).value;
      1 <= used <= 4 && length < Power(used)
    decreases 4 - i
  {
    var digit: nat := data[i] % 128;
    DigitBelow(digit, Power(i));
    if data[i] >= 128 {
      DecodedBelow(data, i + 1, value + digit * Power(i));
    }
  }

  /** The size's base-128 digits, lowest first, one byte each; every byte but the
      last has its top bit set, and no more bytes than needed are used. */
  ghost predicate OnTheWire(length: nat, out: seq<byte>) {
    && |out| >= 1 && length < Power(|out|) && (|out| > 1 ==> length >= Power(|out| - 1))
    && forall i :: 0 <= i < |out| ==> out[i] == length / Power(i) % 128 + if i < |out| - 1 then 128 else 0
  }

  lemma {:induction false} EncodedDigits(length: nat)
    ensures OnTheWire(length, Encoded(length))
  {
    if length < 128 {
      assert length / Power(0) == length && Power(1) == 128;
    } else {
      EncodedDigits(length / 128);
      hide Encoded;
      EncodedStep(length);
      OneMoreDigit(length, Encoded(length / 128));
    }
  }

  lemma OneMoreDigit(length: nat, out: seq<byte>)
    requires length >= 128 && OnTheWire(length / 128, out)
    ensures OnTheWire(length, [length % 128 + 128] + out)
  {
    hide Power;
    var longer := [length % 128 + 128] + out;
    PowerNext(length, |out|);
    PowerNext(length, |out| - 1);
    forall i | 0 <= i < |longer| ensures longer[i] == length / Power(i) % 128 + if i < |longer| - 1 then 128 else 0 {
      if i > 0 {
        DigitAt(length, out, i - 1);
      }
    }
  }

  lemma DigitAt(length: nat, out: seq<byte>, i: nat)
    requires i < |out| && OnTheWire(length / 128, out)
    ensures out[i] == length / Power(i + 1) % 128 + if i < |out| - 1 then 128 else 0
  {
    PowerNext(length, i);
    hide Power;
  }

  lemma PowerNext(length: nat, n: nat)
    ensures Power(0) == 1 && length / 1 == length
    ensures length / Power(n + 1) == length / 128 / Power(n)
    ensures length / 128 < Power(n) <==> length < Power(n + 1)
  {
    var p := Power(n);
    DivTwice(length, p);
    assert Power(n + 1) == 128 * p;
    hide Power;
    BelowPower(length, p);
  }

  lemma BelowPower(n: int, p: int)
    ensures n / 128 < p <==> n < 128 * p
  {
  }

  lemma DivTwice(n: int, p: int)
    requires p > 0
    ensures n / 128 / p == n / (128 * p)
  {
    var q, r, low := n / 128 / p, n / 128 % p, n % 128;
    assert n == 128 * (q * p + r) + low;
    assert 128 * (q * p) == q * (128 * p);
    Quotient(n, 128 * p, q, 128 * r + low);
  }

  lemma Quotient(n: int, d: int, q: int, r: int)
    requires d > 0 && n == q * d + r && 0 <= r < d
    ensures n / d == q
  {
    var e := n / d - q;
    assert e * d == (n / d) * d - q * d;
    assert e >= 1 ==> e * d >= d;
    assert e <= -1 ==> e * d <= -d;
  }

  lemma DigitBelow(digit: nat, p: nat)
    requires digit < 128
    ensures digit * p <= 127 * p
  {
  }

  // ---------------------------------------------------------------- packets

  /** Bitwise or. */
  function Or(a: nat, b: nat): nat {
    if a == 0 && b == 0 then 0
    else (if a % 2 == 1 || b % 2 == 1 then 1 else 0) + 2 * Or(a / 2, b / 2)
  }

  function HighNibble(b: byte): byte { b / 16 }

  lemma {:induction false} OrBelow(a: nat, b: nat, bits: nat, bound: nat)
    requires bound == Power2(bits) && a < bound && b < bound
    ensures Or(a, b) < bound
    decreases bits
  {
    if bits > 0 {
      OrBelow(a / 2, b / 2, bits - 1, Power2(bits - 1));
    }
  }

  function Power2(n: nat): nat {
    if n == 0 then 1 else 2 * Power2(n - 1)
  }

  /** packetType << 4 | flags, on bytes. */
  function Header(packetType: byte, flags: byte): byte {
    assert Power2(8) == 256 by { assert Power2(4) == 16; }
    OrBelow(packetType * 16 % 256, flags, 8, 256);
    Or(packetType * 16 % 256, flags)
  }

  /** The type that comes out of a header: flags above the low four bits, and
      types above fifteen, corrupt it. */
  lemma HeaderType(packetType: byte, flags: byte)
    ensures HighNibble(Header(packetType, flags)) == Or(packetType % 16, flags / 16)
    ensures packetType < 16 && flags < 16 ==> HighNibble(Header(packetType, flags)) == packetType
    ensures packetType < 16 && flags < 16 ==> Header(packetType, flags) == packetType * 16 + flags
  {
    HeaderBits(packetType, flags);
    hide Or, Header;
    HeaderHigh(packetType, flags);
    assert packetType < 16 && flags < 16 ==> flags / 16 == 0 && packetType % 16 == packetType;
    OrZero(packetType);
  }

  lemma HeaderBits(packetType: byte, flags: byte)
    ensures packetType < 16 && flags < 16 ==> Header(packetType, flags) == packetType * 16 + flags
  {
    hide Or, Power2;
    if packetType < 16 && flags < 16 {
      Sixteen();
      OrDisjoint(packetType, flags, 4);
      assert packetType * 16 % 256 == packetType * 16;
    }
  }

  lemma Sixteen()
    ensures Power2(4) == 16
  {
  }

  lemma HeaderHigh(packetType: byte, flags: byte)
    ensures HighNibble(Header(packetType, flags)) == Or(packetType % 16, flags / 16)
  {
    hide Or;
    var t: nat := packetType % 16;
    LowBits(packetType, flags);
    OrHalf(16 * t, flags);
    OrHalf(8 * t, flags / 2);
    OrHalf(4 * t, flags / 2 / 2);
    OrHalf(2 * t, flags / 2 / 2 / 2);
    HalfTwice(Or(16 * t, flags));
  }

  lemma HalfTwice(n: nat)
    ensures n / 2 / 2 / 2 / 2 == n / 16
  {
  }

  lemma LowBits(packetType: byte, flags: byte)
    ensures packetType * 16 % 256 == 16 * (packetType % 16) && flags / 2 / 2 / 2 / 2 == flags / 16
  {
  }

  /** Bits that do not overlap are put side by side. */
  lemma {:induction false} OrDisjoint(high: nat, low: nat, bits: nat)
    requires low < Power2(bits)
    ensures Or(high * Power2(bits), low) == high * Power2(bits) + low
    decreases bits
  {
    if bits == 0 {
      OrZero(high);
    } else {
      var p := Power2(bits - 1);
      assert high * Power2(bits) == 2 * (high * p);
      OrDisjoint(high, low / 2, bits - 1);
    }
  }

  lemma OrHalf(a: nat, b: nat)
    ensures Or(a, b) / 2 == Or(a / 2, b / 2)
  {
  }

  lemma {:induction false} OrZero(a: nat)
    ensures Or(a, 0) == a
  {
    if a > 0 { OrZero(a / 2); }
  }

  function Packet(packetType: byte, flags: byte, payload: seq<byte>): seq<byte> {
    [Header(packetType, flags)] + Encoded(|payload|) + payload
  }

  /** A byte stream: writers append to it, readers take from its front. */
  class Stream {
    var bytes: seq<byte>

    constructor (initial: seq<byte>)
      ensures bytes == initial
    {
      bytes := initial;
    }

    method Write(data: seq<byte>)
      modifies this
      ensures bytes == old(bytes) + data
    {
      bytes := bytes + data;
    }

    method ReadFull(n: nat) returns (r: Result<seq<byte>>)
      modifies this
      ensures n <= |old(bytes)| ==> r == Ok(old(bytes)[..n]) && bytes == old(bytes)[n..]
      ensures n > |old(bytes)| ==> r.Err? && bytes == []
    {
      if n > |bytes| {
        bytes := [];
        return Err("unexpected EOF");
      }
      r := Ok(bytes[..n]);
      bytes := bytes[n..];
    }

    method WritePacket(packetType: byte, flags: byte, payload: seq<byte>)
      modifies this
      ensures bytes == old(bytes) + Packet(packetType, flags, payload)
    {
      var header := [Header(packetType, flags)];
      var length := EncodeRemainingLength(|payload|);
      Write(header + length);
      Write(payload);
    }

    /** The stream decoder sees the same sizes as the one on bytes. */
    method DecodeRemainingLength() returns (r: Result<nat>)
      modifies this
      ensures r.Ok? <==> Decoded(old(bytes)).Ok?
      ensures r.Ok? ==> r.value == Decoded(old(bytes)).value.0 && bytes == old(bytes)[Decoded(old(bytes)).value.1..]
    {
      var multiplier: nat, value: nat := 1, 0;
      ghost var all := bytes;
      hide Shifted;
      for i := 0 to 4
        invariant i <= |all| && bytes == all[i..]
        invariant Decoded(all) == DecodeFrom(all, i, multiplier, value)
      {
        var b := ReadFull(1);
        if b.Err? { return Err(b.error); }
        assert b.value[0] == all[i] && bytes == all[i + 1..];
        value := Shifted(value, b.value[0], multiplier);
        if b.value[0] < 128 { return Ok(value); }
        multiplier := multiplier * 128;
      }
      return Err("malformed remaining length");
    }

    method ReadPacketLimit(maximum: int) returns (r: Result<(byte, seq<byte>)>)
      modifies this
      ensures match Parsed(old(bytes), maximum)
        case Ok((packetType, payload, rest)) => r == Ok((packetType, payload)) && bytes == rest
        case Err(_) => r.Err?
      ensures r.Ok? ==> |r.value.1| <= if maximum <= 0 then 1_048_576 else maximum
    {
      ghost var all := bytes;
      var first := ReadFull(1);
      if first.Err? { return Err(first.error); }
      assert first.value[0] == all[0] && bytes == all[1..];
      var remaining := DecodeRemainingLength();
      if remaining.Err? { return Err(remaining.error); }
      var limit := maximum;
      if limit <= 0 { limit := DEFAULT_MAXIMUM; }
      if remaining.value > limit { return Err("mqtt packet size exceeds limit"); }
      var payload := ReadFull(remaining.value);
      if payload.Err? { return Err(payload.error); }
      return Ok((HighNibble(first.value[0]), payload.value));
    }
  }

  function Limit(maximum: int): nat {
    if maximum <= 0 then DEFAULT_MAXIMUM else maximum
  }

  /** Type, payload and what is left of the stream. */
  function Parsed(data: seq<byte>, maximum: int): (r: Result<(byte, seq<byte>, seq<byte>)>) {
    if data == [] then Err("unexpected EOF")
    else
      match Decoded(data[1..])
      case Err(error) => Err(error)
      case Ok((length, used)) =>
        var body := data[1 + used..];
        if length > Limit(maximum) then Err("mqtt packet size exceeds limit")
        else if length > |body| then Err("unexpected EOF")
        else Ok((HighNibble(data[0]), body[..length], body[length..]))
  }

  /** One packet comes back as it was written exactly when its type survives the
      header, its size is within the reader's limit and fits four bytes. The
      last condition is not implied: a limit of 128^4 is accepted. */
  lemma PacketRoundTrip(packetType: byte, flags: byte, payload: seq<byte>, rest: seq<byte>, maximum: int)
    ensures Parsed(Packet(packetType, flags, payload) + rest, maximum) == Ok((packetType, payload, rest))
      <==> Or(packetType % 16, flags / 16) == packetType
           && |payload| <= (if maximum <= 0 then 1_048_576 else maximum) && |payload| < 268_435_456
  {
    HeaderType(packetType, flags);
    LengthRoundTrip(|payload|, payload + rest);
    assert Limit(maximum) == if maximum <= 0 then 1_048_576 else maximum;
    var h, e := Header(packetType, flags), Encoded(|payload|);
    hide Or, Encoded, Decoded, Header, HighNibble, Limit, Parsed;
    ParsedParts(h, e, payload, rest, maximum);
  }

  lemma ParsedParts(h: byte, e: seq<byte>, payload: seq<byte>, rest: seq<byte>, maximum: int)
    ensures Decoded(e + (payload + rest)) == Ok((|payload|, |e|)) ==>
      Parsed([h] + e + payload + rest, maximum) ==
        if |payload| > Limit(maximum) then Err("mqtt packet size exceeds limit") else Ok((HighNibble(h), payload, rest))
    ensures Decoded(e + (payload + rest)).Err? ==> Parsed([h] + e + payload + rest, maximum).Err?
  {
    hide Decoded, Limit, HighNibble;
    var data := [h] + e + payload + rest;
    assert data[1..] == e + (payload + rest);
    assert data[1 + |e|..] == payload + rest;
    assert (payload + rest)[..|payload|] == payload && (payload + rest)[|payload|..] == rest;
  }

  datatype Message = Message(packetType: byte, flags: byte, payload: seq<byte>)

  function Written(messages: seq<Message>): seq<byte> {
    if messages == [] then []
    else Packet(messages[0].packetType, messages[0].flags, messages[0].payload) + Written(messages[1..])
  }

  function Contents(messages: seq<Message>): seq<(byte, seq<byte>)> {
    if messages == [] then [] else [(messages[0].packetType, messages[0].payload)] + Contents(messages[1..])
  }

  /** Reads n packets in a row. */
  function ReadMany(data: seq<byte>, maximum: int, n: nat): Result<seq<(byte, seq<byte>)>> {
    if n == 0 then Ok([])
    else
      match Parsed(data, maximum)
      case Err(error) => Err(error)
      case Ok((packetType, payload, rest)) =>
        match ReadMany(rest, maximum, n - 1)
        case Err(error) => Err(error)
        case Ok(more) => Ok([(packetType, payload)] + more)
  }

  predicate Sendable(m: Message, maximum: int) {
    m.packetType < 16 && m.flags < 16 && |m.payload| < 268_435_456 &&
    |m.payload| <= if maximum <= 0 then 1_048_576 else maximum
  }

  /** Packets written back to back are read back in order, whatever follows. */
  lemma {:induction false} StreamRoundTrip(messages: seq<Message>, rest: seq<byte>, maximum: int)
    requires forall m <- messages :: Sendable(m, maximum)
    ensures ReadMany(Written(messages) + rest, maximum, |messages|)
      == Ok(Contents(messages))
  {
    if messages != [] {
      var m, more := messages[0], messages[1..];
      assert m in messages;
      OrFits(m);
      var tail := Written(more) + rest;
      assert Written(messages) + rest == Packet(m.packetType, m.flags, m.payload) + tail;
      PacketRoundTrip(m.packetType, m.flags, m.payload, tail, maximum);
      StreamRoundTrip(more, rest, maximum);
    }
  }

  lemma OrFits(m: Message)
    requires m.packetType < 16 && m.flags < 16
    ensures Or(m.packetType % 16, m.flags / 16) == m.packetType
  {
    assert m.packetType % 16 == m.packetType && m.flags / 16 == 0;
    OrZero(m.packetType);
    hide Or;
  }

  // ---------------------------------------------------------------- PUBLISH

  function ProtocolLevel(version: string): nat {
    if version == "5.0" || version == "5" then 5 else 4
  }

  function BigEndian16(n: nat): seq<byte> {
    [n % 65536 / 256, n % 256]
  }

  /** The length prefix is a 16-bit value: longer texts wrap around. */
  function MqttString(value: seq<byte>): seq<byte> {
    BigEndian16(|value|) + value
  }

  function PublishPayload(topic: seq<byte>, payload: seq<byte>, version: string): seq<byte> {
    MqttString(topic) + (if ProtocolLevel(version) == 5 then [0] else []) + payload
  }

  function ParsePublish(payload: seq<byte>, version: string): Result<(seq<byte>, seq<byte>)> {
    if |payload| < 2 then Err("short publish")
    else
      var size: nat := (payload[0] as int) * 256 + payload[1];
      if |payload| < 2 + size then Err("short publish topic")
      else
        var topic, body := payload[2..2 + size], payload[2 + size..];
        if ProtocolLevel(version) != 5 then Ok((topic, body))
        else
          match Decoded(body)
          case Err(error) => Err(error)
          case Ok((length, used)) =>
            if |body| < used + length then Err("short publish properties")
            else Ok((topic, body[used + length..]))
  }

  /** The bytes of a PUBLISH: the topic's length in two bytes, high byte first, the
      topic, in version 5 a property length of zero, and the body. */
  lemma PublishOnTheWire(topic: seq<byte>, payload: seq<byte>, version: string)
    requires |topic| <= 65535
    ensures PublishPayload(topic, payload, version)
      == [|topic| / 256, |topic| % 256] + topic + (if version == "5.0" || version == "5" then [0] else []) + payload
  {
    assert BigEndian16(|topic|) == [|topic| / 256, |topic| % 256];
    hide BigEndian16;
  }

  /** Whatever properties a PUBLISH of version 5 carries, topic and body are read
      back; in other versions nothing is skipped. */
  lemma PropertiesAreSkipped(topic: seq<byte>, properties: seq<byte>, body: seq<byte>, version: string)
    requires |topic| <= 65535 && |properties| < 268_435_456
    ensures var head: seq<byte> := [|topic| / 256, |topic| % 256] + topic;
      && (version in {"5", "5.0"} ==>
            ParsePublish(head + (Encoded(|properties|) + (properties + body)), version) == Ok((topic, body)))
      && (version !in {"5", "5.0"} ==> ParsePublish(head + body, version) == Ok((topic, body)))
  {
    hide Encoded, Decoded, ParsePublish;
    var skipped := Encoded(|properties|) + (properties + body);
    LengthRoundTrip(|properties|, properties + body);
    HeadParsed(topic, skipped, version);
    HeadParsed(topic, body, version);
    assert skipped[|Encoded(|properties|)| + |properties|..] == body;
  }

  lemma HeadParsed(topic: seq<byte>, body: seq<byte>, version: string)
    requires |topic| <= 65535
    ensures var head: seq<byte> := [|topic| / 256, |topic| % 256] + topic;
      ParsePublish(head + body, version) ==
        if version !in {"5", "5.0"} then Ok((topic, body))
        else match Decoded(body)
          case Err(error) => Err(error)
          case Ok((length, used)) =>
            if |body| < used + length then Err("short publish properties") else Ok((topic, body[used + length..]))
  {
    hide Decoded;
    var head: seq<byte> := [|topic| / 256, |topic| % 256] + topic;
    var data := head + body;
    assert (data[0] as int) * 256 + data[1] == |topic|;
    assert data[2..2 + |topic|] == topic && data[2 + |topic|..] == body;
  }

  lemma NoProperties(payload: seq<byte>)
    ensures Decoded([0] + payload) == Ok((0, 1))
  {
  }

  lemma PublishSize(topic: seq<byte>, payload: seq<byte>, version: string)
    ensures var data := PublishPayload(topic, payload, version);
      && |data| >= 2 + |topic| && (data[0] as int) * 256 + data[1] == |topic| % 65536
      && data[2..2 + |topic|] == topic
      && data[2 + |topic|..] == (if ProtocolLevel(version) == 5 then [0] else []) + payload
  {
    hide ProtocolLevel, BigEndian16;
    TwoBytes(|topic|);
    var tail := (if ProtocolLevel(version) == 5 then [0] else []) + payload;
    assert PublishPayload(topic, payload, version) == BigEndian16(|topic|) + topic + tail;
  }

  lemma TwoBytes(n: nat)
    ensures var b := BigEndian16(n); |b| == 2 && (b[0] as int) * 256 + b[1] == n % 65536
  {
    assert n % 65536 % 256 == n % 256;
  }

  lemma PublishTooLong(topic: seq<byte>, payload: seq<byte>, version: string)
    requires |topic| > 65535
    ensures var r := ParsePublish(PublishPayload(topic, payload, version), version); r.Ok? ==> |r.value.0| < |topic|
  {
    PublishSize(topic, payload, version);
    hide Decoded, ProtocolLevel, PublishPayload;
  }

  lemma PublishFits(topic: seq<byte>, payload: seq<byte>, version: string)
    requires |topic| <= 65535
    ensures ParsePublish(PublishPayload(topic, payload, version), version) == Ok((topic, payload))
  {
    hide Decoded, ProtocolLevel, PublishPayload, ParsePublish;
    PublishSize(topic, payload, version);
    NoProperties(payload);
    var data := PublishPayload(topic, payload, version);
    ParsedBody(data, topic, data[2 + |topic|..], version);
    assert ([0] + payload)[1..] == payload && [] + payload == payload;
  }

  lemma ParsedBody(data: seq<byte>, topic: seq<byte>, body: seq<byte>, version: string)
    requires |data| >= 2 + |topic| && (data[0] as int) * 256 + data[1] == |topic|
    requires data[2..2 + |topic|] == topic && data[2 + |topic|..] == body
    ensures ProtocolLevel(version) != 5 ==> ParsePublish(data, version) == Ok((topic, body))
    ensures ProtocolLevel(version) == 5 && |body| >= 1 && Decoded(body) == Ok((0, 1)) ==> ParsePublish(data, version) == Ok((topic, body[1..]))
  {
    hide Decoded, ProtocolLevel;
  }

  /** Topic and body come back exactly when the topic's length fits 16 bits. */
  lemma PublishRoundTrip(topic: seq<byte>, payload: seq<byte>, version: string)
    ensures ParsePublish(PublishPayload(topic, payload, version), version) == Ok((topic, payload)) <==> |topic| <= 65535
  {
    hide ParsePublish, PublishPayload;
    if |topic| <= 65535 { PublishFits(topic, payload, version); } else { PublishTooLong(topic, payload, version); }
  }
}
