/**
 * Log messages and their byte form.
 */
module LogMessages {
  import opened Basics
  import opened LittleEndian

  const MAX_MODULE_LEN := 32
  const MAX_MESSAGE_LEN := 512
  const HEADER_LEN := 13

  datatype Level = Error | Warn | Info | Debug | Trace

  datatype LogMessage = LogMessage(
    level: Level,
    pid: U32,
    cpuId: Byte,
    timestamp: U32,
    mod: seq<Byte>,
    message: seq<Byte>)

  function LevelByte(l: Level): Byte {
    match l
    case Error => 1
    case Warn => 2
    case Info => 3
    case Debug => 4
    case Trace => 5
  }

  /** `LogMessage::new` refuses what is too long. */
  function New(level: Level, pid: U32, cpuId: Byte, timestamp: U32, mod: seq<Byte>,
               message: seq<Byte>): (r: Option<LogMessage>)
    ensures r.Some? <==> |mod| <= MAX_MODULE_LEN && |message| <= MAX_MESSAGE_LEN
    ensures r.Some? ==>
              && Representable(r.value) && r.value.level == level && r.value.pid == pid && r.value.cpuId == cpuId
              && r.value.timestamp == timestamp && r.value.mod == mod && r.value.message == message
  {
    if |mod| > MAX_MODULE_LEN || |message| > MAX_MESSAGE_LEN then None
    else Some(LogMessage(level, pid, cpuId, timestamp, mod, message))
  }

  /** The two length fields can hold the lengths. */
  predicate Representable(m: LogMessage) {
    |m.mod| < 0x100 && |m.message| < 0x1_0000
  }

  function Header(m: LogMessage): (s: seq<Byte>)
    ensures |s| == HEADER_LEN
  {
    [LevelByte(m.level)] + Encode(m.pid, 4) + [m.cpuId] + Encode(m.timestamp, 4)
    + Encode(|m.mod|, 1) + Encode(|m.message|, 2)
  }

  /** The byte form: header, module name, text. */
  function Serialized(m: LogMessage): (s: seq<Byte>)
    ensures |s| == HEADER_LEN + |m.mod| + |m.message|
  {
    Header(m) + m.mod + m.message
  }

  /** The byte form, place by place: level, process, processor, time, the two lengths, then
      the module name and after it the text; numbers with their lowest byte first. */
  lemma SerializedAt(m: LogMessage, i: nat)
    requires i < |Serialized(m)|
    ensures Serialized(m)[i]
         == if i == 0 then (match m.level case Error => 1 case Warn => 2 case Info => 3 case Debug => 4 case Trace => 5)
            else if i < 5 then m.pid / Pow256(i - 1) % 256
            else if i == 5 then m.cpuId
            else if i < 10 then m.timestamp / Pow256(i - 6) % 256
            else if i == 10 then |m.mod| % 256
            else if i < 13 then |m.message| / Pow256(i - 11) % 256
            else if i < 13 + |m.mod| then m.mod[i - 13]
            else m.message[i - 13 - |m.mod|]
  {
    hide Encode, Pow256;
    if 1 <= i < 5 {
      EncodeAt(m.pid, 4, i - 1);
    } else if 6 <= i < 10 {
      EncodeAt(m.timestamp, 4, i - 6);
    } else if i == 10 {
      EncodeAt(|m.mod|, 1, 0);
      OneByte();
    } else if 11 <= i < 13 {
      EncodeAt(|m.message|, 2, i - 11);
    }
  }

  lemma OneByte()
    ensures Pow256(0) == 1
  {
  }

  method Serialize(m: LogMessage) returns (buffer: seq<Byte>)
    ensures buffer == Serialized(m)
  {
    buffer := [];
    buffer := buffer + [LevelByte(m.level)];
    buffer := buffer + Encode(m.pid, 4);
    buffer := buffer + [m.cpuId];
    buffer := buffer + Encode(m.timestamp, 4);
    buffer := buffer + Encode(|m.mod| % 0x100, 1);
    buffer := buffer + Encode(|m.message| % 0x1_0000, 2);
    LengthsTruncate(|m.mod|, |m.message|);
    buffer := buffer + m.mod;
    buffer := buffer + m.message;
  }

  /** The casts to u8 and u16 keep the low bytes. */
  lemma LengthsTruncate(a: nat, b: nat)
    ensures Encode(a % 0x100, 1) == Encode(a, 1) && Encode(b % 0x1_0000, 2) == Encode(b, 2)
  {
    Low16(b);
    assert Encode(b, 2) == [b % 256] + Encode(b / 256, 1);
    assert Encode(b % 0x1_0000, 2) == [b % 0x1_0000 % 256] + Encode(b % 0x1_0000 / 256, 1);
  }

  lemma Low16(b: nat)
    ensures b % 0x1_0000 % 256 == b % 256 && b % 0x1_0000 / 256 % 256 == b / 256 % 256
  {
    var q, r := b / 0x1_0000, b % 0x1_0000;
    assert b == 256 * (256 * q) + r;
    assert b / 256 == 256 * q + r / 256;
  }

  function LevelOf(b: Byte): (r: Option<Level>)
    ensures r.Some? ==> LevelByte(r.value) == b
    ensures r.None? ==> forall l :: LevelByte(l) != b
  {
    if b == 1 then Some(Error) else if b == 2 then Some(Warn) else if b == 3 then Some(Info)
    else if b == 4 then Some(Debug) else if b == 5 then Some(Trace) else None
  }

  function Deserialized(data: seq<Byte>): (r: Option<LogMessage>) {
    Pow256Values();
    if |data| < HEADER_LEN || LevelOf(data[0]).None? then None
    else
      var n, k := Word(data, 10, 1), Word(data, 11, 2);
      if HEADER_LEN + n + k > |data| then None
      else Some(LogMessage(LevelOf(data[0]).value, Word(data, 1, 4), data[5], Word(data, 6, 4),
                           data[HEADER_LEN..HEADER_LEN + n], data[HEADER_LEN + n..HEADER_LEN + n + k]))
  }

  /** The parser walks the bytes with an offset; it also meets data of exactly twelve
      bytes, which pass its first length test and fail its second. */
  method Deserialize(data: seq<Byte>) returns (r: Option<LogMessage>)
    ensures r == Deserialized(data)
  {
    Pow256Values();
    if |data| < 12 {
      return None;
    }
    var offset := 0;
    var level := LevelOf(data[offset]);
    if level.None? {
      return None;
    }
    offset := offset + 1;
    var pid := Word(data, offset, 4);
    offset := offset + 4;
    var cpuId := data[offset];
    offset := offset + 1;
    var timestamp := Word(data, offset, 4);
    offset := offset + 4;
    if offset + 3 > |data| {
      return None;
    }
    var modLen := Word(data, offset, 1);
    offset := offset + 1;
    var messageLen := Word(data, offset, 2);
    offset := offset + 2;
    if offset + modLen + messageLen > |data| {
      return None;
    }
    var mod := data[offset..offset + modLen];
    offset := offset + modLen;
    var message := data[offset..offset + messageLen];
    return Some(LogMessage(level.value, pid, cpuId, timestamp, mod, message));
  }

  /** The fields of a header are where the parser looks for them. */
  lemma HeaderFields(m: LogMessage, data: seq<Byte>)
    requires Representable(m) && Header(m) <= data
    ensures |data| >= HEADER_LEN && data[0] == LevelByte(m.level) && data[5] == m.cpuId
    ensures Word(data, 1, 4) == m.pid && Word(data, 6, 4) == m.timestamp
    ensures Word(data, 10, 1) == |m.mod| && Word(data, 11, 2) == |m.message|
  {
    hide Encode, Decode;
    Pow256Values();
    var h := Header(m);
    assert data[1..5] == h[1..5] == Encode(m.pid, 4);
    assert data[6..10] == h[6..10] == Encode(m.timestamp, 4);
    assert data[10..11] == h[10..11] == Encode(|m.mod|, 1);
    assert data[11..13] == h[11..13] == Encode(|m.message|, 2);
    DecodeEncode(m.pid, 4);
    DecodeEncode(m.timestamp, 4);
    DecodeEncode(|m.mod|, 1);
    DecodeEncode(|m.message|, 2);
  }

  /** Parsing finds `m` exactly when the data begin with the byte form of `m`. */
  lemma ParseIff(data: seq<Byte>, m: LogMessage)
    ensures Deserialized(data) == Some(m) <==> Representable(m) && Serialized(m) <= data
  {
    if Deserialized(data) == Some(m) {
      Parsed(data, m);
    }
    if Representable(m) && Serialized(m) <= data {
      assert Header(m) <= Serialized(m);
      HeaderFields(m, data);
      var s, n := Serialized(m), |m.mod|;
      assert data[HEADER_LEN..HEADER_LEN + n] == s[HEADER_LEN..HEADER_LEN + n] == m.mod;
      assert data[HEADER_LEN + n..|s|] == s[HEADER_LEN + n..] == m.message;
    }
  }

  lemma Parsed(data: seq<Byte>, m: LogMessage)
    requires Deserialized(data) == Some(m)
    ensures Representable(m) && Serialized(m) <= data
  {
    hide Encode, Decode;
    Pow256Values();
    EncodeDecode(data[1..5]);
    EncodeDecode(data[6..10]);
    EncodeDecode(data[10..11]);
    EncodeDecode(data[11..13]);
    assert data[..13] == [data[0]] + data[1..5] + [data[5]] + data[6..10] + data[10..11] + data[11..13];
    assert Header(m) == data[..13];
    assert data[..13] + m.mod + m.message == data[..13 + |m.mod| + |m.message|];
  }

  /** A message survives the round trip exactly when its lengths fit their fields, so
      every message built by `new` does. */
  lemma RoundTrip(m: LogMessage)
    ensures Deserialized(Serialized(m)) == Some(m) <==> Representable(m)
  {
    ParseIff(Serialized(m), m);
  }

  lemma ZerosDoNotParse(n: nat)
    ensures Deserialized(seq<Byte>(n, _ => 0)).None?
  {
    assert LevelOf(0).None?;
  }
}
