/** The spawn packet, as far as the pet roster reads it: a name, an id, and an owner at the end. */
module SpawnPacket {
  import opened Wire
  import opened PacketReader

  datatype Spawn = Spawn(name: seq<byte>, spawnId: uint32, ownerId: uint32)

  // ---------- The sender's side ----------

  datatype Packet = Packet(
    name: seq<byte>, spawnId: uint32, appearance: seq<byte>, properties: seq<byte>,
    body: seq<byte>, lastName: seq<byte>, tail: seq<byte>, ownerId: uint32)

  const APPEARANCE_BYTES: nat := 1 + 4 + 1 + 4 + 1 + 4 + 4
  const BODY_BYTES: nat := 7 + 12 + 4 + 4 + 1 + 4 + 4 + 4 + 1 + 4 + 4 + 4 + 1 + 1 + 1 + 1 + 1
  const TAIL_BYTES: nat := 4 + 1 + 1

  predicate WellFormed(p: Packet) {
    && p.name != [] && NoNul(p.name) && NoNul(p.lastName)
    && |p.appearance| == 19 && |p.body| == 58 && |p.tail| == 6
    && |p.properties| % 4 == 0 && |p.properties| / 4 < 0x100
  }

  function OwnerPart(p: Packet): seq<byte> {
    p.tail + U32Bytes(p.ownerId)
  }

  function BodyPart(p: Packet): seq<byte> {
    p.body + ((p.lastName + [0]) + OwnerPart(p))
  }

  function PropertyPart(p: Packet): seq<byte>
    requires WellFormed(p)
  {
    [|p.properties| / 4] + (p.properties + BodyPart(p))
  }

  function Encode(p: Packet): seq<byte>
    requires WellFormed(p)
  {
    (p.name + [0]) + (U32Bytes(p.spawnId) + (p.appearance + PropertyPart(p)))
  }

  // ---------- The receiver's side ----------

  function DecodeOwner(s: seq<byte>, at: nat): Option<uint32> {
    if at + TAIL_BYTES <= |s| then ReadU32(s, at + TAIL_BYTES) else None
  }

  function DecodeBody(s: seq<byte>, at: nat): Option<uint32> {
    if at + BODY_BYTES > |s| then None
    else match ReadCString(s, at + BODY_BYTES)
      case None => None
      case Some(lastName) => DecodeOwner(s, lastName.next)
  }

  /** Four bytes a property. */
  function PropertyBytes(count: nat): nat {
    4 * count
  }

  function DecodeProperties(s: seq<byte>, at: nat): Option<uint32> {
    if at >= |s| || at + 1 + PropertyBytes(s[at]) > |s| then None else DecodeBody(s, at + 1 + PropertyBytes(s[at]))
  }

  function Decode(s: seq<byte>): Option<Spawn> {
    match ReadCString(s, 0)
    case None => None
    case Some(name) =>
      match ReadU32(s, name.next)
      case None => None
      case Some(spawnId) =>
        if name.bytes == [] || name.next + 4 + APPEARANCE_BYTES > |s| then None
        else match DecodeProperties(s, name.next + 4 + APPEARANCE_BYTES)
          case None => None
          case Some(ownerId) => Some(Spawn(name.bytes, spawnId, ownerId))
  }

  function DecodePayload(payload: Option<Payload>): Option<Spawn> {
    if payload.None? then None else Decode(payload.value)
  }

  /** Seven bytes are never enough, so the early length test turns nothing away. */
  lemma {:induction false} ShortIsUndecodable(s: seq<byte>)
    requires |s| < 8
    ensures Decode(s).None?
  {
  }

  method ParseSingleSpawnPayload(payload: Option<Payload>) returns (r: Option<Spawn>)
    ensures r == DecodePayload(payload)
  {
    if payload.None? {
      return None;
    }
    var s := payload.value;
    if |s| < 8 {
      ShortIsUndecodable(s);
      return None;
    }
    hide ReadCString, ReadU32;
    var name := TryReadCString(s, 0);
    if name.None? || name.value.bytes == [] {
      return None;
    }
    var cursor := name.value.next;
    var spawnId := ReadU32(s, cursor);
    if spawnId.None? {
      return None;
    }
    cursor := cursor + 4;
    if cursor + APPEARANCE_BYTES > |s| {
      return None;
    }
    cursor := cursor + APPEARANCE_BYTES;
    if cursor + 1 > |s| {
      return None;
    }
    var propertyCount := s[cursor];
    cursor := cursor + 1;
    if cursor + PropertyBytes(propertyCount) > |s| {
      return None;
    }
    cursor := cursor + PropertyBytes(propertyCount);
    if cursor + BODY_BYTES > |s| {
      return None;
    }
    cursor := cursor + BODY_BYTES;
    var lastName := TryReadCString(s, cursor);
    if lastName.None? {
      return None;
    }
    cursor := lastName.value.next;
    if cursor + TAIL_BYTES > |s| {
      return None;
    }
    cursor := cursor + TAIL_BYTES;
    var ownerId := ReadU32(s, cursor);
    if ownerId.None? {
      return None;
    }
    r := Some(Spawn(name.value.bytes, spawnId.value, ownerId.value));
  }

  // ---------- Exactness ----------

  lemma {:induction false} OwnerOf(s: seq<byte>, at: nat, p: Packet)
    requires at <= |s| && WellFormed(p)
    ensures OwnerPart(p) <= s[at..] <==> p.tail <= s[at..] && DecodeOwner(s, at) == Some(p.ownerId)
  {
    hide ReadU32, U32Bytes;
    PrefixSplits(p.tail, U32Bytes(p.ownerId), s, at);
    if at + TAIL_BYTES <= |s| {
      U32IsExact(s, at + TAIL_BYTES, p.ownerId);
    }
  }

  lemma {:induction false} BodyOf(s: seq<byte>, at: nat, p: Packet)
    requires at <= |s| && WellFormed(p)
    requires BodyPart(p) <= s[at..]
    ensures DecodeBody(s, at) == Some(p.ownerId)
  {
    hide ReadCString, OwnerPart, DecodeOwner;
    var last := p.lastName + [0];
    PrefixSplits(p.body, last + OwnerPart(p), s, at);
    PrefixSplits(last, OwnerPart(p), s, at + BODY_BYTES);
    CStringIsExact(s, at + BODY_BYTES, p.lastName);
    OwnerOf(s, at + BODY_BYTES + |last|, p);
  }

  lemma {:induction false} PropertiesOf(s: seq<byte>, at: nat, p: Packet)
    requires at <= |s| && WellFormed(p)
    requires PropertyPart(p) <= s[at..]
    ensures DecodeProperties(s, at) == Some(p.ownerId)
  {
    hide BodyPart, DecodeBody;
    var count := [|p.properties| / 4];
    PrefixSplits(count, p.properties + BodyPart(p), s, at);
    PrefixSplits(p.properties, BodyPart(p), s, at + 1);
    assert s[at] == s[at..][0] == |p.properties| / 4;
    assert PropertyBytes(s[at]) == |p.properties|;
    BodyOf(s, at + 1 + |p.properties|, p);
  }

  /** A payload that starts with an encoded packet yields its name, id and owner. */
  lemma {:induction false} DecodeOfEncode(s: seq<byte>, p: Packet)
    requires WellFormed(p) && Encode(p) <= s
    ensures Decode(s) == Some(Spawn(p.name, p.spawnId, p.ownerId))
  {
    hide ReadCString, ReadU32, PropertyPart, DecodeProperties, U32Bytes;
    var name, id := p.name + [0], U32Bytes(p.spawnId);
    assert s[0..] == s;
    PrefixSplits(name, id + (p.appearance + PropertyPart(p)), s, 0);
    PrefixSplits(id, p.appearance + PropertyPart(p), s, |name|);
    PrefixSplits(p.appearance, PropertyPart(p), s, |name| + 4);
    CStringIsExact(s, 0, p.name);
    U32IsExact(s, |name|, p.spawnId);
    PropertiesOf(s, |name| + 4 + APPEARANCE_BYTES, p);
  }

  /** The packet a decodable payload starts with. */
  lemma {:induction false} EncodedPacket(s: seq<byte>) returns (p: Packet)
    requires Decode(s).Some?
    ensures WellFormed(p) && Encode(p) <= s && Decode(s).value == Spawn(p.name, p.spawnId, p.ownerId)
  {
    hide ReadU32, ReadCString, NoNul;
    var name := ReadCString(s, 0).value;
    ReadTextFits(s, 0);
    var appearance := name.next + 4;
    var properties := appearance + APPEARANCE_BYTES;
    var body := properties + 1 + PropertyBytes(s[properties]);
    var last := body + BODY_BYTES;
    var lastName := ReadCString(s, last).value;
    ReadTextFits(s, last);
    var tail := lastName.next;
    p := Packet(name.bytes, Decode(s).value.spawnId, s[appearance..properties], s[properties + 1..body],
                s[body..last], lastName.bytes, s[tail..tail + TAIL_BYTES], Decode(s).value.ownerId);
    BodyStarts(s, body, p);
    IdStarts(s, name.next, p);
    PrefixSplits(p.name + [0], U32Bytes(p.spawnId) + (p.appearance + PropertyPart(p)), s, 0);
    assert s[0..] == s;
  }

  lemma {:induction false} BodyStarts(s: seq<byte>, body: nat, p: Packet)
    requires WellFormed(p) && body + BODY_BYTES + |p.lastName| + 1 + TAIL_BYTES <= |s|
    requires s[body..body + BODY_BYTES] == p.body
    requires p.lastName + [0] <= s[body + BODY_BYTES..]
    requires var tail := body + BODY_BYTES + |p.lastName| + 1;
             s[tail..tail + TAIL_BYTES] == p.tail && DecodeOwner(s, tail) == Some(p.ownerId)
    ensures BodyPart(p) <= s[body..]
  {
    hide OwnerPart, DecodeOwner, NoNul;
    var last := p.lastName + [0];
    var tail := body + BODY_BYTES + |last|;
    assert p.tail <= s[tail..];
    OwnerOf(s, tail, p);
    PrefixSplits(last, OwnerPart(p), s, body + BODY_BYTES);
    PrefixSplits(p.body, last + OwnerPart(p), s, body);
  }

  lemma {:induction false} IdStarts(s: seq<byte>, at: nat, p: Packet)
    requires WellFormed(p)
    requires ReadU32(s, at) == Some(p.spawnId)
    requires at + 4 + APPEARANCE_BYTES + 1 + |p.properties| <= |s|
    requires s[at + 4..at + 4 + APPEARANCE_BYTES] == p.appearance
    requires var properties := at + 4 + APPEARANCE_BYTES;
             && PropertyBytes(s[properties]) == |p.properties|
             && s[properties + 1..properties + 1 + |p.properties|] == p.properties
             && BodyPart(p) <= s[properties + 1 + |p.properties|..]
    ensures U32Bytes(p.spawnId) + (p.appearance + PropertyPart(p)) <= s[at..]
  {
    hide BodyPart, ReadU32, U32Bytes, NoNul;
    var properties := at + 4 + APPEARANCE_BYTES;
    PrefixSplits(p.properties, BodyPart(p), s, properties + 1);
    assert [|p.properties| / 4] <= s[properties..];
    PrefixSplits([|p.properties| / 4], p.properties + BodyPart(p), s, properties);
    PrefixSplits(p.appearance, PropertyPart(p), s, at + 4);
    U32IsExact(s, at, p.spawnId);
    PrefixSplits(U32Bytes(p.spawnId), p.appearance + PropertyPart(p), s, at);
  }

  /** The parser accepts exactly the payloads that start with an encoded packet with a name, and
      answers that packet's name, id and owner. */
  lemma {:induction false} DecodeIsExact(s: seq<byte>, spawn: Spawn)
    ensures Decode(s) == Some(spawn) <==>
            exists p :: WellFormed(p) && Encode(p) <= s && spawn == Spawn(p.name, p.spawnId, p.ownerId)
  {
    if Decode(s) == Some(spawn) {
      var p := EncodedPacket(s);
    }
    if p :| WellFormed(p) && Encode(p) <= s && spawn == Spawn(p.name, p.spawnId, p.ownerId) {
      DecodeOfEncode(s, p);
    }
  }
}
