/** The byte-exact packet shapes of the earbuds' control protocol (AACP
    control commands and the TiPi audio-source notification): the fixed
    outbound packets, the OWNS_CONNECTION command builder and the total
    AUDIO_SOURCE parser. Packets are byte sequences compared by value. */
module Packets {

  /** One octet of a QByteArray, read as unsigned. */
  type byte = b: int | 0 <= b < 0x100

  // ---------------------------------------------------------------------
  // OWNS_CONNECTION control command

  const OwnsConnectionHeader: seq<byte> := [0x04, 0x00, 0x04, 0x00, 0x09, 0x00]

  /** Header, identifier, one data byte, then three zero bytes. */
  function CreateCommand(identifier: byte, data1: byte): (packet: seq<byte>)
    ensures |packet| == 11
    ensures OwnsConnectionHeader <= packet
    ensures packet[6] == identifier && packet[7] == data1
    ensures packet[8..] == [0x00, 0x00, 0x00]
  {
    OwnsConnectionHeader + [identifier, data1, 0x00, 0x00, 0x00]
  }

  /** Distinct arguments give distinct commands: the identifier and data
      byte can be read back from the packet. */
  lemma CreateCommandInjective(id1: byte, d1: byte, id2: byte, d2: byte)
    requires CreateCommand(id1, d1) == CreateCommand(id2, d2)
    ensures id1 == id2 && d1 == d2
  {
    assert CreateCommand(id1, d1)[6] == CreateCommand(id2, d2)[6];
    assert CreateCommand(id1, d1)[7] == CreateCommand(id2, d2)[7];
  }

  const OwnsConnectionId: byte := 0x06
  const Claim: seq<byte> := CreateCommand(OwnsConnectionId, 0x01)
  const Release: seq<byte> := CreateCommand(OwnsConnectionId, 0x00)

  /** CLAIM and RELEASE byte for byte; they differ in byte 7 only. */
  lemma ClaimReleaseBytes()
    ensures Claim == [0x04, 0x00, 0x04, 0x00, 0x09, 0x00, 0x06, 0x01, 0x00, 0x00, 0x00]
    ensures Release == Claim[7 := 0x00]
    ensures Claim != Release
  {
    assert Claim[7] != Release[7];
  }

  // ---------------------------------------------------------------------
  // TiPi AUDIO_SOURCE notification

  const AudioSourceHeader: seq<byte> := [0x04, 0x00, 0x04, 0x00, 0x0E]

  /** The least length of a parsable AUDIO_SOURCE packet:
      header (5), reserved (1), address (6), kind (1). */
  const AudioSourceLength := 13

  /** The kind byte is kept as received: the source casts any octet to its
      `Type` enumeration, whose named values are these three. */
  const NONE: byte := 0x00
  const CALL: byte := 0x01
  const MEDIA: byte := 0x02

  /** `AudioSource::Info`: the owner's address in wire order, the kind
      byte and whether a notification was recognised. */
  datatype Info = Info(deviceMac: seq<byte>, kind: byte, isValid: bool)

  /** The value-initialised `Info`: empty address, NONE, not valid. */
  const NoSource := Info([], NONE, false)

  /** `AudioSource::parse`: total on every byte sequence. */
  function Parse(data: seq<byte>): (info: Info)
    ensures info.isValid <==> |data| >= AudioSourceLength && AudioSourceHeader <= data
    ensures !info.isValid ==> info == NoSource
    ensures info.isValid ==> |info.deviceMac| == 6
  {
    if |data| >= AudioSourceLength && AudioSourceHeader <= data then
      Info(data[6..12], data[12], true)
    else
      NoSource
  }

  /** The layout of an AUDIO_SOURCE notification as the earbuds send it;
      `tail` is whatever follows the kind byte in the same read. */
  function AudioSourcePacket(reserved: byte, mac: seq<byte>, kind: byte, tail: seq<byte>): (packet: seq<byte>)
    requires |mac| == 6
    ensures |packet| == AudioSourceLength + |tail|
  {
    AudioSourceHeader + [reserved] + mac + [kind] + tail
  }

  /** Round trip: parsing a well-formed notification yields its address and
      kind, whatever the reserved byte and the trailing bytes. */
  lemma ParseAudioSourcePacket(reserved: byte, mac: seq<byte>, kind: byte, tail: seq<byte>)
    requires |mac| == 6
    ensures Parse(AudioSourcePacket(reserved, mac, kind, tail)) == Info(mac, kind, true)
  {
    var p := AudioSourcePacket(reserved, mac, kind, tail);
    assert p[..5] == AudioSourceHeader;
    assert p[6..12] == mac;
    assert p[12] == kind;
  }

  /** The other direction: every buffer the parser accepts is such a
      notification, so the parser reads nothing but the address and kind. */
  lemma ParsedIsAudioSourcePacket(data: seq<byte>)
    requires Parse(data).isValid
    ensures data == AudioSourcePacket(data[5], Parse(data).deviceMac, Parse(data).kind, data[AudioSourceLength..])
  {
    var info := Parse(data);
    var p := AudioSourcePacket(data[5], info.deviceMac, info.kind, data[AudioSourceLength..]);
    assert data[..5] == AudioSourceHeader;
    assert p == data[..5] + [data[5]] + data[6..12] + [data[12]] + data[13..];
    assert data == data[..5] + [data[5]] + data[6..12] + [data[12]] + data[13..];
  }

  /** Byte 5 and every byte after the kind byte are ignored. */
  lemma ParseIgnoresReservedAndTail(a: seq<byte>, b: seq<byte>)
    requires |a| >= AudioSourceLength && |b| >= AudioSourceLength
    requires a[..5] == b[..5] && a[6..AudioSourceLength] == b[6..AudioSourceLength]
    ensures Parse(a) == Parse(b)
  {
    assert a[..5] == AudioSourceHeader <==> b[..5] == AudioSourceHeader;
    assert a[6..12] == a[6..AudioSourceLength][..6] == b[6..AudioSourceLength][..6] == b[6..12];
    assert a[12] == a[6..AudioSourceLength][6] == b[6..AudioSourceLength][6] == b[12];
  }

  // ---------------------------------------------------------------------
  // Connection set-up packets

  const Handshake: seq<byte> :=
    [0x00, 0x00, 0x04, 0x00, 0x01, 0x00, 0x02, 0x00, 0x00, 0x00, 0x00, 0x00, 0x00, 0x00, 0x00, 0x00]
  const RequestNotifications: seq<byte> :=
    [0x04, 0x00, 0x04, 0x00, 0x0F, 0x00, 0xFF, 0xFF, 0xFF, 0xFF, 0xFF]
  const FeaturesAck: seq<byte> := [0x04, 0x00, 0x04, 0x00, 0x2B, 0x00]

  lemma ConnectionPacketShapes()
    ensures |Handshake| == 16
    ensures |RequestNotifications| == 11
    ensures forall k :: 6 <= k < 11 ==> RequestNotifications[k] == 0xFF
    ensures |FeaturesAck| == 6
  {
  }

  /** No read starts with both FEATURES_ACK and the AUDIO_SOURCE header
      (byte 4 is 0x2B in one and 0x0E in the other), so a FEATURES_ACK
      read never parses as a notification. */
  lemma FeaturesAckIsNotAudioSource(data: seq<byte>)
    requires FeaturesAck <= data
    ensures !(AudioSourceHeader <= data)
    ensures !Parse(data).isValid
  {
    assert data[4] == FeaturesAck[4] == 0x2B;
  }
}
