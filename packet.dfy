/** The packet-framing core of the ping sender: an ICMP echo request
    (RFC 792) wrapped in an IPv4 header (RFC 791 section 3.1) wrapped in
    an Ethernet II header carrying the IPv4 EtherType (RFC 894). Each
    encoder fills a fixed-size header buffer in place, appends the
    payload, and (for ICMP and IPv4) stores the Internet checksum. */
module Packet {
  import opened Bytes
  import opened InternetChecksum

  /** ICMP type of an echo request. */
  const ECHO_REQUEST: byte := 8

  /** Template IPv4 header: version 4 and a 5-word header (0x45), TTL 64,
      protocol 1 (ICMP); every other field starts at zero. */
  const BLANK_IP_HEADER: seq<byte> :=
    [69, 0, 0, 0, 0, 0, 0, 0, 64, 1, 0, 0, 0, 0, 0, 0, 0, 0, 0, 0]

  /** EtherType of an IPv4 payload, 0x0800, in network byte order. */
  const IPV4_ETHERTYPE: seq<byte> := [8, 0]

  type Ipv4Address = s: seq<byte> | |s| == 4 witness [0, 0, 0, 0]

  type MacAddress = s: seq<byte> | |s| == 6 witness [0, 0, 0, 0, 0, 0]

  datatype Icmp = Icmp(identifier: u16, sequence: u16, payload: seq<byte>)

  datatype Ipv4 = Ipv4(sourceIp: Ipv4Address, destIp: Ipv4Address, payload: seq<byte>)

  datatype Ethernet = Ethernet(destMac: MacAddress, sourceMac: MacAddress, payload: seq<byte>)

  /** The `as u16` cast: keeps the low 16 bits and drops the rest, so a
      value that fits is unchanged and any other differs from the result by
      a multiple of 2^16. */
  function AsU16(n: nat): (r: u16)
    ensures n < 0x1_0000 ==> r == n
    ensures (n - r) % 0x1_0000 == 0
  {
    n % 0x1_0000
  }

  /** `Icmp::as_bytes`: the echo request with type 8, code 0, identifier and
      sequence in network byte order, the payload verbatim, and a checksum
      over the whole message that verifies to zero. */
  method IcmpAsBytes(icmp: Icmp) returns (bytes: seq<byte>)
    ensures |bytes| == 8 + |icmp.payload|
    ensures bytes[0] == ECHO_REQUEST && bytes[1] == 0
    ensures bytes[4..6] == ToBeBytes(icmp.identifier)
    ensures bytes[6..8] == ToBeBytes(icmp.sequence)
    ensures bytes[8..] == icmp.payload
    ensures bytes[2..4] == Checksum(ZeroField(bytes, 2))
    ensures Checksum(bytes) == [0, 0]
  {
    var header := new byte[8](_ => 0);
    header[0] := ECHO_REQUEST;
    CopyFromSlice(header, 4, ToBeBytes(icmp.identifier));
    CopyFromSlice(header, 6, ToBeBytes(icmp.sequence));

    bytes := header[..] + icmp.payload;
    ghost var blank := bytes;
    assert blank[2] == 0 && blank[3] == 0;

    var checksum := Checksum(bytes);
    bytes := bytes[2 := checksum[0]][3 := checksum[1]];
    assert ZeroField(bytes, 2) == blank;
    ChecksumSelfVerifies(bytes, 2);
  }

  /** The 20-byte IPv4 header the encoder produces: the template with the
      total length, the header checksum and the two addresses in place. */
  function Ipv4Header(source: Ipv4Address, dest: Ipv4Address, totalLength: u16, checksum: seq<byte>): (h: seq<byte>)
    requires |checksum| == 2
    ensures |h| == 20
  {
    BLANK_IP_HEADER[..2] + ToBeBytes(totalLength) + BLANK_IP_HEADER[4..10] + checksum + source + dest
  }

  /** Storing a checksum into the zeroed checksum field (bytes 10..12). */
  lemma StoreHeaderChecksum(source: Ipv4Address, dest: Ipv4Address, totalLength: u16, checksum: seq<byte>)
    requires |checksum| == 2
    ensures var blank := Ipv4Header(source, dest, totalLength, [0, 0]);
      blank[..10] + checksum + blank[12..] == Ipv4Header(source, dest, totalLength, checksum)
  {
  }

  /** Filling the template with the addresses and then the total length,
      one `copy_from_slice` after another, yields the header with a zero
      checksum field. */
  lemma FillTemplate(h0: seq<byte>, h1: seq<byte>, h2: seq<byte>, h3: seq<byte>,
                     source: Ipv4Address, dest: Ipv4Address, totalLength: u16)
    requires h0 == BLANK_IP_HEADER
    requires h1 == h0[..12] + source + h0[16..]
    requires h2 == h1[..16] + dest + h1[20..]
    requires h3 == h2[..2] + ToBeBytes(totalLength) + h2[4..]
    ensures h3 == Ipv4Header(source, dest, totalLength, [0, 0])
  {
    assert h2 == BLANK_IP_HEADER[..12] + source + dest;
  }

  /** The IPv4 packet as `Ipv4::as_bytes` lays it out: the header with the
      total length cast to 16 bits and the checksum of the header (taken
      with a zero checksum field), then the payload. */
  function Ipv4Packet(ip: Ipv4): (bytes: seq<byte>)
    ensures |bytes| == 20 + |ip.payload|
  {
    var totalLength := AsU16(20 + |ip.payload|);
    var blank := Ipv4Header(ip.sourceIp, ip.destIp, totalLength, [0, 0]);
    Ipv4Header(ip.sourceIp, ip.destIp, totalLength, Checksum(blank)) + ip.payload
  }

  /** An encoded IPv4 packet is its header followed by the payload. */
  lemma Ipv4PacketSplit(ip: Ipv4)
    ensures var totalLength := AsU16(20 + |ip.payload|);
      var checksum := Checksum(Ipv4Header(ip.sourceIp, ip.destIp, totalLength, [0, 0]));
      && Ipv4Packet(ip)[..20] == Ipv4Header(ip.sourceIp, ip.destIp, totalLength, checksum)
      && Ipv4Packet(ip)[20..] == ip.payload
  {
  }

  /** The template bytes outside the length, checksum and address fields
      are left as they are (version/IHL 0x45, TTL 64, protocol 1), the
      addresses are copied verbatim and the payload follows unchanged. */
  lemma Ipv4PacketFields(ip: Ipv4)
    ensures var bytes := Ipv4Packet(ip);
      && bytes[20..] == ip.payload
      && bytes[..2] == BLANK_IP_HEADER[..2]
      && bytes[4..10] == BLANK_IP_HEADER[4..10]
      && bytes[0] == 0x45 && bytes[8] == 64 && bytes[9] == 1
      && bytes[12..16] == ip.sourceIp && bytes[16..20] == ip.destIp
  {
    var totalLength := AsU16(20 + |ip.payload|);
    var checksum := Checksum(Ipv4Header(ip.sourceIp, ip.destIp, totalLength, [0, 0]));
    var h := Ipv4Header(ip.sourceIp, ip.destIp, totalLength, checksum);
    var bytes := Ipv4Packet(ip);
    Ipv4PacketSplit(ip);
    HeaderFields(ip.sourceIp, ip.destIp, totalLength, checksum);
    assert bytes[..2] == h[..2] && bytes[4..10] == h[4..10];
    assert bytes[12..16] == h[12..16] && bytes[16..20] == h[16..20];
    assert bytes[8] == h[4..10][4] && bytes[9] == h[4..10][5];
  }

  /** The total-length field is `20 + |payload|` cast to 16 bits: it wraps
      modulo 2^16 and is exact while the payload is at most 65515 bytes. */
  lemma Ipv4TotalLength(ip: Ipv4)
    ensures var bytes := Ipv4Packet(ip);
      && bytes[2..4] == ToBeBytes((20 + |ip.payload|) % 0x1_0000)
      && (|ip.payload| <= 65515 ==> Word(bytes[2], bytes[3]) == |bytes|)
  {
    var totalLength := AsU16(20 + |ip.payload|);
    var checksum := Checksum(Ipv4Header(ip.sourceIp, ip.destIp, totalLength, [0, 0]));
    var h := Ipv4Header(ip.sourceIp, ip.destIp, totalLength, checksum);
    Ipv4PacketSplit(ip);
    HeaderFields(ip.sourceIp, ip.destIp, totalLength, checksum);
    var field := Ipv4Packet(ip)[2..4];
    assert field == h[2..4] == ToBeBytes(totalLength);
    assert Word(field[0], field[1]) == totalLength;
  }

  /** The header checksum covers the 20 header bytes only, taken with the
      checksum field zero, and the finished header verifies to zero. */
  lemma Ipv4HeaderChecksum(ip: Ipv4)
    ensures var bytes := Ipv4Packet(ip);
      && bytes[10..12] == Checksum(ZeroField(bytes[..20], 10))
      && Checksum(bytes[..20]) == [0, 0]
  {
    var totalLength := AsU16(20 + |ip.payload|);
    var checksum := Checksum(Ipv4Header(ip.sourceIp, ip.destIp, totalLength, [0, 0]));
    var h := Ipv4Header(ip.sourceIp, ip.destIp, totalLength, checksum);
    Ipv4PacketSplit(ip);
    HeaderFields(ip.sourceIp, ip.destIp, totalLength, checksum);
    assert Ipv4Packet(ip)[10..12] == h[10..12];
    ChecksumSelfVerifies(h, 10);
  }

  /** Where each field of the header sits, and that zeroing the checksum
      field gives back the header as it was checksummed. */
  lemma HeaderFields(source: Ipv4Address, dest: Ipv4Address, totalLength: u16, checksum: seq<byte>)
    requires |checksum| == 2
    ensures var h := Ipv4Header(source, dest, totalLength, checksum);
      && h[..2] == BLANK_IP_HEADER[..2] && h[2..4] == ToBeBytes(totalLength)
      && h[4..10] == BLANK_IP_HEADER[4..10] && h[10..12] == checksum
      && h[12..16] == source && h[16..20] == dest
      && ZeroField(h, 10) == Ipv4Header(source, dest, totalLength, [0, 0])
  {
  }

  /** `Ipv4::as_bytes`: fills a copy of the template in place (addresses,
      then total length, then checksum) and appends the payload. */
  method Ipv4AsBytes(ip: Ipv4) returns (bytes: seq<byte>)
    ensures bytes == Ipv4Packet(ip)
  {
    var header := new byte[20](i requires 0 <= i < 20 => BLANK_IP_HEADER[i]);
    ghost var h0 := header[..];
    CopyFromSlice(header, 12, ip.sourceIp);
    ghost var h1 := header[..];
    CopyFromSlice(header, 16, ip.destIp);
    ghost var h2 := header[..];

    var headerLen := header.Length;
    var totalLength := AsU16(headerLen + |ip.payload|);
    CopyFromSlice(header, 2, ToBeBytes(totalLength));
    ghost var blank := Ipv4Header(ip.sourceIp, ip.destIp, totalLength, [0, 0]);
    assert header[..] == blank by {
      assert h0 == BLANK_IP_HEADER;
      FillTemplate(h0, h1, h2, header[..], ip.sourceIp, ip.destIp, totalLength);
    }

    var checksum := Checksum(header[..]);
    CopyFromSlice(header, 10, checksum);
    assert header[..] == Ipv4Header(ip.sourceIp, ip.destIp, totalLength, checksum) by {
      StoreHeaderChecksum(ip.sourceIp, ip.destIp, totalLength, checksum);
    }

    bytes := header[..] + ip.payload;
  }

  /** Setting the EtherType, then the destination MAC, then the source MAC
      in a zeroed 14-byte buffer yields the Ethernet header. */
  lemma FillEthernetHeader(h0: seq<byte>, h1: seq<byte>, h2: seq<byte>, h3: seq<byte>,
                           dest: MacAddress, source: MacAddress)
    requires |h0| == 14
    requires h1 == h0[..12] + IPV4_ETHERTYPE
    requires h2 == dest + h1[6..]
    requires h3 == h2[..6] + source + h2[12..]
    ensures h3 == dest + source + IPV4_ETHERTYPE
  {
    assert h2[..6] == dest;
    assert h2[12..] == h1[12..] == IPV4_ETHERTYPE;
  }

  /** `Ethernet::as_bytes`: destination MAC, source MAC, the IPv4
      EtherType, then the payload. */
  method EthernetAsBytes(eth: Ethernet) returns (bytes: seq<byte>)
    ensures |bytes| == 14 + |eth.payload|
    ensures bytes == eth.destMac + eth.sourceMac + IPV4_ETHERTYPE + eth.payload
    ensures bytes[..6] == eth.destMac && bytes[6..12] == eth.sourceMac
    ensures bytes[12..14] == IPV4_ETHERTYPE && bytes[14..] == eth.payload
  {
    var header := new byte[14](_ => 0);
    ghost var h0 := header[..];
    CopyFromSlice(header, 12, IPV4_ETHERTYPE);
    ghost var h1 := header[..];
    CopyFromSlice(header, 0, eth.destMac);
    ghost var h2 := header[..];
    CopyFromSlice(header, 6, eth.sourceMac);
    FillEthernetHeader(h0, h1, h2, header[..], eth.destMac, eth.sourceMac);

    bytes := header[..] + eth.payload;
    assert bytes[..14] == header[..];
  }

  /** The echo request `main` sends: identifier 69, sequence 420 and
      payload 1, 2, 3, 4, to 1.1.1.1. */
  const PING_IDENTIFIER: u16 := 69
  const PING_SEQUENCE: u16 := 420
  const PING_PAYLOAD: seq<byte> := [1, 2, 3, 4]
  const PING_DEST_IP: Ipv4Address := [1, 1, 1, 1]

  /** The echo request `main` sends, as encoded: type 8, code 0,
      checksum 0xF210, identifier 69, sequence 420, then the payload. */
  const PING_ECHO_BYTES: seq<byte> := [8, 0, 0xF2, 0x10, 0, 69, 1, 164, 1, 2, 3, 4]

  /** The checksum of that echo request: its words add up to 0x0DEF, whose
      complement is 0xF210. */
  lemma PingChecksum()
    ensures Checksum([8, 0, 0, 0, 0, 69, 1, 164, 1, 2, 3, 4]) == [0xF2, 0x10]
  {
    var s: seq<byte> := [8, 0, 0, 0, 0, 69, 1, 164, 1, 2, 3, 4];
    assert s[2..][2..][2..][2..][2..][2..] == [];
    assert WordSum(s) == 0x0DEF;
  }

  /** An echo request built from `main`'s values is, byte for byte,
      `PING_ECHO_BYTES`. */
  lemma EchoBytes(b: seq<byte>)
    requires |b| == 12 && b[0] == 8 && b[1] == 0
    requires b[4..6] == ToBeBytes(PING_IDENTIFIER) && b[6..8] == ToBeBytes(PING_SEQUENCE)
    requires b[8..] == PING_PAYLOAD
    requires b[2..4] == Checksum(ZeroField(b, 2))
    ensures b == PING_ECHO_BYTES
  {
    var z := ZeroField(b, 2);
    assert z == [8, 0, 0, 0, 0, 69, 1, 164, 1, 2, 3, 4] by {
      assert b[4] == 0 && b[5] == 69 && b[6] == 1 && b[7] == 164;
      assert b[8] == 1 && b[9] == 2 && b[10] == 3 && b[11] == 4;
    }
    PingChecksum();
    assert b[2] == 0xF2 && b[3] == 0x10;
  }

  /** The IPv4 packet `main` builds around that echo request: 32 bytes in
      all, so a total-length field of 32, and a header checksum that
      verifies. */
  lemma PingPacket(sourceIp: Ipv4Address)
    ensures var bytes := Ipv4Packet(Ipv4(sourceIp, PING_DEST_IP, PING_ECHO_BYTES));
      && |bytes| == 32
      && bytes[10..12] == Checksum(Ipv4Header(sourceIp, PING_DEST_IP, 32, [0, 0]))
      && bytes[..20] == Ipv4Header(sourceIp, PING_DEST_IP, 32, bytes[10..12])
      && Checksum(bytes[..20]) == [0, 0]
      && bytes[20..] == PING_ECHO_BYTES
  {
    var ip := Ipv4(sourceIp, PING_DEST_IP, PING_ECHO_BYTES);
    assert AsU16(32) == 32;
    Ipv4PacketSplit(ip);
    Ipv4HeaderChecksum(ip);
    var checksum := Checksum(Ipv4Header(sourceIp, PING_DEST_IP, 32, [0, 0]));
    HeaderFields(sourceIp, PING_DEST_IP, 32, checksum);
    assert Ipv4Packet(ip)[10..12] == Ipv4Packet(ip)[..20][10..12];
  }

  /** The frame `main` builds from the interface's own IPv4 and MAC
      addresses and the gateway's MAC address: the Ethernet header, the
      IPv4 header for a 32-byte packet with a checksum that verifies, and
      the 12-byte echo request with its checksum 0xF210. */
  method PingFrame(sourceIp: Ipv4Address, sourceMac: MacAddress, destMac: MacAddress)
    returns (frame: seq<byte>)
    ensures |frame| == 46
    ensures frame[..6] == destMac && frame[6..12] == sourceMac && frame[12..14] == [8, 0]
    ensures frame[14..34] == Ipv4Header(sourceIp, PING_DEST_IP, 32, frame[24..26])
    ensures frame[24..26] == Checksum(Ipv4Header(sourceIp, PING_DEST_IP, 32, [0, 0]))
    ensures Checksum(frame[14..34]) == [0, 0]
    ensures frame[34..] == PING_ECHO_BYTES
  {
    var icmp := Icmp(PING_IDENTIFIER, PING_SEQUENCE, PING_PAYLOAD);
    var icmpBytes := IcmpAsBytes(icmp);
    EchoBytes(icmpBytes);

    var ip := Ipv4(sourceIp, PING_DEST_IP, icmpBytes);
    var ipBytes := Ipv4AsBytes(ip);

    var ethernet := Ethernet(destMac, sourceMac, ipBytes);
    frame := EthernetAsBytes(ethernet);
    PingFrameLayout(frame, sourceIp, sourceMac, destMac);
  }

  /** The layout of an Ethernet frame carrying the IPv4 packet that carries
      `main`'s echo request. */
  lemma PingFrameLayout(frame: seq<byte>, sourceIp: Ipv4Address, sourceMac: MacAddress, destMac: MacAddress)
    requires frame == destMac + sourceMac + IPV4_ETHERTYPE + Ipv4Packet(Ipv4(sourceIp, PING_DEST_IP, PING_ECHO_BYTES))
    ensures |frame| == 46
    ensures frame[14..34] == Ipv4Header(sourceIp, PING_DEST_IP, 32, frame[24..26])
    ensures frame[24..26] == Checksum(Ipv4Header(sourceIp, PING_DEST_IP, 32, [0, 0]))
    ensures Checksum(frame[14..34]) == [0, 0]
    ensures frame[34..] == PING_ECHO_BYTES
  {
    PingPacket(sourceIp);
    assert frame[14..] == Ipv4Packet(Ipv4(sourceIp, PING_DEST_IP, PING_ECHO_BYTES));
    FrameSlices(frame, frame[14..]);
  }

  /** Where the IPv4 header and its checksum sit inside a frame whose
      payload is a 32-byte packet. */
  lemma FrameSlices(frame: seq<byte>, packet: seq<byte>)
    requires |packet| == 32 && |frame| == 46 && frame[14..] == packet
    ensures frame[14..34] == packet[..20] && frame[34..] == packet[20..]
    ensures frame[24..26] == packet[10..12]
  {
    assert frame[14..34] == frame[14..][..20];
    assert frame[34..] == frame[14..][20..];
    assert frame[24..26] == frame[14..][10..12];
  }
}
