# simpleping-rust: packet framing, modelled in Dafny

The program sends one ping by hand. It builds an ICMP echo request, wraps it in an
IPv4 header and then in an Ethernet II header, and writes the frame to a link-layer
raw socket addressed to the default gateway's MAC address. This project models the
framing part of `src/main.rs` and proves its byte layouts:

- `Icmp::as_bytes`: an RFC 792 echo request (type 8, code 0) with its checksum.
- `Ipv4::as_bytes`: a 20-byte RFC 791 header with no options, built from the
  `BLANK_IP_HEADER` template.
- `Ethernet::as_bytes`: an Ethernet II header with EtherType 0x0800 (RFC 894).
- `internet_checksum::checksum`: the external crate is not part of this model.
  The checksum is defined here from RFC 1071, sections 1 and 4.1.
- The straight-line composition in `main` with its fixed values.

Files:

- `bytes.dfy` (module `Bytes`): octets, `u16`, big-endian words, and `CopyFromSlice`.
  `CopyFromSlice` is Rust's `copy_from_slice` on a fixed-size array.
- `checksum.dfy` (module `InternetChecksum`): the RFC 1071 checksum and its lemmas.
- `packet.dfy` (module `Packet`): the three encoders and the frame `main` builds.

Each encoder is a method. It fills a fresh header `array<byte>` in place with
`CopyFromSlice` at the source's offsets and appends the payload. The ICMP and IPv4
encoders then store the checksum, as the Rust code does. The IPv4 encoder is proved
equal to the specification function `Ipv4Packet`. The lemmas beside that function
state where each field sits.

The IPv4 total length is written as `(header_len + self.payload.len()) as u16` in the
source, where `header_len` is the header array's length, 20. The cast wraps modulo
2^16, and the model keeps that wrap. RFC 791's Total Length is a 16-bit field, so a
packet longer than 65535 bytes cannot be described; the code does not reject one, and
neither does this model.

## Model

| member | source | states |
|---|---|---|
| `Bytes.ToBeBytes` | src/main.rs:24-25 | `u16::to_be_bytes` gives two octets whose big-endian value is the input |
| `Bytes.CopyFromSlice` | src/main.rs:47-48 | `copy_from_slice` overwrites exactly `a[start..start+|src|]` with `src` and leaves every other octet of the array as it was |
| `InternetChecksum.WordSum` | src/main.rs:31 | the RFC 1071 sum of big-endian 16-bit words (odd last octet padded with zero) is at most 0xFFFF per word |
| `InternetChecksum.Fold` | src/main.rs:31 | folding carries (RFC 1071 section 4.1) gives a 16-bit value congruent to the sum modulo 0xFFFF, and zero only for a zero sum |
| `InternetChecksum.Checksum` | src/main.rs:31 | the checksum is two octets; what their value means is stated by the lemmas below |
| `InternetChecksum.ZeroField` | src/main.rs:22 | the message as checksummed: the two octets of the checksum field are zero and all others are unchanged |
| `InternetChecksum.WordSumAppend` | src/main.rs:31 | the word sum of a concatenation split at an even offset is the sum of the two parts' word sums |
| `InternetChecksum.FoldComplement` | src/main.rs:31 | a sum plus the complement of its folded value folds to 0xFFFF |
| `InternetChecksum.ChecksumSelfVerifies` | src/main.rs:31-32 | storing the checksum of a message whose even-aligned checksum field is zero into that field makes the checksum of the finished message `[0, 0]` |
| `InternetChecksum.ChecksumPadsOddOctet` | src/main.rs:31 | an odd trailing octet is checksummed as if followed by a zero octet |
| `InternetChecksum.ChecksumOfZeros` | src/main.rs:31 | the checksum of any all-zero message is 0xFFFF |
| `Packet.IcmpAsBytes` | src/main.rs:20-34 | the output has length 8 + payload; byte 0 is 8 and byte 1 is 0; bytes 4..6 and 6..8 are the identifier and sequence in big-endian order; bytes 8.. are the payload; bytes 2..4 are the checksum of the message with that field zeroed; the finished message checksums to `[0, 0]` |
| `Packet.Ipv4Header` | src/main.rs:46-54 | the header the encoder produces is 20 bytes long |
| `Packet.FillTemplate` | src/main.rs:46-51 | copying the addresses and then the total length into the template gives the header with a zero checksum field |
| `Packet.StoreHeaderChecksum` | src/main.rs:54 | writing the checksum into bytes 10..12 of the zero-checksum header gives the finished header |
| `Packet.Ipv4Packet` | src/main.rs:44-59 | the encoded packet has length 20 + payload |
| `Packet.Ipv4PacketSplit` | src/main.rs:56-57 | the packet is the finished header followed by the payload |
| `Packet.Ipv4PacketFields` | src/main.rs:46-57 | bytes 0..2 and 4..10 keep the template (0x45, TTL 64, protocol 1); bytes 12..16 and 16..20 are the source and destination addresses verbatim; bytes 20.. are the payload unchanged |
| `Packet.Ipv4TotalLength` | src/main.rs:50-51 | bytes 2..4 are the big-endian encoding of (20 + payload) mod 65536; when the payload is at most 65515 bytes this is exactly the packet length |
| `Packet.AsU16` | src/main.rs:51 | the `as u16` cast keeps any value below 65536 unchanged, and otherwise differs from its input by a multiple of 65536 |
| `Packet.Ipv4HeaderChecksum` | src/main.rs:53-54 | bytes 10..12 are the checksum of the first 20 bytes with that field zeroed, so the payload does not enter it; the finished header checksums to `[0, 0]` |
| `Packet.HeaderFields` | src/main.rs:46-54 | each field of the header is at its offset, and zeroing bytes 10..12 gives the header as it was checksummed |
| `Packet.Ipv4AsBytes` | src/main.rs:44-59 | the bytes built in place are exactly `Ipv4Packet` of the input |
| `Packet.FillEthernetHeader` | src/main.rs:70-75 | setting the EtherType, then the destination MAC, then the source MAC in a zeroed 14-byte buffer gives dest ++ source ++ [8, 0] |
| `Packet.EthernetAsBytes` | src/main.rs:69-80 | the output is dest_mac ++ source_mac ++ [8, 0] ++ payload, of length 14 + payload, and each part can be read back at its offset |
| `Packet.PingChecksum` | src/main.rs:89-93 | the echo request with identifier 69, sequence 420 and payload 1, 2, 3, 4 has checksum 0xF210 |
| `Packet.EchoBytes` | src/main.rs:89-93 | any message meeting the `IcmpAsBytes` contract for `main`'s values is exactly 8, 0, 0xF2, 0x10, 0, 69, 1, 164, 1, 2, 3, 4 |
| `Packet.PingPacket` | src/main.rs:94-98 | the IPv4 packet around that echo request is 32 bytes long, has total length 32 and destination 1.1.1.1, and has a header checksum that verifies |
| `Packet.PingFrameLayout` | src/main.rs:99-103 | the Ethernet frame around that packet is 46 bytes; its IPv4 header sits at 14..34 with checksum at 24..26, and the echo request is at 34.. |
| `Packet.FrameSlices` | src/main.rs:99-103 | inside a 46-byte frame, bytes 14..34 are the packet's header, bytes 24..26 its checksum field, and bytes 34.. its payload |
| `Packet.PingFrame` | src/main.rs:89-103 | the frame `main` builds is 46 bytes: gateway MAC, interface MAC, [8, 0]; an IPv4 header with total length 32, the interface's address, destination 1.1.1.1 and a checksum that verifies; then the echo request with checksum 0xF210 |

## Left out

- Interface and gateway discovery (`default_net::get_default_interface` and its `unwrap`s, src/main.rs:84-87) is OS lookup. The addresses it returns are parameters of `PingFrame`.
- The `sockaddr_ll`/`LinkAddr` destination descriptor built with `unsafe` memory reinterpretation is not modelled. This includes the hardcoded interface index 3 (src/main.rs:105-118). It is an FFI struct, not framing.
- Socket creation, `sendto`, `println!` and `close` (src/main.rs:120-136) are network and console I/O.
- The `internet_checksum` crate's own code is not part of this model. The checksum is specified from RFC 1071, with an unbounded one's-complement sum and carries folded back in. Every correct implementation gives the same two octets.
- InternetChecksum.Checksum: its own contract gives only the length of the result. What the value means is stated by `ChecksumSelfVerifies`, `ChecksumPadsOddOctet` and `ChecksumOfZeros`.
- `header_len + self.payload.len()` could overflow `usize` before the `as u16` cast. That needs a payload near the address-space size, so the model uses unbounded `nat` for the length.
- A rejection of payloads longer than 65515 bytes is not modelled, because the code has none. The field wraps, as `Packet.Ipv4TotalLength` states.
