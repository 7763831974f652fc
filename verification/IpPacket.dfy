/** Parsing of plain IP packets, and building of IPv4 packets. */
module IpPacket {
  import opened Chunk

  const UDP: byte := 17
  const TCP: byte := 6
  const FRAGMENT: byte := 44

  /** An address of 4 or 16 bytes, with a port. */
  datatype Host = Host(address: seq<byte>, port: uint16)

  /** `packet` is the encoding without any trailing bytes, `payload` its part after the IP headers. */
  datatype IpPacket = IpPacket(
    src: Host, dst: Host, packet: seq<byte>, payload: seq<byte>, version: byte, nextHeader: byte)

  // ------------------------------------------------------------------ parsing

  /** The ports of a transport header, zero for other protocols; None if the header is cut short. */
  function Ports(packet: seq<byte>, proto: byte): Option<(uint16, uint16)> {
    if proto == UDP then
      if |packet| < 8 then None else Some((Get16(packet, 0), Get16(packet, 2)))
    else if proto == TCP then
      if |packet| < 20 then None else Some((Get16(packet, 0), Get16(packet, 2)))
    else Some((0, 0))
  }

  /** The IPv6 headers that are skipped on the way to the upper layer. */
  predicate IsExtension(proto: byte) { proto in {FRAGMENT, 0, 43, 60, 135, 139, 140} }

  datatype Upper = Upper(proto: byte, payload: seq<byte>, fragment: bool)

  function SkipExtension(u: Upper): Upper
    requires |u.payload| >= 2
  {
    Upper(u.payload[0], Skip(u.payload, 8 * (u.payload[1] as int + 1)), u.fragment || u.proto == FRAGMENT)
  }

  function SkipExtensions(u: Upper): Upper
    decreases |u.payload|
  {
    if |u.payload| >= 2 && IsExtension(u.proto) then SkipExtensions(SkipExtension(u)) else u
  }

  /** Ports are only looked for in unfragmented packets with something after the headers. */
  function UpperPorts(u: Upper): Option<(uint16, uint16)> {
    if |u.payload| >= 2 && !u.fragment then Ports(u.payload, u.proto) else Some((0, 0))
  }

  function Version(packet: seq<byte>): byte
    requires |packet| >= 1
  {
    packet[0] / 16
  }

  /** The length the IP header declares; anything behind it is traffic flow confidentiality padding. */
  function Declared(packet: seq<byte>): nat
    requires |packet| >= 6
  {
    if Version(packet) == 4 then Get16(packet, 2) else 40 + Get16(packet, 4)
  }

  function Parse4(packet: seq<byte>): Option<IpPacket>
    requires |packet| >= 20
  {
    var p := packet[..Min(|packet|, Declared(packet))];
    var payload := Skip(p, packet[0] as int % 16 * 4);
    var first := Get16(packet, 6) % 0x2000 == 0;
    var ports := if first then Ports(payload, packet[9]) else Some((0, 0));
    if ports.None? then None
    else Some(IpPacket(Host(packet[12..16], ports.value.0), Host(packet[16..20], ports.value.1),
                       p, payload, 4, packet[9]))
  }

  function Parse6(packet: seq<byte>): Option<IpPacket>
    requires |packet| >= 40
  {
    var p := packet[..Min(|packet|, Declared(packet))];
    var u := SkipExtensions(Upper(packet[6], Skip(p, 40), false));
    var ports := UpperPorts(u);
    if ports.None? then None
    else Some(IpPacket(Host(packet[8..24], ports.value.0), Host(packet[24..40], ports.value.1),
                       p, u.payload, 6, u.proto))
  }

  predicate HeaderComplete(packet: seq<byte>) {
    |packet| >= 1 && ((Version(packet) == 4 && |packet| >= 20) || (Version(packet) == 6 && |packet| >= 40))
  }

  function Parse(packet: seq<byte>): Option<IpPacket> {
    if !HeaderComplete(packet) then None
    else if Version(packet) == 4 then Parse4(packet)
    else Parse6(packet)
  }

  /** parse_transport_header_v6: the loop over the extension headers. */
  method ParseTransportHeaderV6(packet: seq<byte>) returns (u: Upper, ports: Option<(uint16, uint16)>)
    requires |packet| >= 40
    ensures u == SkipExtensions(Upper(packet[6], Skip(packet, 40), false)) && ports == UpperPorts(u)
  {
    u := Upper(packet[6], Skip(packet, 40), false);
    while |u.payload| >= 2
      invariant SkipExtensions(u) == SkipExtensions(Upper(packet[6], Skip(packet, 40), false))
      decreases |u.payload|
    {
      if IsExtension(u.proto) {
        u := SkipExtension(u);
        continue;
      }
      ports := if u.fragment then Some((0, 0)) else Ports(u.payload, u.proto);
      return;
    }
    ports := Some((0, 0));
  }

  /** ip_packet_create. */
  method Create(packet: seq<byte>) returns (r: Option<IpPacket>)
    ensures r == Parse(packet)
  {
    if |packet| < 1 {
      return None;
    }
    var version := Version(packet);
    if version == 4 {
      if |packet| < 20 {
        return None;
      }
      r := Parse4(packet);
    } else if version == 6 {
      if |packet| < 40 {
        return None;
      }
      var p := packet[..Min(|packet|, 40 + Get16(packet, 4))];
      var u, ports := ParseTransportHeaderV6(p);
      if ports.None? {
        return None;
      }
      r := Some(IpPacket(Host(packet[8..24], ports.value.0), Host(packet[24..40], ports.value.1),
                         p, u.payload, 6, u.proto));
    } else {
      return None;
    }
  }

  predicate IsSuffix(s: seq<byte>, t: seq<byte>) { |s| <= |t| && s == t[|t| - |s|..] }

  lemma {:induction false} ExtensionsSuffix(u: Upper, t: seq<byte>)
    requires IsSuffix(u.payload, t)
    ensures IsSuffix(SkipExtensions(u).payload, t)
    decreases |u.payload|
  {
    if |u.payload| >= 2 && IsExtension(u.proto) {
      ExtensionsSuffix(SkipExtension(u), t);
    }
  }

  /** The encoding kept is the packet up to its declared length, and the payload lies at its end. */
  lemma ParseShape(packet: seq<byte>)
    requires Parse(packet).Some?
    ensures var p := Parse(packet).value;
      && p.packet == packet[..Min(|packet|, Declared(packet))]
      && IsSuffix(p.payload, p.packet)
      && p.version == Version(packet)
  {
    var p := Parse(packet).value;
    if p.version == 6 {
      ExtensionsSuffix(Upper(packet[6], Skip(p.packet, 40), false), p.packet);
    }
  }

  /** Bytes behind the declared length never matter (section 2.7 of RFC 4303). */
  lemma TrailingBytesIgnored(packet: seq<byte>, extra: seq<byte>)
    requires HeaderComplete(packet) && Declared(packet) <= |packet|
    ensures Parse(packet + extra) == Parse(packet)
  {
    var long := packet + extra;
    var n := Declared(packet);
    assert Declared(long) == n && long[..n] == packet[..n];
    if Version(packet) == 4 {
      assert long[12..16] == packet[12..16] && long[16..20] == packet[16..20];
    } else {
      assert long[8..24] == packet[8..24] && long[24..40] == packet[24..40];
    }
  }

  lemma Reparse4(packet: seq<byte>)
    requires |packet| >= 20 && Version(packet) == 4 && Parse4(packet).Some? && Declared(packet) >= 20
    ensures Parse(Parse4(packet).value.packet) == Parse4(packet)
  {
    var q := Parse4(packet).value.packet;
    assert Declared(q) == Declared(packet) && q[..Min(|q|, Declared(q))] == q;
    assert q[12..16] == packet[12..16] && q[16..20] == packet[16..20];
  }

  lemma Reparse6(packet: seq<byte>)
    requires |packet| >= 40 && Version(packet) == 6 && Parse6(packet).Some?
    ensures Parse(Parse6(packet).value.packet) == Parse6(packet)
  {
    var q := Parse6(packet).value.packet;
    assert Declared(q) == Declared(packet) && q[..Min(|q|, Declared(q))] == q;
    assert q[8..24] == packet[8..24] && q[24..40] == packet[24..40];
  }

  /**
   * Parsing an accepted packet's own encoding again gives the same packet, except
   * for an IPv4 packet that declares less than its own header: that is refused.
   */
  lemma Reparse(packet: seq<byte>)
    requires Parse(packet).Some?
    ensures var p := Parse(packet).value;
      Parse(p.packet) == if p.version == 4 && |p.packet| < 20 then None else Some(p)
  {
    if Version(packet) == 6 {
      Reparse6(packet);
    } else if Declared(packet) >= 20 {
      Reparse4(packet);
    }
  }

  // ----------------------------------------------------------------- building

  /** The Internet checksum is left open: any function of the bytes it covers. */
  type Checksum = seq<byte> -> uint16

  function Overwrite(s: seq<byte>, i: nat, b: seq<byte>): seq<byte>
    requires i + |b| <= |s|
  {
    s[..i] + b + s[i + |b|..]
  }

  /** Where the checksum of a transport header is, if there is a complete header. */
  function ChecksumOffset(proto: byte, payload: seq<byte>): Option<nat> {
    if proto == UDP && |payload| >= 8 then Some(6)
    else if proto == TCP && |payload| >= 20 then Some(16)
    else None
  }

  function SetPorts(sport: uint16, dport: uint16, payload: seq<byte>): seq<byte>
    requires |payload| >= 4
  {
    var p := if sport != 0 then Overwrite(payload, 0, Put16(sport)) else payload;
    if dport != 0 then Overwrite(p, 2, Put16(dport)) else p
  }

  /** fix_transport_header: ports that are given replace those in the data, and the checksum is redone. */
  function FixTransport(sum: Checksum, sport: uint16, dport: uint16, proto: byte, payload: seq<byte>): (r: seq<byte>)
    ensures |r| == |payload|
  {
    match ChecksumOffset(proto, payload)
    case None => payload
    case Some(at) =>
      var p := Overwrite(SetPorts(sport, dport, payload), at, [0, 0]);
      Overwrite(p, at, Put16(sum(p)))
  }

  function Header4(sum: Checksum, src: seq<byte>, dst: seq<byte>, proto: byte, len: nat): (r: seq<byte>)
    requires |src| == 4 && |dst| == 4
    ensures |r| == 20
  {
    var h := [0x45, 0] + Put16(20 + len) + [0, 0, 0, 0, 0x80, proto];
    h + Put16(sum(h + [0, 0] + src + dst)) + src + dst
  }

  /** The IPv4 branch of ip_packet_create_from_data; `tsum` also covers the pseudo header. */
  function Build4(sum: Checksum, tsum: Checksum, src: Host, dst: Host, proto: byte, data: seq<byte>): seq<byte>
    requires |src.address| == 4 && |dst.address| == 4
  {
    Header4(sum, src.address, dst.address, proto, |data|) + FixTransport(tsum, src.port, dst.port, proto, data)
  }

  function Given(port: uint16, data: seq<byte>, at: nat): uint16
    requires at + 2 <= |data|
  {
    if port != 0 then port else Get16(data, at)
  }

  /** Writing two bytes further back leaves a field alone; writing it replaces it. */
  lemma OverwriteField(s: seq<byte>, k: nat, at: nat, b: seq<byte>)
    requires at + 2 <= |s| && |b| == 2
    ensures k + 2 <= at || (at + 2 <= k && k + 2 <= |s|) ==> Get16(Overwrite(s, at, b), k) == Get16(s, k)
    ensures |Overwrite(s, at, b)| == |s| && Get16(Overwrite(s, at, b), at) == Get16(b, 0)
  {
  }

  lemma SetPortsFields(sport: uint16, dport: uint16, data: seq<byte>)
    requires |data| >= 4
    ensures var p := SetPorts(sport, dport, data);
      |p| == |data| && Get16(p, 0) == Given(sport, data, 0) && Get16(p, 2) == Given(dport, data, 2)
  {
    assert Get16(Put16(sport), 0) == sport && Get16(Put16(dport), 0) == dport;
    hide Put16, Get16;
    OverwriteField(data, 2, 0, Put16(sport));
    OverwriteField(data, 0, 2, Put16(dport));
    if sport != 0 {
      OverwriteField(Overwrite(data, 0, Put16(sport)), 0, 2, Put16(dport));
    }
  }

  lemma FixedPorts(tsum: Checksum, sport: uint16, dport: uint16, proto: byte, data: seq<byte>)
    requires ChecksumOffset(proto, data).Some?
    ensures Ports(FixTransport(tsum, sport, dport, proto, data), proto) == Some((Given(sport, data, 0), Given(dport, data, 2)))
  {
    hide SetPorts, Get16, Overwrite;
    var at, p := ChecksumOffset(proto, data).value, SetPorts(sport, dport, data);
    SetPortsFields(sport, dport, data);
    OverwriteField(p, 0, at, [0, 0]);
    OverwriteField(p, 2, at, [0, 0]);
    var z := Overwrite(p, at, [0, 0]);
    OverwriteField(z, 0, at, Put16(tsum(z)));
    OverwriteField(z, 2, at, Put16(tsum(z)));
  }

  /** The length a built packet declares: sixteen bits of its size. */
  function BuiltLength(len: nat): nat { (20 + len) % 0x1_0000 }

  lemma BuiltFields(sum: Checksum, src: seq<byte>, dst: seq<byte>, proto: byte, payload: seq<byte>)
    requires |src| == 4 && |dst| == 4
    ensures var packet := Header4(sum, src, dst, proto, |payload|) + payload;
      var n := BuiltLength(|payload|);
      && packet[0] == 0x45 && Get16(packet, 2) == n <= |packet| && Get16(packet, 6) == 0
      && packet[9] == proto && packet[12..16] == src && packet[16..20] == dst
      && Skip(packet[..n], 20) == payload[..Max(0, n - 20)]
  {
    var n, size := BuiltLength(|payload|), 20 + |payload|;
    Wrapped16(size);
    var packet := Header4(sum, src, dst, proto, |payload|) + payload;
    assert packet[2] == Put16(size)[0] && packet[3] == Put16(size)[1];
    assert n > 20 ==> packet[..n][20..] == payload[..n - 20];
  }

  lemma Wrapped16(n: nat)
    ensures Get16(Put16(n), 0) == n % 0x1_0000 <= n
  {
    var q, r := n / 0x1_0000, n % 0x1_0000;
    DivModUnique(n, 0x100, 0x100 * q + r / 0x100, r % 0x100);
    DivModUnique(n / 0x100, 0x100, q, r / 0x100);
  }

  /** A transport header that was fixed is still there in the part of the data a packet declares. */
  lemma CutPorts(tsum: Checksum, sport: uint16, dport: uint16, proto: byte, data: seq<byte>, n: nat)
    requires n <= |data|
    ensures var cut := FixTransport(tsum, sport, dport, proto, data)[..n];
      Ports(cut, proto) ==
        if ChecksumOffset(proto, cut).Some? then Some((Given(sport, data, 0), Given(dport, data, 2)))
        else if proto == UDP || proto == TCP then None else Some((0, 0))
  {
    var cut := FixTransport(tsum, sport, dport, proto, data)[..n];
    if ChecksumOffset(proto, cut).Some? {
      FixedPorts(tsum, sport, dport, proto, data);
      hide FixTransport;
    }
  }

  /**
   * A built IPv4 packet parses back to what it was built from.  UDP and TCP data
   * must hold a complete header, whose ports show through where none are given.
   * Data too long for the length field is cut to what the field says.
   */
  lemma BuildThenParse(sum: Checksum, tsum: Checksum, src: Host, dst: Host, proto: byte, data: seq<byte>)
    requires |src.address| == 4 && |dst.address| == 4
    ensures var packet := Build4(sum, tsum, src, dst, proto, data);
      var n := BuiltLength(|data|);
      var payload := FixTransport(tsum, src.port, dst.port, proto, data)[..Max(0, n - 20)];
      Parse(packet) ==
        if ChecksumOffset(proto, payload).Some? then
          Some(IpPacket(Host(src.address, Given(src.port, data, 0)), Host(dst.address, Given(dst.port, data, 2)),
                        packet[..n], payload, 4, proto))
        else if proto == UDP || proto == TCP then None
        else Some(IpPacket(Host(src.address, 0), Host(dst.address, 0), packet[..n], payload, 4, proto))
    ensures 20 + |data| < 0x1_0000 ==> BuiltLength(|data|) == |Build4(sum, tsum, src, dst, proto, data)|
  {
    hide Header4, SetPorts, Overwrite, Get16, FixTransport, Ports, BuiltLength;
    var payload := FixTransport(tsum, src.port, dst.port, proto, data);
    assert 20 + |data| < 0x1_0000 ==> BuiltLength(|data|) == 20 + |data| by { BuiltWhole(|data|); }
    BuiltFields(sum, src.address, dst.address, proto, payload);
    CutPorts(tsum, src.port, dst.port, proto, data, Max(0, BuiltLength(|data|) - 20));
  }

  lemma BuiltWhole(len: nat)
    ensures 20 + len < 0x1_0000 ==> BuiltLength(len) == 20 + len
  {
  }

  lemma UdpData(tsum: Checksum, sport: uint16, dport: uint16, udp: seq<byte>)
    requires |udp| >= 8
    ensures FixTransport(tsum, sport, dport, UDP, udp)[8..] == udp[8..]
  {
  }

  /** ip_packet_create_udp_from_data: the UDP header starts with zero ports, so the hosts' ports win. */
  function UdpHeader(len: nat): seq<byte> { [0, 0, 0, 0] + Put16(8 + len) + [0, 0] }

  lemma BuildUdp(sum: Checksum, tsum: Checksum, src: Host, dst: Host, data: seq<byte>)
    requires |src.address| == 4 && |dst.address| == 4
    ensures var r := Parse(Build4(sum, tsum, src, dst, UDP, UdpHeader(|data|) + data));
      var n := BuiltLength(8 + |data|);
      && (r.Some? <==> n >= 28)
      && (r.Some? ==>
            && r.value.src == src && r.value.dst == dst && r.value.nextHeader == UDP
            && |r.value.payload| == n - 20 && r.value.payload[8..] == data[..n - 28])
    ensures 28 + |data| < 0x1_0000 ==> BuiltLength(8 + |data|) == 28 + |data|
  {
    hide Parse, Build4, SetPorts, Overwrite, Get16, FixTransport, BuiltLength;
    var udp := UdpHeader(|data|) + data;
    var n := BuiltLength(|udp|);
    UdpStart(data);
    UdpData(tsum, src.port, dst.port, udp);
    BuiltWhole(8 + |data|);
    BuiltSmaller(8 + |data|);
    BuildThenParse(sum, tsum, src, dst, UDP, udp);
    var fixed := FixTransport(tsum, src.port, dst.port, UDP, udp);
    if n >= 28 {
      assert fixed[..n - 20][8..] == fixed[8..][..n - 28] == data[..n - 28];
    }
  }

  lemma BuiltSmaller(len: nat)
    ensures BuiltLength(len) <= 20 + len
  {
    Wrapped16(20 + len);
  }

  lemma UdpStart(data: seq<byte>)
    ensures var udp := UdpHeader(|data|) + data;
      |udp| == 8 + |data| && Get16(udp, 0) == 0 && Get16(udp, 2) == 0 && udp[8..] == data
  {
  }

  /** Writes two bytes in network order into the part of the buffer behind `start`. */
  method Write16(buf: array<byte>, start: nat, at: nat, v: uint16)
    requires start + at + 2 <= buf.Length
    modifies buf
    ensures buf[..start] == old(buf[..start]) && buf[start..] == Overwrite(old(buf[start..]), at, Put16(v))
  {
    buf[start + at] := v / 0x100;
    buf[start + at + 1] := v % 0x100;
  }

  /** The buffer is changed in place, from the transport header on. */
  method FixTransportHeader(sum: Checksum, sport: uint16, dport: uint16, proto: byte, buf: array<byte>, start: nat)
    requires start <= buf.Length
    modifies buf
    ensures buf[..start] == old(buf[..start])
    ensures buf[start..] == FixTransport(sum, sport, dport, proto, old(buf[start..]))
  {
    var offset := ChecksumOffset(proto, buf[start..]);
    if offset.None? {
      return;
    }
    hide Put16;
    if sport != 0 {
      Write16(buf, start, 0, sport);
    }
    if dport != 0 {
      Write16(buf, start, 2, dport);
    }
    assert buf[start..] == SetPorts(sport, dport, old(buf[start..]));
    hide SetPorts;
    assert Put16(0) == [0, 0] by { Put16Zero(); }
    Write16(buf, start, offset.value, 0);
    var check := sum(buf[start..]);
    Write16(buf, start, offset.value, check);
  }

  lemma Put16Zero()
    ensures Put16(0) == [0, 0]
  {
  }
}
