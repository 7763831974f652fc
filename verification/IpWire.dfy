/**
 * IP packets as bytes, with the offsets of RFC 791, RFC 8200, RFC 768 and RFC 793
 * written out: what parsing reads from where, and what building puts there.
 */
module IpWire {
  import opened Chunk
  import opened IpPacket

  /** Two bytes in network order. */
  function Word(s: seq<byte>, i: nat): nat
    requires i + 2 <= |s|
  {
    s[i] as int * 0x100 + s[i + 1] as int
  }

  /** The ports in a transport header, if there is one that has them and it is complete. */
  predicate PortsRead(payload: seq<byte>, proto: byte, sport: uint16, dport: uint16) {
    if proto == 17 || proto == 6 then
      |payload| >= (if proto == 17 then 8 else 20) && sport == Word(payload, 0) && dport == Word(payload, 2)
    else sport == 0 && dport == 0
  }

  /** What an accepted IPv4 packet is taken for. */
  lemma Fields4(b: seq<byte>)
    requires Parse(b).Some? && b != [] && b[0] / 16 == 4
    ensures |b| >= 20
    ensures var p := Parse(b).value;
      var header := b[0] % 16 * 4;
      && p.version == 4 && p.nextHeader == b[9] && p.src.address == b[12..16] && p.dst.address == b[16..20]
      && p.packet == b[..Min(|b|, Word(b, 2))]
      && p.payload == (if |p.packet| > header then p.packet[header..] else [])
      // ports are in the first fragment only
      && (if b[6] % 32 != 0 || b[7] != 0 then p.src.port == 0 && p.dst.port == 0
          else PortsRead(p.payload, p.nextHeader, p.src.port, p.dst.port))
  {
  }

  /** What an accepted IPv6 packet is taken for. */
  lemma Fields6(b: seq<byte>)
    requires Parse(b).Some? && b != [] && b[0] / 16 == 6
    ensures |b| >= 40
    ensures var p := Parse(b).value;
      && p.version == 6 && p.src.address == b[8..24] && p.dst.address == b[24..40]
      && p.packet == b[..Min(|b|, 40 + Word(b, 4))]
  {
  }

  /** The chain of extension headers: one that starts with the next protocol and its length is passed over whole. */
  lemma ExtensionPassed(proto: byte, next: byte, len: byte, body: seq<byte>, rest: seq<byte>, fragment: bool)
    requires proto in {0, 43, 44, 60, 135, 139, 140} && 2 + |body| == 8 * (len as int + 1)
    ensures SkipExtensions(Upper(proto, [next, len] + body + rest, fragment)) ==
            SkipExtensions(Upper(next, rest, fragment || proto == 44))
  {
    var s := [next, len] + body + rest;
    assert Skip(s, 8 * (len as int + 1)) == rest;
  }

  /** Any other protocol ends it. */
  lemma ExtensionsEnd(proto: byte, payload: seq<byte>, fragment: bool)
    requires proto !in {0, 43, 44, 60, 135, 139, 140}
    ensures SkipExtensions(Upper(proto, payload, fragment)) == Upper(proto, payload, fragment)
  {
  }

  /** An IPv6 header without extensions in front of a payload. */
  function Header6(flow: seq<byte>, src: seq<byte>, dst: seq<byte>, proto: byte, len: nat): seq<byte> {
    flow + [len / 0x100 % 0x100, len % 0x100, proto, 0x80] + src + dst
  }

  /** It is parsed if its first four bits are a six. */
  lemma Plain6(flow: seq<byte>, src: seq<byte>, dst: seq<byte>, proto: byte, payload: seq<byte>)
    requires |flow| == 4 && flow[0] / 16 == 6 && |src| == 16 && |dst| == 16 && |payload| < 0x1_0000
    requires proto !in {0, 43, 44, 60, 135, 139, 140}
    ensures var b := Header6(flow, src, dst, proto, |payload|) + payload;
      match Parse(b)
      case None => (proto == 17 && 2 <= |payload| < 8) || (proto == 6 && 2 <= |payload| < 20)
      case Some(p) =>
        && p.src.address == src && p.dst.address == dst && p.nextHeader == proto && p.payload == payload && p.packet == b
        && (if |payload| < 2 then p.src.port == 0 && p.dst.port == 0
            else PortsRead(payload, proto, p.src.port, p.dst.port))
  {
    var b := Header6(flow, src, dst, proto, |payload|) + payload;
    Wrapped16(|payload|);
    DivModUnique(|payload|, 0x1_0000, 0, |payload|);
    assert b[4..6] == Put16(|payload|) && Get16(b, 4) == |payload|;
    assert b[0] == flow[0] && b[6] == proto && b[8..24] == src && b[24..40] == dst;
    assert Skip(b, 40) == payload && b[..|b|] == b;
    ExtensionsEnd(proto, payload, false);
    hide Header6, Get16, SkipExtensions;
  }

  /**
   * ip_packet_create_from_data for IPv6 puts a six into the last four bits of the first
   * word instead of the first four, so what it builds is refused, whatever it is.
   */
  lemma Build6Refused(src: seq<byte>, dst: seq<byte>, proto: byte, payload: seq<byte>)
    ensures Parse(Header6([0, 0, 0, 6], src, dst, proto, |payload|) + payload) == None
  {
    assert (Header6([0, 0, 0, 6], src, dst, proto, |payload|) + payload)[0] == 0;
  }

  /** The IPv4 header that is built, field by field, with the checksum over it where the checksum was zero. */
  lemma Header4Bytes(sum: Checksum, src: seq<byte>, dst: seq<byte>, proto: byte, len: nat)
    requires |src| == 4 && |dst| == 4
    ensures var h := Header4(sum, src, dst, proto, len);
      && h[0] == 0x45 && h[1] == 0 && Word(h, 2) == (20 + len) % 0x1_0000 && h[4..8] == [0, 0, 0, 0]
      && h[8] == 0x80 && h[9] == proto && h[12..16] == src && h[16..20] == dst
      && Word(h, 10) == sum(h[..10] + [0, 0] + h[12..])
  {
    var h := Header4(sum, src, dst, proto, len);
    var zero: seq<byte> := [0, 0];
    Wrapped16(20 + len);
    assert h[2..4] == Put16(20 + len);
    var c := sum(h[..10] + zero + h[12..]);
    var start: seq<byte> := [0x45, 0] + Put16(20 + len) + [0, 0, 0, 0, 0x80, proto];
    assert h[..10] == start && h[12..] == src + dst;
    assert start + zero + src + dst == start + zero + (src + dst);
    Wrapped16(c);
    DivModUnique(c, 0x1_0000, 0, c);
    assert h[10..12] == Put16(c);
  }

  /** The transport header that is fixed: ports, and a checksum over it where the checksum was zero; no other byte. */
  lemma TransportBytes(sum: Checksum, sport: uint16, dport: uint16, proto: byte, data: seq<byte>)
    requires (proto == 17 && |data| >= 8) || (proto == 6 && |data| >= 20)
    ensures var r := FixTransport(sum, sport, dport, proto, data);
      var at := if proto == 17 then 6 else 16;
      && |r| == |data| && r[4..at] == data[4..at] && r[at + 2..] == data[at + 2..]
      && Word(r, 0) == (if sport != 0 then sport else Word(data, 0))
      && Word(r, 2) == (if dport != 0 then dport else Word(data, 2))
      && Word(r, at) == sum(r[..at] + [0, 0] + r[at + 2..])
  {
    var at := if proto == 17 then 6 else 16;
    var zero: seq<byte> := [0, 0];
    var q := SetPorts(sport, dport, data);
    var p := Overwrite(q, at, zero);
    var c := sum(p);
    var r := FixTransport(sum, sport, dport, proto, data);
    assert r == Overwrite(p, at, Put16(c));
    FixedPorts(sum, sport, dport, proto, data);
    assert Get16(r, 0) == Given(sport, data, 0) && Get16(r, 2) == Given(dport, data, 2);
    hide FixTransport, SetPorts, Overwrite, Ports, ChecksumOffset;
    SetPortsKeep(sport, dport, data);
    OverwriteTwice(q, at, zero, Put16(c));
    assert r[4..at] == q[4..at] == q[4..][..at - 4] == data[4..at];
    assert r[at + 2..] == q[at + 2..] == q[4..][at - 2..] == data[at + 2..];
    assert r[..at] + zero + r[at + 2..] == p;
    WordPut(c);
    assert r[at] == r[at..at + 2][0] && r[at + 1] == r[at..at + 2][1];
  }

  lemma WordPut(c: uint16)
    ensures |Put16(c)| == 2 && Word(Put16(c), 0) == c
  {
    DivModUnique(c, 0x100, c / 0x100, c % 0x100);
  }

  lemma SetPortsKeep(sport: uint16, dport: uint16, data: seq<byte>)
    requires |data| >= 4
    ensures var q := SetPorts(sport, dport, data); |q| == |data| && q[4..] == data[4..]
  {
  }

  lemma OverwriteTwice(s: seq<byte>, at: nat, a: seq<byte>, b: seq<byte>)
    requires 4 <= at && at + 2 <= |s| && |a| == 2 && |b| == 2
    ensures var r := Overwrite(Overwrite(s, at, a), at, b);
      && |r| == |s| && r[at..at + 2] == b && r[..at] == s[..at] && r[4..at] == s[4..at] && r[at + 2..] == s[at + 2..]
      && r[..at] + a + r[at + 2..] == Overwrite(s, at, a)
  {
  }
}
