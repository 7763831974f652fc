/** IPsec policies: traffic selectors, matching, and the priority that orders them. */
module IpsecPolicy {
  import opened Chunk
  import opened IpPacket

  datatype Direction = IN | OUT | FWD
  datatype PolicyType = IPSEC | PASS | DROP
  datatype PriorityClass = CLASS_PASS | CLASS_DEFAULT | CLASS_ROUTED | CLASS_FALLBACK

  /** A range of addresses of one family and of ports; `prefix` is the subnet size to_subnet reports. */
  datatype Ts = Ts(from: seq<byte>, to: seq<byte>, prefix: nat, protocol: byte, fromPort: uint16, toPort: uint16) {
    /** calc_netbits never yields more than the bits of an IPv6 address. */
    predicate Ok() { |from| == |to| && prefix <= 128 }

    predicate Equals(other: Ts) {
      && from == other.from && to == other.to && protocol == other.protocol
      && fromPort == other.fromPort && toPort == other.toPort
    }

    predicate Includes(host: Host) {
      |host.address| == |from| == |to| && LexLe(from, host.address) && LexLe(host.address, to)
    }

    predicate MatchPort(host: Host) {
      || (fromPort == 0 && toPort == 0xffff) || (fromPort == 0xffff && toPort == 0)
      || fromPort <= host.port <= toPort
    }

    /** The port of the selector seen as a subnet: only a single port counts. */
    function Port(): uint16 { if toPort == fromPort then toPort else 0 }
  }

  /** memcmp order. */
  predicate LexLe(a: seq<byte>, b: seq<byte>)
    requires |a| == |b|
  {
    a == [] || a[0] < b[0] || (a[0] == b[0] && LexLe(a[1..], b[1..]))
  }

  datatype Policy = Policy(
    srcTs: Ts, dstTs: Ts, direction: Direction, reqid: uint32, mark: (uint32, uint32), cls: PriorityClass)
  {
    predicate Ok() { srcTs.Ok() && dstTs.Ok() }

    function Protocol(): byte { Max(srcTs.protocol, dstTs.protocol) }

    predicate Match(other: Policy) {
      && direction == other.direction && cls == other.cls && reqid == other.reqid && mark == other.mark
      && srcTs.Equals(other.srcTs) && dstTs.Equals(other.dstTs)
    }

    predicate MatchPacket(packet: IpPacket) {
      && (Protocol() == 0 || Protocol() == packet.nextHeader)
      && srcTs.Includes(packet.src) && srcTs.MatchPort(packet.src)
      && dstTs.Includes(packet.dst) && dstTs.MatchPort(packet.dst)
    }
  }

  /** An address as a number. */
  function Number(a: seq<byte>): nat { if a == [] then 0 else Number(a[..|a| - 1]) * 0x100 + a[|a| - 1] as int }

  function Scale(n: nat): nat { if n == 0 then 1 else Scale(n - 1) * 0x100 }

  lemma {:induction false} NumberCons(x: byte, a: seq<byte>)
    ensures Number([x] + a) == x as int * Scale(|a|) + Number(a) && Number(a) < Scale(|a|)
  {
    if a == [] {
      assert [x] + a == [x] && [x][..0] == [] && Number([]) == 0 && Scale(0) == 1;
    } else {
      var n := |a| - 1;
      var s := [x] + a;
      NumberCons(x, a[..n]);
      assert s[..|s| - 1] == [x] + a[..n] && s[|s| - 1] == a[n];
      assert (x as int * Scale(n)) * 0x100 == x as int * (Scale(n) * 0x100);
    }
  }

  lemma Ahead(x: nat, y: nat, s: nat)
    requires x < y
    ensures x * s + s <= y * s
  {
    var d: nat := y - x - 1;
    calc {
      y * s;
      (x + 1 + d) * s;
      x * s + s + d * s;
    }
    NonNegative(d, s);
  }

  lemma NonNegative(d: nat, s: nat)
    ensures d * s >= 0
  {
  }

  lemma LeadDecides(x: nat, y: nat, s: nat, m: nat, n: nat)
    requires m < s && n < s
    ensures x * s + m <= y * s + n <==> x < y || (x == y && m <= n)
  {
    if x < y {
      Ahead(x, y, s);
    } else if y < x {
      Ahead(y, x, s);
    }
  }

  /** The byte order of addresses is their order as numbers. */
  lemma {:induction false} LexIsNumeric(a: seq<byte>, b: seq<byte>)
    requires |a| == |b|
    ensures LexLe(a, b) <==> Number(a) <= Number(b)
  {
    hide Number, Scale;
    if a != [] {
      assert a == [a[0]] + a[1..] && b == [b[0]] + b[1..];
      NumberCons(a[0], a[1..]);
      NumberCons(b[0], b[1..]);
      LexIsNumeric(a[1..], b[1..]);
      LeadDecides(a[0], b[0], Scale(|a| - 1), Number(a[1..]), Number(b[1..]));
    } else {
      NumberNothing();
    }
  }

  lemma NumberNothing()
    ensures Number([]) == 0
  {
  }

  /** A selector covers a host: an address between its ends, and a port between its ends unless all or no ports are meant. */
  predicate Covers(ts: Ts, host: Host) {
    && |host.address| == |ts.from| == |ts.to| && Number(ts.from) <= Number(host.address) <= Number(ts.to)
    && ((ts.fromPort, ts.toPort) in {(0, 65535), (65535, 0)} || (ts.fromPort <= host.port && host.port <= ts.toPort))
  }

  /** A policy covers a packet from what its first selector covers to what its second one covers, of its protocol if it has one. */
  lemma MatchesExactly(p: Policy, packet: IpPacket)
    ensures p.MatchPacket(packet) <==>
      && Covers(p.srcTs, packet.src) && Covers(p.dstTs, packet.dst)
      && ((p.srcTs.protocol == 0 && p.dstTs.protocol == 0) ||
          packet.nextHeader == (if p.srcTs.protocol > p.dstTs.protocol then p.srcTs.protocol else p.dstTs.protocol))
  {
    hide Number, LexLe;
    IncludesExactly(p.srcTs, packet.src);
    IncludesExactly(p.dstTs, packet.dst);
  }

  lemma IncludesExactly(ts: Ts, host: Host)
    ensures ts.Includes(host) <==>
      |host.address| == |ts.from| == |ts.to| && Number(ts.from) <= Number(host.address) <= Number(ts.to)
  {
    if |host.address| == |ts.from| == |ts.to| {
      LexIsNumeric(ts.from, host.address);
      LexIsNumeric(host.address, ts.to);
    }
  }

  /** Policies are matched by everything that makes them up, except the subnet size reported for their selectors. */
  lemma MatchIsEquality(p: Policy, q: Policy)
    ensures p.Match(q) <==>
      p == q.(srcTs := q.srcTs.(prefix := p.srcTs.prefix), dstTs := q.dstTs.(prefix := p.dstTs.prefix))
  {
  }

  // ----------------------------------------------------------------- priority

  const PRIO_BASE: nat := 384

  function ClassRank(c: PriorityClass): nat {
    match c case CLASS_PASS => 0 case CLASS_DEFAULT => 1 case CLASS_ROUTED => 2 case CLASS_FALLBACK => 3
  }

  function Shifted(rank: nat): nat {
    if rank == 0 then PRIO_BASE else 2 * Shifted(rank - 1)
  }

  /** calculate_priority, in 32-bit arithmetic: a low value is a high priority. */
  function Priority(cls: PriorityClass, src: Ts, dst: Ts): uint32 {
    var base := (Shifted(ClassRank(cls)) - src.prefix - dst.prefix) % 0x1_0000_0000;
    var port := Max(src.Port(), dst.Port());
    var proto := Max(src.protocol, dst.protocol);
    (base * 4 + (if port != 0 then 0 else 2) + (if proto != 0 then 0 else 1)) % 0x1_0000_0000
  }

  function PriorityOf(p: Policy): uint32 { Priority(p.cls, p.srcTs, p.dstTs) }

  /** What a priority is made of, most significant part first; smaller comes first. */
  datatype Key = Key(rank: nat, openBits: int, anyPort: bool, anyProto: bool)

  function KeyOf(p: Policy): Key {
    Key(ClassRank(p.cls), -(p.srcTs.prefix + p.dstTs.prefix),
        p.srcTs.Port() == 0 && p.dstTs.Port() == 0, p.srcTs.protocol == 0 && p.dstTs.protocol == 0)
  }

  predicate KeyLess(a: Key, b: Key) {
    || a.rank < b.rank
    || (a.rank == b.rank && a.openBits < b.openBits)
    || (a.rank == b.rank && a.openBits == b.openBits && !a.anyPort && b.anyPort)
    || (a.rank == b.rank && a.openBits == b.openBits && a.anyPort == b.anyPort && !a.anyProto && b.anyProto)
  }

  lemma PriorityValue(p: Policy)
    requires p.Ok()
    ensures var k := KeyOf(p);
      PriorityOf(p) == 4 * (Shifted(k.rank) + k.openBits) + (if k.anyPort then 2 else 0) + (if k.anyProto then 1 else 0)
    ensures 128 <= Shifted(KeyOf(p).rank) + KeyOf(p).openBits
  {
    assert Shifted(1) == 768 && Shifted(2) == 1536 && Shifted(3) == 3072;
  }

  /** The value in figures: a base by class, less the subnet sizes, then a bit for ports and a bit for protocols. */
  lemma PriorityInFigures(p: Policy)
    requires p.Ok()
    ensures var base := match p.cls case CLASS_PASS => 384 case CLASS_DEFAULT => 768 case CLASS_ROUTED => 1536 case CLASS_FALLBACK => 3072;
      var port := (p.srcTs.fromPort == p.srcTs.toPort && p.srcTs.toPort != 0) || (p.dstTs.fromPort == p.dstTs.toPort && p.dstTs.toPort != 0);
      var proto := p.srcTs.protocol != 0 || p.dstTs.protocol != 0;
      PriorityOf(p) == 4 * (base - p.srcTs.prefix - p.dstTs.prefix) + (if port then 0 else 2) + (if proto then 0 else 1)
  {
    PriorityValue(p);
    assert Shifted(0) == 384 && Shifted(1) == 768 && Shifted(2) == 1536 && Shifted(3) == 3072;
    hide PriorityOf;
  }

  lemma RankGap(a: nat, b: nat)
    requires a < b <= 3
    ensures Shifted(a) + 384 <= Shifted(b)
  {
    assert Shifted(0) == 384 && Shifted(1) == 768 && Shifted(2) == 1536 && Shifted(3) == 3072;
  }

  /** Keys in range are ordered like the numbers they are packed into. */
  lemma KeyOrder(a: Key, b: Key, x: int, y: int)
    requires a.rank <= 3 && b.rank <= 3 && -256 <= a.openBits <= 0 && -256 <= b.openBits <= 0
    requires x == 4 * (Shifted(a.rank) + a.openBits) + (if a.anyPort then 2 else 0) + (if a.anyProto then 1 else 0)
    requires y == 4 * (Shifted(b.rank) + b.openBits) + (if b.anyPort then 2 else 0) + (if b.anyProto then 1 else 0)
    ensures (x < y <==> KeyLess(a, b)) && (x == y <==> a == b)
  {
    hide Shifted;
    if a.rank < b.rank {
      RankGap(a.rank, b.rank);
    } else if b.rank < a.rank {
      RankGap(b.rank, a.rank);
    }
  }

  /** The packed value never underflows, and orders policies exactly lexicographically by its parts. */
  lemma PriorityIsLexicographic(p: Policy, q: Policy)
    requires p.Ok() && q.Ok()
    ensures PriorityOf(p) < PriorityOf(q) <==> KeyLess(KeyOf(p), KeyOf(q))
    ensures PriorityOf(p) == PriorityOf(q) <==> KeyOf(p) == KeyOf(q)
  {
    hide PriorityOf, Shifted, KeyLess;
    PriorityValue(p);
    PriorityValue(q);
    KeyOrder(KeyOf(p), KeyOf(q), PriorityOf(p), PriorityOf(q));
  }
}
