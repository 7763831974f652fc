/** The two jobs that move packets: decapsulation of inbound and encapsulation of outbound ones. */
module IpsecProcessor {
  import opened Chunk
  import opened Crypto
  import opened EspContext
  import opened IpPacket
  import opened EspPacket
  import opened IpsecSa
  import opened IpsecSaMgr
  import opened IpsecPolicy
  import PolicyDb = IpsecPolicyMgr

  /** A packet on the wire. */
  datatype Wire = Wire(src: Host, dst: Host, data: seq<byte>)

  /** The length an SA is charged for. */
  function Size(p: IpPacket): uint32 { |p.packet| % 0x1_0000_0000 }

  // --------------------------------------------------------- the jobs as functions

  /** What an SA makes of a packet addressed to it: its state after it, and the content it let through. */
  function InboundSa(s: SaView, data: seq<byte>): (r: (SaView, Option<(IpPacket, byte)>))
    requires s.aead.blockSize > 0
    ensures r.0.reqid == s.reqid
  {
    if !s.inbound then (s, None)
    else
      var o := Decapsulate(s.aead, s.ctx, data);
      if o.status != SUCCESS then (s.(ctx := o.ctx), None)
      else (s.(ctx := o.ctx, usage := Update(s.lifetime, s.usage, Size(o.content.value.0))), o.content)
  }

  /** Only tunnelled IP packets that an inbound policy for the SA's request id covers are delivered. */
  predicate Admits(policies: seq<PolicyDb.Entry>, reqid: uint32, p: IpPacket, nextHeader: byte) {
    && (nextHeader == PROTO_IPIP || nextHeader == PROTO_IPV6)
    && PolicyDb.Lookup(policies, PolicyDb.PacketQuery(p, true, reqid)).Some?
  }

  ghost predicate Sound(live: seq<SaView>) { forall i | 0 <= i < |live| :: live[i].aead.blockSize > 0 }

  /** The SA list after a packet came in, and what was in the packet, with the SA's request id. */
  ghost function InboundSas(live: seq<SaView>, w: Wire): (r: (seq<SaView>, Option<(uint32, IpPacket, byte)>))
    requires Sound(live)
    ensures |r.0| == |live|
  {
    if |w.data| < 8 then (live, None)
    else
      var i := First(live, (s: SaView) => SpiDst(s, Get32(w.data, 0), w.dst));
      if i == |live| then (live, None)
      else
        var (s, content) := InboundSa(live[i], w.data);
        (live[i := s], if content.Some? then Some((s.reqid, content.value.0, content.value.1)) else None)
  }

  ghost function Inbound(live: seq<SaView>, policies: seq<PolicyDb.Entry>, w: Wire): (r: (seq<SaView>, Option<IpPacket>))
    requires Sound(live)
    ensures |r.0| == |live|
  {
    var (live', r) := InboundSas(live, w);
    (live', if r.Some? && Admits(policies, r.value.0, r.value.1, r.value.2) then Some(r.value.1) else None)
  }

  function OutboundSa(s: SaView, p: IpPacket): (SaView, Option<Wire>)
    requires s.aead.blockSize > 0
  {
    var o := Encapsulate(s.aead, s.ctx, s.spi, p.packet, NextHeaderFor(Some(p)));
    if o.status != SUCCESS then (s.(ctx := o.ctx), None)
    else (s.(ctx := o.ctx, usage := Update(s.lifetime, s.usage, Size(p))), Some(Wire(s.src, s.dst, o.data)))
  }

  ghost function OutboundSas(live: seq<SaView>, reqid: uint32, p: IpPacket): (r: (seq<SaView>, Option<Wire>))
    requires Sound(live)
    ensures |r.0| == |live|
  {
    var i := First(live, (s: SaView) => Reqid(s, reqid, false));
    if i == |live| then (live, None)
    else var (s, w) := OutboundSa(live[i], p); (live[i := s], w)
  }

  ghost function Outbound(live: seq<SaView>, policies: seq<PolicyDb.Entry>, p: IpPacket): (r: (seq<SaView>, Option<Wire>))
    requires Sound(live)
    ensures |r.0| == |live|
  {
    var policy := PolicyDb.Lookup(policies, PolicyDb.PacketQuery(p, false, 0));
    if policy.None? then (live, None) else OutboundSas(live, policy.value.reqid, p)
  }

  // --------------------------------------------- what the jobs mean for a packet

  /** The SPI in front of an ESP packet. */
  function SpiOf(data: seq<byte>): nat
    requires |data| >= 8
  {
    data[0] as int * 0x100_0000 + data[1] as int * 0x1_0000 + data[2] as int * 0x100 + data[3] as int
  }

  predicate For(s: SaView, spi: nat, dst: Host) { s.spi == spi && s.dst.address == dst.address && !s.usage.hard }

  /** The first SA in the list for an SPI and destination that is not hard-expired. */
  ghost predicate FirstFor(live: seq<SaView>, i: nat, spi: nat, dst: Host) {
    i < |live| && For(live[i], spi, dst) && forall j | 0 <= j < i :: !For(live[j], spi, dst)
  }

  /** The SA decrypts the packet to p under one of the tunnel next headers. */
  ghost predicate Yields(s: SaView, data: seq<byte>, p: IpPacket)
    requires s.aead.blockSize > 0
  {
    var content := Decapsulate(s.aead, s.ctx, data).content;
    s.inbound && content.Some? && content.value.0 == p && content.value.1 in {4, 41}
  }

  /** Some installed policy lets the packet in under the request id. */
  ghost predicate LetIn(history: seq<Policy>, reqid: uint32, p: IpPacket) {
    exists j | 0 <= j < |history| ::
      history[j].direction == IN && history[j].MatchPacket(p) && (reqid == 0 || history[j].reqid == reqid)
  }

  /** The packet on the wire leads to the delivery of p. */
  ghost predicate Delivers(live: seq<SaView>, history: seq<Policy>, w: Wire, p: IpPacket)
    requires Sound(live)
  {
    |w.data| >= 8 && exists i: nat ::
      FirstFor(live, i, SpiOf(w.data), w.dst) && Yields(live[i], w.data, p) && LetIn(history, live[i].reqid, p)
  }

  lemma FirstIsFor(live: seq<SaView>, spi: uint32, dst: Host)
    ensures var i := First(live, (s: SaView) => SpiDst(s, spi, dst));
      if i < |live| then FirstFor(live, i, spi, dst) else forall j: nat :: !FirstFor(live, j, spi, dst)
  {
    var i := First(live, (s: SaView) => SpiDst(s, spi, dst));
    assert forall j | 0 <= j < |live| :: SpiDst(live[j], spi, dst) == For(live[j], spi, dst);
  }

  lemma OnlyOneFor(live: seq<SaView>, i: nat, j: nat, spi: nat, dst: Host)
    requires FirstFor(live, i, spi, dst) && FirstFor(live, j, spi, dst)
    ensures i == j
  {
    hide For;
  }

  lemma AdmitsIsLetIn(policies: seq<PolicyDb.Entry>, history: seq<Policy>, reqid: uint32, p: IpPacket, nextHeader: byte)
    requires policies == PolicyDb.Arrange(history)
    ensures Admits(policies, reqid, p, nextHeader) <==> nextHeader in {4, 41} && LetIn(history, reqid, p)
  {
    hide Policy.MatchPacket, PolicyDb.Arrange, PolicyDb.Answers, PolicyDb.PacketQuery, PolicyDb.First;
    PolicyDb.FirstIsBest(history, PolicyDb.PacketQuery(p, true, reqid));
    PolicyDb.AnswersUsable(history, p, true, reqid, PolicyDb.Lookup(policies, PolicyDb.PacketQuery(p, true, reqid)));
    assert LetIn(history, reqid, p) <==> exists j | 0 <= j < |history| :: PolicyDb.Usable(history[j], p, true, reqid);
  }

  /** The inbound job delivers a packet exactly if the SA for it yields it and a policy for that SA lets it in. */
  lemma InboundExactly(live: seq<SaView>, policies: seq<PolicyDb.Entry>, history: seq<Policy>, w: Wire, p: IpPacket)
    requires Sound(live) && policies == PolicyDb.Arrange(history)
    ensures Inbound(live, policies, w).1 == Some(p) <==> Delivers(live, history, w, p)
  {
    hide Decapsulate, Admits, LetIn, For, PolicyDb.Arrange, SpiDst, Update;
    if |w.data| >= 8 {
      assert Get32(w.data, 0) == SpiOf(w.data);
      FirstIsFor(live, SpiOf(w.data), w.dst);
      var i := First(live, (s: SaView) => SpiDst(s, Get32(w.data, 0), w.dst));
      if i < |live| {
        forall j: nat | FirstFor(live, j, SpiOf(w.data), w.dst) ensures j == i {
          OnlyOneFor(live, i, j, SpiOf(w.data), w.dst);
        }
        var content := Decapsulate(live[i].aead, live[i].ctx, w.data).content;
        if content.Some? {
          AdmitsIsLetIn(policies, history, live[i].reqid, content.value.0, content.value.1);
        }
      }
    }
  }

  /** What is delivered for a packet on the wire, added to what was delivered before. */
  ghost predicate DeliversAll(live: seq<SaView>, history: seq<Policy>, w: Wire, before: seq<IpPacket>, after: seq<IpPacket>)
    requires Sound(live)
  {
    || (after == before && forall p :: !Delivers(live, history, w, p))
    || exists p :: Delivers(live, history, w, p) && after == before + [p]
  }

  lemma InboundDelivers(live: seq<SaView>, policies: seq<PolicyDb.Entry>, history: seq<Policy>, w: Wire,
      before: seq<IpPacket>, after: seq<IpPacket>)
    requires Sound(live) && policies == PolicyDb.Arrange(history)
    requires var got := Inbound(live, policies, w).1; after == before + if got.Some? then [got.value] else []
    ensures DeliversAll(live, history, w, before, after)
  {
    hide Inbound, Delivers, PolicyDb.Arrange;
    forall p { InboundExactly(live, policies, history, w, p); }
    assert Inbound(live, policies, w).1.None? ==> after == before;
  }

  /** Only the SA for a packet is touched, and it is charged for exactly what it lets through. */
  lemma InboundTouches(live: seq<SaView>, policies: seq<PolicyDb.Entry>, w: Wire, i: nat)
    requires Sound(live) && i < |live|
    ensures var s, s' := live[i], Inbound(live, policies, w).0[i];
      if |w.data| < 8 || !FirstFor(live, i, SpiOf(w.data), w.dst) || !s.inbound then s' == s
      else
        var o := Decapsulate(s.aead, s.ctx, w.data);
        s' == s.(ctx := o.ctx,
                 usage := if o.content.None? then s.usage
                          else Update(s.lifetime, s.usage, |o.content.value.0.packet| % 0x1_0000_0000))
  {
    hide Decapsulate, Admits, For, SpiDst, Update;
    if |w.data| >= 8 {
      assert Get32(w.data, 0) == SpiOf(w.data);
      FirstIsFor(live, SpiOf(w.data), w.dst);
      var k := First(live, (s: SaView) => SpiDst(s, Get32(w.data, 0), w.dst));
      if k < |live| && FirstFor(live, i, SpiOf(w.data), w.dst) {
        OnlyOneFor(live, i, k, SpiOf(w.data), w.dst);
      }
    }
  }

  predicate Carries(s: SaView, reqid: uint32) { s.reqid == reqid && !s.inbound && !s.usage.hard }

  /** The first outbound SA in the list for a request id that is not hard-expired. */
  ghost predicate FirstCarrier(live: seq<SaView>, i: nat, reqid: uint32) {
    i < |live| && Carries(live[i], reqid) && forall j | 0 <= j < i :: !Carries(live[j], reqid)
  }

  /** The packet leads to this on the wire: sealed by the SA of the best outbound policy for it, between that SA's hosts. */
  ghost predicate Sends(live: seq<SaView>, history: seq<Policy>, p: IpPacket, w: Wire)
    requires Sound(live)
  {
    exists q: nat, i: nat ::
      && PolicyDb.BestUsable(history, q, p, false, 0) && FirstCarrier(live, i, history[q].reqid)
      && var s := live[i];
      var o := Encapsulate(s.aead, s.ctx, s.spi, p.packet, if p.version == 4 then 4 else 41);
      o.status == SUCCESS && w == Wire(s.src, s.dst, o.data)
  }

  lemma FirstCarries(live: seq<SaView>, reqid: uint32)
    ensures var i := First(live, (s: SaView) => Reqid(s, reqid, false));
      if i < |live| then FirstCarrier(live, i, reqid) else forall j: nat :: !FirstCarrier(live, j, reqid)
  {
    var i := First(live, (s: SaView) => Reqid(s, reqid, false));
    assert forall j | 0 <= j < |live| :: Reqid(live[j], reqid, false) == Carries(live[j], reqid);
  }

  /** The outbound job sends exactly that, and nothing if there is no policy, no SA, no number left, or no IV or cipher text. */
  lemma OutboundExactly(live: seq<SaView>, policies: seq<PolicyDb.Entry>, history: seq<Policy>, p: IpPacket, w: Wire)
    requires Sound(live) && policies == PolicyDb.Arrange(history)
    ensures Outbound(live, policies, p).1 == Some(w) <==> Sends(live, history, p, w)
  {
    hide Encapsulate, PolicyDb.Arrange, PolicyDb.Answers, PolicyDb.PacketQuery, PolicyDb.First, PolicyDb.BestUsable, Carries, Reqid, Update;
    var found := PolicyDb.Lookup(policies, PolicyDb.PacketQuery(p, false, 0));
    PolicyDb.FirstIsBest(history, PolicyDb.PacketQuery(p, false, 0));
    PolicyDb.AnswersUsable(history, p, false, 0, found);
    if found.None? {
      NoneBest(history, p);
    } else {
      var q :| 0 <= q < |history| && PolicyDb.BestUsable(history, q, p, false, 0) && history[q] == found.value;
      forall q': nat | PolicyDb.BestUsable(history, q', p, false, 0) ensures q' == q { OnlyOneBest(history, q, q', p); }
      FirstCarries(live, found.value.reqid);
      var i := First(live, (s: SaView) => Reqid(s, found.value.reqid, false));
      forall j: nat | i < |live| && FirstCarrier(live, j, found.value.reqid) ensures j == i {
        assert j < i ==> false;
      }
    }
  }

  /** What is put on the wire for a packet, behind what was put there before. */
  ghost predicate SendsAll(live: seq<SaView>, history: seq<Policy>, p: IpPacket, before: seq<Wire>, after: seq<Wire>)
    requires Sound(live)
  {
    || (after == before && forall w :: !Sends(live, history, p, w))
    || exists w :: Sends(live, history, p, w) && after == before + [w]
  }

  lemma OutboundSends(live: seq<SaView>, policies: seq<PolicyDb.Entry>, history: seq<Policy>, p: IpPacket,
      before: seq<Wire>, after: seq<Wire>)
    requires Sound(live) && policies == PolicyDb.Arrange(history)
    requires var w := Outbound(live, policies, p).1; after == before + if w.Some? then [w.value] else []
    ensures SendsAll(live, history, p, before, after)
  {
    hide Outbound, Sends, PolicyDb.Arrange;
    forall w { OutboundExactly(live, policies, history, p, w); }
    assert Outbound(live, policies, p).1.None? ==> after == before;
  }

  lemma NoneBest(history: seq<Policy>, p: IpPacket)
    requires forall j | 0 <= j < |history| :: !PolicyDb.Usable(history[j], p, false, 0)
    ensures forall q: nat :: !PolicyDb.BestUsable(history, q, p, false, 0)
  {
    hide PolicyDb.Usable;
  }

  lemma OnlyOneBest(history: seq<Policy>, q: nat, q': nat, p: IpPacket)
    requires PolicyDb.BestUsable(history, q, p, false, 0) && PolicyDb.BestUsable(history, q', p, false, 0)
    ensures q == q'
  {
    hide PolicyDb.Usable, PriorityOf;
  }

  // ------------------------------------------------------------------ the jobs

  method DecryptWith(m: SaMgr, i: nat, packet: EspPacket) returns (status: Status)
    requires m.Valid() && i < |m.sas| && packet !in AllParts(m.sas)
    modifies packet, m.sas[i].ctx, m.sas[i].ctx.window
    ensures m.Valid() && packet.data == old(packet.data)
    ensures var s := old(m.sas[i].Full());
      var o := Decapsulate(s.aead, s.ctx, packet.data);
      && status == o.status && Views(m.sas) == old(Views(m.sas))[i := s.(ctx := o.ctx)]
      && packet.payload == (if o.content.Some? then Some(o.content.value.0) else None)
      && (o.content.Some? ==> packet.nextHeader == o.content.value.1)
  {
    var sa := m.sas[i];
    assert sa in m.sas && sa.ctx in Parts(sa) && sa.ctx.window in Parts(sa);
    status := packet.Decrypt(sa.ctx);
  }

  method EncryptWith(m: SaMgr, i: nat, packet: EspPacket) returns (status: Status)
    requires m.Valid() && i < |m.sas| && packet !in AllParts(m.sas)
    modifies packet, m.sas[i].ctx
    ensures m.Valid()
    ensures var s := old(m.sas[i].Full());
      var o := Encapsulate(s.aead, s.ctx, s.spi, PayloadBytes(old(packet.payload)), old(packet.nextHeader));
      && status == o.status && Views(m.sas) == old(Views(m.sas))[i := s.(ctx := o.ctx)] && packet.data == o.data
  {
    var sa := m.sas[i];
    assert sa in m.sas && sa.ctx in Parts(sa) && sa.ctx.window in Parts(sa);
    status := packet.Encrypt(sa.ctx, sa.spi);
  }

  method CountUse(m: SaMgr, i: nat, size: uint32)
    requires m.Valid() && i < |m.sas|
    modifies m.sas[i]
    ensures m.Valid()
    ensures var s := old(m.sas[i].Full());
      Views(m.sas) == old(Views(m.sas))[i := s.(usage := Update(s.lifetime, s.usage, size))]
  {
    var sa := m.sas[i];
    assert sa in m.sas && sa in Parts(sa);
    sa.UpdateUsestats(size);
  }

  lemma ViewsSound(m: SaMgr)
    requires m.Valid()
    ensures Sound(Views(m.sas)) && |Views(m.sas)| == |m.sas| && forall i | 0 <= i < |m.sas| :: Views(m.sas)[i] == m.sas[i].Full()
  {
  }

  method InboundAt(m: SaMgr, i: nat, data: seq<byte>) returns (content: Option<(IpPacket, byte)>)
    requires m.Valid() && i < |m.sas|
    modifies Parts(m.sas[i])
    ensures m.Valid() && old(m.sas[i].Full()).aead.blockSize > 0
    ensures var (s, c) := InboundSa(old(m.sas[i].Full()), data);
      Views(m.sas) == old(Views(m.sas))[i := s] && content == c
  {
    hide Decapsulate, Update, Apart, Views, SaOk;
    ViewsSound(m);
    ghost var before := Views(m.sas);
    if !m.sas[i].inbound {
      return None;
    }
    var packet := new EspPacket.FromPacket(data);
    var status := DecryptWith(m, i, packet);
    ViewsSound(m);
    if status != SUCCESS {
      return None;
    }
    var ip := packet.payload.value;
    content := Some((ip, packet.nextHeader));
    ghost var between := Views(m.sas);
    CountUse(m, i, |ip.packet| % 0x1_0000_0000);
    assert Views(m.sas) == between[i := Views(m.sas)[i]] == before[i := Views(m.sas)[i]];
  }

  method ReceiveFrom(m: SaMgr, w: Wire) returns (r: Option<(uint32, IpPacket, byte)>)
    requires m.Valid()
    modifies AllParts(m.sas)
    ensures m.Valid() && Sound(old(Views(m.sas))) && (Views(m.sas), r) == InboundSas(old(Views(m.sas)), w)
  {
    hide InboundSa, Views, Get32, Apart, SaOk;
    ViewsSound(m);
    if |w.data| < 8 {
      return None;
    }
    var i := m.FindBySpi(Get32(w.data, 0), w.dst);
    if i == |m.sas| {
      return None;
    }
    var sa := m.sas[i];
    assert sa in m.sas && Parts(sa) <= AllParts(m.sas);
    ViewsSound(m);
    var content := InboundAt(m, i, w.data);
    r := if content.Some? then Some((sa.reqid, content.value.0, content.value.1)) else None;
  }

  method OutboundAt(m: SaMgr, i: nat, p: IpPacket) returns (w: Option<Wire>)
    requires m.Valid() && i < |m.sas|
    modifies Parts(m.sas[i])
    ensures m.Valid() && old(m.sas[i].Full()).aead.blockSize > 0
    ensures var (s, o) := OutboundSa(old(m.sas[i].Full()), p);
      Views(m.sas) == old(Views(m.sas))[i := s] && w == o
  {
    hide Encapsulate, Update, Apart, Views, SaOk;
    ViewsSound(m);
    ghost var before := Views(m.sas);
    var src, dst := m.sas[i].src, m.sas[i].dst;
    var packet := new EspPacket.FromPayload(Some(p));
    var status := EncryptWith(m, i, packet);
    ViewsSound(m);
    if status != SUCCESS {
      return None;
    }
    w := Some(Wire(src, dst, packet.data));
    ghost var between := Views(m.sas);
    CountUse(m, i, |p.packet| % 0x1_0000_0000);
    assert Views(m.sas) == between[i := Views(m.sas)[i]] == before[i := Views(m.sas)[i]];
  }

  method SendFrom(m: SaMgr, reqid: uint32, p: IpPacket) returns (w: Option<Wire>)
    requires m.Valid()
    modifies AllParts(m.sas)
    ensures m.Valid() && Sound(old(Views(m.sas))) && (Views(m.sas), w) == OutboundSas(old(Views(m.sas)), reqid, p)
  {
    hide OutboundSa, Views, Apart, SaOk;
    ViewsSound(m);
    var i := m.FindByReqid(reqid, false);
    if i == |m.sas| {
      return None;
    }
    var sa := m.sas[i];
    assert sa in m.sas && Parts(sa) <= AllParts(m.sas);
    ViewsSound(m);
    w := OutboundAt(m, i, p);
  }

  /** The policy check on a decapsulated packet. */
  method Admit(db: PolicyDb.PolicyMgr, reqid: uint32, ip: IpPacket, nextHeader: byte) returns (ok: bool)
    requires db.Valid()
    ensures ok == Admits(db.policies, reqid, ip, nextHeader)
  {
    hide PolicyDb.Lookup, PolicyDb.PacketQuery, PolicyDb.Answers, PolicyDb.Arrange;
    ok := false;
    if nextHeader == PROTO_IPIP || nextHeader == PROTO_IPV6 {
      var policy := db.FindByPacket(ip, true, reqid);
      ok := policy.Some?;
    }
  }

  /** The inbound job between taking a packet off the queue and delivering it. */
  method ReceiveAdmitted(m: SaMgr, db: PolicyDb.PolicyMgr, w: Wire) returns (got: Option<IpPacket>)
    requires m.Valid() && db.Valid() && db !in AllParts(m.sas)
    modifies AllParts(m.sas)
    ensures m.Valid() && Sound(old(Views(m.sas))) && (Views(m.sas), got) == Inbound(old(Views(m.sas)), db.policies, w)
  {
    hide InboundSas, Admits, Views, Apart, SaOk, PolicyDb.Arrange;
    var r := ReceiveFrom(m, w);
    got := None;
    if r.Some? {
      var (reqid, ip, nextHeader) := r.value;
      var ok := Admit(db, reqid, ip, nextHeader);
      got := if ok then Some(ip) else None;
    }
  }

  /** The outbound job between taking a packet off the queue and sending it. */
  method SendMatched(m: SaMgr, db: PolicyDb.PolicyMgr, p: IpPacket) returns (w: Option<Wire>)
    requires m.Valid() && db.Valid() && db !in AllParts(m.sas)
    modifies AllParts(m.sas)
    ensures m.Valid() && Sound(old(Views(m.sas))) && (Views(m.sas), w) == Outbound(old(Views(m.sas)), db.policies, p)
  {
    hide OutboundSas, Views, Apart, SaOk, PolicyDb.Arrange, PolicyDb.Lookup, PolicyDb.PacketQuery, PolicyDb.Answers;
    ViewsSound(m);
    var policy := db.FindByPacket(p, false, 0);
    w := None;
    if policy.Some? {
      w := SendFrom(m, policy.value.reqid, p);
    }
  }

  class Processor {
    const sas: SaMgr
    const policies: PolicyDb.PolicyMgr
    var inboundQueue: seq<Wire>
    var outboundQueue: seq<IpPacket>
    /** What the registered callbacks were given. */
    var delivered: seq<IpPacket>
    var sent: seq<Wire>

    ghost predicate Valid()
      reads this, sas, policies, AllParts(sas.sas)
    {
      sas.Valid() && policies.Valid() && this !in AllParts(sas.sas) && policies !in AllParts(sas.sas)
    }

    ghost function Live(): seq<SaView>
      reads sas, AllParts(sas.sas)
    {
      Views(sas.sas)
    }

    constructor (sas: SaMgr, policies: PolicyDb.PolicyMgr)
      requires sas.Valid() && policies.Valid() && policies !in AllParts(sas.sas)
      ensures Valid() && this.sas == sas && this.policies == policies
      ensures inboundQueue == [] && outboundQueue == [] && delivered == [] && sent == []
    {
      this.sas, this.policies := sas, policies;
      inboundQueue, outboundQueue, delivered, sent := [], [], [], [];
    }

    method ProcessInbound()
      requires Valid() && inboundQueue != []
      modifies this, AllParts(sas.sas)
      ensures Valid() && inboundQueue == old(inboundQueue)[1..] && sent == old(sent) && outboundQueue == old(outboundQueue)
      ensures Sound(old(Live())) && policies.policies == old(policies.policies)
      ensures var (live, got) := Inbound(old(Live()), policies.policies, old(inboundQueue[0]));
        Live() == live && delivered == old(delivered) + (if got.Some? then [got.value] else [])
      ensures DeliversAll(old(Live()), policies.history, old(inboundQueue[0]), old(delivered), delivered)
    {
      hide Inbound, Views, Apart, SaOk, PolicyDb.Arrange, DeliversAll;
      var w := inboundQueue[0];
      inboundQueue := inboundQueue[1..];
      var got := ReceiveAdmitted(sas, policies, w);
      if got.Some? {
        delivered := delivered + [got.value];
      }
      InboundDelivers(old(Live()), policies.policies, policies.history, w, old(delivered), delivered);
    }

    method ProcessOutbound()
      requires Valid() && outboundQueue != []
      modifies this, AllParts(sas.sas)
      ensures Valid() && outboundQueue == old(outboundQueue)[1..] && delivered == old(delivered) && inboundQueue == old(inboundQueue)
      ensures Sound(old(Live())) && policies.policies == old(policies.policies)
      ensures var (live, w) := Outbound(old(Live()), policies.policies, old(outboundQueue[0]));
        Live() == live && sent == old(sent) + (if w.Some? then [w.value] else [])
      ensures SendsAll(old(Live()), policies.history, old(outboundQueue[0]), old(sent), sent)
    {
      hide Outbound, Views, Apart, SaOk, PolicyDb.Arrange, SendsAll;
      var p := outboundQueue[0];
      outboundQueue := outboundQueue[1..];
      var w := SendMatched(sas, policies, p);
      if w.Some? {
        sent := sent + [w.value];
      }
      OutboundSends(old(Live()), policies.policies, policies.history, p, old(sent), sent);
    }
  }
}
