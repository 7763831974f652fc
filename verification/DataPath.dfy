/**
 * One outbound and one inbound SA joined by a network that may lose, repeat,
 * reorder and make up packets.  The two jobs of the processor run at the ends;
 * the AEAD only opens what the sender sealed.
 */
module DataPath {
  import opened Chunk
  import opened Crypto
  import opened EspContext
  import opened IpPacket
  import opened EspPacket
  import opened IpsecSa
  import opened IpsecSaMgr
  import opened IpsecPolicy
  import opened IpsecProcessor
  import PolicyDb = IpsecPolicyMgr

  /** A packet given to the sender, and what it put on the wire for it. */
  datatype Sent = Sent(packet: IpPacket, wire: Wire)

  /** A packet handed up by the receiver, with the sequence number it came under. */
  datatype Delivered = Delivered(packet: IpPacket, seqno: uint32)

  datatype Path = Path(outSa: SaView, inSa: SaView, sent: seq<Sent>, delivered: seq<Delivered>)

  /** Policies may change between steps; so may what else an SA carries, through expiry and address updates. */
  datatype Event =
    | Send(bytes: seq<byte>, policies: seq<PolicyDb.Entry>)
    | Arrive(wire: Wire, policies: seq<PolicyDb.Entry>)
    | Touch(outSa: SaView, inSa: SaView)

  /** A packet is authentic if the AEAD refuses it or the sender made it. */
  ghost predicate Authentic(p: Path, data: seq<byte>) {
    p.inSa.aead.blockSize > 0 && Readable(p.inSa.aead, data) && Open(p.inSa.aead, data).Some? ==>
      exists k :: 0 <= k < |p.sent| && p.sent[k].wire.data == data
  }

  ghost predicate SameSa(s: SaView, s': SaView) {
    s'.spi == s.spi && s'.inbound == s.inbound && s'.aead == s.aead && s'.ctx == s.ctx
  }

  ghost predicate Enabled(p: Path, e: Event) {
    && p.outSa.aead.blockSize > 0 && p.inSa.aead.blockSize > 0
    && match e
    case Send(bytes, _) => Parse(bytes).Some?
    case Arrive(w, _) => Authentic(p, w.data)
    case Touch(o, i) => SameSa(p.outSa, o) && SameSa(p.inSa, i)
  }

  ghost predicate Good(p: Path) {
    && p.outSa.aead == p.inSa.aead && p.outSa.aead.Works()
    && !p.outSa.inbound && p.inSa.inbound && !p.outSa.ctx.inbound && p.inSa.ctx.inbound
  }

  ghost function Apply(p: Path, e: Event): Path
    requires Enabled(p, e)
  {
    match e
    case Send(bytes, policies) =>
      var packet := Parse(bytes).value;
      var (live, w) := Outbound([p.outSa], policies, packet);
      p.(outSa := live[0], sent := p.sent + (if w.Some? then [Sent(packet, w.value)] else []))
    case Arrive(w, policies) =>
      var (live, got) := Inbound([p.inSa], policies, w);
      p.(inSa := live[0],
         delivered := p.delivered + (if got.Some? then [Delivered(got.value, SeqnoOf(w.data))] else []))
    case Touch(o, i) => p.(outSa := o, inSa := i)
  }

  ghost predicate Init(p: Path) {
    Good(p) && p.outSa.ctx == NewCtx(false) && p.inSa.ctx == NewCtx(true) && p.sent == [] && p.delivered == []
  }

  ghost predicate Run(paths: seq<Path>, events: seq<Event>) {
    && |paths| == |events| + 1 && Init(paths[0])
    && forall i | 0 <= i < |events| ::
         Enabled(paths[i], events[i]) && paths[i + 1] == Apply(paths[i], events[i])
  }

  // ---------------------------------------------------------------- invariant

  /** What was put on the wire for a packet. */
  ghost predicate SentOk(aead: Aead, spi: uint32, s: Sent, seqno: uint32)
    requires aead.blockSize > 0
  {
    && (exists bytes :: Parse(bytes) == Some(s.packet))
    && Seal(aead, spi, seqno, s.packet.packet, NextHeaderFor(Some(s.packet))) == (SUCCESS, s.wire.data)
  }

  ghost predicate SenderOk(p: Path)
    requires p.outSa.aead.blockSize > 0
  {
    && (forall k | 0 <= k < |p.sent| ::
          && |p.sent[k].wire.data| >= 8
          && 1 <= SeqnoOf(p.sent[k].wire.data) <= p.outSa.ctx.last
          && SentOk(p.outSa.aead, p.outSa.spi, p.sent[k], SeqnoOf(p.sent[k].wire.data)))
    && (forall j, k | 0 <= j < k < |p.sent| :: SeqnoOf(p.sent[j].wire.data) < SeqnoOf(p.sent[k].wire.data))
  }

  ghost predicate ReceiverOk(p: Path) {
    && (forall i | 0 <= i < |p.delivered| :: p.delivered[i].seqno in p.inSa.ctx.accepted)
    && (forall i, j | 0 <= i < j < |p.delivered| :: p.delivered[i].seqno != p.delivered[j].seqno)
  }

  /**
   * What a packet sent is delivered as: itself, if it is clean under the AEAD, as all
   * packets are up to a block size of 253; else what parses from it and the padding kept.
   */
  ghost predicate Carried(aead: Aead, sent: IpPacket, got: IpPacket) {
    && aead.blockSize > 0
    && Parse(sent.packet + Kept(PadSize(|sent.packet|, aead.blockSize, aead.ivSize))) == Some(got)
    && (Clean(sent.packet, aead.blockSize, aead.ivSize) ==> got == sent)
  }

  ghost predicate Comes(p: Path, d: Delivered) {
    exists k :: 0 <= k < |p.sent| && |p.sent[k].wire.data| >= 8
             && SeqnoOf(p.sent[k].wire.data) == d.seqno && Carried(p.outSa.aead, p.sent[k].packet, d.packet)
  }

  /** The window was moved only by numbers of packets sent, so it is never ahead of the sender. */
  ghost predicate WindowOk(p: Path) {
    && p.inSa.ctx.last <= p.outSa.ctx.last
    && forall n | n in p.inSa.ctx.accepted :: Numbered(p.sent, n)
  }

  ghost predicate Numbered(sent: seq<Sent>, n: uint32) {
    exists k :: 0 <= k < |sent| && |sent[k].wire.data| >= 8 && SeqnoOf(sent[k].wire.data) == n
  }

  ghost predicate Inv(p: Path) {
    Good(p) && SenderOk(p) && ReceiverOk(p) && WindowOk(p) && forall i | 0 <= i < |p.delivered| :: Comes(p, p.delivered[i])
  }

  /** What sending does to the SA: at most the next number is used, and it is the one on the wire. */
  lemma SendOne(s: SaView, p: IpPacket)
    requires s.aead.Works() && !s.ctx.inbound
    ensures var (s', w) := OutboundSa(s, p);
      && s'.spi == s.spi && s'.inbound == s.inbound && s'.aead == s.aead && !s'.ctx.inbound && s'.ctx.last >= s.ctx.last
      && (w.Some? ==>
            && |w.value.data| >= 8 && SeqnoOf(w.value.data) == s'.ctx.last == s.ctx.last + 1
            && Seal(s.aead, s.spi, s'.ctx.last, p.packet, NextHeaderFor(Some(p))) == (SUCCESS, w.value.data))
  {
    hide Seal, SeqnoOf, Update;
    var next := s.ctx.Next();
    if next.Some? && Seal(s.aead, s.spi, next.value, p.packet, NextHeaderFor(Some(p))).0 == SUCCESS {
      SealedFields(s.aead, s.spi, next.value, p.packet, NextHeaderFor(Some(p)));
    }
  }

  /** What receiving does to the SA: content only comes out under a number that was still fresh. */
  lemma ReceiveOne(s: SaView, data: seq<byte>)
    requires s.aead.blockSize > 0 && s.inbound && s.ctx.inbound
    ensures var (s', content) := InboundSa(s, data);
      && s'.spi == s.spi && s'.inbound == s.inbound && s'.aead == s.aead && s'.ctx.inbound
      && s.ctx.accepted <= s'.ctx.accepted
      && (s'.ctx != s.ctx ==>
            && |data| >= 8 && s'.ctx == s.ctx.Accept(SeqnoOf(data))
            && Readable(s.aead, data) && Open(s.aead, data).Some?)
      && (content.Some? ==>
            && |data| >= 8 && SeqnoOf(data) !in s.ctx.accepted && SeqnoOf(data) in s'.ctx.accepted
            && Readable(s.aead, data) && Open(s.aead, data).Some?
            && s.ctx.Verifies(SeqnoOf(data)) && Decapsulate(s.aead, s.ctx, data).content == content)
  {
    hide Unpad, SeqnoOf, Update, Open;
  }

  lemma ComesMore(p: Path, p': Path, d: Delivered)
    requires Comes(p, d) && p.sent <= p'.sent && p'.outSa.aead == p.outSa.aead
    ensures Comes(p', d)
  {
    hide Carried, SeqnoOf;
    var k :| 0 <= k < |p.sent| && |p.sent[k].wire.data| >= 8
             && SeqnoOf(p.sent[k].wire.data) == d.seqno && Carried(p.outSa.aead, p.sent[k].packet, d.packet);
    assert p'.sent[k] == p.sent[k];
  }

  /** The state after a send: nothing happened, or the SA sent the packet. */
  lemma SendShape(p: Path, bytes: seq<byte>, policies: seq<PolicyDb.Entry>)
    requires Good(p) && Enabled(p, Send(bytes, policies))
    ensures var packet := Parse(bytes).value;
      var p' := Apply(p, Send(bytes, policies));
      var (s, w) := OutboundSa(p.outSa, packet);
      || p' == p
      || p' == p.(outSa := s, sent := p.sent + (if w.Some? then [Sent(packet, w.value)] else []))
  {
    hide OutboundSa, Parse, PolicyDb.Lookup, PolicyDb.PacketQuery;
  }

  lemma SendKeeps(p: Path, bytes: seq<byte>, policies: seq<PolicyDb.Entry>)
    requires Inv(p) && Enabled(p, Send(bytes, policies))
    ensures Inv(Apply(p, Send(bytes, policies)))
  {
    hide OutboundSa, Seal, SeqnoOf, Parse, Apply, Comes, Clean, Numbered;
    SendOne(p.outSa, Parse(bytes).value);
    SendShape(p, bytes, policies);
    var p' := Apply(p, Send(bytes, policies));
    forall i | 0 <= i < |p.delivered| { ComesMore(p, p', p.delivered[i]); }
    forall n | n in p.inSa.ctx.accepted { NumberedMore(p.sent, p'.sent, n); }
  }

  lemma NumberedMore(sent: seq<Sent>, sent': seq<Sent>, n: uint32)
    requires Numbered(sent, n) && sent <= sent'
    ensures Numbered(sent', n)
  {
    hide SeqnoOf;
    var k :| 0 <= k < |sent| && |sent[k].wire.data| >= 8 && SeqnoOf(sent[k].wire.data) == n;
    assert sent'[k] == sent[k];
  }

  lemma ArriveShape(p: Path, w: Wire, policies: seq<PolicyDb.Entry>)
    requires Good(p) && Authentic(p, w.data)
    ensures var p' := Apply(p, Arrive(w, policies));
      var (s, content) := InboundSa(p.inSa, w.data);
      || p' == p
      || p' == p.(inSa := s)
      || (content.Some? && |w.data| >= 8 &&
          p' == p.(inSa := s, delivered := p.delivered + [Delivered(content.value.0, SeqnoOf(w.data))]))
  {
    hide InboundSa, Admits, SeqnoOf, Get32;
  }

  /** Content that comes out is the packet that was sent under that number. */
  lemma ContentWasSent(p: Path, data: seq<byte>)
    requires Inv(p) && Authentic(p, data) && InboundSa(p.inSa, data).1.Some?
    ensures |data| >= 8 && Comes(p, Delivered(InboundSa(p.inSa, data).1.value.0, SeqnoOf(data)))
  {
    hide InboundSa, Decapsulate, Seal, SeqnoOf, Parse, Open, Clean, Blocks, ReceiverOk, Kept, PadSize;
    ReceiveOne(p.inSa, data);
    var k :| 0 <= k < |p.sent| && p.sent[k].wire.data == data;
    var s, seqno := p.sent[k], SeqnoOf(data);
    assert SentOk(p.outSa.aead, p.outSa.spi, s, seqno);
    var bytes :| Parse(bytes) == Some(s.packet);
    RoundTrip(p.inSa.aead, p.inSa.ctx, p.outSa.spi, seqno, s.packet.packet, NextHeaderFor(Some(s.packet)));
    if Clean(s.packet.packet, p.inSa.aead.blockSize, p.inSa.aead.ivSize) {
      PacketRoundTrip(p.inSa.aead, p.inSa.ctx, p.outSa.spi, seqno, bytes);
    }
  }

  /** Only a packet that was sent moves the window, and no further than the sender is. */
  lemma WindowMoves(p: Path, data: seq<byte>)
    requires Inv(p) && Authentic(p, data)
    ensures WindowOk(p.(inSa := InboundSa(p.inSa, data).0))
  {
    hide InboundSa, SeqnoOf, Comes, ReceiverOk, Readable, Open, Decapsulate, SentOk;
    ReceiveOne(p.inSa, data);
    if InboundSa(p.inSa, data).0.ctx != p.inSa.ctx {
      var k :| 0 <= k < |p.sent| && p.sent[k].wire.data == data;
      assert Numbered(p.sent, SeqnoOf(data));
    }
  }

  lemma ArriveKeeps(p: Path, w: Wire, policies: seq<PolicyDb.Entry>)
    requires Inv(p) && Authentic(p, w.data)
    ensures Inv(Apply(p, Arrive(w, policies)))
  {
    hide InboundSa, Apply, SeqnoOf, Comes, SenderOk, Readable, Open, Decapsulate, Numbered;
    ReceiveOne(p.inSa, w.data);
    ArriveShape(p, w, policies);
    WindowMoves(p, w.data);
    if InboundSa(p.inSa, w.data).1.Some? {
      ContentWasSent(p, w.data);
    }
    var p' := Apply(p, Arrive(w, policies));
    SenderSame(p, p');
    forall i | 0 <= i < |p'.delivered| {
      ComesSame(p, p', p'.delivered[i]);
    }
  }

  lemma SenderSame(p: Path, p': Path)
    requires p.outSa.aead.blockSize > 0 && p'.outSa == p.outSa && p'.sent == p.sent
    ensures p'.outSa.aead.blockSize > 0 && (SenderOk(p) ==> SenderOk(p'))
  {
  }

  lemma ComesSame(p: Path, p': Path, d: Delivered)
    requires p'.sent == p.sent && p'.outSa.aead == p.outSa.aead
    ensures Comes(p, d) ==> Comes(p', d)
  {
  }

  lemma StepKeeps(p: Path, e: Event)
    requires Inv(p) && Enabled(p, e)
    ensures Inv(Apply(p, e))
  {
    match e
    case Send(bytes, policies) => SendKeeps(p, bytes, policies);
    case Arrive(w, policies) => ArriveKeeps(p, w, policies);
    case Touch(o, i) => TouchKeeps(p, o, i);
  }

  lemma TouchKeeps(p: Path, o: SaView, i: SaView)
    requires Inv(p) && SameSa(p.outSa, o) && SameSa(p.inSa, i)
    ensures Inv(p.(outSa := o, inSa := i))
  {
    hide SentOk, SeqnoOf, Comes;
    var p' := p.(outSa := o, inSa := i);
    forall k | 0 <= k < |p'.delivered| { ComesSame(p, p', p'.delivered[k]); }
  }

  lemma {:induction false} RunKeeps(paths: seq<Path>, events: seq<Event>, n: nat)
    requires Run(paths, events) && n < |paths|
    ensures Inv(paths[n])
  {
    if n > 0 {
      RunKeeps(paths, events, n - 1);
      hide Inv, Apply;
      assert Enabled(paths[n - 1], events[n - 1]) && paths[n] == Apply(paths[n - 1], events[n - 1]);
      StepKeeps(paths[n - 1], events[n - 1]);
    }
  }

  /**
   * In every state of every run, whatever the network made up: every number the window
   * holds is that of a packet sent, and the window is not ahead of the sender.
   */
  lemma WindowFollowsSender(paths: seq<Path>, events: seq<Event>, n: nat)
    requires Run(paths, events) && n < |paths|
    ensures var p := paths[n];
      && p.inSa.ctx.last <= p.outSa.ctx.last
      && forall s | s in p.inSa.ctx.accepted ::
           exists k :: 0 <= k < |p.sent| && |p.sent[k].wire.data| >= 8 && SeqnoOf(p.sent[k].wire.data) == s
  {
    hide Run, SenderOk, ReceiverOk, Good, Comes, SeqnoOf;
    RunKeeps(paths, events, n);
    var p := paths[n];
    forall s | s in p.inSa.ctx.accepted
      ensures exists k :: 0 <= k < |p.sent| && |p.sent[k].wire.data| >= 8 && SeqnoOf(p.sent[k].wire.data) == s
    {
      assert Numbered(p.sent, s);
    }
  }

  /** So forged packets never shut out a genuine one: among the last 128 sent, all not yet accepted verify. */
  lemma RecentVerifies(p: Path, k: nat)
    requires Inv(p) && k < |p.sent| && SeqnoOf(p.sent[k].wire.data) + WINDOW_SIZE > p.outSa.ctx.last
    requires SeqnoOf(p.sent[k].wire.data) !in p.inSa.ctx.accepted
    ensures p.inSa.ctx.Verifies(SeqnoOf(p.sent[k].wire.data))
  {
    hide Comes, SeqnoOf, SentOk;
  }

  /** Delivery i stems from send origin[i], and no send is the origin of two deliveries. */
  ghost predicate AtMostOnce(p: Path, origin: seq<nat>) {
    && |origin| == |p.delivered|
    && (forall i | 0 <= i < |origin| ::
          origin[i] < |p.sent| && Carried(p.outSa.aead, p.sent[origin[i]].packet, p.delivered[i].packet))
    && (forall i, j | 0 <= i < j < |origin| :: origin[i] != origin[j])
  }

  ghost predicate From(p: Path, i: nat, k: nat)
    requires i < |p.delivered|
  {
    && k < |p.sent| && |p.sent[k].wire.data| >= 8 && SeqnoOf(p.sent[k].wire.data) == p.delivered[i].seqno
    && Carried(p.outSa.aead, p.sent[k].packet, p.delivered[i].packet)
  }

  lemma Origins(p: Path, n: nat) returns (origin: seq<nat>)
    requires Inv(p) && n <= |p.delivered|
    ensures |origin| == n && forall i | 0 <= i < n :: From(p, i, origin[i])
  {
    hide SenderOk, ReceiverOk, Good, SeqnoOf, Carried;
    if n == 0 {
      origin := [];
    } else {
      var o := Origins(p, n - 1);
      var k := OriginOf(p, n - 1);
      origin := o + [k];
    }
  }

  lemma OriginOf(p: Path, i: nat) returns (k: nat)
    requires i < |p.delivered| && Comes(p, p.delivered[i])
    ensures From(p, i, k)
  {
    hide SeqnoOf, Carried;
    var d := p.delivered[i];
    k :| 0 <= k < |p.sent| && |p.sent[k].wire.data| >= 8
         && SeqnoOf(p.sent[k].wire.data) == d.seqno && Carried(p.outSa.aead, p.sent[k].packet, d.packet);
  }

  /**
   * At every point of every run, for every AEAD: each packet sent is delivered at most
   * once, and everything delivered is a packet that was sent, unchanged if it was clean.
   */
  lemma DeliveredAtMostOnce(paths: seq<Path>, events: seq<Event>, n: nat)
    requires Run(paths, events) && n < |paths|
    ensures exists origin :: AtMostOnce(paths[n], origin)
  {
    hide SenderOk, Good, SeqnoOf, Carried, Run, Comes;
    RunKeeps(paths, events, n);
    var p := paths[n];
    var origin := Origins(p, |p.delivered|);
    assert AtMostOnce(p, origin);
  }

  /** Under block sizes up to 253, delivered means unchanged. */
  lemma DeliveredUnchanged(p: Path, origin: seq<nat>, i: nat)
    requires AtMostOnce(p, origin) && i < |origin| && p.outSa.aead.blockSize <= 253
    ensures origin[i] < |p.sent| && p.delivered[i].packet == p.sent[origin[i]].packet
  {
    hide Clean, Parse;
    AlwaysClean(p.sent[origin[i]].packet.packet, p.outSa.aead.blockSize, p.outSa.aead.ivSize);
  }

  /** A packet that arrives under a number still in the window and passes the policy check is delivered. */
  lemma FreshIsDelivered(p: Path, k: nat, dst: Host, policies: seq<PolicyDb.Entry>)
    requires Inv(p) && k < |p.sent|
    requires var packet := p.sent[k].packet;
      && !(packet.version == 4 && |packet.packet| < 20)
      && Blocks(|packet.packet|, p.inSa.aead.blockSize, p.inSa.aead.ivSize)
      && Clean(packet.packet, p.inSa.aead.blockSize, p.inSa.aead.ivSize)
      && p.inSa.ctx.Verifies(SeqnoOf(p.sent[k].wire.data))
      && p.inSa.spi == p.outSa.spi && SpiDst(p.inSa, p.inSa.spi, dst)
      && Admits(policies, p.inSa.reqid, packet, NextHeaderFor(Some(packet)))
    ensures var w := Wire(p.sent[k].wire.src, dst, p.sent[k].wire.data);
      Apply(p, Arrive(w, policies)).delivered ==
      p.delivered + [Delivered(p.sent[k].packet, SeqnoOf(p.sent[k].wire.data))]
  {
    hide Decapsulate, Seal, Parse, Clean, Blocks, ReceiverOk, Comes, Admits, Update, Open;
    var s := p.sent[k];
    var data := s.wire.data;
    var seqno := SeqnoOf(data);
    assert SentOk(p.outSa.aead, p.outSa.spi, s, seqno);
    var bytes :| Parse(bytes) == Some(s.packet);
    PacketRoundTrip(p.inSa.aead, p.inSa.ctx, p.outSa.spi, seqno, bytes);
    SealedFields(p.inSa.aead, p.outSa.spi, seqno, s.packet.packet, NextHeaderFor(Some(s.packet)));
  }

  /** A packet given to the sender goes out, if its policy leads to the SA, a number is left and it can be sealed. */
  lemma SendIsSent(p: Path, bytes: seq<byte>, policies: seq<PolicyDb.Entry>, history: seq<Policy>, q: nat)
    requires Inv(p) && Parse(bytes).Some? && policies == PolicyDb.Arrange(history)
    requires PolicyDb.BestUsable(history, q, Parse(bytes).value, false, 0)
    requires Carries(p.outSa, history[q].reqid) && p.outSa.ctx.last < 0xffff_ffff
    requires var packet := Parse(bytes).value;
      Seal(p.outSa.aead, p.outSa.spi, p.outSa.ctx.last + 1, packet.packet, if packet.version == 4 then 4 else 41).0 == SUCCESS
    ensures var packet := Parse(bytes).value;
      var data := Seal(p.outSa.aead, p.outSa.spi, p.outSa.ctx.last + 1, packet.packet, if packet.version == 4 then 4 else 41).1;
      Apply(p, Send(bytes, policies)).sent == p.sent + [Sent(packet, Wire(p.outSa.src, p.outSa.dst, data))]
  {
    hide Seal, Parse, PolicyDb.Arrange, PolicyDb.Usable, PriorityOf, Outbound, SenderOk, ReceiverOk, WindowOk, Comes, Carries;
    var packet := Parse(bytes).value;
    var data := Seal(p.outSa.aead, p.outSa.spi, p.outSa.ctx.last + 1, packet.packet, if packet.version == 4 then 4 else 41).1;
    var w := Wire(p.outSa.src, p.outSa.dst, data);
    assert FirstCarrier([p.outSa], 0, history[q].reqid);
    assert Sends([p.outSa], history, packet, w);
    OutboundExactly([p.outSa], policies, history, packet, w);
  }
}
