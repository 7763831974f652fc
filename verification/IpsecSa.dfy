/** One IPsec SA: usage counters, lifetimes and the expiry events they raise. */
module IpsecSa {
  import opened Chunk
  import opened Crypto
  import opened EspContext
  import opened IpPacket

  type uint64 = x: int | 0 <= x < 0x1_0000_0000_0000_0000

  /** Zero means unlimited. */
  datatype Limit = Limit(life: uint64, rekey: uint64)
  datatype Lifetime = Lifetime(time: Limit, bytes: Limit, packets: Limit)

  datatype Event = SoftExpired | HardExpired

  /** What changes with use, and the events raised so far. */
  datatype Usage = Usage(packets: uint64, bytes: uint64, soft: bool, hard: bool, events: seq<Event>)

  const NEW_USAGE := Usage(0, 0, false, false, [])

  function Expire(u: Usage, hard: bool): Usage {
    if hard then
      if u.hard then u else u.(hard := true, events := u.events + [HardExpired])
    else
      if u.hard || u.soft then u else u.(soft := true, events := u.events + [SoftExpired])
  }

  /** A limit that is set and has been reached. */
  predicate Reached(value: uint64, limit: uint64) { limit != 0 && value >= limit }

  predicate HardReached(l: Lifetime, u: Usage) {
    Reached(u.packets, l.packets.life) || Reached(u.bytes, l.bytes.life)
  }

  predicate SoftReached(l: Lifetime, u: Usage) {
    Reached(u.packets, l.packets.rekey) || Reached(u.bytes, l.bytes.rekey)
  }

  function Counted(u: Usage, bytes: uint32): Usage {
    u.(packets := (u.packets + 1) % 0x1_0000_0000_0000_0000, bytes := (u.bytes + bytes) % 0x1_0000_0000_0000_0000)
  }

  function Update(l: Lifetime, u: Usage, bytes: uint32): Usage {
    var c := Counted(u, bytes);
    if HardReached(l, c) then Expire(c, true) else if SoftReached(l, c) then Expire(c, false) else c
  }

  /** Everything about an SA as one value. */
  datatype SaView = SaView(
    spi: uint32, src: Host, dst: Host, reqid: uint32, inbound: bool, lifetime: Lifetime, aead: Aead,
    usage: Usage, ctx: Ctx)

  class IpsecSa {
    const spi: uint32
    const reqid: uint32
    const inbound: bool
    const lifetime: Lifetime
    const ctx: EspContext
    var src: Host
    var dst: Host
    var packets: uint64
    var bytes: uint64
    var softExpired: bool
    var hardExpired: bool
    /** What was reported to the event relay for this SA. */
    var events: seq<Event>

    function View(): Usage
      reads this
    {
      Usage(packets, bytes, softExpired, hardExpired, events)
    }

    ghost function Full(): SaView
      reads this, ctx
    {
      SaView(spi, src, dst, reqid, inbound, lifetime, ctx.aead, View(), ctx.View())
    }

    constructor (spi: uint32, src: Host, dst: Host, reqid: uint32, lifetime: Lifetime, inbound: bool, aead: Aead)
      ensures ctx.Valid() && fresh(ctx) && fresh(ctx.window)
      ensures Full() == SaView(spi, src, dst, reqid, inbound, lifetime, aead, NEW_USAGE, NewCtx(inbound))
    {
      this.spi, this.src, this.dst, this.reqid := spi, src, dst, reqid;
      this.lifetime, this.inbound := lifetime, inbound;
      packets, bytes, softExpired, hardExpired, events := 0, 0, false, false, [];
      var c := new EspContext(inbound, aead);
      ctx := c;
    }

    method ExpireSa(hard: bool)
      modifies this
      ensures View() == Expire(old(View()), hard) && src == old(src) && dst == old(dst)
      // a hard call always leaves the SA expired; events only ever come in order, each kind once
      ensures hard || old(hardExpired) ==> hardExpired
      ensures InOrder(old(View())) ==> InOrder(View())
      ensures old(events) <= events && |events| <= |old(events)| + 1
    {
      if hard {
        if !hardExpired {
          hardExpired := true;
          events := events + [HardExpired];
        }
      } else {
        if !hardExpired && !softExpired {
          softExpired := true;
          events := events + [SoftExpired];
        }
      }
    }

    method UpdateUsestats(size: uint32)
      modifies this
      ensures View() == Update(lifetime, old(View()), size) && src == old(src) && dst == old(dst)
    {
      packets := (packets + 1) % 0x1_0000_0000_0000_0000;
      bytes := (bytes + size) % 0x1_0000_0000_0000_0000;
      if lifetime.packets.life != 0 && packets >= lifetime.packets.life {
        ExpireSa(true);
        return;
      }
      if lifetime.bytes.life != 0 && bytes >= lifetime.bytes.life {
        ExpireSa(true);
        return;
      }
      if lifetime.packets.rekey != 0 && packets >= lifetime.packets.rekey {
        ExpireSa(false);
        return;
      }
      if lifetime.bytes.rekey != 0 && bytes >= lifetime.bytes.rekey {
        ExpireSa(false);
        return;
      }
    }

    predicate MatchBySpiDst(spi: uint32, dst: Host): (r: bool)
      reads this, ctx
      ensures r == SpiDst(Full(), spi, dst)
    {
      this.spi == spi && this.dst.address == dst.address && !hardExpired
    }

    predicate MatchBySpiSrcDst(spi: uint32, src: Host, dst: Host): (r: bool)
      reads this, ctx
      ensures r == SpiSrcDst(Full(), spi, src, dst)
    {
      this.spi == spi && this.src.address == src.address && this.dst.address == dst.address
    }

    predicate MatchByReqid(reqid: uint32, inbound: bool): (r: bool)
      reads this, ctx
      ensures r == Reqid(Full(), reqid, inbound)
    {
      this.reqid == reqid && this.inbound == inbound && !hardExpired
    }
  }

  /** Expired SAs are still found for management, but not for traffic. */
  predicate SpiDst(s: SaView, spi: uint32, dst: Host) {
    s.spi == spi && s.dst.address == dst.address && !s.usage.hard
  }

  predicate SpiSrcDst(s: SaView, spi: uint32, src: Host, dst: Host) {
    s.spi == spi && s.src.address == src.address && s.dst.address == dst.address
  }

  predicate Reqid(s: SaView, reqid: uint32, inbound: bool) {
    s.reqid == reqid && s.inbound == inbound && !s.usage.hard
  }

  // -------------------------------------------------------------------- timers

  /** The scheduled expiry job: when it runs, and how long after that the hard limit is; zero if it is the hard one. */
  datatype Job = Job(due: nat, hardOffset: uint32)

  predicate RekeyFirst(time: Limit) { 0 < time.rekey < time.life }

  /** schedule_expiration, with its truncation to 32 bits. */
  function Schedule(time: Limit, now: nat): Option<Job> {
    if time.life == 0 then None
    else if !RekeyFirst(time) then Some(Job(now + time.life % 0x1_0000_0000, 0))
    else Some(Job(now + time.rekey % 0x1_0000_0000, (time.life - time.rekey) % 0x1_0000_0000))
  }

  /** When the SA is going to hard-expire by time. */
  function HardDue(j: Job): nat { j.due + j.hardOffset }

  /** The hard timer is due exactly `life` after installation, if and only if the values fit their 32 bits. */
  lemma HardTimerDue(time: Limit, now: nat)
    requires time.life != 0
    ensures HardDue(Schedule(time, now).value) == now + time.life <==>
      if RekeyFirst(time) then time.rekey < 0x1_0000_0000 && time.life - time.rekey < 0x1_0000_0000
      else time.life < 0x1_0000_0000
  {
  }

  // ---------------------------------------------------------------- whole lives

  datatype Life = Life(usage: Usage, job: Option<Job>)
  datatype Happening = Used(bytes: uint32) | TimerRuns

  /** sa_expired on an installed SA: a soft run schedules the hard one. */
  function RunJob(s: Life): Life {
    match s.job
    case None => s
    case Some(j) =>
      if j.hardOffset != 0 then Life(Expire(s.usage, false), Some(Job(j.due + j.hardOffset, 0)))
      else Life(Expire(s.usage, true), None)
  }

  function Live(l: Lifetime, now: nat, happenings: seq<Happening>): Life {
    if happenings == [] then Life(NEW_USAGE, Schedule(l.time, now))
    else
      var s := Live(l, now, happenings[..|happenings| - 1]);
      match happenings[|happenings| - 1]
      case Used(bytes) => s.(usage := Update(l, s.usage, bytes))
      case TimerRuns => RunJob(s)
  }

  /** At most one soft event, at most one hard event, and never a soft one after the hard one. */
  predicate InOrder(u: Usage) {
    u.events == (if u.soft then [SoftExpired] else []) + (if u.hard then [HardExpired] else [])
  }

  lemma ExpireInOrder(u: Usage, hard: bool)
    requires InOrder(u)
    ensures InOrder(Expire(u, hard)) && (u.hard ==> Expire(u, hard).hard) && (hard ==> Expire(u, hard).hard)
  {
  }

  lemma UpdateInOrder(l: Lifetime, u: Usage, bytes: uint32)
    requires InOrder(u)
    ensures InOrder(Update(l, u, bytes)) && (u.hard ==> Update(l, u, bytes).hard)
    ensures HardReached(l, Counted(u, bytes)) ==> Update(l, u, bytes).hard
  {
    hide InOrder;
    var c := Counted(u, bytes);
    assert InOrder(c) by { CountedInOrder(u, bytes); }
    ExpireInOrder(c, true);
    ExpireInOrder(c, false);
  }

  lemma CountedInOrder(u: Usage, bytes: uint32)
    requires InOrder(u)
    ensures InOrder(Counted(u, bytes))
  {
  }

  /**
   * Whatever mix of use and timers an SA sees: its events are in order and raised
   * once each, a hard limit reached at a use has hard-expired it, the hard timer
   * stays due when it was set out to be, and once it has run the SA is hard-expired.
   */
  lemma {:induction false} LifeInOrder(l: Lifetime, now: nat, happenings: seq<Happening>)
    ensures var s := Live(l, now, happenings);
      && InOrder(s.usage)
      && (s.job.Some? ==> l.time.life != 0 && HardDue(s.job.value) == HardDue(Schedule(l.time, now).value))
      && (s.job.None? && l.time.life != 0 ==> s.usage.hard)
    ensures forall n: nat | n < |happenings| && happenings[n].Used? ::
              HardReached(l, Counted(Live(l, now, happenings[..n]).usage, happenings[n].bytes)) ==>
              Live(l, now, happenings).usage.hard
  {
    if happenings != [] {
      var k := |happenings| - 1;
      var before := happenings[..k];
      LifeInOrder(l, now, before);
      var s := Live(l, now, before);
      match happenings[k] {
        case Used(bytes) => UpdateInOrder(l, s.usage, bytes);
        case TimerRuns =>
          ExpireInOrder(s.usage, true);
          ExpireInOrder(s.usage, false);
      }
      forall n: nat | n < |happenings| && happenings[n].Used? &&
          HardReached(l, Counted(Live(l, now, happenings[..n]).usage, happenings[n].bytes))
        ensures Live(l, now, happenings).usage.hard
      {
        if n < k {
          assert before[n] == happenings[n] && before[..n] == happenings[..n];
        }
      }
    }
  }

  const WORD64: nat := 0x1_0000_0000_0000_0000

  /** One use in figures: both counters, and the flags by the limits, hard ones first. */
  lemma UpdateInFigures(l: Lifetime, u: Usage, bytes: uint32)
    ensures var u' := Update(l, u, bytes);
      var hard := (l.packets.life > 0 && u'.packets >= l.packets.life) || (l.bytes.life > 0 && u'.bytes >= l.bytes.life);
      var soft := (l.packets.rekey > 0 && u'.packets >= l.packets.rekey) || (l.bytes.rekey > 0 && u'.bytes >= l.bytes.rekey);
      && u'.packets == (u.packets + 1) % WORD64 && u'.bytes == (u.bytes + bytes) % WORD64
      && (u'.hard <==> u.hard || hard)
      && (u'.soft <==> u.soft || (soft && !hard && !u.hard))
      && u'.events == u.events + (if hard && !u.hard then [HardExpired] else []) +
                      (if u'.soft && !u.soft then [SoftExpired] else [])
  {
  }

  /** How often and with how many bytes in all an SA was used. */
  function Uses(happenings: seq<Happening>): nat {
    if happenings == [] then 0
    else Uses(happenings[..|happenings| - 1]) + if happenings[|happenings| - 1].Used? then 1 else 0
  }

  function BytesUsed(happenings: seq<Happening>): nat {
    if happenings == [] then 0
    else
      var h := happenings[|happenings| - 1];
      BytesUsed(happenings[..|happenings| - 1]) + if h.Used? then h.bytes else 0
  }

  predicate Passed(count: nat, limit: uint64) { 0 < limit <= count < WORD64 }

  lemma AddMod(n: nat, k: nat)
    ensures (n % WORD64 + k) % WORD64 == (n + k) % WORD64
  {
    var q, r := n / WORD64, n % WORD64;
    var q', r' := (r + k) / WORD64, (r + k) % WORD64;
    DivModUnique(n + k, WORD64, q + q', r');
  }

  /** The counters tell the use, and so the limits do what they say, over any mix of use and timers. */
  lemma {:induction false} LifeCounts(l: Lifetime, now: nat, happenings: seq<Happening>)
    ensures var u, n, b := Live(l, now, happenings).usage, Uses(happenings), BytesUsed(happenings);
      && u.packets == n % WORD64 && u.bytes == b % WORD64
      && (Passed(n, l.packets.life) || Passed(b, l.bytes.life) ==> u.hard)
      && (Passed(n, l.packets.rekey) || Passed(b, l.bytes.rekey) ==> u.soft || u.hard)
  {
    if happenings != [] {
      var k := |happenings| - 1;
      var before := happenings[..k];
      LifeCounts(l, now, before);
      var u := Live(l, now, before).usage;
      match happenings[k] {
        case Used(bytes) =>
          UpdateInFigures(l, u, bytes);
          AddMod(Uses(before), 1);
          AddMod(BytesUsed(before), bytes);
          hide Update;
          CountInRange(Uses(happenings));
          CountInRange(BytesUsed(happenings));
        case TimerRuns =>
      }
    }
  }

  lemma CountInRange(n: nat)
    ensures n < WORD64 ==> n % WORD64 == n
  {
  }

  /** The timers in figures: a soft event at rekey, if there is one before life, and a hard one at life. */
  lemma TimersInTurn(l: Lifetime, now: nat)
    requires 0 < l.time.life < 0x1_0000_0000
    ensures var first, then', last := Live(l, now, []), Live(l, now, [TimerRuns]), Live(l, now, [TimerRuns, TimerRuns]);
      if 0 < l.time.rekey < l.time.life then
        && first.job.Some? && first.job.value.due == now + l.time.rekey && first.usage.events == []
        && then'.job.Some? && then'.job.value.due == now + l.time.life && then'.usage.events == [SoftExpired]
        && last.job.None? && last.usage.events == [SoftExpired, HardExpired]
      else
        && first.job.Some? && first.job.value.due == now + l.time.life && first.usage.events == []
        && then'.job.None? && then'.usage.events == [HardExpired]
  {
    var one: seq<Happening> := [TimerRuns];
    var two: seq<Happening> := [TimerRuns, TimerRuns];
    assert one[..0] == [] && two[..1] == one;
    assert Live(l, now, one) == RunJob(Live(l, now, []));
    assert Live(l, now, two) == RunJob(Live(l, now, one));
  }
}
