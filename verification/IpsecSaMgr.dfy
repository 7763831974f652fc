/**
 * The SA database: the installed SAs and the SPIs handed out for SAs to come.
 * Each method is one stretch under the manager's mutex; how threads share single
 * SAs is the subject of SaCheckout.
 */
module IpsecSaMgr {
  import opened Chunk
  import opened Crypto
  import opened EspContext
  import opened IpPacket
  import opened IpsecSa

  // ------------------------------------------------------------ SPI arithmetic

  /** The bounds as get_spi normalises them: in order, and clear of the reserved values up to 255. */
  function SpiMin(min: uint32, max: uint32): uint32 { Max(Min(min, max), 0x100) }

  function SpiMax(min: uint32, max: uint32): uint32 { Max(Max(min, max), 0x100) }

  /** The number of SPIs in the range, in 32-bit arithmetic. */
  function SpiRange(min: uint32, max: uint32): uint32 {
    (SpiMax(min, max) - SpiMin(min, max) + 1) % 0x1_0000_0000
  }

  /** For any configured bounds the range neither overflows nor is empty, and every draw lands inside it. */
  lemma SpiInRange(min: uint32, max: uint32, draw: uint32)
    ensures SpiRange(min, max) == SpiMax(min, max) - SpiMin(min, max) + 1 > 0
    ensures 0x100 <= SpiMin(min, max) <= SpiMin(min, max) + draw % SpiRange(min, max) <= SpiMax(min, max)
  {
  }

  /** The SPI a random number stands for. */
  function Draw(min: uint32, max: uint32, random: uint32): (spi: uint32)
    ensures 0x100 <= SpiMin(min, max) <= spi <= SpiMax(min, max)
  {
    SpiInRange(min, max, random);
    SpiMin(min, max) + random % SpiRange(min, max)
  }

  // -------------------------------------------------------------- the database

  /** `live` is in list order, newest first. */
  datatype Sad = Sad(live: seq<SaView>, spis: set<uint32>)

  predicate InUse(d: Sad, spi: uint32) {
    spi in d.spis || exists i | 0 <= i < |d.live| :: d.live[i].spi == spi && d.live[i].inbound
  }

  /** All the random numbers given stand for SPIs in use. */
  ghost predicate NoneFree(d: Sad, min: uint32, max: uint32, rng: seq<uint32>) {
    forall k | 0 <= k < |rng| :: InUse(d, Draw(min, max, rng[k]))
  }

  lemma NoneFreeYet(d: Sad, min: uint32, max: uint32, rng: seq<uint32>)
    ensures NoneFree(d, min, max, rng[..0])
  {
  }

  /** The next draw decides. */
  lemma NextDraw(d: Sad, min: uint32, max: uint32, rng: seq<uint32>, i: nat)
    requires i < |rng| && NoneFree(d, min, max, rng[..i])
    ensures if InUse(d, Draw(min, max, rng[i])) then NoneFree(d, min, max, rng[..i + 1]) else !NoneFree(d, min, max, rng)
  {
    hide InUse, Draw;
    assert rng[..i + 1] == rng[..i] + [rng[i]];
  }

  lemma DrawIs(min: uint32, max: uint32, random: uint32)
    ensures var lo, hi := Max(if min > max then max else min, 0x100), Max(if min > max then min else max, 0x100);
      && (hi - lo + 1) % 0x1_0000_0000 > 0 && 0x100 <= lo == SpiMin(min, max) && hi == SpiMax(min, max)
      && lo + random % ((hi - lo + 1) % 0x1_0000_0000) == Draw(min, max, random)
  {
    SpiInRange(min, max, random);
  }

  ghost predicate Exhausted(d: Sad, min: uint32, max: uint32) {
    forall spi: uint32 | SpiMin(min, max) <= spi <= SpiMax(min, max) :: InUse(d, spi)
  }

  /** No random numbers whatsoever lead to an SPI exactly if the whole range is in use. */
  lemma DrawsExhausted(d: Sad, min: uint32, max: uint32)
    ensures (forall rng :: NoneFree(d, min, max, rng)) <==> Exhausted(d, min, max)
  {
    hide InUse, Draw;
    if !Exhausted(d, min, max) {
      var spi: uint32 :| SpiMin(min, max) <= spi <= SpiMax(min, max) && !InUse(d, spi);
      var rng := [spi - SpiMin(min, max)];
      DrawHits(min, max, spi);
      assert Draw(min, max, rng[0]) == spi;
      assert !NoneFree(d, min, max, rng);
    }
  }

  /** Every SPI of the range can be drawn. */
  lemma DrawHits(min: uint32, max: uint32, spi: uint32)
    requires SpiMin(min, max) <= spi <= SpiMax(min, max)
    ensures Draw(min, max, spi - SpiMin(min, max)) == spi
  {
    var r := spi - SpiMin(min, max);
    SpiInRange(min, max, r);
    DivModUnique(r, SpiRange(min, max), 0, r);
  }

  /** No two live inbound SAs share an SPI, and none of their SPIs is still handed out. */
  ghost predicate SpisUnique(d: Sad) {
    && (forall i, j | 0 <= i < j < |d.live| && d.live[i].inbound && d.live[j].inbound :: d.live[i].spi != d.live[j].spi)
    && (forall i | 0 <= i < |d.live| && d.live[i].inbound :: d.live[i].spi !in d.spis)
  }

  predicate Installed(d: Sad, spi: uint32, src: Host, dst: Host) {
    exists i | 0 <= i < |d.live| :: SpiSrcDst(d.live[i], spi, src, dst)
  }

  /** add_sa once the new SA could be created. */
  function Install(d: Sad, s: SaView, update: bool): Sad {
    var d1 := if update then d.(spis := d.spis - {s.spi}) else d;
    if Installed(d, s.spi, s.src, s.dst) then d1 else d1.(live := [s] + d.live)
  }

  /** What a run consists of: SPIs handed out, SAs installed, changed while in use, and removed. */
  datatype Op =
    | Allocates(spi: uint32)
    | Installs(sa: SaView, update: bool)
    | Changes(at: nat, sa: SaView)
    | Removes(at: nat)

  /**
   * Which operations the manager can perform; and what is asked of its user, that
   * inbound SAs are only installed for an SPI that is currently handed out.
   */
  predicate Possible(d: Sad, op: Op) {
    match op
    case Allocates(spi) => !InUse(d, spi)
    case Installs(s, update) => s.inbound ==> update && s.spi in d.spis
    case Changes(at, s) => at < |d.live| && s.spi == d.live[at].spi && s.inbound == d.live[at].inbound
    case Removes(at) => at < |d.live|
  }

  function Perform(d: Sad, op: Op): Sad
    requires Possible(d, op)
  {
    match op
    case Allocates(spi) => d.(spis := d.spis + {spi})
    case Installs(s, update) => Install(d, s, update)
    case Changes(at, s) => d.(live := d.live[at := s])
    case Removes(at) => d.(live := d.live[..at] + d.live[at + 1..])
  }

  lemma PerformUnique(d: Sad, op: Op)
    requires SpisUnique(d) && Possible(d, op)
    ensures SpisUnique(Perform(d, op))
  {
  }

  ghost predicate Run(states: seq<Sad>, ops: seq<Op>) {
    && |states| == |ops| + 1 && states[0] == Sad([], {})
    && forall i | 0 <= i < |ops| :: Possible(states[i], ops[i]) && states[i + 1] == Perform(states[i], ops[i])
  }

  /** Over every such run, in every state, inbound SPIs stay unique. */
  lemma {:induction false} RunUnique(states: seq<Sad>, ops: seq<Op>, i: nat)
    requires Run(states, ops) && i < |states|
    ensures SpisUnique(states[i])
  {
    if i > 0 {
      RunUnique(states, ops, i - 1);
      PerformUnique(states[i - 1], ops[i - 1]);
    }
  }

  /** The operation gives up an allocated SPI. */
  predicate GivesUp(op: Op, spi: uint32) { op.Installs? && op.update && op.sa.spi == spi }

  lemma {:induction false} StaysAllocated(states: seq<Sad>, ops: seq<Op>, i: nat, j: nat, spi: uint32)
    requires Run(states, ops) && i <= j < |states| && spi in states[i].spis
    requires forall k | i <= k < j :: !GivesUp(ops[k], spi)
    ensures spi in states[j].spis
    decreases j
  {
    if i < j {
      StaysAllocated(states, ops, i, j - 1, spi);
      assert Possible(states[j - 1], ops[j - 1]) && states[j] == Perform(states[j - 1], ops[j - 1]);
    }
  }

  /** Over every run, an SPI is handed out again only after the SA it was handed out for was installed. */
  lemma HandedOutOnce(states: seq<Sad>, ops: seq<Op>, i: nat, j: nat, spi: uint32)
    requires Run(states, ops) && i < j < |ops| && ops[i] == ops[j] == Allocates(spi)
    ensures exists k | i < k < j :: GivesUp(ops[k], spi)
  {
    assert Possible(states[j], ops[j]) && states[i + 1] == Perform(states[i], ops[i]);
    if forall k | i < k < j :: !GivesUp(ops[k], spi) {
      StaysAllocated(states, ops, i + 1, j, spi);
    }
  }

  /** An SPI that is handed out is neither handed out yet nor that of an installed inbound SA. */
  lemma HandedOutUnused(d: Sad, spi: uint32)
    ensures Possible(d, Allocates(spi)) <==>
      spi !in d.spis && forall i | 0 <= i < |d.live| :: !(d.live[i].inbound && d.live[i].spi == spi)
  {
  }

  /** Installing an SA: it comes first in the list unless one with its SPI and hosts is there; its SPI is given up if asked. */
  lemma InstallExactly(d: Sad, s: SaView, update: bool)
    ensures var d' := Install(d, s, update);
      && d'.spis == (if update then d.spis - {s.spi} else d.spis)
      && d'.live == (if exists i | 0 <= i < |d.live| ::
                          d.live[i].spi == s.spi && d.live[i].src.address == s.src.address && d.live[i].dst.address == s.dst.address
                     then d.live else [s] + d.live)
  {
    assert Installed(d, s.spi, s.src, s.dst) <==> exists i | 0 <= i < |d.live| ::
      d.live[i].spi == s.spi && d.live[i].src.address == s.src.address && d.live[i].dst.address == s.dst.address;
  }

  // ------------------------------------------------------------- the manager

  /** The objects an SA is made of. */
  ghost function Parts(s: IpsecSa): set<object> { {s, s.ctx, s.ctx.window} }

  ghost function AllParts(sas: seq<IpsecSa>): set<object> {
    set s, o | s in sas && o in Parts(s) :: o
  }

  ghost predicate Apart(sas: seq<IpsecSa>) {
    forall i, j | 0 <= i < j < |sas| :: Parts(sas[i]) !! Parts(sas[j])
  }

  ghost predicate SaOk(s: IpsecSa)
    reads Parts(s)
  {
    s.ctx.Valid() && s.ctx.inbound == s.inbound && s.ctx.aead.blockSize > 0
  }

  ghost function Views(sas: seq<IpsecSa>): seq<SaView>
    reads AllParts(sas)
  {
    seq(|sas|, i requires 0 <= i < |sas| reads AllParts(sas) =>
      assert sas[i] in sas && sas[i] in Parts(sas[i]) && sas[i].ctx in Parts(sas[i]);
      sas[i].Full())
  }

  lemma PartsIn(s: IpsecSa, sas: seq<IpsecSa>)
    requires s in sas
    ensures Parts(s) <= AllParts(sas)
  {
    hide Parts;
  }

  lemma ConsParts(entry: IpsecSa, sas: seq<IpsecSa>)
    ensures AllParts([entry] + sas) == Parts(entry) + AllParts(sas)
  {
    hide Parts;
    var all := [entry] + sas;
    forall o | o in AllParts(all) ensures o in Parts(entry) + AllParts(sas) {
      var s :| s in all && o in Parts(s);
    }
    PartsIn(entry, all);
    forall o | o in AllParts(sas) ensures o in AllParts(all) {
      var s :| s in sas && o in Parts(s);
      assert s in all;
    }
  }

  lemma ConsApart(entry: IpsecSa, sas: seq<IpsecSa>)
    requires Apart(sas) && Parts(entry) !! AllParts(sas)
    ensures Apart([entry] + sas) && AllParts([entry] + sas) == Parts(entry) + AllParts(sas)
    ensures Views([entry] + sas) == [entry.Full()] + Views(sas)
  {
    hide Parts, AllParts, IpsecSa.Full;
    var all := [entry] + sas;
    forall i, j | 0 <= i < j < |all| ensures Parts(all[i]) !! Parts(all[j]) {
      PartsIn(all[j], sas);
      assert i > 0 ==> all[i] == sas[i - 1] && all[j] == sas[j - 1];
    }
    ConsParts(entry, sas);
  }

  lemma RemoveApart(sas: seq<IpsecSa>, at: nat)
    requires Apart(sas) && at < |sas|
    ensures var rest := sas[..at] + sas[at + 1..];
      && Apart(rest) && AllParts(rest) <= AllParts(sas)
      && (forall s | s in rest :: s in sas)
      && Views(rest) == Views(sas)[..at] + Views(sas)[at + 1..]
  {
    var rest := sas[..at] + sas[at + 1..];
    forall i, j | 0 <= i < j < |rest| ensures Parts(rest[i]) !! Parts(rest[j]) {
      var i', j' := if i < at then i else i + 1, if j < at then j else j + 1;
      assert rest[i] == sas[i'] && rest[j] == sas[j'];
    }
    forall o | o in AllParts(rest) ensures o in AllParts(sas) {
      var s :| s in rest && o in Parts(s);
      assert s in sas;
    }
  }

  class SaMgr {
    var sas: seq<IpsecSa>
    var allocatedSpis: set<uint32>

    ghost function View(): Sad
      reads this, AllParts(sas)
    {
      Sad(Views(sas), allocatedSpis)
    }

    ghost predicate Valid()
      reads this, AllParts(sas)
    {
      this !in AllParts(sas) && Apart(sas) && forall i | 0 <= i < |sas| :: SaOk(sas[i])
    }

    constructor ()
      ensures Valid() && View() == Sad([], {}) && sas == []
    {
      sas, allocatedSpis := [], {};
    }

    /** allocate_spi: refuses an SPI that is handed out or used by an inbound SA. */
    method AllocateSpi(spi: uint32) returns (ok: bool)
      requires Valid()
      modifies this`allocatedSpis
      ensures Valid() && ok == !old(InUse(View(), spi))
      ensures View() == if ok then old(View()).(spis := old(allocatedSpis) + {spi}) else old(View())
    {
      if spi in allocatedSpis {
        return false;
      }
      var i := 0;
      while i < |sas|
        invariant i <= |sas| && forall k | 0 <= k < i :: !(sas[k].spi == spi && sas[k].inbound)
      {
        if sas[i].spi == spi && sas[i].inbound {
          assert View().live[i].spi == spi;
          return false;
        }
        i := i + 1;
      }
      allocatedSpis := allocatedSpis + {spi};
      return true;
    }

    /** get_spi draws until an SPI is free; the random numbers to come are given, and may run out. */
    method GetSpi(min: uint32, max: uint32, rng: seq<uint32>) returns (spi: Option<uint32>)
      requires Valid()
      modifies this`allocatedSpis
      ensures Valid()
      ensures spi.Some? ==> 0x100 <= SpiMin(min, max) <= spi.value <= SpiMax(min, max)
      ensures spi.Some? ==> old(Possible(View(), Allocates(spi.value))) && View() == old(Perform(View(), Allocates(spi.value)))
      ensures spi.Some? ==> exists k | 0 <= k < |rng| ::
                spi.value == Draw(min, max, rng[k]) && NoneFree(old(View()), min, max, rng[..k])
      ensures spi.None? ==> View() == old(View())
      ensures spi.None? <==> NoneFree(old(View()), min, max, rng)
    {
      hide Views, InUse, Apart, SaOk, NoneFree, Draw;
      var spiMin, spiMax := min, max;
      if spiMin > spiMax {
        spiMin, spiMax := spiMax, spiMin;
      }
      spiMin, spiMax := Max(spiMin, 0x100), Max(spiMax, 0x100);
      var i := 0;
      ghost var d := View();
      NoneFreeYet(d, min, max, rng);
      while i < |rng|
        invariant i <= |rng| && Valid() && View() == d && NoneFree(d, min, max, rng[..i])
      {
        DrawIs(min, max, rng[i]);
        NextDraw(d, min, max, rng, i);
        var draw := spiMin + rng[i] % ((spiMax - spiMin + 1) % 0x1_0000_0000);
        var ok := AllocateSpi(draw);
        if ok {
          return Some(draw);
        }
        i := i + 1;
      }
      assert rng[..i] == rng;
      return None;
    }

    /** add_sa; `supported` says whether an SA can be created from the given configuration at all. */
    method AddSa(spi: uint32, src: Host, dst: Host, reqid: uint32, lifetime: Lifetime, inbound: bool, aead: Aead,
                 supported: bool, update: bool) returns (ok: bool)
      requires Valid() && aead.blockSize > 0
      modifies this
      ensures Valid()
      ensures var s := SaView(spi, src, dst, reqid, inbound, lifetime, aead, NEW_USAGE, NewCtx(inbound));
        && View() == (if supported then Install(old(View()), s, update) else old(View()))
        && ok == (supported && !Installed(old(View()), spi, src, dst))
    {
      hide Apart, AllParts, Parts, SaOk, Views, Valid;
      if !supported {
        return false;
      }
      if update {
        ForgetSpi(spi);
      }
      var i := FindSa(spi, src, dst);
      if i < |sas| {
        return false;
      }
      var entry := CreateEntry(spi, src, dst, reqid, lifetime, inbound, aead);
      InsertFirst(entry);
      return true;
    }

    method CreateEntry(spi: uint32, src: Host, dst: Host, reqid: uint32, lifetime: Lifetime, inbound: bool, aead: Aead)
      returns (entry: IpsecSa)
      requires Valid() && aead.blockSize > 0
      ensures Valid() && View() == old(View())
      ensures SaOk(entry) && Parts(entry) !! AllParts(sas) && this !in Parts(entry)
      ensures entry.Full() == SaView(spi, src, dst, reqid, inbound, lifetime, aead, NEW_USAGE, NewCtx(inbound))
    {
      entry := new IpsecSa(spi, src, dst, reqid, lifetime, inbound, aead);
    }

    method ForgetSpi(spi: uint32)
      requires Valid()
      modifies this`allocatedSpis
      ensures Valid() && View() == old(View()).(spis := old(allocatedSpis) - {spi})
    {
      allocatedSpis := allocatedSpis - {spi};
    }

    method InsertFirst(entry: IpsecSa)
      requires Valid() && SaOk(entry) && Parts(entry) !! AllParts(sas) && this !in Parts(entry)
      modifies this`sas
      ensures Valid() && View() == old(View()).(live := [entry.Full()] + old(View()).live)
    {
      ConsApart(entry, sas);
      hide Apart, AllParts, Parts, SaOk;
      sas := [entry] + sas;
    }

    /** The first SA with the given SPI and addresses. */
    method FindSa(spi: uint32, src: Host, dst: Host) returns (i: nat)
      requires Valid()
      ensures Valid() && View() == old(View()) && |View().live| == |sas|
      ensures i <= |sas| && (i < |sas| ==> SpiSrcDst(View().live[i], spi, src, dst))
      ensures forall k | 0 <= k < i :: !SpiSrcDst(View().live[k], spi, src, dst)
    {
      i := 0;
      while i < |sas|
        invariant i <= |sas| && forall k | 0 <= k < i :: !SpiSrcDst(View().live[k], spi, src, dst)
      {
        if sas[i].MatchBySpiSrcDst(spi, src, dst) {
          return;
        }
        i := i + 1;
      }
    }
  
    /** del_sa with nobody using the SA: the first match goes. */
    method DelSa(spi: uint32, src: Host, dst: Host) returns (ok: bool)
      requires Valid()
      modifies this`sas
      ensures Valid() && ok == old(Installed(View(), spi, src, dst))
      ensures !ok ==> View() == old(View())
      ensures ok ==> exists at: nat ::
                && at < |old(View()).live| && SpiSrcDst(old(View()).live[at], spi, src, dst)
                && (forall k | 0 <= k < at :: !SpiSrcDst(old(View()).live[k], spi, src, dst))
                && View() == Perform(old(View()), Removes(at))
    {
      var i := FindSa(spi, src, dst);
      ok := i < |sas|;
      if ok {
        RemoveAt(i);
      }
    }

    method RemoveAt(at: nat)
      requires Valid() && at < |sas| == |View().live|
      modifies this`sas
      ensures Valid() && View() == Perform(old(View()), Removes(at))
    {
      RemoveApart(sas, at);
      ghost var was := sas;
      sas := sas[..at] + sas[at + 1..];
      forall i | 0 <= i < |sas| ensures SaOk(sas[i]) {
        assert sas[i] in was;
      }
    }

    /** update_sa with nobody using the SA: it keeps its SPI and gets new addresses. */
    method UpdateSa(spi: uint32, src: Host, dst: Host, newSrc: Host, newDst: Host, newEncap: bool) returns (ok: bool)
      requires Valid()
      modifies sas
      ensures Valid() && ok == (newEncap && old(Installed(View(), spi, src, dst)))
      ensures !ok ==> View() == old(View())
      ensures ok ==> exists at: nat, s: SaView ::
                && at < |old(View()).live| && SpiSrcDst(old(View()).live[at], spi, src, dst)
                && (forall k | 0 <= k < at :: !SpiSrcDst(old(View()).live[k], spi, src, dst))
                && s == old(View()).live[at].(src := newSrc, dst := newDst)
                && View() == Perform(old(View()), Changes(at, s))
    {
      if !newEncap {
        return false;
      }
      var i := FindSa(spi, src, dst);
      ok := i < |sas|;
      if ok {
        ghost var s := View().live[i].(src := newSrc, dst := newDst);
        SetHosts(i, newSrc, newDst);
        assert View() == Perform(old(View()), Changes(i, s));
      }
    }

    method SetHosts(i: nat, src: Host, dst: Host)
      requires Valid() && i < |sas| == |View().live|
      modifies sas
      ensures Valid() && allocatedSpis == old(allocatedSpis)
      ensures Views(sas) == old(Views(sas))[i := old(sas[i].Full()).(src := src, dst := dst)]
    {
      var sa := sas[i];
      assert sa in sas && sa in Parts(sa);
      sa.src := src;
      sa.dst := dst;
    }

    /** checkout_by_spi, with the SA free: the first unexpired SA for the packet. */
    method FindBySpi(spi: uint32, dst: Host) returns (i: nat)
      requires Valid()
      ensures Valid() && View() == old(View()) && |View().live| == |sas|
      ensures i == First(View().live, (s: SaView) => SpiDst(s, spi, dst))
    {
      i := 0;
      ghost var m := (s: SaView) => SpiDst(s, spi, dst);
      while i < |sas|
        invariant i <= |sas| && forall k | 0 <= k < i :: !m(View().live[k])
      {
        if sas[i].MatchBySpiDst(spi, dst) {
          break;
        }
        i := i + 1;
      }
      FirstAt(View().live, m, i);
    }

    /** checkout_by_reqid, with the SA free. */
    method FindByReqid(reqid: uint32, inbound: bool) returns (i: nat)
      requires Valid()
      ensures Valid() && View() == old(View()) && |View().live| == |sas|
      ensures i == First(View().live, (s: SaView) => Reqid(s, reqid, inbound))
    {
      i := 0;
      ghost var m := (s: SaView) => Reqid(s, reqid, inbound);
      while i < |sas|
        invariant i <= |sas| && forall k | 0 <= k < i :: !m(View().live[k])
      {
        if sas[i].MatchByReqid(reqid, inbound) {
          break;
        }
        i := i + 1;
      }
      FirstAt(View().live, m, i);
    }
  }

  /** The position of the first SA the test takes; the length if there is none. */
  function First(live: seq<SaView>, m: SaView -> bool): (i: nat)
    ensures i <= |live| && (i < |live| ==> m(live[i])) && forall k | 0 <= k < i :: !m(live[k])
  {
    if live == [] || m(live[0]) then 0 else 1 + First(live[1..], m)
  }

  lemma FirstAt(live: seq<SaView>, m: SaView -> bool, i: nat)
    requires i <= |live| && (i < |live| ==> m(live[i])) && forall k | 0 <= k < i :: !m(live[k])
    ensures First(live, m) == i
  {
  }
}
