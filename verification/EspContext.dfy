/**
 * ESP sequence numbers and the anti-replay window.
 *
 * The window is a circular bitmap: `seqnoIndex` is the bit of the highest
 * accepted number and older numbers lie behind it, modulo the window size.  It
 * is proved to behave like the plain set of all numbers accepted so far.
 */
module EspContext {
  import opened Chunk
  import opened Crypto

  const WINDOW_SIZE: nat := 128

  /** Unsigned 32-bit subtraction. */
  function Sub32(a: int, b: int): uint32 { (a - b) % 0x1_0000_0000 }

  /** The index arithmetic survives the 32-bit wrap because the window size divides 2^32. */
  lemma WrapIsHarmless(a: int, b: int)
    ensures Sub32(a, b) % WINDOW_SIZE == (a - b) % WINDOW_SIZE
  {
    var d := a - b;
    var q, r := d / 0x1_0000_0000, d % 0x1_0000_0000;
    WrapParts(d, q, r, r / 128, r % 128);
  }

  lemma WrapParts(d: int, q: int, r: int, k: int, m: int)
    requires d == 0x1_0000_0000 * q + r && r == 128 * k + m && 0 <= m < 128
    ensures d % 128 == m
  {
    var c := 0x200_0000 * q + k;
    assert d == 128 * c + m;
    var e := d / 128 - c;
    assert 128 * e == m - d % 128;
  }

  // ------------------------------------------------------------ the bitmap

  function GetBit(w: bv8, b: nat): bool
    requires b < 8
  {
    w & (1 << b) != 0
  }

  function SetBit(w: bv8, b: nat, on: bool): bv8
    requires b < 8
  {
    if on then w | (1 << b) else w & !(1 << b)
  }

  lemma Masks(b: nat, c: nat)
    requires b < 8 && c < 8
    ensures (1 as bv8 << b) != 0 && (b != c ==> (1 as bv8 << b) & (1 << c) == 0)
  {
  }

  lemma MaskedBits(w: bv8, m: bv8, k: bv8)
    ensures (w | m) & m == m && (w & !m) & m == 0
    ensures m & k == 0 ==> (w | m) & k == w & k && (w & !m) & k == w & k
  {
  }

  lemma SetThenGet(w: bv8, b: nat, on: bool, c: nat)
    requires b < 8 && c < 8
    ensures GetBit(SetBit(w, b, on), c) == if c == b then on else GetBit(w, c)
  {
    Masks(b, c);
    MaskedBits(w, 1 << b, 1 << c);
  }

  function WindowBit(window: seq<bv8>, index: nat): bool
    requires index / 8 < |window|
  {
    GetBit(window[index / 8], index % 8)
  }

  /** How far position p of the bitmap lies behind the highest number's bit. */
  function Behind(index: nat, p: nat): nat { (index - p) % WINDOW_SIZE }

  /** Indices at most one round off wrap by that round. */
  lemma Wrap(i: int)
    requires 0 <= i + WINDOW_SIZE && i < 2 * WINDOW_SIZE
    ensures i % WINDOW_SIZE == if i < 0 then i + WINDOW_SIZE else if i < WINDOW_SIZE then i else i - WINDOW_SIZE
  {
  }

  lemma WrapNext(index: nat, i: nat)
    requires index < WINDOW_SIZE && i < WINDOW_SIZE
    ensures ((index + i) % WINDOW_SIZE + 1) % WINDOW_SIZE == (index + (i + 1)) % WINDOW_SIZE < WINDOW_SIZE
  {
    Wrap(index + i);
    Wrap(index + i + 1);
    Wrap((index + i) % WINDOW_SIZE + 1);
  }

  lemma BehindCases(index: nat, p: nat)
    requires index < WINDOW_SIZE && p < WINDOW_SIZE
    ensures Behind(index, p) == if p <= index then index - p else index - p + WINDOW_SIZE
  {
    Wrap(index - p);
  }

  lemma BehindNext(index: nat, p: nat)
    requires index < WINDOW_SIZE && p < WINDOW_SIZE
    ensures var next := (index + 1) % WINDOW_SIZE;
      && (p == next ==> Behind(next, p) == 0)
      && (p != next ==> Behind(next, p) == Behind(index, p) + 1)
  {
    Wrap(index + 1);
    BehindCases(index, p);
    BehindCases((index + 1) % WINDOW_SIZE, p);
  }

  lemma BehindInverse(index: nat, k: nat)
    requires index < WINDOW_SIZE && k < WINDOW_SIZE
    ensures Behind(index, (index - k) % WINDOW_SIZE) == k
  {
    Wrap(index - k);
    BehindCases(index, (index - k) % WINDOW_SIZE);
  }

  // ---------------------------------------------- what a context stands for

  /** The simple view: the highest number, and every number accepted so far. */
  datatype Ctx = Ctx(inbound: bool, last: uint32, accepted: set<uint32>) {
    ghost predicate Ok() {
      && (forall s | s in accepted :: inbound && 1 <= s <= last)
      && (inbound && last != 0 ==> last in accepted)
    }

    /** Section 3.4.3 of RFC 4303: not left of the window, and not seen before. */
    predicate Verifies(s: uint32) {
      inbound && s >= 1 && s + WINDOW_SIZE > last && s !in accepted
    }

    function Accept(s: uint32): Ctx {
      if inbound then Ctx(true, Max(last, s), accepted + {s}) else this
    }

    function Next(): Option<uint32> {
      if inbound || last == 0xffff_ffff then None else Some(last + 1)
    }
  }

  function NewCtx(inbound: bool): Ctx { Ctx(inbound, 0, {}) }

  /** The bitmap records exactly the accepted numbers among the WINDOW_SIZE highest. */
  ghost predicate Records(window: seq<bv8>, index: nat, c: Ctx) {
    && |window| == WINDOW_SIZE / 8 + 1 && index < WINDOW_SIZE
    && forall p | 0 <= p < WINDOW_SIZE :: WindowBit(window, p) <==> c.last - Behind(index, p) in c.accepted
  }

  lemma RecordsAt(window: seq<bv8>, index: nat, c: Ctx, k: nat)
    requires Records(window, index, c) && k < WINDOW_SIZE
    ensures |window| == WINDOW_SIZE / 8 + 1 && index < WINDOW_SIZE
    ensures WindowBit(window, (index - k) % WINDOW_SIZE) <==> c.last - k in c.accepted
  {
    hide WindowBit, Behind;
    BehindInverse(index, k);
  }

  lemma BehindShift(index: nat, shift: nat, p: nat)
    requires index < WINDOW_SIZE && p < WINDOW_SIZE && shift <= WINDOW_SIZE
    ensures var head := (index + shift) % WINDOW_SIZE;
      && (Behind(head, p) >= shift ==> Behind(index, p) == Behind(head, p) - shift)
      && (Behind(head, p) == 0 <==> p == head)
  {
    Wrap(index + shift);
    BehindCases(index, p);
    BehindCases((index + shift) % WINDOW_SIZE, p);
  }

  /** Moving the head to a new highest number, and setting its bit. */
  lemma AdvanceRecords(w: seq<bv8>, w': seq<bv8>, index: nat, c: Ctx, seqno: uint32, shift: nat, head: nat)
    requires c.Ok() && c.inbound && Records(w, index, c) && |w'| == |w| && seqno > c.last
    requires shift == Min(seqno - c.last, WINDOW_SIZE) && head == (index + shift) % WINDOW_SIZE
    requires forall p | 0 <= p < WINDOW_SIZE ::
               WindowBit(w', p) <==> p == head || (Behind(head, p) >= shift && WindowBit(w, p))
    ensures Records(w', head, c.Accept(seqno))
  {
    forall p | 0 <= p < WINDOW_SIZE
      ensures WindowBit(w', p) <==> seqno - Behind(head, p) in c.accepted + {seqno}
    {
      BehindShift(index, shift, p);
    }
  }

  /** Setting the bit of a number inside the window. */
  lemma InsideRecords(w: seq<bv8>, w': seq<bv8>, index: nat, c: Ctx, seqno: uint32)
    requires c.inbound && Records(w, index, c) && |w'| == |w|
    requires 0 <= c.last - seqno < WINDOW_SIZE
    requires forall p | 0 <= p < WINDOW_SIZE ::
               WindowBit(w', p) <==> p == (index - (c.last - seqno)) % WINDOW_SIZE || WindowBit(w, p)
    ensures Records(w', index, c.Accept(seqno))
  {
    var k := c.last - seqno;
    forall p | 0 <= p < WINDOW_SIZE
      ensures WindowBit(w', p) <==> c.last - Behind(index, p) in c.accepted + {seqno}
    {
      Wrap(index - k);
      BehindCases(index, p);
    }
  }

  lemma AcceptOk(c: Ctx, seqno: uint32)
    requires c.Ok() && c.Verifies(seqno)
    ensures c.Accept(seqno).Ok()
  {
  }

  class EspContext {
    const inbound: bool
    const aead: Aead
    var lastSeqno: uint32
    var seqnoIndex: nat
    const window: array<bv8>
    ghost var accepted: set<uint32>

    ghost function View(): Ctx
      reads this
    {
      Ctx(inbound, lastSeqno, accepted)
    }

    ghost predicate Valid()
      reads this, window
    {
      View().Ok() && (inbound ==> Records(window[..], seqnoIndex, View()))
    }

    constructor (inbound: bool, aead: Aead)
      ensures Valid() && View() == NewCtx(inbound) && this.aead == aead && fresh(window)
    {
      this.inbound, this.aead := inbound, aead;
      lastSeqno, seqnoIndex, accepted := 0, 0, {};
      var w := new bv8[if inbound then WINDOW_SIZE / 8 + 1 else 0](_ => 0);
      window := w;
      new;
      forall p | inbound && 0 <= p < WINDOW_SIZE ensures !WindowBit(window[..], p) {
        assert window[..][p / 8] == 0;
      }
    }

    method SetWindowBit(index: nat, on: bool)
      requires index / 8 < window.Length
      modifies window
      ensures forall p | 0 <= p && p / 8 < window.Length ::
                WindowBit(window[..], p) == if p == index then on else old(WindowBit(window[..], p))
    {
      var i := index / 8;
      window[i] := SetBit(window[i], index % 8, on);
      forall p | 0 <= p && p / 8 < window.Length
        ensures WindowBit(window[..], p) == if p == index then on else old(WindowBit(window[..], p))
      {
        SetThenGet(old(window[i]), index % 8, on, p % 8);
      }
    }

    method GetWindowBit(index: nat) returns (on: bool)
      requires index / 8 < window.Length
      ensures on == WindowBit(window[..], index)
      // in a valid context that says whether the number this far behind the highest was accepted
      ensures Valid() && inbound && index < WINDOW_SIZE ==> (on <==> lastSeqno - Behind(seqnoIndex, index) in accepted)
    {
      on := GetBit(window[index / 8], index % 8);
    }

    /** The bit at a number's position tells whether the number was accepted. */
    method CheckWindow(seqno: uint32) returns (unseen: bool)
      requires Valid() && inbound && seqno <= lastSeqno && lastSeqno - seqno < WINDOW_SIZE
      ensures unseen <==> seqno !in accepted
    {
      hide Records, WindowBit, Behind;
      var offset := Sub32(lastSeqno, seqno);
      WrapIsHarmless(seqnoIndex, offset);
      RecordsAt(window[..], seqnoIndex, View(), lastSeqno - seqno);
      offset := Sub32(seqnoIndex, offset) % WINDOW_SIZE;
      var on := GetWindowBit(offset);
      unseen := !on;
    }

    method VerifySeqno(seqno: uint32) returns (ok: bool)
      requires Valid()
      ensures ok <==> View().Verifies(seqno)
    {
      if !inbound {
        return false;
      }
      if seqno > lastSeqno {
        return true;
      } else if seqno > 0 && WINDOW_SIZE > Sub32(lastSeqno, seqno) {
        ok := CheckWindow(seqno);
      } else {
        return false;
      }
    }

    /** Moves the head of the window forward, forgetting the numbers it passes over. */
    method Shift(shift: nat)
      requires inbound && window.Length == WINDOW_SIZE / 8 + 1 && seqnoIndex < WINDOW_SIZE && shift <= WINDOW_SIZE
      modifies window, `seqnoIndex
      ensures seqnoIndex < WINDOW_SIZE && seqnoIndex == (old(seqnoIndex) + shift) % WINDOW_SIZE
      ensures forall p | 0 <= p < WINDOW_SIZE :: WindowBit(window[..], p) <==>
                Behind(seqnoIndex, p) >= shift && old(WindowBit(window[..], p))
    {
      hide WindowBit, Behind;
      var i := 0;
      Wrap(seqnoIndex);
      while i < shift
        invariant i <= shift && seqnoIndex < WINDOW_SIZE && seqnoIndex == (old(seqnoIndex) + i) % WINDOW_SIZE
        invariant forall p | 0 <= p < WINDOW_SIZE :: WindowBit(window[..], p) <==>
                    Behind(seqnoIndex, p) >= i && old(WindowBit(window[..], p))
      {
        forall p | 0 <= p < WINDOW_SIZE { BehindNext(seqnoIndex, p); }
        WrapNext(old(seqnoIndex), i);
        seqnoIndex := (seqnoIndex + 1) % WINDOW_SIZE;
        SetWindowBit(seqnoIndex, false);
        i := i + 1;
      }
    }

    method Advance(seqno: uint32)
      requires View().Ok() && inbound && Records(window[..], seqnoIndex, View()) && seqno > lastSeqno
      modifies window, `seqnoIndex, `lastSeqno
      ensures Records(window[..], seqnoIndex, old(View()).Accept(seqno)) && lastSeqno == seqno
    {
      assert window.Length == WINDOW_SIZE / 8 + 1 && seqnoIndex < WINDOW_SIZE;
      hide Records, Behind, WindowBit;
      var shift := Sub32(seqno, lastSeqno);
      shift := if shift < WINDOW_SIZE then shift else WINDOW_SIZE;
      Shift(shift);
      SetWindowBit(seqnoIndex, true);
      lastSeqno := seqno;
      AdvanceRecords(old(window[..]), window[..], old(seqnoIndex), old(View()), seqno, shift, seqnoIndex);
    }

    method Mark(seqno: uint32)
      requires inbound && Records(window[..], seqnoIndex, View()) && seqno <= lastSeqno < seqno + WINDOW_SIZE
      modifies window
      ensures Records(window[..], seqnoIndex, View().Accept(seqno))
    {
      hide Records, WindowBit, Behind;
      RecordsAt(window[..], seqnoIndex, View(), lastSeqno - seqno);
      var i := Sub32(lastSeqno, seqno);
      WrapIsHarmless(seqnoIndex, i);
      SetWindowBit(Sub32(seqnoIndex, i) % WINDOW_SIZE, true);
      InsideRecords(old(window[..]), window[..], seqnoIndex, View(), seqno);
    }

    /** The number must have been verified immediately before, as the interface demands. */
    method SetAuthenticatedSeqno(seqno: uint32)
      requires Valid() && (inbound ==> View().Verifies(seqno))
      modifies this, window
      ensures Valid() && View() == old(View()).Accept(seqno)
    {
      if !inbound {
        return;
      }
      AcceptOk(View(), seqno);
      hide Records;
      if seqno > lastSeqno {
        Advance(seqno);
      } else {
        Mark(seqno);
      }
      accepted := accepted + {seqno};
    }

    method NextSeqno() returns (seqno: Option<uint32>)
      requires Valid()
      modifies this
      ensures Valid() && seqno == old(View()).Next() && accepted == old(accepted)
      ensures lastSeqno == if seqno.Some? then seqno.value else old(lastSeqno)
    {
      if inbound || lastSeqno == 0xffff_ffff {
        return None;
      }
      lastSeqno := lastSeqno + 1;
      return Some(lastSeqno);
    }
  }

  // -------------------------------------------------------------- whole runs

  /** A run of verify-then-set on an inbound context, with the numbers it accepted in order. */
  function Receive(seqnos: seq<uint32>): (Ctx, seq<uint32>) {
    if seqnos == [] then (NewCtx(true), [])
    else
      var s := seqnos[|seqnos| - 1];
      var (c, got) := Receive(seqnos[..|seqnos| - 1]);
      if c.Verifies(s) then (c.Accept(s), got + [s]) else (c, got)
  }

  function Highest(s: seq<uint32>): uint32 { if s == [] then 0 else Max(s[0], Highest(s[1..])) }

  lemma HighestAppend(s: seq<uint32>, x: uint32)
    ensures Highest(s + [x]) == Max(Highest(s), x)
  {
    if s != [] {
      assert (s + [x])[1..] == s[1..] + [x];
    }
  }

  /**
   * However numbers arrive, each is accepted at most once, and the next check
   * succeeds exactly for a number that is positive, less than a window behind the
   * highest accepted one, and was never accepted before.
   */
  lemma {:induction false} ReplayRun(seqnos: seq<uint32>)
    ensures var (c, got) := Receive(seqnos);
      && c.inbound && c.Ok()
      && (forall i, j | 0 <= i < j < |got| :: got[i] != got[j])
      && (forall s :: s in c.accepted <==> s in got)
      && c.last == Highest(got)
    ensures forall s: uint32 ::
              Receive(seqnos).0.Verifies(s) <==>
              s >= 1 && s + WINDOW_SIZE > Highest(Receive(seqnos).1) && s !in Receive(seqnos).1
  {
    if seqnos != [] {
      ReplayRun(seqnos[..|seqnos| - 1]);
      HighestAppend(Receive(seqnos[..|seqnos| - 1]).1, seqnos[|seqnos| - 1]);
    }
  }

  /**
   * The ring itself over any list of received numbers: it takes the numbers that
   * ReplayRun is about, and goes through the same states.
   */
  method ReceiveAll(ctx: EspContext, seqnos: seq<uint32>) returns (got: seq<uint32>)
    requires ctx.Valid() && ctx.View() == NewCtx(true)
    modifies ctx, ctx.window
    ensures ctx.Valid() && (ctx.View(), got) == Receive(seqnos)
  {
    got := [];
    var i := 0;
    while i < |seqnos|
      invariant i <= |seqnos| && ctx.Valid() && (ctx.View(), got) == Receive(seqnos[..i])
    {
      assert seqnos[..i + 1][..i] == seqnos[..i];
      var fresh' := ctx.VerifySeqno(seqnos[i]);
      if fresh' {
        ctx.SetAuthenticatedSeqno(seqnos[i]);
        got := got + [seqnos[i]];
      }
      i := i + 1;
    }
    assert seqnos[..i] == seqnos;
  }
}
