/**
 * RADIUS attribute hiding (section 5.2 of RFC 2865, section 2.4.2 of RFC 2548).
 * One routine both encrypts and decrypts: it hashes the block it finds in its
 * input buffer after changing its output buffer, so what it does depends on
 * whether the two are the same.
 */
module RadiusCrypt {
  import opened Chunk

  const BLOCK: nat := 16

  // ---------------------------------------------------------- exclusive or

  function Pow2(n: nat): nat { if n == 0 then 1 else 2 * Pow2(n - 1) }

  function XorBits(a: nat, b: nat, n: nat): (r: nat)
    ensures r < Pow2(n)
  {
    if n == 0 then 0 else (a + b) % 2 + 2 * XorBits(a / 2, b / 2, n - 1)
  }

  lemma Parity(a: nat, b: nat, q: nat)
    ensures var r := (a + b) % 2 + 2 * q; r / 2 == q && (r + b) % 2 == a % 2
  {
    var r, k := (a + b) % 2 + 2 * q, (a + b) / 2;
    DivModUnique(r, 2, q, (a + b) % 2);
    assert r + b == 2 * (q + b - k + a / 2) + a % 2;
    DivModUnique(r + b, 2, q + b - k + a / 2, a % 2);
  }

  lemma XorStep(a: nat, b: nat, n: nat)
    requires n > 0
    ensures XorBits(a, b, n) == (a + b) % 2 + 2 * XorBits(a / 2, b / 2, n - 1)
    ensures a < Pow2(n) ==> a / 2 < Pow2(n - 1)
  {
  }

  lemma XorNone(a: nat, b: nat)
    ensures XorBits(a, b, 0) == 0 && Pow2(0) == 1
  {
  }

  lemma {:induction false} XorBitsTwice(a: nat, b: nat, n: nat)
    requires a < Pow2(n)
    ensures XorBits(XorBits(a, b, n), b, n) == a
  {
    hide XorBits, Pow2;
    XorNone(a, b);
    if n > 0 {
      var q := XorBits(a / 2, b / 2, n - 1);
      var r := (a + b) % 2 + 2 * q;
      XorStep(a, b, n);
      XorStep(r, b, n);
      Parity(a, b, q);
      XorBitsTwice(a / 2, b / 2, n - 1);
    }
  }

  function Xor(a: byte, b: byte): byte {
    assert Pow2(8) == 0x100;
    XorBits(a, b, 8)
  }

  lemma XorTwice(a: byte, b: byte)
    ensures Xor(Xor(a, b), b) == a
  {
    assert Pow2(8) == 0x100;
    XorBitsTwice(a, b, 8);
  }

  /** Bit i of a number. */
  function Bit(x: nat, i: nat): nat { if i == 0 then x % 2 else Bit(x / 2, i - 1) }

  lemma {:induction false} XorBitsAt(a: nat, b: nat, n: nat, i: nat)
    requires i < n
    ensures Bit(XorBits(a, b, n), i) == (Bit(a, i) + Bit(b, i)) % 2
  {
    hide XorBits;
    XorStep(a, b, n);
    var q := XorBits(a / 2, b / 2, n - 1);
    Parity(a, b, q);
    if i == 0 {
      ParityOf(a, b, q);
    } else {
      XorBitsAt(a / 2, b / 2, n - 1, i - 1);
    }
  }

  lemma ParityOf(a: nat, b: nat, q: nat)
    ensures ((a + b) % 2 + 2 * q) % 2 == (a % 2 + b % 2) % 2
  {
    DivModUnique((a + b) % 2 + 2 * q, 2, q, (a + b) % 2);
    var s := a % 2 + b % 2;
    DivModUnique(a + b, 2, a / 2 + b / 2 + s / 2, s % 2);
  }

  /** Each bit of the exclusive or is set if exactly one of the two is. */
  lemma XorIsXor(a: byte, b: byte, i: nat)
    requires i < 8
    ensures Bit(Xor(a, b), i) == 1 <==> (Bit(a, i) == 1) != (Bit(b, i) == 1)
  {
    XorBitsAt(a, b, 8, i);
    BitIsBit(a, i);
    BitIsBit(b, i);
  }

  lemma {:induction false} BitIsBit(x: nat, i: nat)
    ensures Bit(x, i) == 0 || Bit(x, i) == 1
  {
    if i > 0 {
      BitIsBit(x / 2, i - 1);
    }
  }

  function XorSeq(a: seq<byte>, b: seq<byte>): seq<byte>
    requires |a| == |b|
  {
    seq(|a|, i requires 0 <= i < |a| => Xor(a[i], b[i]))
  }

  lemma XorSeqTwice(a: seq<byte>, b: seq<byte>)
    requires |a| == |b|
    ensures XorSeq(XorSeq(a, b), b) == a
  {
    forall i | 0 <= i < |a| { XorTwice(a[i], b[i]); }
  }

  // ------------------------------------------------------------- the chains

  /** Any hash; it may fail, and only 16-byte results are taken. */
  datatype Hasher = Hasher(hash: seq<byte> -> Option<seq<byte>>) {
    function Digest(data: seq<byte>): (r: Option<seq<byte>>)
      ensures r.Some? ==> |r.value| == BLOCK
    {
      var b := hash(data);
      if b.Some? && |b.value| == BLOCK then b else None
    }

    /** The pad for the block after the given cipher block. */
    function Pad(secret: seq<byte>, block: seq<byte>): (r: Option<seq<byte>>)
      ensures r.Some? ==> |r.value| == BLOCK
    {
      Digest(secret + block)
    }
  }

  /** RFC 2548: every cipher block is the plain block xor the hash of the cipher block before it. */
  function Encrypted(h: Hasher, secret: seq<byte>, pad: seq<byte>, plain: seq<byte>): (r: Option<seq<byte>>)
    requires |pad| == BLOCK
    ensures r.Some? && |plain| % BLOCK == 0 ==> |r.value| == |plain|
    decreases |plain|
  {
    if |plain| < BLOCK then Some([])
    else
      var block := XorSeq(plain[..BLOCK], pad);
      if |plain| == BLOCK then Some(block)
      else
        var next := h.Pad(secret, block);
        if next.None? then None
        else
          var rest := Encrypted(h, secret, next.value, plain[BLOCK..]);
          if rest.None? then None else Some(block + rest.value)
  }

  /** The inverse: the pads come from the cipher blocks received. */
  function Decrypted(h: Hasher, secret: seq<byte>, pad: seq<byte>, cipher: seq<byte>): (r: Option<seq<byte>>)
    requires |pad| == BLOCK
    ensures r.Some? && |cipher| % BLOCK == 0 ==> |r.value| == |cipher|
    decreases |cipher|
  {
    if |cipher| < BLOCK then Some([])
    else
      var block := XorSeq(cipher[..BLOCK], pad);
      if |cipher| == BLOCK then Some(block)
      else
        var next := h.Pad(secret, cipher[..BLOCK]);
        if next.None? then None
        else
          var rest := Decrypted(h, secret, next.value, cipher[BLOCK..]);
          if rest.None? then None else Some(block + rest.value)
  }

  lemma {:induction false} DecryptedEncrypted(h: Hasher, secret: seq<byte>, pad: seq<byte>, plain: seq<byte>)
    requires |pad| == BLOCK && |plain| % BLOCK == 0 && Encrypted(h, secret, pad, plain).Some?
    ensures Decrypted(h, secret, pad, Encrypted(h, secret, pad, plain).value) == Some(plain)
    decreases |plain|
  {
    if |plain| >= BLOCK {
      var block := XorSeq(plain[..BLOCK], pad);
      XorSeqTwice(plain[..BLOCK], pad);
      if |plain| > BLOCK {
        var next := h.Pad(secret, block).value;
        var rest := Encrypted(h, secret, next, plain[BLOCK..]).value;
        DecryptedEncrypted(h, secret, next, plain[BLOCK..]);
        var cipher := block + rest;
        assert cipher[..BLOCK] == block && cipher[BLOCK..] == rest;
        assert plain == plain[..BLOCK] + plain[BLOCK..];
      } else {
        assert plain[..BLOCK] == plain && block[..BLOCK] == block;
      }
    } else {
      assert plain == [];
    }
  }

  // ------------------------------------------------------------ the routine

  /** The chain the routine computes, by whether its buffers are the same. */
  function Chain(same: bool, h: Hasher, secret: seq<byte>, pad: seq<byte>, data: seq<byte>): (r: Option<seq<byte>>)
    requires |pad| == BLOCK
  {
    if same then Encrypted(h, secret, pad, data) else Decrypted(h, secret, pad, data)
  }

  /** One block of the chain. */
  lemma ChainStep(same: bool, h: Hasher, secret: seq<byte>, pad: seq<byte>, data: seq<byte>)
    requires |pad| == BLOCK && |data| >= BLOCK && |data| % BLOCK == 0
    ensures var block := XorSeq(data[..BLOCK], pad);
      var next := h.Pad(secret, if same then block else data[..BLOCK]);
      Chain(same, h, secret, pad, data) ==
        if |data| == BLOCK then Some(block)
        else if next.None? then None
        else Prepend(block, Chain(same, h, secret, next.value, data[BLOCK..]))
  {
  }

  /** memxor of one block into the buffer. */
  method XorInto(out: array<byte>, at: nat, pad: seq<byte>)
    requires |pad| == BLOCK && at + BLOCK <= out.Length
    modifies out
    ensures out[..at] == old(out[..at]) && out[at + BLOCK..] == old(out[at + BLOCK..])
    ensures out[at..at + BLOCK] == XorSeq(old(out[at..at + BLOCK]), pad)
  {
    var i := 0;
    while i < BLOCK
      invariant i <= BLOCK
      invariant forall k | 0 <= k < out.Length ::
                  out[k] == if at <= k < at + i then Xor(old(out[k]), pad[k - at]) else old(out[k])
    {
      out[at + i] := Xor(out[at + i], pad[i]);
      i := i + 1;
    }
  }

  /** radius_message_t.crypt; seed is the authenticator followed by the salt. */
  method Crypt(h: Hasher, secret: seq<byte>, seed: seq<byte>, inp: array<byte>, out: array<byte>) returns (ok: bool)
    modifies out
    ensures ok ==> inp.Length == out.Length >= BLOCK && out.Length % BLOCK == 0
    ensures inp.Length == out.Length >= BLOCK && out.Length % BLOCK == 0 ==>
      var pad := h.Pad(secret, seed);
      var r := if pad.None? then None else Chain(inp == out, h, secret, pad.value, old(inp[..]));
      ok == r.Some? && (ok ==> out[..] == r.value)
  {
    hide Chain, XorSeq, Hasher.Pad, Prepend;
    if inp.Length != out.Length || inp.Length % BLOCK != 0 || inp.Length < BLOCK {
      return false;
    }
    var n := inp.Length;
    ghost var data, same := inp[..], inp == out;
    if out != inp {
      Copy(inp, out);
    }
    var pad := h.Pad(secret, seed);
    if pad.None? {
      return false;
    }
    ghost var whole := Chain(same, h, secret, pad.value, data);
    var i := 0;
    assert data[0..] == data && out[..0] == [];
    PrependNothing(whole);
    while i < n
      invariant 0 <= i <= n && i % BLOCK == 0 && pad.Some? && |pad.value| == BLOCK
      invariant out[i..] == data[i..] && (!same ==> inp[..] == data)
      invariant i < n ==> whole == Prepend(out[..i], Chain(same, h, secret, pad.value, data[i..]))
      invariant i == n ==> whole == Some(out[..])
    {
      ghost var done, rest := out[..i], data[i..];
      ghost var block := XorSeq(rest[..BLOCK], pad.value);
      ChainStep(same, h, secret, pad.value, rest);
      assert rest[..BLOCK] == out[i..][..BLOCK] == out[i..i + BLOCK];
      XorInto(out, i, pad.value);
      assert out[..i + BLOCK] == done + block && out[i..i + BLOCK] == block;
      if i + BLOCK < n {
        assert !same ==> inp[i..i + BLOCK] == rest[..BLOCK];
        pad := h.Pad(secret, inp[i..i + BLOCK]);
        if pad.None? {
          PrependTo(done, block);
          return false;
        }
        PrependTwice(done, block, Chain(same, h, secret, pad.value, rest[BLOCK..]));
        assert rest[BLOCK..] == data[i + BLOCK..];
      } else {
        PrependTo(done, block);
        assert out[..n] == out[..];
      }
      assert out[i + BLOCK..] == rest[BLOCK..] == data[i + BLOCK..];
      i := i + BLOCK;
    }
    return true;
  }

  function Prepend(done: seq<byte>, rest: Option<seq<byte>>): Option<seq<byte>> {
    if rest.None? then None else Some(done + rest.value)
  }

  lemma PrependNothing(r: Option<seq<byte>>)
    ensures Prepend([], r) == r
  {
    assert r.Some? ==> [] + r.value == r.value;
  }

  lemma PrependTo(done: seq<byte>, block: seq<byte>)
    ensures Prepend(done, None) == None && Prepend(done, Some(block)) == Some(done + block)
  {
  }

  lemma PrependTwice(done: seq<byte>, block: seq<byte>, rest: Option<seq<byte>>)
    ensures Prepend(done, Prepend(block, rest)) == Prepend(done + block, rest)
  {
    if rest.Some? {
      assert done + (block + rest.value) == (done + block) + rest.value;
    }
  }

  method Copy(from: array<byte>, to: array<byte>)
    requires from.Length == to.Length && from != to
    modifies to
    ensures to[..] == from[..]
  {
    forall i | 0 <= i < to.Length { to[i] := from[i]; }
  }

  // --------------------------------------------------------------- MPPE keys

  /** The key inside a decrypted MPPE key attribute: a length byte, the key, and filling. */
  function KeyIn(plain: seq<byte>): seq<byte> {
    if plain == [] || plain[0] >= |plain| then [] else plain[1..1 + plain[0]]
  }

  /** decrypt_mppe_key: decrypts into a separate buffer. */
  method DecryptMppeKey(h: Hasher, secret: seq<byte>, seed: seq<byte>, cipher: array<byte>) returns (key: seq<byte>)
    ensures
      var pad := h.Pad(secret, seed);
      key ==
        if cipher.Length < BLOCK || cipher.Length % BLOCK != 0 || pad.None? then []
        else
          var plain := Decrypted(h, secret, pad.value, cipher[..]);
          if plain.None? then [] else KeyIn(plain.value)
  {
    hide Encrypted, Decrypted, Hasher.Pad;
    var decrypted := new byte[cipher.Length];
    var ok := Crypt(h, secret, seed, cipher, decrypted);
    if !ok || decrypted[0] as int >= decrypted.Length {
      return [];
    }
    return decrypted[1..1 + decrypted[0]];
  }

  /** Whatever key was put in comes out again, for every hash, secret, authenticator and salt. */
  lemma MppeKeyRecovered(h: Hasher, secret: seq<byte>, pad: seq<byte>, key: seq<byte>, filling: seq<byte>)
    requires |pad| == BLOCK && |key| < 0x100 && (1 + |key| + |filling|) % BLOCK == 0
    requires Encrypted(h, secret, pad, [|key|] + key + filling).Some?
    ensures var cipher := Encrypted(h, secret, pad, [|key|] + key + filling).value;
      Decrypted(h, secret, pad, cipher).Some? && KeyIn(Decrypted(h, secret, pad, cipher).value) == key
  {
    DecryptedEncrypted(h, secret, pad, [|key|] + key + filling);
  }

  // ------------------------------------------------ the equations of RFC 2548

  /** The block c encrypts p under the hash of a text: byte for byte the exclusive or with it. */
  predicate Encrypts(h: Hasher, text: seq<byte>, p: seq<byte>, c: seq<byte>) {
    && h.hash(text).Some? && |h.hash(text).value| == |p| == |c| == 16
    && forall k | 0 <= k < 16 :: c[k] == Xor(p[k], h.hash(text).value[k])
  }

  lemma Shifted(block: seq<byte>, rest: seq<byte>, at: nat)
    requires |block| == 16 <= at && at <= |rest|
    ensures (block + rest)[at..at + 16] == rest[at - 16..at]
  {
  }

  lemma {:induction false} ChainBlock(h: Hasher, secret: seq<byte>, pad: seq<byte>, plain: seq<byte>, i: nat)
    requires |pad| == BLOCK && |plain| % BLOCK == 0 && 16 * i + 16 <= |plain| && Encrypted(h, secret, pad, plain).Some?
    ensures var c := Encrypted(h, secret, pad, plain).value;
      && |c| == |plain|
      && (i == 0 ==> c[..16] == XorSeq(plain[..16], pad))
      && (i > 0 ==> Encrypts(h, secret + c[16 * i - 16..16 * i], plain[16 * i..16 * i + 16], c[16 * i..16 * i + 16]))
    decreases i
  {
    var block := XorSeq(plain[..BLOCK], pad);
    var c := Encrypted(h, secret, pad, plain).value;
    if |plain| > BLOCK {
      var next := h.Pad(secret, block).value;
      var tail := plain[BLOCK..];
      var rest := Encrypted(h, secret, next, tail).value;
      hide Encrypted;
      assert c[..16] == block;
      if i > 0 {
        ChainBlock(h, secret, next, tail, i - 1);
        assert plain == plain[..BLOCK] + tail;
        Shifted(plain[..BLOCK], tail, 16 * i);
        Shifted(block, rest, 16 * i);
        if i > 1 {
          Shifted(block, rest, 16 * i - 16);
        }
      }
    }
  }

  /**
   * The first block is hidden with the hash of the secret and the seed, every other one
   * with the hash of the secret and the cipher block before it.
   */
  lemma ChainEquations(h: Hasher, secret: seq<byte>, seed: seq<byte>, plain: seq<byte>, i: nat)
    requires |plain| % BLOCK == 0 && 16 * i + 16 <= |plain|
    requires h.Pad(secret, seed).Some? && Encrypted(h, secret, h.Pad(secret, seed).value, plain).Some?
    ensures var c := Encrypted(h, secret, h.Pad(secret, seed).value, plain).value;
      && |c| == |plain|
      && Encrypts(h, secret + (if i == 0 then seed else c[16 * i - 16..16 * i]),
                  plain[16 * i..16 * i + 16], c[16 * i..16 * i + 16])
  {
    hide Encrypted;
    ChainBlock(h, secret, h.Pad(secret, seed).value, plain, i);
  }

  /** With a hash that never fails, hiding never does. */
  lemma {:induction false} EncryptedSucceeds(h: Hasher, secret: seq<byte>, pad: seq<byte>, plain: seq<byte>)
    requires |pad| == BLOCK && forall data :: h.hash(data).Some? && |h.hash(data).value| == 16
    ensures Encrypted(h, secret, pad, plain).Some? && forall seed :: h.Pad(secret, seed).Some?
    decreases |plain|
  {
    if |plain| > BLOCK {
      var block := XorSeq(plain[..BLOCK], pad);
      EncryptedSucceeds(h, secret, h.Pad(secret, block).value, plain[BLOCK..]);
    }
  }
}
