/** The ESP packet format of RFC 4303: encapsulation, padding and decapsulation. */
module EspPacket {
  import opened Chunk
  import opened Crypto
  import opened EspContext
  import opened IpPacket

  const PROTO_NONE: byte := 59
  const PROTO_IPIP: byte := 4
  const PROTO_IPV6: byte := 41

  datatype Status = SUCCESS | FAILED | NOT_FOUND | PARSE_ERROR | VERIFY_ERROR

  // ------------------------------------------------------------------ padding

  /** The monotonic padding 1, 2, 3, ... of section 2.4 of RFC 4303. */
  function Padding(n: nat): seq<byte> { seq(n, i requires 0 <= i => (i + 1) % 0x100) }

  /** First up to the block size, then until the ICV comes to lie on a 4-byte boundary. */
  function PadSize(payload: nat, blockSize: nat, ivSize: nat): nat
    requires blockSize > 0
  {
    var plain := payload + 2;
    var pad := PadLen(plain, blockSize);
    pad + PadLen(ivSize + plain + pad, 4)
  }

  function Plaintext(payload: seq<byte>, pad: nat, nextHeader: byte): seq<byte> {
    payload + Padding(pad) + [pad % 0x100, nextHeader]
  }

  method GeneratePadding(padding: array<byte>)
    modifies padding
    ensures padding[..] == Padding(padding.Length)
    ensures forall i | 0 <= i < padding.Length :: padding[i] == (i + 1) % 0x100
  {
    var i := 0;
    while i < padding.Length
      invariant i <= padding.Length && padding[..i] == Padding(i)
    {
      padding[i] := (i + 1) % 0x100;
      i := i + 1;
    }
  }

  method CheckPadding(padding: seq<byte>) returns (ok: bool)
    ensures ok <==> padding == Padding(|padding|)
    ensures ok <==> forall i | 0 <= i < |padding| :: padding[i] == (i + 1) % 0x100
  {
    var i := 0;
    while i < |padding|
      invariant i <= |padding| && forall j | 0 <= j < i :: padding[j] == (j + 1) % 0x100
    {
      if padding[i] != (i + 1) % 0x100 {
        assert padding[i] != Padding(|padding|)[i];
        return false;
      }
      i := i + 1;
    }
    return true;
  }

  /** The payload and next header inside a decrypted text. */
  function Unpad(plain: seq<byte>): Option<(IpPacket, byte)> {
    var n := |plain| - 2;
    if n < 0 then None
    else
      var pad := plain[n];
      if pad > n || plain[n - pad..n] != Padding(pad) then None
      else
        var p := Parse(plain[..n - pad]);
        if p.None? then None else Some((p.value, plain[n + 1]))
  }

  // ----------------------------------------------------- sealing and opening

  function Aad(spi: uint32, seqno: uint32): seq<byte> { Put32(spi) + Put32(seqno) }

  /** The packet for a payload and a sequence number. */
  function Seal(aead: Aead, spi: uint32, seqno: uint32, payload: seq<byte>, nextHeader: byte): (Status, seq<byte>)
    requires aead.blockSize > 0
  {
    if aead.ivGen.None? then (NOT_FOUND, [])
    else
      var iv := aead.ivGen.value(seqno);
      if iv.None? then (FAILED, [])
      else
        var plain := Plaintext(payload, PadSize(|payload|, aead.blockSize, |iv.value|), nextHeader);
        var cipher := aead.encrypt(plain, Aad(spi, seqno), iv.value);
        if cipher.None? then (FAILED, [])
        else (SUCCESS, Aad(spi, seqno) + iv.value + cipher.value)
  }

  /** The fields of a packet, and whether they can be read at all. */
  predicate Readable(aead: Aead, data: seq<byte>)
    requires aead.blockSize > 0
  {
    var rest := |data| - 8 - aead.ivSize - aead.icvSize;
    |data| >= 8 && rest >= 0 && rest % aead.blockSize == 0
  }

  function SeqnoOf(data: seq<byte>): uint32
    requires |data| >= 8
  {
    Get32(data, 4)
  }

  function Open(aead: Aead, data: seq<byte>): Option<seq<byte>>
    requires aead.blockSize > 0 && Readable(aead, data)
  {
    aead.decrypt(data[8 + aead.ivSize..], data[..8], data[8..8 + aead.ivSize])
  }

  datatype Opened = Opened(status: Status, ctx: Ctx, content: Option<(IpPacket, byte)>)

  /** What decrypt does with a packet: the outcome, the context after it and the content found. */
  function Decapsulate(aead: Aead, c: Ctx, data: seq<byte>): (o: Opened)
    requires aead.blockSize > 0
    ensures o.status == SUCCESS <==> o.content.Some?
  {
    if !Readable(aead, data) then Opened(PARSE_ERROR, c, None)
    else if !c.Verifies(SeqnoOf(data)) then Opened(VERIFY_ERROR, c, None)
    else
      var plain := Open(aead, data);
      if plain.None? then Opened(FAILED, c, None)
      else
        var content := Unpad(plain.value);
        Opened(if content.Some? then SUCCESS else PARSE_ERROR, c.Accept(SeqnoOf(data)), content)
  }

  /** The packet is long enough for its fields and holds a whole number of blocks. */
  predicate LongEnough(aead: Aead, data: seq<byte>)
    requires aead.blockSize > 0
  {
    |data| >= 8 + aead.ivSize + aead.icvSize && (|data| - 8 - aead.ivSize - aead.icvSize) % aead.blockSize == 0
  }

  /**
   * Decapsulation on the bytes of the packet: the replay window moves, by the number
   * in bytes 4 to 7, exactly if that number is still fresh and the AEAD accepts the
   * rest under the first eight bytes; nothing comes out otherwise, and each way to fail
   * has its status.
   */
  lemma AuthenticatedFirst(aead: Aead, c: Ctx, data: seq<byte>)
    requires aead.blockSize > 0
    ensures var o := Decapsulate(aead, c, data);
      if !LongEnough(aead, data) then o == Opened(PARSE_ERROR, c, None)
      else
        var seqno := data[4] as int * 0x100_0000 + data[5] as int * 0x1_0000 + data[6] as int * 0x100 + data[7] as int;
        var plain := aead.decrypt(data[8 + aead.ivSize..], data[..8], data[8..8 + aead.ivSize]);
        if !c.Verifies(seqno) then o == Opened(VERIFY_ERROR, c, None)
        else if plain.None? then o == Opened(FAILED, c, None)
        else
          && o.ctx == c.Accept(seqno)
          && (o.status == if o.content.Some? then SUCCESS else PARSE_ERROR)
          && (o.content.Some? ==> o.content.value.1 == plain.value[|plain.value| - 1])
  {
  }

  datatype Sealed = Sealed(status: Status, ctx: Ctx, data: seq<byte>)

  /** What encrypt does: the sequence number is used up even if a later step fails. */
  function Encapsulate(aead: Aead, c: Ctx, spi: uint32, payload: seq<byte>, nextHeader: byte): Sealed
    requires aead.blockSize > 0
  {
    match c.Next()
    case None => Sealed(FAILED, c, [])
    case Some(seqno) =>
      var (status, data) := Seal(aead, spi, seqno, payload, nextHeader);
      Sealed(status, c.(last := seqno), data)
  }

  class EspPacket {
    var data: seq<byte>
    var payload: Option<IpPacket>
    var nextHeader: byte

    /** From a received packet. */
    constructor FromPacket(data: seq<byte>)
      ensures this.data == data && payload == None && nextHeader == PROTO_NONE
    {
      this.data, payload, nextHeader := data, None, PROTO_NONE;
    }

    /** Around a payload, or as a dummy packet. */
    constructor FromPayload(payload: Option<IpPacket>)
      ensures data == [] && this.payload == payload && nextHeader == NextHeaderFor(payload)
    {
      data, this.payload := [], payload;
      nextHeader := NextHeaderFor(payload);
    }

    method Encrypt(ctx: EspContext, spi: uint32) returns (status: Status)
      requires ctx.Valid() && ctx.aead.blockSize > 0
      modifies this, ctx
      ensures ctx.Valid() && payload == old(payload) && nextHeader == old(nextHeader)
      ensures Sealed(status, ctx.View(), data) ==
              Encapsulate(ctx.aead, old(ctx.View()), spi, PayloadBytes(payload), nextHeader)
    {
      data := [];
      var seqno := ctx.NextSeqno();
      if seqno.None? {
        return FAILED;
      }
      var aead := ctx.aead;
      if aead.ivGen.None? {
        return NOT_FOUND;
      }
      var bytes := PayloadBytes(payload);
      var iv := aead.ivGen.value(seqno.value);
      if iv.None? {
        return FAILED;
      }
      var plainlen := |bytes| + 2;
      var padlen := PadLen(plainlen, aead.blockSize);
      padlen := padlen + PadLen(|iv.value| + plainlen + padlen, 4);
      var padding := new byte[padlen];
      GeneratePadding(padding);
      var padByte: byte := padlen % 0x100;
      var plain := bytes + padding[..] + [padByte, nextHeader];
      var cipher := aead.encrypt(plain, Aad(spi, seqno.value), iv.value);
      if cipher.None? {
        return FAILED;
      }
      data := Put32(spi) + Put32(seqno.value) + iv.value + cipher.value;
      return SUCCESS;
    }

    method Decrypt(ctx: EspContext) returns (status: Status)
      requires ctx.Valid() && ctx.aead.blockSize > 0
      modifies this, ctx, ctx.window
      ensures ctx.Valid() && data == old(data)
      ensures var o := Decapsulate(ctx.aead, old(ctx.View()), data);
        && status == o.status && ctx.View() == o.ctx
        && payload == (if o.content.Some? then Some(o.content.value.0) else None)
        && nextHeader == (if o.content.Some? then o.content.value.1 else old(nextHeader))
    {
      payload := None;
      var aead := ctx.aead;
      if |data| < 8 + aead.ivSize + aead.icvSize
         || (|data| - 8 - aead.ivSize - aead.icvSize) % aead.blockSize != 0 {
        return PARSE_ERROR;
      }
      var seqno := Get32(data, 4);
      var fresh' := ctx.VerifySeqno(seqno);
      if !fresh' {
        return VERIFY_ERROR;
      }
      var plain := aead.decrypt(data[8 + aead.ivSize..], data[..8], data[8..8 + aead.ivSize]);
      if plain.None? {
        return FAILED;
      }
      ctx.SetAuthenticatedSeqno(seqno);
      var ok := RemovePadding(plain.value);
      return if ok then SUCCESS else PARSE_ERROR;
    }

    method RemovePadding(plain: seq<byte>) returns (ok: bool)
      requires payload == None
      modifies this
      ensures data == old(data) && ok == Unpad(plain).Some?
      ensures payload == (if ok then Some(Unpad(plain).value.0) else None)
      ensures nextHeader == (if ok then Unpad(plain).value.1 else old(nextHeader))
    {
      var n := |plain| - 2;
      if n < 0 {
        return false;
      }
      var pad := plain[n];
      if pad > n {
        return false;
      }
      var good := CheckPadding(plain[n - pad..n]);
      if !good {
        return false;
      }
      var p := Create(plain[..n - pad]);
      payload := p;
      if p.None? {
        return false;
      }
      nextHeader := plain[n + 1];
      return true;
    }
  }

  function PayloadBytes(payload: Option<IpPacket>): seq<byte> {
    if payload.Some? then payload.value.packet else []
  }

  function NextHeaderFor(payload: Option<IpPacket>): byte {
    if payload.None? then PROTO_NONE else if payload.value.version == 4 then PROTO_IPIP else PROTO_IPV6
  }

  // ------------------------------------------------------------- round trips

  /** Which block and IV sizes keep the text a whole number of blocks, whatever the payload. */
  predicate Compatible(blockSize: nat, ivSize: nat) {
    blockSize == 1 || (blockSize == 2 && ivSize % 2 == 0) || (blockSize % 4 == 0 && ivSize % 4 == 0)
  }

  predicate Blocks(payload: nat, blockSize: nat, ivSize: nat)
    requires blockSize > 0
  {
    (payload + 2 + PadSize(payload, blockSize, ivSize)) % blockSize == 0
  }

  /** The ICV always comes to lie on a 4-byte boundary. */
  lemma IcvAligned(payload: nat, blockSize: nat, ivSize: nat)
    requires blockSize > 0
    ensures (8 + ivSize + payload + 2 + PadSize(payload, blockSize, ivSize)) % 4 == 0
  {
    var n := ivSize + payload + 2 + PadLen(payload + 2, blockSize);
    PadReaches(n, 4);
  }

  lemma FourDivides(m: nat, blockSize: nat)
    requires blockSize > 0 && blockSize % 4 == 0 && m % blockSize == 0
    ensures m % 4 == 0
  {
    var k, q := blockSize / 4, m / blockSize;
    assert m == (4 * k) * q == 4 * (k * q);
    DivModUnique(m, 4, k * q, 0);
  }

  lemma EvenPad(m: nat)
    requires m % 2 == 0
    ensures PadLen(m, 4) == 0 || PadLen(m, 4) == 2
  {
    var h := m / 2;
    DivModUnique(m, 4, h / 2, 2 * (h % 2));
  }

  lemma SmallBlocks(payload: nat, ivSize: nat)
    ensures Blocks(payload, 1, ivSize) && PadSize(payload, 1, ivSize) <= 3
    ensures ivSize % 2 == 0 ==> Blocks(payload, 2, ivSize) && PadSize(payload, 2, ivSize) <= 4
  {
    hide PadLen;
    var n := payload + 2;
    PadReaches(n, 1);
    PadReaches(ivSize + n + PadLen(n, 1), 4);
    PadReaches(n, 2);
    if ivSize % 2 == 0 {
      EvenPad(ivSize + n + PadLen(n, 2));
    }
  }

  lemma WordBlocks(payload: nat, blockSize: nat, ivSize: nat)
    requires blockSize > 0 && blockSize % 4 == 0 && ivSize % 4 == 0
    ensures Blocks(payload, blockSize, ivSize) && PadSize(payload, blockSize, ivSize) < blockSize
  {
    var n := payload + 2;
    var pad := PadLen(n, blockSize);
    NoSecondPad(n + pad, ivSize) by {
      PadReaches(n, blockSize);
      FourDivides(n + pad, blockSize);
    }
    hide PadLen;
    PadReaches(n, blockSize);
  }

  lemma NoSecondPad(m: nat, ivSize: nat)
    requires m % 4 == 0 && ivSize % 4 == 0
    ensures PadLen(ivSize + m, 4) == 0
  {
    SumMod4(ivSize, m);
  }

  lemma CompatibleBlocks(payload: nat, blockSize: nat, ivSize: nat)
    requires blockSize > 0 && Compatible(blockSize, ivSize)
    ensures Blocks(payload, blockSize, ivSize)
    ensures blockSize <= 256 ==> PadSize(payload, blockSize, ivSize) <= 255
  {
    hide Blocks, PadSize;
    SmallBlocks(payload, ivSize);
    if blockSize % 4 == 0 {
      WordBlocks(payload, blockSize, ivSize);
    }
  }

  /** A text of q whole blocks that the second stage makes longer by less than a block. */
  lemma BrokenBlocks(m: nat, q: nat, blockSize: nat, ivSize: nat)
    requires blockSize > 0 && m == blockSize * q && m >= 2 && 0 < PadLen(ivSize + m, 4) < blockSize
    ensures !Blocks(m - 2, blockSize, ivSize)
  {
    DivModUnique(m, blockSize, q, 0);
    DivModUnique(m + PadLen(ivSize + m, 4), blockSize, q, PadLen(ivSize + m, 4));
  }

  /** Two multiples of two, or four of three, meet every case of the IV size. */
  lemma TinyWitness(blockSize: nat, ivSize: nat) returns (payload: nat)
    requires (blockSize == 2 && ivSize % 2 == 1) || blockSize == 3
    ensures !Blocks(payload, blockSize, ivSize)
  {
    var r := ivSize % 4;
    OddMod4(ivSize);
    var q := if blockSize == 2 then if r == 1 then 1 else 2 else r + 1;
    var m := if blockSize == 2 then 2 * q else 3 * q;
    SumMod4(ivSize, m);
    payload := m - 2;
    hide Blocks;
    BrokenBlocks(m, q, blockSize, ivSize);
  }

  lemma OddMod4(n: nat)
    ensures n % 2 == 1 ==> n % 4 == 1 || n % 4 == 3
  {
    var q, r := n / 4, n % 4;
    DivModUnique(n, 2, 2 * q + r / 2, r % 2);
  }

  lemma LargeWitness(blockSize: nat, ivSize: nat) returns (payload: nat)
    requires blockSize >= 4 && !(blockSize % 4 == 0 && ivSize % 4 == 0)
    ensures !Blocks(payload, blockSize, ivSize)
  {
    hide Blocks;
    SumMod4(ivSize, blockSize);
    if (ivSize + blockSize) % 4 == 0 {
      SumMod4(ivSize + blockSize, blockSize);
      payload := 2 * blockSize - 2;
      BrokenBlocks(2 * blockSize, 2, blockSize, ivSize);
    } else {
      payload := blockSize - 2;
      BrokenBlocks(blockSize, 1, blockSize, ivSize);
    }
  }

  /** For every other pair of sizes some payload length breaks the alignment. */
  lemma IncompatibleWitness(blockSize: nat, ivSize: nat) returns (payload: nat)
    requires blockSize > 0 && !Compatible(blockSize, ivSize)
    ensures !Blocks(payload, blockSize, ivSize)
  {
    hide Blocks;
    if blockSize < 4 {
      assert blockSize == 2 ==> ivSize % 2 == 1;
      payload := TinyWitness(blockSize, ivSize);
    } else {
      payload := LargeWitness(blockSize, ivSize);
    }
  }

  /** The two padding stages never get in each other's way exactly for these sizes. */
  lemma CompatibleExactly(blockSize: nat, ivSize: nat)
    requires blockSize > 0
    ensures Compatible(blockSize, ivSize) <==> forall payload: nat :: Blocks(payload, blockSize, ivSize)
  {
    if Compatible(blockSize, ivSize) {
      forall payload: nat ensures Blocks(payload, blockSize, ivSize) {
        CompatibleBlocks(payload, blockSize, ivSize);
      }
    } else {
      var payload := IncompatibleWitness(blockSize, ivSize);
    }
  }

  /** The pad length is one byte: of longer padding, a multiple of 256 bytes is taken for payload. */
  function Kept(pad: nat): seq<byte> { Padding(pad / 0x100 * 0x100) }

  /** Removing padding leaves the payload, with the part of the padding that is not counted behind it. */
  lemma UnpadPlaintext(payload: seq<byte>, pad: nat, nextHeader: byte)
    ensures var p := Parse(payload + Kept(pad));
      Unpad(Plaintext(payload, pad, nextHeader)) == if p.Some? then Some((p.value, nextHeader)) else None
  {
    hide Parse;
    var q, r := pad / 0x100, pad % 0x100;
    var plain := Plaintext(payload, pad, nextHeader);
    var n := |plain| - 2;
    PaddingSplit(q, r);
    assert plain[n] == r && plain[n + 1] == nextHeader;
    assert plain[n - r..n] == Padding(r) && plain[..n - r] == payload + Kept(pad);
  }

  lemma PaddingByte(q: nat, i: nat)
    requires i < 0x100
    ensures (0x100 * q + i + 1) % 0x100 == (i + 1) % 0x100
  {
    if i + 1 < 0x100 {
      DivModUnique(0x100 * q + i + 1, 0x100, q, i + 1);
    } else {
      DivModUnique(0x100 * q + i + 1, 0x100, q + 1, 0);
    }
  }

  /** Every 256 bytes the padding starts again. */
  lemma PaddingSplit(q: nat, r: nat)
    requires r < 0x100
    ensures Padding(0x100 * q + r) == Padding(0x100 * q) + Padding(r)
  {
    var all := Padding(0x100 * q + r);
    forall i | 0 <= i < r ensures all[0x100 * q + i] == Padding(r)[i] {
      PaddingByte(q, i);
    }
    var both := Padding(0x100 * q) + Padding(r);
    assert forall k | 0x100 * q <= k < |all| :: all[k] == both[k] by {
      forall k | 0x100 * q <= k < |all| ensures all[k] == both[k] {
        assert all[0x100 * q + (k - 0x100 * q)] == Padding(r)[k - 0x100 * q];
      }
    }
  }

  lemma AadFields(spi: uint32, seqno: uint32, rest: seq<byte>)
    ensures var data := Aad(spi, seqno) + rest;
      |Aad(spi, seqno)| == 8 && Get32(data, 0) == spi && Get32(data, 4) == seqno
  {
    var a, b := Put32(spi), Put32(seqno);
    assert |a| == 4 && |b| == 4;
    hide Get32, Put32;
    Get32Put32(spi);
    Get32Put32(seqno);
    Get32Concat(a, b, 0);
    Get32Concat(a + b, rest, 0);
    Get32Concat(a + b, rest, 4);
  }

  lemma SealedFields(aead: Aead, spi: uint32, seqno: uint32, payload: seq<byte>, nextHeader: byte)
    requires aead.Works() && Seal(aead, spi, seqno, payload, nextHeader).0 == SUCCESS
    ensures var data := Seal(aead, spi, seqno, payload, nextHeader).1;
      && |data| >= 8 && Get32(data, 0) == spi && SeqnoOf(data) == seqno
      && (Readable(aead, data) <==> Blocks(|payload|, aead.blockSize, aead.ivSize))
      && (Readable(aead, data) ==>
            Open(aead, data) == Some(Plaintext(payload, PadSize(|payload|, aead.blockSize, aead.ivSize), nextHeader)))
  {
    hide PadSize, Aad, Get32;
    var aad, iv := Aad(spi, seqno), aead.ivGen.value(seqno).value;
    var plain := Plaintext(payload, PadSize(|payload|, aead.blockSize, |iv|), nextHeader);
    assert |plain| == |payload| + 2 + PadSize(|payload|, aead.blockSize, |iv|);
    hide Plaintext;
    var cipher := aead.encrypt(plain, aad, iv).value;
    AadFields(spi, seqno, iv + cipher);
    var data := aad + iv + cipher;
    assert data == aad + (iv + cipher);
    assert data[..8] == aad && data[8..8 + |iv|] == iv && data[8 + |iv|..] == cipher;
  }

  /** What the AEAD is given to encrypt: the payload, 1, 2, 3, ..., the number of those, and the next header. */
  lemma SealedText(aead: Aead, spi: uint32, seqno: uint32, payload: seq<byte>, nextHeader: byte)
    requires aead.blockSize > 0 && Seal(aead, spi, seqno, payload, nextHeader).0 == SUCCESS
    ensures aead.ivGen.Some? && aead.ivGen.value(seqno).Some?
    ensures var iv := aead.ivGen.value(seqno).value;
      var data := Seal(aead, spi, seqno, payload, nextHeader).1;
      exists text: seq<byte> ::
        && |text| >= |payload| + 2 && text[..|payload|] == payload
        && text[|text| - 2] == (|text| - |payload| - 2) % 0x100 && text[|text| - 1] == nextHeader
        && (forall i | |payload| <= i < |text| - 2 :: text[i] == (i - |payload| + 1) % 0x100)
        && |data| >= 8 + |iv| && data[8..8 + |iv|] == iv
        && aead.encrypt(text, data[..8], iv) == Some(data[8 + |iv|..])
  {
    hide PadSize;
    var iv := aead.ivGen.value(seqno).value;
    var pad := PadSize(|payload|, aead.blockSize, |iv|);
    var text := Plaintext(payload, pad, nextHeader);
    var data := Seal(aead, spi, seqno, payload, nextHeader).1;
    var cipher := aead.encrypt(text, Aad(spi, seqno), iv).value;
    assert data[..8] == Aad(spi, seqno) && data[8..8 + |iv|] == iv && data[8 + |iv|..] == cipher;
    TextShape(payload, pad, nextHeader);
  }

  /** Sealing fails only for want of an IV generator, an IV, or the cipher text of that text under SPI and number. */
  lemma SealFails(aead: Aead, spi: uint32, seqno: uint32, payload: seq<byte>, nextHeader: byte)
    requires aead.blockSize > 0
    ensures var status := Seal(aead, spi, seqno, payload, nextHeader).0;
      if aead.ivGen.None? then status == NOT_FOUND
      else
        var iv := aead.ivGen.value(seqno);
        status == if iv.Some? &&
                     aead.encrypt(Plaintext(payload, PadSize(|payload|, aead.blockSize, |iv.value|), nextHeader),
                                  Put32(spi) + Put32(seqno), iv.value).Some?
                  then SUCCESS else FAILED
  {
  }

  lemma TextShape(payload: seq<byte>, pad: nat, nextHeader: byte)
    ensures var text := Plaintext(payload, pad, nextHeader);
      && |text| == |payload| + pad + 2 && text[..|payload|] == payload
      && text[|text| - 2] == pad % 0x100 && text[|text| - 1] == nextHeader
      && forall i | |payload| <= i < |text| - 2 :: text[i] == (i - |payload| + 1) % 0x100
  {
  }

  /**
   * Decapsulating what was encapsulated, under a number the window still takes:
   * for every payload and all sizes, the text must be a whole number of blocks, and
   * what the parser then sees is the payload and any padding that is not counted.
   */
  lemma RoundTrip(aead: Aead, c: Ctx, spi: uint32, seqno: uint32, payload: seq<byte>, nextHeader: byte)
    requires aead.Works() && Seal(aead, spi, seqno, payload, nextHeader).0 == SUCCESS
    requires c.Verifies(seqno)
    ensures var p := Parse(payload + Kept(PadSize(|payload|, aead.blockSize, aead.ivSize)));
      Decapsulate(aead, c, Seal(aead, spi, seqno, payload, nextHeader).1) ==
        if !Blocks(|payload|, aead.blockSize, aead.ivSize) then Opened(PARSE_ERROR, c, None)
        else if p.None? then Opened(PARSE_ERROR, c.Accept(seqno), None)
        else Opened(SUCCESS, c.Accept(seqno), Some((p.value, nextHeader)))
  {
    hide Parse, Seal, PadSize, Kept, Unpad;
    SealedFields(aead, spi, seqno, payload, nextHeader);
    UnpadPlaintext(payload, PadSize(|payload|, aead.blockSize, aead.ivSize), nextHeader);
  }

  /** The padding is counted in full, or the packet declares its own length and the rest does not matter. */
  predicate Clean(packet: seq<byte>, blockSize: nat, ivSize: nat)
    requires blockSize > 0
  {
    PadSize(|packet|, blockSize, ivSize) <= 255 || (HeaderComplete(packet) && Declared(packet) <= |packet|)
  }

  /** All packets are clean under block sizes up to 253, and up to 256 if the sizes are compatible. */
  lemma AlwaysClean(packet: seq<byte>, blockSize: nat, ivSize: nat)
    requires 0 < blockSize <= 253 || (blockSize <= 256 && Compatible(blockSize, ivSize) && blockSize > 0)
    ensures Clean(packet, blockSize, ivSize)
  {
    hide PadLen, Blocks;
    var n := |packet| + 2;
    if blockSize <= 253 {
      PadReaches(n, blockSize);
      PadReaches(ivSize + n + PadLen(n, blockSize), 4);
    } else {
      CompatibleBlocks(|packet|, blockSize, ivSize);
    }
  }

  lemma CleanParse(packet: seq<byte>, blockSize: nat, ivSize: nat)
    requires blockSize > 0 && Clean(packet, blockSize, ivSize)
    ensures Parse(packet + Kept(PadSize(|packet|, blockSize, ivSize))) == Parse(packet)
  {
    hide Parse, PadSize;
    var pad := PadSize(|packet|, blockSize, ivSize);
    if pad <= 255 {
      assert packet + Kept(pad) == packet;
    } else {
      TrailingBytesIgnored(packet, Kept(pad));
    }
  }

  /** Cleanness is needed: a packet with a complete header comes back longer if it is not clean. */
  lemma UncleanGrows(packet: seq<byte>, blockSize: nat, ivSize: nat)
    requires blockSize > 0 && HeaderComplete(packet) && !Clean(packet, blockSize, ivSize)
    ensures var p := Parse(packet + Kept(PadSize(|packet|, blockSize, ivSize)));
      p.Some? ==> |p.value.packet| > |packet|
  {
    hide PadSize;
    var pad := PadSize(|packet|, blockSize, ivSize);
    var long := packet + Kept(pad);
    assert |long| >= |packet| + 0x100 && Declared(long) == Declared(packet);
    if Parse(long).Some? {
      ParseShape(long);
    }
  }

  /** Such a packet: twenty bytes that declare three hundred, under a block size of 512. */
  lemma UncleanWitness() returns (packet: seq<byte>)
    ensures Parse(packet).Some? && Parse(packet).value.packet == packet && Blocks(|packet|, 512, 0)
    ensures Parse(packet + Kept(PadSize(|packet|, 512, 0))).Some? && !Clean(packet, 512, 0)
  {
    packet := [0x45, 0, 1, 44, 0, 0, 0, 0, 64, 1] + Zeros(10);
    assert PadSize(20, 512, 0) == 490;
    assert packet[0] == 0x45 && packet[9] == 1 && Get16(packet, 2) == 300 && Get16(packet, 6) == 0;
    var long := packet + Kept(490);
    assert long[0] == 0x45 && long[9] == 1;
  }

  /**
   * Every parsed IP packet survives the tunnel unchanged, with the next header
   * telling its version, if it is clean and its text is a whole number of blocks.
   * The exception is an IPv4 packet that declares less than its own header, whose
   * number is used up.
   */
  lemma PacketRoundTrip(aead: Aead, c: Ctx, spi: uint32, seqno: uint32, packet: seq<byte>)
    requires aead.Works() && Parse(packet).Some? && c.Verifies(seqno)
    requires Seal(aead, spi, seqno, Parse(packet).value.packet, NextHeaderFor(Parse(packet))).0 == SUCCESS
    requires Clean(Parse(packet).value.packet, aead.blockSize, aead.ivSize)
    ensures var p := Parse(packet).value;
      Decapsulate(aead, c, Seal(aead, spi, seqno, p.packet, NextHeaderFor(Some(p))).1) ==
        if !Blocks(|p.packet|, aead.blockSize, aead.ivSize) then Opened(PARSE_ERROR, c, None)
        else if p.version == 4 && |p.packet| < 20 then Opened(PARSE_ERROR, c.Accept(seqno), None)
        else Opened(SUCCESS, c.Accept(seqno), Some((p, if p.version == 4 then PROTO_IPIP else PROTO_IPV6)))
  {
    var p := Parse(packet).value;
    Reparse(packet);
    hide Parse, Seal, Decapsulate, PadSize, Blocks, Clean, Kept;
    CleanParse(p.packet, aead.blockSize, aead.ivSize);
    RoundTrip(aead, c, spi, seqno, p.packet, NextHeaderFor(Some(p)));
  }

  /**
   * A packet without next header is no exception: what its text decides is only whether
   * the payload parses, and its number is accepted either way.
   */
  lemma NoNextHeader(aead: Aead, c: Ctx, spi: uint32, seqno: uint32, payload: seq<byte>)
    requires aead.Works() && c.Verifies(seqno) && Seal(aead, spi, seqno, payload, PROTO_NONE).0 == SUCCESS
    requires Blocks(|payload|, aead.blockSize, aead.ivSize)
    ensures var o := Decapsulate(aead, c, Seal(aead, spi, seqno, payload, PROTO_NONE).1);
      && o.ctx == c.Accept(seqno) && (o.content.Some? ==> o.content.value.1 == PROTO_NONE)
      && (o.status == SUCCESS <==> Parse(payload + Kept(PadSize(|payload|, aead.blockSize, aead.ivSize))).Some?)
      && (Clean(payload, aead.blockSize, aead.ivSize) ==> (o.status == SUCCESS <==> Parse(payload).Some?))
  {
    hide Parse, Seal, Decapsulate, PadSize, Blocks, Clean, Kept;
    RoundTrip(aead, c, spi, seqno, payload, PROTO_NONE);
    if Clean(payload, aead.blockSize, aead.ivSize) {
      CleanParse(payload, aead.blockSize, aead.ivSize);
    }
  }

  lemma PaddingIsNoPacket(pad: nat)
    ensures Parse([] + Kept(pad)) == None
  {
    assert [] + Kept(pad) == Kept(pad) && (Kept(pad) != [] ==> Kept(pad)[0] == 1);
  }

  /** So a dummy packet with nothing inside is refused, after its number was accepted, under all sizes. */
  lemma DummyRefused(aead: Aead, c: Ctx, spi: uint32, seqno: uint32)
    requires aead.Works() && c.Verifies(seqno) && Seal(aead, spi, seqno, [], PROTO_NONE).0 == SUCCESS
    requires Blocks(0, aead.blockSize, aead.ivSize)
    ensures Decapsulate(aead, c, Seal(aead, spi, seqno, [], PROTO_NONE).1) == Opened(PARSE_ERROR, c.Accept(seqno), None)
  {
    hide Seal, Decapsulate, PadSize, Blocks, Kept, Parse;
    PaddingIsNoPacket(PadSize(0, aead.blockSize, aead.ivSize));
    RoundTrip(aead, c, spi, seqno, [], PROTO_NONE);
  }
}
