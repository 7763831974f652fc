/**
 * TLS record protection with a block cipher and a MAC: with the IV carried over
 * from record to record (section 6.2.3.2 of RFC 2246), and with one IV per record.
 */
module TlsAead {
  import opened Chunk
  import opened Crypto

  /** What a record's MAC covers besides its data; the length is cut to 16 bits on both sides. */
  datatype Meta = Meta(version: uint16, kind: byte, seqno: nat)

  function Put64(n: nat): seq<byte> {
    Put32(n / 0x1_0000_0000 % 0x1_0000_0000) + Put32(n % 0x1_0000_0000)
  }

  function Signed(m: Meta, data: seq<byte>): seq<byte> {
    Put64(m.seqno) + [m.kind] + Put16(m.version) + Put16(|data|) + data
  }

  function Repeated(b: byte, n: nat): seq<byte> { seq(n, _ => b) }

  /** Data, MAC, padding and the padding length. */
  function Wrap(blockSize: nat, data: seq<byte>, mac: seq<byte>): seq<byte>
    requires 0 < blockSize < 0x100
  {
    PadReaches(|data| + |mac| + 1, blockSize);
    var pad := PadLen(|data| + |mac| + 1, blockSize);
    data + mac + Repeated(pad, pad) + [pad]
  }

  /** Padding that is not all of the announced value is refused; a length that cannot be is left in place. */
  function Strip(plain: seq<byte>): Option<seq<byte>>
    requires plain != []
  {
    var n := |plain| - 1;
    var pad := plain[n];
    if pad > n then Some(plain)
    else if plain[n - pad..n] != Repeated(pad, pad) then None
    else Some(plain[..n - pad])
  }

  /** The data of a decrypted record, if its padding and MAC are right. */
  function Unwrap(signer: Signer, m: Meta, plain: seq<byte>): Option<seq<byte>>
    requires plain != []
  {
    var s := Strip(plain);
    if s.None? || |s.value| < signer.size then None
    else
      var n := |s.value| - signer.size;
      var data := s.value[..n];
      if signer.Verifies(Signed(m, data), s.value[n..]) then Some(data) else None
  }

  lemma WrapBlocks(blockSize: nat, data: seq<byte>, mac: seq<byte>)
    requires 0 < blockSize < 0x100
    ensures var plain := Wrap(blockSize, data, mac); |plain| % blockSize == 0 && |plain| >= blockSize
  {
    PadReaches(|data| + |mac| + 1, blockSize);
    var plain := Wrap(blockSize, data, mac);
    assert |plain| == |data| + |mac| + 1 + PadLen(|data| + |mac| + 1, blockSize);
    if |plain| < blockSize {
      DivModUnique(|plain|, blockSize, 0, |plain|);
    }
  }

  /** Taking the padding and the MAC off again gives back the data. */
  lemma UnwrapWrap(signer: Signer, m: Meta, blockSize: nat, data: seq<byte>)
    requires signer.Works() && 0 < blockSize < 0x100 && signer.sign(Signed(m, data)).Some?
    ensures Unwrap(signer, m, Wrap(blockSize, data, signer.sign(Signed(m, data)).value)) == Some(data)
  {
    var mac := signer.sign(Signed(m, data)).value;
    PadReaches(|data| + |mac| + 1, blockSize);
    var pad := PadLen(|data| + |mac| + 1, blockSize);
    var plain := Wrap(blockSize, data, mac);
    var n := |plain| - 1;
    assert plain[n] == pad && plain[n - pad..n] == Repeated(pad, pad) && plain[..n - pad] == data + mac;
  }

  /** The padding check of both decrypt functions. */
  method StripPadding(plain: seq<byte>) returns (r: Option<seq<byte>>)
    requires plain != []
    ensures r == Strip(plain)
  {
    var n := |plain| - 1;
    var pad := plain[n];
    if pad < |plain| {
      var i := n - pad;
      while i < n
        invariant n - pad <= i <= n && forall k | n - pad <= k < i :: plain[k] == pad
      {
        if plain[i] != pad {
          assert plain[n - pad..n][i - (n - pad)] != Repeated(pad, pad)[i - (n - pad)];
          return None;
        }
        i := i + 1;
      }
      assert plain[n - pad..n] == Repeated(pad, pad);
      return Some(plain[..n - pad]);
    }
    return Some(plain);
  }

  // -------------------------------------------------------------- implicit IV

  /** The ciphertext of a record and the IV for the next one; None if encryption fails. */
  function EncryptNext(c: Cipher, signer: Signer, iv: seq<byte>, m: Meta, data: seq<byte>): Option<(seq<byte>, seq<byte>)>
    requires 0 < c.blockSize < 0x100
  {
    var mac := signer.sign(Signed(m, data));
    if mac.None? then None
    else
      var cipher := c.encrypt(Wrap(c.blockSize, data, mac.value), iv);
      if cipher.None? || |cipher.value| < |iv| then None
      else Some((cipher.value, cipher.value[|cipher.value| - |iv|..]))
  }

  /** The data of a record, if any, and the IV for the next one. */
  function DecryptNext(c: Cipher, signer: Signer, iv: seq<byte>, m: Meta, cipher: seq<byte>): (Option<seq<byte>>, seq<byte>)
    requires 0 < c.blockSize < 0x100
  {
    if |cipher| < c.blockSize || |cipher| < |iv| || |cipher| % c.blockSize != 0 then (None, iv)
    else
      var iv' := cipher[|cipher| - |iv|..];
      var plain := c.decrypt(cipher, iv);
      if plain.None? || plain.value == [] then (None, iv') else (Unwrap(signer, m, plain.value), iv')
  }

  class ImplicitAead {
    const crypter: Cipher
    const signer: Signer
    var iv: seq<byte>

    constructor (crypter: Cipher, signer: Signer, iv: seq<byte>)
      ensures this.crypter == crypter && this.signer == signer && this.iv == iv
    {
      this.crypter, this.signer, this.iv := crypter, signer, iv;
    }

    method Encrypt(m: Meta, data: seq<byte>) returns (r: Option<seq<byte>>)
      requires 0 < crypter.blockSize < 0x100
      modifies this
      ensures match EncryptNext(crypter, signer, old(iv), m, data)
        case None => r == None && iv == old(iv)
        case Some(e) => r == Some(e.0) && iv == e.1
      // a receiver with the IV from before gets the data, and the IV that this side has now
      ensures r.Some? && crypter.Works() && signer.Works() && |old(iv)| == crypter.ivSize ==>
                |iv| == crypter.ivSize && DecryptNext(crypter, signer, old(iv), m, r.value) == (Some(data), iv)
    {
      hide Wrap, Unwrap, DecryptNext;
      if crypter.Works() && signer.Works() && |iv| == crypter.ivSize && EncryptNext(crypter, signer, iv, m, data).Some? {
        StaysInStep(crypter, signer, iv, m, data);
      }
      var mac := signer.sign(Signed(m, data));
      if mac.None? {
        return None;
      }
      var cipher := crypter.encrypt(Wrap(crypter.blockSize, data, mac.value), iv);
      if cipher.None? {
        return None;
      }
      if |cipher.value| < |iv| {
        return None;
      }
      iv := cipher.value[|cipher.value| - |iv|..];
      return cipher;
    }

    method Decrypt(m: Meta, cipher: seq<byte>) returns (r: Option<seq<byte>>)
      requires 0 < crypter.blockSize < 0x100
      modifies this
      ensures (r, iv) == DecryptNext(crypter, signer, old(iv), m, cipher)
    {
      if |cipher| < crypter.blockSize || |cipher| < |iv| || |cipher| % crypter.blockSize != 0 {
        return None;
      }
      var used := iv;
      iv := cipher[|cipher| - |iv|..];
      var plain := crypter.decrypt(cipher, used);
      if plain.None? || plain.value == [] {
        return None;
      }
      var s := StripPadding(plain.value);
      if s.None? || |s.value| < signer.size {
        return None;
      }
      var n := |s.value| - signer.size;
      if !signer.Verifies(Signed(m, s.value[..n]), s.value[n..]) {
        return None;
      }
      return Some(s.value[..n]);
    }
  }

  /** One record through both sides: the data comes back and the sides agree on the next IV. */
  lemma StaysInStep(c: Cipher, signer: Signer, iv: seq<byte>, m: Meta, data: seq<byte>)
    requires c.Works() && signer.Works() && |iv| == c.ivSize && EncryptNext(c, signer, iv, m, data).Some?
    ensures var (cipher, iv') := EncryptNext(c, signer, iv, m, data).value;
      |iv'| == c.ivSize && DecryptNext(c, signer, iv, m, cipher) == (Some(data), iv')
  {
    var mac := signer.sign(Signed(m, data)).value;
    WrapBlocks(c.blockSize, data, mac);
    UnwrapWrap(signer, m, c.blockSize, data);
  }

  datatype Item = Item(meta: Meta, data: seq<byte>)

  /** The ciphertexts of a list of records, in order, with the IV each leaves behind. */
  function EncryptAll(c: Cipher, signer: Signer, iv: seq<byte>, items: seq<Item>)
    : (r: Option<(seq<seq<byte>>, seq<seq<byte>>)>)
    requires 0 < c.blockSize < 0x100
    ensures r.Some? ==> |r.value.0| == |items|
    decreases |items|
  {
    if items == [] then Some(([], []))
    else
      var e := EncryptNext(c, signer, iv, items[0].meta, items[0].data);
      if e.None? then None
      else
        var rest := EncryptAll(c, signer, e.value.1, items[1..]);
        if rest.None? then None else Some(([e.value.0] + rest.value.0, [e.value.1] + rest.value.1))
  }

  function Metas(items: seq<Item>): (r: seq<Meta>)
    ensures |r| == |items|
  {
    if items == [] then [] else [items[0].meta] + Metas(items[1..])
  }

  function Intact(items: seq<Item>): seq<Option<seq<byte>>> {
    if items == [] then [] else [Some(items[0].data)] + Intact(items[1..])
  }

  function DecryptAll(c: Cipher, signer: Signer, iv: seq<byte>, metas: seq<Meta>, ciphers: seq<seq<byte>>)
    : (seq<Option<seq<byte>>>, seq<seq<byte>>)
    requires 0 < c.blockSize < 0x100 && |metas| == |ciphers|
    decreases |metas|
  {
    if metas == [] then ([], [])
    else
      var (data, iv') := DecryptNext(c, signer, iv, metas[0], ciphers[0]);
      var (rest, ivs) := DecryptAll(c, signer, iv', metas[1..], ciphers[1..]);
      ([data] + rest, [iv'] + ivs)
  }

  /**
   * From the same IV and keys: however many records are encrypted in order and
   * decrypted in order, every one comes back unchanged, and after every one the two
   * sides hold the same IV.
   */
  lemma {:induction false} AllStayInStep(c: Cipher, signer: Signer, iv: seq<byte>, items: seq<Item>)
    requires c.Works() && signer.Works() && |iv| == c.ivSize && EncryptAll(c, signer, iv, items).Some?
    ensures var (ciphers, ivs) := EncryptAll(c, signer, iv, items).value;
      DecryptAll(c, signer, iv, Metas(items), ciphers) == (Intact(items), ivs)
    decreases |items|
  {
    hide EncryptNext, DecryptNext;
    if items != [] {
      StaysInStep(c, signer, iv, items[0].meta, items[0].data);
      var (cipher, iv') := EncryptNext(c, signer, iv, items[0].meta, items[0].data).value;
      AllStayInStep(c, signer, iv', items[1..]);
      var ciphers := EncryptAll(c, signer, iv, items).value.0;
      assert ciphers[1..] == EncryptAll(c, signer, iv', items[1..]).value.0;
      assert Metas(items)[1..] == Metas(items[1..]);
    }
  }

  // -------------------------------------------------------------- explicit IV

  function EncryptWith(c: Cipher, signer: Signer, iv: seq<byte>, m: Meta, data: seq<byte>): Option<seq<byte>>
    requires 0 < c.blockSize < 0x100
  {
    var mac := signer.sign(Signed(m, data));
    if mac.None? then None
    else
      var cipher := c.encrypt(Wrap(c.blockSize, data, mac.value), iv);
      if cipher.None? then None else Some(iv + cipher.value)
  }

  function DecryptWith(c: Cipher, signer: Signer, m: Meta, record: seq<byte>): Option<seq<byte>>
    requires 0 < c.blockSize < 0x100
  {
    if |record| < c.ivSize then None
    else
      var cipher := Skip(record, c.ivSize);
      if |cipher| < c.blockSize || |cipher| % c.blockSize != 0 then None
      else
        var plain := c.decrypt(cipher, record[..c.ivSize]);
        if plain.None? || plain.value == [] then None else Unwrap(signer, m, plain.value)
  }

  /** tls_aead_expl.c: no state; a fresh IV, if the generator gives one, travels with every record. */
  method EncryptExplicit(c: Cipher, signer: Signer, iv: Option<seq<byte>>, m: Meta, data: seq<byte>)
    returns (r: Option<seq<byte>>)
    requires 0 < c.blockSize < 0x100
    ensures r == if iv.None? then None else EncryptWith(c, signer, iv.value, m, data)
    // what comes out starts with the IV and is read back by any receiver with the same keys
    ensures r.Some? ==> iv.Some? && iv.value <= r.value
    ensures r.Some? && c.Works() && signer.Works() && |iv.value| == c.ivSize ==>
              DecryptWith(c, signer, m, r.value) == Some(data)
  {
    hide Wrap, Unwrap, DecryptWith;
    if iv.Some? && c.Works() && signer.Works() && |iv.value| == c.ivSize && EncryptWith(c, signer, iv.value, m, data).Some? {
      ExplicitRoundTrip(c, signer, iv.value, m, data);
    }
    var mac := signer.sign(Signed(m, data));
    if mac.None? || iv.None? {
      return None;
    }
    var cipher := c.encrypt(Wrap(c.blockSize, data, mac.value), iv.value);
    if cipher.None? {
      return None;
    }
    return Some(iv.value + cipher.value);
  }

  method DecryptExplicit(c: Cipher, signer: Signer, m: Meta, record: seq<byte>) returns (r: Option<seq<byte>>)
    requires 0 < c.blockSize < 0x100
    ensures r == DecryptWith(c, signer, m, record)
  {
    if |record| < c.ivSize {
      return None;
    }
    var cipher := Skip(record, c.ivSize);
    if |cipher| < c.blockSize || |cipher| % c.blockSize != 0 {
      return None;
    }
    var plain := c.decrypt(cipher, record[..c.ivSize]);
    if plain.None? || plain.value == [] {
      return None;
    }
    var s := StripPadding(plain.value);
    if s.None? || |s.value| < signer.size {
      return None;
    }
    var n := |s.value| - signer.size;
    if !signer.Verifies(Signed(m, s.value[..n]), s.value[n..]) {
      return None;
    }
    return Some(s.value[..n]);
  }

  lemma ExplicitRoundTrip(c: Cipher, signer: Signer, iv: seq<byte>, m: Meta, data: seq<byte>)
    requires c.Works() && signer.Works() && |iv| == c.ivSize && EncryptWith(c, signer, iv, m, data).Some?
    ensures DecryptWith(c, signer, m, EncryptWith(c, signer, iv, m, data).value) == Some(data)
  {
    var mac := signer.sign(Signed(m, data)).value;
    WrapBlocks(c.blockSize, data, mac);
    UnwrapWrap(signer, m, c.blockSize, data);
    var record := EncryptWith(c, signer, iv, m, data).value;
    assert record[..|iv|] == iv && record[|iv|..] == c.encrypt(Wrap(c.blockSize, data, mac), iv).value;
  }

  // ------------------------------------------------------- what is authenticated

  const WORD64: nat := 0x1_0000_0000_0000_0000

  function Number(s: seq<byte>, i: nat): nat
    requires i + 4 <= |s|
  {
    s[i] as int * 0x100_0000 + s[i + 1] as int * 0x1_0000 + s[i + 2] as int * 0x100 + s[i + 3] as int
  }

  /** The authenticated text, byte by byte: sequence number, type, version, length, data. */
  lemma SignedBytes(m: Meta, data: seq<byte>)
    ensures var s := Signed(m, data);
      && |s| == 13 + |data| && s[13..] == data && s[8] == m.kind
      && s[9] as int * 0x100 + s[10] as int == m.version
      && s[11] as int * 0x100 + s[12] as int == |data| % 0x1_0000
      && Number(s, 0) * 0x1_0000_0000 + Number(s, 4) == m.seqno % WORD64
  {
    var hi, lo := m.seqno / 0x1_0000_0000 % 0x1_0000_0000, m.seqno % 0x1_0000_0000;
    var s := Signed(m, data);
    NetworkOrder(m.version, hi);
    NetworkOrder(m.version, lo);
    Length16(|data|);
    Seqno64(m.seqno, hi, lo);
    var a, b, v, n := Put32(hi), Put32(lo), Put16(m.version), Put16(|data|);
    hide Put32, Put16;
    assert s == a + b + [m.kind] + v + n + data;
    assert s[..4] == a && s[4..8] == b && s[9..11] == v && s[11..13] == n;
    assert forall i | 0 <= i < 4 :: s[i] == s[..4][i] && s[4 + i] == s[4..8][i];
    assert s[9] == s[9..11][0] && s[10] == s[9..11][1] && s[11] == s[11..13][0] && s[12] == s[11..13][1];
  }

  lemma Length16(n: nat)
    ensures |Put16(n)| == 2 && Put16(n)[0] as int * 0x100 + Put16(n)[1] as int == n % 0x1_0000
  {
    var q, r := n / 0x1_0000, n % 0x1_0000;
    DivModUnique(n, 0x100, 0x100 * q + r / 0x100, r % 0x100);
    DivModUnique(n / 0x100, 0x100, q, r / 0x100);
  }

  lemma Seqno64(n: nat, hi: nat, lo: nat)
    requires hi == n / 0x1_0000_0000 % 0x1_0000_0000 && lo == n % 0x1_0000_0000
    ensures hi * 0x1_0000_0000 + lo == n % WORD64
  {
    var k := n / 0x1_0000_0000 / 0x1_0000_0000;
    DivModUnique(n, WORD64, k, hi * 0x1_0000_0000 + lo);
  }

  /** No two records share it: it tells their numbers, types, versions and data apart. */
  lemma SignedInjective(m: Meta, data: seq<byte>, m': Meta, data': seq<byte>)
    requires m.seqno < WORD64 && m'.seqno < WORD64 && Signed(m, data) == Signed(m', data')
    ensures m == m' && data == data'
  {
    SignedBytes(m, data);
    SignedBytes(m', data');
    hide Signed;
    DivModUnique(m.seqno, WORD64, 0, m.seqno);
    DivModUnique(m'.seqno, WORD64, 0, m'.seqno);
  }

  /** The text that is encrypted: the data, the MAC, and filling up to a whole block that tells its own length. */
  predicate Text(text: seq<byte>, blockSize: nat, data: seq<byte>, mac: seq<byte>)
    requires blockSize > 0
  {
    var n := |data| + |mac|;
    && n < |text| <= n + blockSize && |text| % blockSize == 0
    && text[..|data|] == data && text[|data|..n] == mac
    && forall i | n <= i < |text| :: text[i] == |text| - n - 1
  }

  lemma WrapText(blockSize: nat, data: seq<byte>, mac: seq<byte>)
    requires 0 < blockSize < 0x100
    ensures Text(Wrap(blockSize, data, mac), blockSize, data, mac)
  {
    var n := |data| + |mac|;
    PadReaches(n + 1, blockSize);
    var pad := PadLen(n + 1, blockSize);
    var text := Wrap(blockSize, data, mac);
    WrapBlocks(blockSize, data, mac);
    hide PadLen;
    assert text[..|data|] == data && text[|data|..n] == mac;
  }

  /** A record on the wire: that text under the IV, and the IV for the next record is its end. */
  lemma ImplicitBytes(c: Cipher, signer: Signer, iv: seq<byte>, m: Meta, data: seq<byte>)
    requires 0 < c.blockSize < 0x100 && EncryptNext(c, signer, iv, m, data).Some?
    ensures var (cipher, iv') := EncryptNext(c, signer, iv, m, data).value;
      && |iv| <= |cipher| && iv' == cipher[|cipher| - |iv|..]
      && exists text, mac :: Text(text, c.blockSize, data, mac) && signer.sign(Signed(m, data)) == Some(mac) && c.encrypt(text, iv) == Some(cipher)
  {
    hide Text;
    var mac := signer.sign(Signed(m, data)).value;
    WrapText(c.blockSize, data, mac);
    assert Text(Wrap(c.blockSize, data, mac), c.blockSize, data, mac);
  }

  lemma ExplicitBytes(c: Cipher, signer: Signer, iv: seq<byte>, m: Meta, data: seq<byte>)
    requires 0 < c.blockSize < 0x100 && EncryptWith(c, signer, iv, m, data).Some?
    ensures var record := EncryptWith(c, signer, iv, m, data).value;
      exists text, mac, cipher ::
        && Text(text, c.blockSize, data, mac) && signer.sign(Signed(m, data)) == Some(mac)
        && c.encrypt(text, iv) == Some(cipher) && record == iv + cipher
  {
    hide Text;
    var mac := signer.sign(Signed(m, data)).value;
    WrapText(c.blockSize, data, mac);
    assert Text(Wrap(c.blockSize, data, mac), c.blockSize, data, mac);
  }

  /** A receiver accepts data only with the MAC for this data under the number, type and version it expects. */
  lemma AcceptedHasMac(c: Cipher, signer: Signer, iv: seq<byte>, m: Meta, cipher: seq<byte>)
    requires 0 < c.blockSize < 0x100 && DecryptNext(c, signer, iv, m, cipher).0.Some?
    ensures var data := DecryptNext(c, signer, iv, m, cipher).0.value;
      && c.decrypt(cipher, iv).Some?
      && var text := c.decrypt(cipher, iv).value;
      && |data| + signer.size <= |text| && text[..|data|] == data
      && signer.sign(Signed(m, data)) == Some(text[|data|..|data| + signer.size])
  {
    hide Signed;
    var text := c.decrypt(cipher, iv).value;
    var s := Strip(text).value;
    var n := |s| - signer.size;
    assert s == text[..|s|] && s[..n] == text[..n] && s[n..] == text[n..|s|];
  }

  /** So a record out of its place is accepted only if the MAC is the same for two different texts. */
  lemma OutOfPlace(c: Cipher, signer: Signer, iv: seq<byte>, m: Meta, m': Meta, data: seq<byte>)
    requires c.Works() && signer.Works() && |iv| == c.ivSize && EncryptNext(c, signer, iv, m, data).Some?
    requires m.seqno < WORD64 && m'.seqno < WORD64 && m != m'
    requires DecryptNext(c, signer, iv, m', EncryptNext(c, signer, iv, m, data).value.0).0.Some?
    ensures DecryptNext(c, signer, iv, m', EncryptNext(c, signer, iv, m, data).value.0).0.value == data
    ensures Signed(m, data) != Signed(m', data) && signer.sign(Signed(m, data)) == signer.sign(Signed(m', data))
  {
    hide Signed, Wrap, Strip;
    var mac := signer.sign(Signed(m, data)).value;
    var cipher := EncryptNext(c, signer, iv, m, data).value.0;
    WrapBlocks(c.blockSize, data, mac);
    assert c.decrypt(cipher, iv) == Some(Wrap(c.blockSize, data, mac));
    StripWrap(c.blockSize, data, mac);
    if Signed(m, data) == Signed(m', data) {
      SignedInjective(m, data, m', data);
    }
  }

  lemma StripWrap(blockSize: nat, data: seq<byte>, mac: seq<byte>)
    requires 0 < blockSize < 0x100
    ensures Wrap(blockSize, data, mac) != [] && Strip(Wrap(blockSize, data, mac)) == Some(data + mac)
  {
    PadReaches(|data| + |mac| + 1, blockSize);
    var pad := PadLen(|data| + |mac| + 1, blockSize);
    var plain := Wrap(blockSize, data, mac);
    var n := |plain| - 1;
    assert plain[n] == pad && plain[n - pad..n] == Repeated(pad, pad) && plain[..n - pad] == data + mac;
  }

  /** Encryption fails only for want of a MAC or cipher text, or of cipher text as long as an IV. */
  lemma EncryptFails(c: Cipher, signer: Signer, iv: seq<byte>, m: Meta, data: seq<byte>)
    requires 0 < c.blockSize < 0x100
    ensures var mac := signer.sign(Signed(m, data));
      var cipher := if mac.Some? then c.encrypt(Wrap(c.blockSize, data, mac.value), iv) else None;
      && (EncryptWith(c, signer, iv, m, data).Some? <==> cipher.Some?)
      && (EncryptNext(c, signer, iv, m, data).Some? <==> cipher.Some? && |cipher.value| >= |iv|)
  {
  }
}
