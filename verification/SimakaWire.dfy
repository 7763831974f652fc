/**
 * EAP-SIM/AKA messages as bytes on the wire, with the numbers of sections 10 and 11 of
 * RFC 4186 and RFC 4187 written out: what may be seen, what is refused, what is covered.
 */
module SimakaWire {
  import opened Chunk
  import opened Crypto
  import opened SimakaAttribute
  import opened SimakaMessage

  // ------------------------------------------------------------ confidentiality

  /** Counters, the server nonce, and the identities for next time; and notifications without bit 0x40. */
  predicate Secret(a: Attr) {
    a.kind in {19, 20, 21, 132, 133} || (a.kind == 12 && !HasPhaseBit(a.data))
  }

  predicate HasPhaseBit(code: seq<byte>) { code != [] && (0x40 <= code[0] < 0x80 || 0xc0 <= code[0]) }

  /** The two parts a message is printed in are told apart by secrecy alone. */
  lemma {:induction false} SecretsWrapped(attrs: seq<Attr>)
    ensures forall a | a in Select(attrs, false) :: !Secret(a)
    ensures forall a | a in Select(attrs, true) :: Secret(a)
    ensures forall a | a in attrs && Secret(a) :: a in Select(attrs, true)
  {
    if attrs != [] {
      SecretsWrapped(attrs[1..]);
      assert forall a | a in attrs :: a == attrs[0] || a in attrs[1..];
    }
  }

  /** Whatever follows, a chunk in the clear that starts with a secret attribute is refused. */
  lemma ClearSecretRefused(s: seq<byte>, at: nat, st: State)
    requires s != [] && s[0] in {19, 20, 21, 132, 133}
    ensures ParseAll(s, at, false, st) == (Bad, st)
  {
  }

  /** And so is a message with one anywhere behind attributes that may be in the clear. */
  lemma ClearSecretFound(keys: Keys, msg: seq<byte>, attrs: seq<Attr>, s: seq<byte>)
    requires Printable(attrs) && (forall a | a in attrs :: !Wrapped(a))
    requires keys.Works() && |msg| >= HEADER && msg[HEADER..] == EncodeAll(attrs) + s
    requires s != [] && s[0] in {19, 20, 21, 132, 133}
    ensures Parse(keys, msg, FRESH).0 == Bad
  {
    hide ParseAll, Wrapped, EncodeAll;
    ParsePart(attrs, false, s, HEADER, FRESH);
    ClearSecretRefused(s, HEADER + |EncodeAll(attrs)|, AfterAll(FRESH, attrs));
  }

  /** Lists that differ in nothing but the values of secret attributes, which have equal sizes. */
  predicate Alike(xs: seq<Attr>, ys: seq<Attr>) {
    && |xs| == |ys|
    && forall i | 0 <= i < |xs| ::
         xs[i] == ys[i] || (Secret(xs[i]) && Secret(ys[i]) && xs[i].kind == ys[i].kind && |xs[i].data| == |ys[i].data|)
  }

  lemma SecretIsWrapped(a: Attr)
    ensures Wrapped(a) == Secret(a) && (Secret(a) ==> HasRule(a.kind))
  {
  }

  lemma AlikeTail(xs: seq<Attr>, ys: seq<Attr>)
    requires Alike(xs, ys) && xs != []
    ensures Alike(xs[1..], ys[1..]) && (xs[0] == ys[0] || (Secret(xs[0]) && Secret(ys[0]) && Alike([xs[0]], [ys[0]])))
  {
    hide Secret;
  }

  lemma AlikeConcat(xs: seq<Attr>, ys: seq<Attr>, xs': seq<Attr>, ys': seq<Attr>)
    requires Alike(xs, ys) && Alike(xs', ys')
    ensures Alike(xs + xs', ys + ys')
  {
    hide Secret;
  }

  lemma {:induction false} SelectAlike(xs: seq<Attr>, ys: seq<Attr>)
    requires Alike(xs, ys)
    ensures Select(xs, false) == Select(ys, false) && Alike(Select(xs, true), Select(ys, true))
  {
    hide Select, Secret, Wrapped, HasRule;
    if xs == [] {
      SelectNothing();
    } else {
      var x, y := xs[0], ys[0];
      AlikeTail(xs, ys);
      SelectAlike(xs[1..], ys[1..]);
      SelectBoth(xs);
      SelectBoth(ys);
      AlikeConcat([x], [y], Select(xs[1..], true), Select(ys[1..], true)) by { AlikeOne(x, y); }
    }
  }

  lemma AlikeOne(x: Attr, y: Attr)
    requires x == y || Alike([x], [y])
    ensures Alike([x], [y])
  {
  }

  lemma SelectNothing()
    ensures Select([], false) == [] && Select([], true) == []
  {
  }

  /** A secret attribute goes to one part, any other that can be printed to the other. */
  lemma SelectBoth(xs: seq<Attr>)
    requires xs != []
    ensures var x, rest := xs[0], xs[1..];
      && Select(xs, true) == (if Secret(x) then [x] + Select(rest, true) else Select(rest, true))
      && Select(xs, false) ==
           (if !Secret(x) && HasRule(x.kind) then [x] + Select(rest, false) else Select(rest, false))
  {
    hide Select;
    SecretIsWrapped(xs[0]);
    SelectStep(xs, true);
    SelectStep(xs, false);
  }

  lemma {:induction false} SizeAlike(xs: seq<Attr>, ys: seq<Attr>)
    requires Alike(xs, ys) && Printable(xs) && Printable(ys)
    ensures |EncodeAll(xs)| == |EncodeAll(ys)|
  {
    if xs != [] {
      assert |Encode(xs[0])| == |Encode(ys[0])| by { EncodedSize(xs[0], ys[0]); }
      hide Encode;
      SizeAlike(xs[1..], ys[1..]);
    }
  }

  lemma EncodedSize(a: Attr, b: Attr)
    requires a.kind == b.kind && |a.data| == |b.data| && HasRule(a.kind) && Sized(a) && Sized(b)
    ensures |Encode(a)| == |Encode(b)|
  {
  }

  // --------------------------------------------------------------- the message

  /** The head of AT_IV, the head of AT_ENCR_DATA, and the head of AT_MAC. */
  function IvHead(): seq<byte> { [129, 5, 0, 0] }

  function EncrHead(n: nat): seq<byte>
    requires n < 1020
  {
    [130, n / 4 + 1, 0, 0]
  }

  function MacHead(): seq<byte> { [11, 5, 0, 0] }

  /** A message up to its MAC: code, identifier, length, type, subtype, reserved, attributes. */
  function WireFront(hdr: seq<byte>, n: nat, e: seq<byte>, iv: seq<byte>, c: seq<byte>): seq<byte>
    requires |hdr| >= 8 && |c| < 1020
  {
    hdr[..2] + [n / 0x100 % 0x100, n % 0x100] + hdr[4..8] + e + (if iv == [] then [] else IvHead() + iv + EncrHead(|c|) + c)
  }

  lemma CipherPart(iv: seq<byte>, c: seq<byte>)
    requires |iv| == BLOCK && |c| < 1020
    ensures Framed(AT_IV, iv) + Framed(AT_ENCR_DATA, c) == IvHead() + iv + EncrHead(|c|) + c
  {
    assert Framed(AT_IV, iv) == IvHead() + iv && Framed(AT_ENCR_DATA, c) == EncrHead(|c|) + c;
    Assoc(IvHead() + iv, EncrHead(|c|), c);
  }

  lemma Assoc(a: seq<byte>, b: seq<byte>, c: seq<byte>)
    ensures a + (b + c) == a + b + c
  {
  }

  lemma WireHead(hdr: seq<byte>, n: nat)
    requires |hdr| >= HEADER
    ensures WithLength(hdr, n) == hdr[..2] + [n / 0x100 % 0x100, n % 0x100] + hdr[4..8]
  {
  }

  lemma PrintedIsWire(hdr: seq<byte>, e: seq<byte>, iv: seq<byte>, c: seq<byte>, tag: seq<byte>)
    requires |hdr| >= HEADER && (iv == [] || |iv| == BLOCK) && |c| < 1020 && (tag == [] || |tag| == BLOCK)
    ensures var msg := Printed(hdr, e, iv, c, tag);
      msg == WireFront(hdr, |msg|, e, iv, c) + if tag == [] then [] else MacHead() + tag
  {
    hide WithLength, Framed, IvHead, EncrHead;
    var msg := Printed(hdr, e, iv, c, tag);
    WireHead(hdr, |msg|);
    var mid := if iv == [] then [] else IvHead() + iv + EncrHead(|c|) + c;
    var end := if tag == [] then [] else MacHead() + tag;
    if iv != [] {
      CipherPart(iv, c);
    }
    assert tag != [] ==> Framed(AT_MAC, tag) == MacHead() + tag by { MacPart(tag); }
    var head := WithLength(hdr, |msg|);
    assert msg == head + (e + mid + end);
    Assoc(head, e + mid, end);
    Assoc(head, e, mid);
  }

  lemma MacPart(tag: seq<byte>)
    ensures |tag| == BLOCK ==> Framed(AT_MAC, tag) == MacHead() + tag
  {
  }

  /** Two messages that differ at most between two places, and behind the head of AT_MAC. */
  predicate HiddenBetween(a: seq<byte>, b: seq<byte>, from: nat, to: nat) {
    && |a| == |b| && from <= to <= |a| && a[..from] == b[..from]
    // the stretch is the value of AT_ENCR_DATA, or empty
    && (from < to ==> from >= 8 + 24 && a[from - 4..from] == EncrHeadOf(to - from))
    // and behind it there is at most AT_MAC
    && (to == |a| || (|a| == to + 20 && a[to..to + 4] == MacHead() && b[to..to + 4] == MacHead()))
  }

  function EncrHeadOf(n: nat): seq<byte> { if n < 1020 then EncrHead(n) else [] }

  lemma WireAlike(hdr: seq<byte>, n: nat, e: seq<byte>, iv: seq<byte>, cx: seq<byte>, cy: seq<byte>, tag: seq<byte>, tag': seq<byte>)
    returns (from: nat, to: nat)
    requires |hdr| >= 8 && (iv == [] || |iv| == BLOCK) && |cx| == |cy| < 1020 && (iv == [] ==> cx == [])
    requires (tag == [] && tag' == []) || |tag| == |tag'| == BLOCK
    ensures HiddenBetween(WireFront(hdr, n, e, iv, cx) + (if tag == [] then [] else MacHead() + tag),
                          WireFront(hdr, n, e, iv, cy) + (if tag == [] then [] else MacHead() + tag'), from, to)
  {
    var head := hdr[..2] + [n / 0x100 % 0x100, n % 0x100] + hdr[4..8] + e;
    var mid := if iv == [] then [] else IvHead() + iv + EncrHead(|cx|);
    var front := head + mid;
    var end, end' := if tag == [] then [] else MacHead() + tag, if tag == [] then [] else MacHead() + tag';
    assert WireFront(hdr, n, e, iv, cx) == front + cx && WireFront(hdr, n, e, iv, cy) == front + cy;
    hide EncrHead, MacHead, IvHead;
    from, to := |front|, |front| + |cx|;
    HiddenParts(front, cx, cy, end, end');
    if cx != [] {
      assert front[from - 4..] == EncrHead(|cx|);
      assert (front + cx + end)[from - 4..from] == front[from - 4..];
    }
    if tag != [] {
      assert end[..4] == MacHead() && end'[..4] == MacHead() by { MacFirst(tag); MacFirst(tag'); }
    }
  }

  lemma MacFirst(tag: seq<byte>)
    ensures |MacHead()| == 4 && (MacHead() + tag)[..4] == MacHead()
  {
  }

  lemma HiddenParts(front: seq<byte>, cx: seq<byte>, cy: seq<byte>, end: seq<byte>, end': seq<byte>)
    requires |cx| == |cy| && |end| == |end'|
    ensures var a, b, from, to := front + cx + end, front + cy + end', |front|, |front| + |cx|;
      && |a| == |b| && a[..from] == front == b[..from] && a[to..] == end && b[to..] == end'
      && (|end| >= 4 ==> a[to..to + 4] == end[..4] && b[to..to + 4] == end'[..4])
  {
  }

  lemma SealedAlike(keys: Keys, xs: seq<Attr>, ys: seq<Attr>, rng: Option<seq<byte>>)
    requires Printable(xs) && Printable(ys) && (xs == [] <==> ys == []) && |EncodeAll(xs)| == |EncodeAll(ys)|
    requires keys.Works() && (xs != [] ==> keys.crypter.Some?) && IvOk(rng)
    requires Sealed(keys, xs, rng).Some? && Sealed(keys, ys, rng).Some?
    ensures IvFor(xs, rng) == IvFor(ys, rng) && |Sealed(keys, xs, rng).value| == |Sealed(keys, ys, rng).value|
    ensures IvFor(xs, rng) == [] ==> Sealed(keys, xs, rng).value == []
  {
    hide EncodeAll, Plain;
    if xs != [] {
      PlainFits(keys.crypter.value, xs);
      PlainFits(keys.crypter.value, ys);
    }
  }

  /**
   * Nobody without the key sees secret values: two messages whose attributes are alike
   * differ at most inside of the value of AT_ENCR_DATA, and behind the head of AT_MAC.
   */
  lemma SecretsInvisible(keys: Keys, hdr: seq<byte>, xs: seq<Attr>, ys: seq<Attr>, rng: Option<seq<byte>>, sigdata: seq<byte>)
    returns (from: nat, to: nat)
    requires |hdr| >= HEADER && Alike(xs, ys) && IvOk(rng)
    requires Generable(keys, hdr[5], xs) && Generable(keys, hdr[5], ys)
    requires Generate(keys, hdr, xs, rng, sigdata).Some? && Generate(keys, hdr, ys, rng, sigdata).Some?
    ensures HiddenBetween(Generate(keys, hdr, xs, rng, sigdata).value, Generate(keys, hdr, ys, rng, sigdata).value, from, to)
  {
    hide Generate, Printed, EncodeAll, Select, Sealed, SecretSize, Generable, HiddenBetween, WireFront, Secret;
    SelectAlike(xs, ys);
    Budget(keys, hdr[5], xs);
    Budget(keys, hdr[5], ys);
    var tag := Generated(keys, hdr, xs, rng, sigdata);
    var tag' := Generated(keys, hdr, ys, rng, sigdata);
    var sx, sy := Select(xs, true), Select(ys, true);
    SizeAlike(sx, sy);
    SealedAlike(keys, sx, sy, rng);
    var e, iv := EncodeAll(Select(xs, false)), IvFor(sx, rng);
    var cx, cy := Sealed(keys, sx, rng).value, Sealed(keys, sy, rng).value;
    PrintedIsWire(hdr, e, iv, cx, tag);
    PrintedIsWire(hdr, e, iv, cy, tag');
    PrintedSize(hdr, e, iv, cx, cy, tag, tag');
    from, to := WireAlike(hdr, |Printed(hdr, e, iv, cx, tag)|, e, iv, cx, cy, tag, tag');
  }

  lemma PrintedSize(hdr: seq<byte>, e: seq<byte>, iv: seq<byte>, cx: seq<byte>, cy: seq<byte>, tag: seq<byte>, tag': seq<byte>)
    requires |hdr| >= HEADER && |iv| <= BLOCK && |cx| == |cy| < 1020 && |tag| == |tag'| <= BLOCK
    ensures |Printed(hdr, e, iv, cx, tag)| == |Printed(hdr, e, iv, cy, tag')|
  {
  }

  /** The padding attribute: type 6, its length in words, zeros. */
  lemma PaddingBytes(p: nat)
    requires 4 <= p < 0x400 && p % 4 == 0
    ensures var b := PaddingAttr(p);
      |b| == p && b[0] == 6 && b[1] as int * 4 == p && forall i | 2 <= i < p :: b[i] == 0
  {
  }

  /** What is encrypted: the secret attributes, and padding up to a whole number of blocks. */
  predicate PlainText(text: seq<byte>, blockSize: nat, attrs: seq<byte>)
    requires blockSize > 0
  {
    && |attrs| + 4 <= |text| <= |attrs| + blockSize && |text| % blockSize == 0 && text[..|attrs|] == attrs
    && text[|attrs|] == 6 && text[|attrs| + 1] as int * 4 == |text| - |attrs|
    && forall i | |attrs| + 2 <= i < |text| :: text[i] == 0
  }

  lemma PlainIsText(c: Cipher, secret: seq<Attr>)
    requires Printable(secret) && 4 <= c.blockSize < 0x100 && c.blockSize % 4 == 0
    ensures PlainText(Plain(c, secret), c.blockSize, EncodeAll(secret))
  {
    hide EncodeAll;
    var e := EncodeAll(secret);
    PlainFits(c, secret);
    PaddingWords(|e|, c.blockSize);
    var p := PaddingSize(|e|, c.blockSize);
    PaddingBytes(p);
    hide PaddingAttr, PaddingSize;
    var text := Plain(c, secret);
    assert text == e + PaddingAttr(p) && text[..|e|] == e;
    assert forall i | 0 <= i < p :: text[|e| + i] == PaddingAttr(p)[i];
    assert forall i | |e| + 2 <= i < |text| :: text[i] == PaddingAttr(p)[i - |e|];
  }

  /**
   * The whole message in figures.  Its secret attributes, if any, are encrypted under
   * the IV it carries.  Challenges and re-authentications end with a MAC over the
   * message, with zeros in the place of the MAC, and the additional data.
   */
  lemma MessageBytes(keys: Keys, hdr: seq<byte>, attrs: seq<Attr>, rng: Option<seq<byte>>, sigdata: seq<byte>)
    returns (c: seq<byte>, tag: seq<byte>)
    requires |hdr| >= HEADER && Generable(keys, hdr[5], attrs) && IvOk(rng)
    requires Generate(keys, hdr, attrs, rng, sigdata).Some?
    ensures var clear, secret := Select(attrs, false), Select(attrs, true);
      && Printable(clear) && Printable(secret) && |c| < 1020
      && var iv := if secret == [] || rng.None? then [] else rng.value;
      && var msg := Generate(keys, hdr, attrs, rng, sigdata).value;
      && var front := WireFront(hdr, |msg|, EncodeAll(clear), iv, c);
      && (secret == [] ==> c == [])
      && (secret != [] ==>
            && rng.Some? && keys.crypter.Some? && keys.crypter.value.blockSize > 0
            && exists text :: PlainText(text, keys.crypter.value.blockSize, EncodeAll(secret)) && keys.crypter.value.encrypt(text, iv) == Some(c))
      && (hdr[5] in {1, 11, 13} ==>
            && |tag| == 16 && msg == front + MacHead() + tag && keys.signer.Some?
            && keys.signer.value.sign(front + MacHead() + Zeros(16) + sigdata) == Some(tag))
      && (hdr[5] !in {1, 11, 13} ==> msg == front)
  {
    hide Generate, Printed, EncodeAll, Select, Sealed, SecretSize, Generable, WireFront, Plain;
    Budget(keys, hdr[5], attrs);
    tag := Generated(keys, hdr, attrs, rng, sigdata);
    var clear, secret := Select(attrs, false), Select(attrs, true);
    c := Sealed(keys, secret, rng).value;
    var e, iv := EncodeAll(clear), IvFor(secret, rng);
    SealedText(keys, secret, rng);
    PrintedIsWire(hdr, e, iv, c, tag);
    if hdr[5] in {1, 11, 13} {
      PrintedIsWire(hdr, e, iv, c, Zeros(16));
      PrintedSize(hdr, e, iv, c, c, tag, Zeros(16));
      var front := WireFront(hdr, |Printed(hdr, e, iv, c, tag)|, e, iv, c);
      Assoc(front, MacHead(), tag);
      Assoc(front, MacHead(), Zeros(16));
    } else {
      assert tag == [];
    }
  }

  lemma SealedText(keys: Keys, secret: seq<Attr>, rng: Option<seq<byte>>)
    requires Printable(secret) && keys.Works() && (secret != [] ==> keys.crypter.Some?) && IvOk(rng)
    requires Sealed(keys, secret, rng).Some?
    ensures secret == [] ==> Sealed(keys, secret, rng).value == []
    ensures secret != [] ==>
      && rng.Some? && keys.crypter.value.blockSize > 0
      && exists text :: PlainText(text, keys.crypter.value.blockSize, EncodeAll(secret))
           && keys.crypter.value.encrypt(text, rng.value) == Sealed(keys, secret, rng)
  {
    hide EncodeAll, Plain, PlainText;
    if secret != [] {
      PlainIsText(keys.crypter.value, secret);
    }
  }

  // ----------------------------------------------------------------- verifying

  /** The MAC signs the message with zeros in its place, and the additional data. */
  predicate MacRight(keys: Keys, msg: seq<byte>, at: nat, sigdata: seq<byte>) {
    && keys.signer.Some? && at + 16 <= |msg|
    && keys.signer.value.sign(msg[..at] + Zeros(16) + msg[at + 16..] + sigdata) == Some(msg[at..at + 16])
  }

  /** What is verified, by the subtype in byte five. */
  lemma VerifyBySubtype(keys: Keys, msg: seq<byte>, st: State, sigdata: seq<byte>)
    requires |msg| >= HEADER && MacWithin(st.mac, |msg|)
    ensures var v := Verify(keys, msg, st, sigdata);
      // start, client error, authentication reject, synchronization failure, identity
      && (msg[5] in {2, 4, 5, 10, 14} ==> v == Good)
      // challenges, re-authentication, and a notification without the P bit
      && (msg[5] in {1, 11, 13} || (msg[5] == 12 && !st.pBit) ==>
            (v == Good <==> st.mac.MacAt? && MacRight(keys, msg, st.mac.at, sigdata)))
      && (msg[5] == 12 && st.pBit ==> v == Good)
      && (msg[5] !in {1, 2, 4, 5, 10, 11, 12, 13, 14} ==> v == Bad)
  {
  }

  // ---------------------------------------------------------------- attributes

  /** Every attribute on the wire, by its type. */
  lemma AttributeBytes(a: Attr)
    requires HasRule(a.kind) && Sized(a)
    ensures var b, n := Encode(a), |a.data|;
      && b[0] == a.kind && b[1] as int * 4 == |b|
      && (a.kind in {10, 13, 17, 20} ==> b == [a.kind, 1, 0, 0])
      && (a.kind in {12, 16, 19, 22} ==> b == [a.kind, 1] + a.data)
      && (a.kind in {2, 7, 21} ==> b == [a.kind, 5, 0, 0] + a.data)
      && (a.kind == 1 ==> b[2..4] == [0, 0] && b[4..] == a.data)
      && (a.kind == 4 ==> b == [4, 4] + a.data)
      && (a.kind in {14, 15, 132, 133} ==> b[2] as int * 0x100 + b[3] as int == n)
      && (a.kind == 3 && n < 32 ==> b[2] as int * 0x100 + b[3] as int == 8 * n)
      && (a.kind in {3, 14, 15, 132, 133} ==> |b| < n + 8 && b[4..4 + n] == a.data && forall i | 4 + n <= i < |b| :: b[i] == 0)
      && a.kind in {1, 2, 3, 4, 7, 10, 12, 13, 14, 15, 16, 17, 19, 20, 21, 22, 132, 133}
  {
    if FormOf(a.kind).Counted? {
      CountedBytes(a.kind, a.data);
    } else {
      OtherBytes(a);
    }
  }

  lemma OtherBytes(a: Attr)
    requires HasRule(a.kind) && Sized(a) && !FormOf(a.kind).Counted?
    ensures var b := Encode(a);
      && b[0] == a.kind && b[1] as int * 4 == |b|
      && (a.kind in {10, 13, 17, 20} ==> b == [a.kind, 1, 0, 0])
      && (a.kind in {12, 16, 19, 22} ==> b == [a.kind, 1] + a.data)
      && (a.kind in {2, 7, 21} ==> b == [a.kind, 5, 0, 0] + a.data)
      && (a.kind == 1 ==> b[2..4] == [0, 0] && b[4..] == a.data)
      && (a.kind == 4 ==> b == [4, 4] + a.data)
      && a.kind in {1, 2, 4, 7, 10, 12, 13, 16, 17, 19, 20, 21, 22}
  {
  }

  lemma CountedBytes(kind: byte, data: seq<byte>)
    requires FormOf(kind).Counted? && |data| <= 1012
    ensures var b, n := EncodeCounted(kind, data), |data|;
      && kind in {3, 14, 15, 132, 133} && b[0] == kind && b[1] as int * 4 == |b|
      && (kind != 3 ==> b[2] as int * 0x100 + b[3] as int == n)
      && (kind == 3 && n < 32 ==> b[2] as int * 0x100 + b[3] as int == 8 * n)
      && |b| < n + 8 && b[4..4 + n] == data && forall i | 4 + n <= i < |b| :: b[i] == 0
  {
    var b, n := EncodeCounted(kind, data), |data|;
    CountedShape(kind, data, []);
    assert b + [] == b;
    var f := CountField(kind, n);
    assert b[2] == b[2..4][0] && b[3] == b[2..4][1];
    NetworkOrder(n, 0);
    if kind == 3 && n < 32 {
      BitsWritten(n, 0, 0, n);
    }
    hide CountField, BitsField;
  }

  /** With primitives that never fail, printing never does. */
  lemma GenerateSucceeds(keys: Keys, hdr: seq<byte>, attrs: seq<Attr>, rng: Option<seq<byte>>, sigdata: seq<byte>)
    requires |hdr| >= HEADER && Generable(keys, hdr[5], attrs) && IvOk(rng) && rng.Some?
    requires keys.crypter.Some? ==> forall data, iv :: keys.crypter.value.encrypt(data, iv).Some?
    requires keys.signer.Some? ==> forall data :: keys.signer.value.sign(data).Some?
    ensures Generate(keys, hdr, attrs, rng, sigdata).Some?
  {
    hide EncodeAll, Select, Plain, SecretSize, HasRule, Layout, WithLength;
    Budget(keys, hdr[5], attrs);
    GenerateIs(keys, hdr, attrs, rng, sigdata);
  }

  /** The headers that are taken for messages at all. */
  lemma HeaderBytes(msg: seq<byte>)
    ensures Acceptable(msg) <==>
      |msg| >= 8 && msg[0] in {1, 2} && msg[2] as int * 0x100 + msg[3] as int == |msg| && msg[4] in {18, 23}
  {
  }
}
