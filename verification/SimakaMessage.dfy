/**
 * EAP-SIM and EAP-AKA messages: the printer splits the attributes into a clear
 * and an encrypted part and adds padding, IV and MAC; the parser puts them together
 * again (sections 10.12 and 10.15 of RFC 4187, the same parts of RFC 4186).
 */
module SimakaMessage {
  import opened Chunk
  import opened Crypto
  import opened SimakaAttribute

  const HEADER: nat := 8
  const BLOCK: nat := 16

  const EAP_REQUEST: byte := 1
  const EAP_RESPONSE: byte := 2
  const EAP_SIM: byte := 18
  const EAP_AKA: byte := 23

  const AKA_CHALLENGE: byte := 1
  const AKA_AUTHENTICATION_REJECT: byte := 2
  const AKA_SYNCHRONIZATION_FAILURE: byte := 4
  const AKA_IDENTITY: byte := 5
  const SIM_START: byte := 10
  const SIM_CHALLENGE: byte := 11
  const NOTIFICATION: byte := 12
  const REAUTHENTICATION: byte := 13
  const CLIENT_ERROR: byte := 14

  /** The crypter and the signer, once keys are derived. */
  datatype Keys = Keys(crypter: Option<Cipher>, signer: Option<Signer>) {
    /** AT_IV and AT_MAC have room for 16 bytes, and attributes come in words. */
    ghost predicate Works() {
      && (crypter.Some? ==> crypter.value.Works() && crypter.value.blockSize % 4 == 0 && crypter.value.ivSize == BLOCK)
      && (signer.Some? ==> signer.value.Works() && signer.value.size == BLOCK)
    }
  }

  // ------------------------------------------------------------------ parsing

  /** Where the MAC is: in the message, or in decrypted data that is gone. */
  datatype Mac = NoMac | MacAt(at: nat) | Dangling

  /** What parsing has found so far. */
  datatype State = State(attrs: seq<Attr>, pBit: bool, mac: Mac, iv: seq<byte>, encr: seq<byte>)

  const FRESH := State([], true, NoMac, [], [])

  /** Unknown: the message has lengths on which the code does something undefined. */
  datatype Verdict = Good | Bad | Unknown

  /** Takes an attribute found at some place into the state, or refuses it. */
  function Absorb(st: State, encrypted: bool, kind: byte, data: seq<byte>, at: nat): Option<State> {
    if kind == AT_MAC then Some(st.(mac := if encrypted then Dangling else MacAt(at + 4)))
    else if kind == AT_IV then Some(st.(iv := data))
    else if kind == AT_ENCR_DATA then Some(st.(encr := data))
    else if kind == AT_PADDING then Some(st)
    else if kind == AT_NOTIFICATION && !st.pBit && !encrypted then None
    else
      Some(st.(attrs := st.attrs + [Attr(kind, data)],
               pBit := st.pBit && (kind == AT_NOTIFICATION ==> PBit(data))))
  }

  /** A MAC in a message of n bytes lies behind the header. */
  predicate MacWithin(mac: Mac, n: nat) { mac.MacAt? ==> HEADER <= mac.at && mac.at + BLOCK <= n }

  /** Parses the attributes in a chunk that starts at the given place in the message. */
  function ParseAll(s: seq<byte>, at: nat, encrypted: bool, st: State): (r: (Verdict, State))
    ensures r.1.mac == st.mac || r.1.mac.Dangling? ||
            (!encrypted && r.1.mac.MacAt? && at < r.1.mac.at && r.1.mac.at + BLOCK <= at + |s|)
    decreases |s|
  {
    if s == [] then (Good, st)
    else
      match Take(s, encrypted)
      case Refused => (Bad, st)
      case Undefined => (Unknown, st)
      case Took(kind, data, used) =>
        var next := Absorb(st, encrypted, kind, data, at);
        if next.None? then (Bad, st) else ParseAll(s[used..], at + used, encrypted, next.value)
  }

  /** Parses AT_ENCR_DATA, if there are keys for it. */
  function ParseSecret(keys: Keys, st: State): (r: (Verdict, State))
    requires keys.Works()
    ensures r.1.mac == st.mac || r.1.mac.Dangling?
  {
    if keys.crypter.None? || st.iv == [] || st.encr == [] then (Good, st)
    else
      var c := keys.crypter.value;
      if |st.encr| % c.blockSize != 0 then (Bad, st)
      else
        var plain := c.decrypt(st.encr, st.iv);
        if plain.None? then (Bad, st) else ParseAll(plain.value, 0, true, st)
  }

  /** One call of parse. */
  function Parse(keys: Keys, msg: seq<byte>, st: State): (r: (Verdict, State))
    requires keys.Works() && |msg| >= HEADER && MacWithin(st.mac, |msg|)
    ensures MacWithin(r.1.mac, |msg|)
  {
    if st.attrs != [] then ParseSecret(keys, st)
    else
      var clear := ParseAll(msg[HEADER..], HEADER, false, st);
      if clear.0.Good? then ParseSecret(keys, clear.1) else clear
  }

  // ---------------------------------------------------------------- verifying

  predicate NeedsMac(subtype: byte) {
    subtype == SIM_CHALLENGE || subtype == AKA_CHALLENGE || subtype == REAUTHENTICATION
  }

  predicate NeedsNoMac(subtype: byte) {
    subtype == SIM_START || subtype == CLIENT_ERROR || subtype == AKA_AUTHENTICATION_REJECT ||
    subtype == AKA_SYNCHRONIZATION_FAILURE || subtype == AKA_IDENTITY
  }

  function Blanked(msg: seq<byte>, at: nat): (r: seq<byte>)
    requires at + BLOCK <= |msg|
    ensures |r| == |msg|
  {
    msg[..at] + Zeros(BLOCK) + msg[at + BLOCK..]
  }

  /** Is the MAC looked at at all? */
  predicate MacChecked(subtype: byte, st: State) {
    NeedsMac(subtype) || (subtype == NOTIFICATION && !st.pBit)
  }

  function Verify(keys: Keys, msg: seq<byte>, st: State, sigdata: seq<byte>): Verdict
    requires |msg| >= HEADER && MacWithin(st.mac, |msg|)
  {
    if !MacChecked(msg[5], st) then if NeedsNoMac(msg[5]) || msg[5] == NOTIFICATION then Good else Bad
    else if st.mac.NoMac? || keys.signer.None? then Bad
    else if st.mac.Dangling? then Unknown
    else
      var at := st.mac.at;
      if keys.signer.value.Verifies(Blanked(msg, at) + sigdata, msg[at..at + BLOCK]) then Good else Bad
  }

  // ----------------------------------------------------------------- printing

  /** Goes into the encrypted part. */
  predicate Wrapped(a: Attr) {
    Confidential(a.kind) || (a.kind == AT_NOTIFICATION && !PBit(a.data))
  }

  /** The attributes the printer can write, of one of the two parts, in order. */
  function Select(attrs: seq<Attr>, wrapped: bool): (r: seq<Attr>)
    ensures forall a | a in r :: a in attrs && HasRule(a.kind) && Wrapped(a) == wrapped
  {
    if attrs == [] then []
    else
      (if HasRule(attrs[0].kind) && Wrapped(attrs[0]) == wrapped then [attrs[0]] else []) + Select(attrs[1..], wrapped)
  }

  /** The printer can write all of them. */
  predicate AllRuled(attrs: seq<Attr>) { forall a | a in attrs :: HasRule(a.kind) }

  predicate Printable(attrs: seq<Attr>) { forall a | a in attrs :: HasRule(a.kind) && Sized(a) }

  /** Every attribute the printer writes has the length that belongs to it. */
  predicate AllSized(attrs: seq<Attr>) { forall a | a in attrs && HasRule(a.kind) :: Sized(a) }

  function EncodeAll(attrs: seq<Attr>): (r: seq<byte>)
    requires Printable(attrs)
    ensures |r| % 4 == 0 && (r == [] <==> attrs == [])
  {
    if attrs == [] then [] else
    var first, rest := Encode(attrs[0]), EncodeAll(attrs[1..]);
    SumWords(|first|, |rest|);
    first + rest
  }

  lemma SumWords(m: nat, n: nat)
    requires m % 4 == 0 && n % 4 == 0
    ensures (m + n) % 4 == 0
  {
  }

  function DecodeAll(attrs: seq<Attr>): (r: seq<Attr>)
    ensures |r| == |attrs| && forall i | 0 <= i < |r| :: r[i] == Decoded(attrs[i])
  {
    seq(|attrs|, i requires 0 <= i < |attrs| => Decoded(attrs[i]))
  }

  /** AT_IV, AT_ENCR_DATA and AT_MAC: two reserved bytes, then the value. */
  function Framed(kind: byte, value: seq<byte>): (r: seq<byte>)
    requires |value| < 1020
    ensures |r| == 4 + |value|
  {
    [kind, |value| / 4 + 1, 0, 0] + value
  }

  // ------------------------------------------- the parser reads what is printed

  /** The state after one printed attribute. */
  function After(st: State, a: Attr): State {
    st.(attrs := st.attrs + [Decoded(a)], pBit := st.pBit && (a.kind == AT_NOTIFICATION ==> PBit(a.data)))
  }

  function AfterAll(st: State, attrs: seq<Attr>): State
    decreases |attrs|
  {
    if attrs == [] then st else AfterAll(After(st, attrs[0]), attrs[1..])
  }

  lemma {:induction false} AfterAllIs(st: State, attrs: seq<Attr>)
    ensures AfterAll(st, attrs) == st.(attrs := st.attrs + DecodeAll(attrs), pBit := AfterAll(st, attrs).pBit)
    ensures (forall a | a in attrs :: !Wrapped(a)) ==> AfterAll(st, attrs).pBit == st.pBit
    decreases |attrs|
  {
    hide Wrapped, Decoded, PBit;
    if attrs == [] {
      assert st.attrs + DecodeAll(attrs) == st.attrs;
    } else {
      NotWrapped(attrs[0]);
      AfterAllIs(After(st, attrs[0]), attrs[1..]);
      assert st.attrs + [Decoded(attrs[0])] + DecodeAll(attrs[1..]) == st.attrs + DecodeAll(attrs);
    }
  }

  /** Is there a notification among the attributes? */
  predicate Notifies(attrs: seq<Attr>) { exists a | a in attrs :: a.kind == AT_NOTIFICATION }

  /** The phase bit survives unless a notification was encrypted. */
  lemma {:induction false} AfterAllBit(st: State, attrs: seq<Attr>)
    requires forall a | a in attrs :: Wrapped(a)
    ensures AfterAll(st, attrs).pBit <==> st.pBit && !Notifies(attrs)
    decreases |attrs|
  {
    if attrs != [] {
      AfterAllBit(After(st, attrs[0]), attrs[1..]);
      assert attrs == [attrs[0]] + attrs[1..];
      assert Notifies(attrs) <==> attrs[0].kind == AT_NOTIFICATION || Notifies(attrs[1..]);
    }
  }

  /** One printed attribute is parsed into the state, whatever follows. */
  lemma ParseOne(a: Attr, tail: seq<byte>, at: nat, st: State)
    requires HasRule(a.kind) && Sized(a) && (st.pBit || Wrapped(a))
    ensures ParseAll(Encode(a) + tail, at, Wrapped(a), st) ==
            ParseAll(tail, at + |Encode(a)|, Wrapped(a), After(st, a))
  {
    hide Encode, Take, Confidential;
    var s := Encode(a) + tail;
    assert a.kind == AT_NOTIFICATION ==> Decoded(a) == a;
    assert Confidential(a.kind) ==> Wrapped(a);
    TakeEncoded(a, tail, Wrapped(a));
    assert s[|Encode(a)|..] == tail;
  }

  /** All of one part is parsed, in order, whatever follows. */
  lemma {:induction false} ParsePart(attrs: seq<Attr>, wrapped: bool, tail: seq<byte>, at: nat, st: State)
    requires Printable(attrs) && (forall a | a in attrs :: Wrapped(a) == wrapped) && (st.pBit || wrapped)
    ensures ParseAll(EncodeAll(attrs) + tail, at, wrapped, st) ==
            ParseAll(tail, at + |EncodeAll(attrs)|, wrapped, AfterAll(st, attrs))
  {
    hide ParseAll, Wrapped, Encode;
    if attrs == [] {
      assert EncodeAll(attrs) + tail == tail;
    } else {
      var a, rest := attrs[0], EncodeAll(attrs[1..]);
      assert EncodeAll(attrs) + tail == Encode(a) + (rest + tail);
      ParseOne(a, rest + tail, at, st);
      assert !wrapped ==> After(st, a).pBit by { NotWrapped(a); }
      ParsePart(attrs[1..], wrapped, tail, at + |Encode(a)|, After(st, a));
    }
  }

  lemma NotWrapped(a: Attr)
    ensures !Wrapped(a) && a.kind == AT_NOTIFICATION ==> PBit(a.data)
  {
  }

  // ------------------------------------------- notifications in the clear

  /** Whether notifications may be sent in the clear is looked at only from the second one on. */
  predicate OnlyLastLacksP(attrs: seq<Attr>) {
    forall i, j | 0 <= i < j < |attrs| && attrs[i].kind == AT_NOTIFICATION && attrs[j].kind == AT_NOTIFICATION ::
      PBit(attrs[i].data)
  }

  lemma OnlyLastStep(attrs: seq<Attr>)
    requires attrs != []
    ensures var a, rest := attrs[0], attrs[1..];
      && (Notifies(attrs) <==> a.kind == AT_NOTIFICATION || Notifies(rest))
      && (OnlyLastLacksP(attrs) <==>
            OnlyLastLacksP(rest) && (a.kind == AT_NOTIFICATION && Notifies(rest) ==> PBit(a.data)))
  {
    hide PBit;
    var a, rest := attrs[0], attrs[1..];
    assert attrs == [a] + rest;
    forall i, j | 0 <= i < j < |rest| && rest[i].kind == AT_NOTIFICATION && rest[j].kind == AT_NOTIFICATION
      ensures OnlyLastLacksP(attrs) ==> PBit(rest[i].data)
    {
      assert attrs[i + 1] == rest[i] && attrs[j + 1] == rest[j];
    }
    if OnlyLastLacksP(attrs) && a.kind == AT_NOTIFICATION && Notifies(rest) {
      var j :| 0 <= j < |rest| && rest[j].kind == AT_NOTIFICATION;
      assert attrs[j + 1] == rest[j];
    }
  }

  /** One printed attribute in the clear, which a notification may be whatever its P bit. */
  lemma ParseOneClear(a: Attr, tail: seq<byte>, at: nat, st: State)
    requires HasRule(a.kind) && Sized(a) && !Confidential(a.kind)
    ensures ParseAll(Encode(a) + tail, at, false, st) ==
      if a.kind == AT_NOTIFICATION && !st.pBit then (Bad, st)
      else ParseAll(tail, at + |Encode(a)|, false, After(st, a))
  {
    hide Encode, Take, Confidential;
    var s := Encode(a) + tail;
    assert a.kind == AT_NOTIFICATION ==> Decoded(a) == a;
    TakeEncoded(a, tail, false);
    assert s[|Encode(a)|..] == tail;
  }

  lemma {:induction false} ParseClear(attrs: seq<Attr>, at: nat, st: State)
    requires Printable(attrs) && forall a | a in attrs :: !Confidential(a.kind)
    ensures var r := ParseAll(EncodeAll(attrs), at, false, st);
      if (st.pBit || !Notifies(attrs)) && OnlyLastLacksP(attrs) then r == (Good, AfterAll(st, attrs)) else r.0 == Bad
    decreases |attrs|
  {
    hide ParseAll, Confidential, Encode, OnlyLastLacksP, Notifies, PBit;
    if attrs == [] {
      NothingNotifies(at, st);
    } else {
      var a := attrs[0];
      OnlyLastStep(attrs);
      ParseOneClear(a, EncodeAll(attrs[1..]), at, st);
      ParseClear(attrs[1..], at + |Encode(a)|, After(st, a));
    }
  }

  lemma NothingNotifies(at: nat, st: State)
    ensures ParseAll([], at, false, st) == (Good, st) && !Notifies([]) && OnlyLastLacksP([])
  {
  }

  /**
   * Notifications in the clear should have the P bit.  A parse of printed attributes
   * that may be in the clear is refused exactly if a notification without it is
   * followed by another notification; it is never of unknown outcome.
   */
  lemma ClearNotifications(attrs: seq<Attr>, at: nat)
    requires Printable(attrs) && forall a | a in attrs :: !Confidential(a.kind)
    ensures ParseAll(EncodeAll(attrs), at, false, FRESH).0 == if OnlyLastLacksP(attrs) then Good else Bad
  {
    ParseClear(attrs, at, FRESH);
  }

  /** So a notification without the P bit is let through in the clear if it is the only one. */
  lemma LoneNotificationPasses(code: seq<byte>, at: nat)
    requires |code| == 2 && !PBit(code)
    ensures var a := Attr(AT_NOTIFICATION, code);
      && Wrapped(a) && Printable([a])
      && ParseAll(EncodeAll([a]), at, false, FRESH) == (Good, FRESH.(attrs := [a], pBit := false))
  {
    var a := Attr(AT_NOTIFICATION, code);
    ParseClear([a], at, FRESH);
    assert FRESH.attrs + [a] == [a] && [a][1..] == [];
  }

  // -------------------------------------------------------------- the whole message

  /** The padding attribute brings the encrypted part to the block size; it is never left out. */
  function PaddingSize(n: nat, blockSize: nat): nat
    requires blockSize > 0
  {
    blockSize - n % blockSize
  }

  lemma RemainderWords(n: nat, m: nat)
    requires m > 0 && m % 4 == 0 && n % 4 == 0
    ensures n % m % 4 == 0
  {
    var b, k, q := m / 4, n / 4, n / m;
    calc {
      n % m;
      n - m * q;
      { assert m == 4 * b; }
      4 * k - (4 * b) * q;
      4 * k - 4 * (b * q);
      4 * (k - b * q);
    }
  }

  lemma PaddingWords(n: nat, blockSize: nat)
    requires blockSize > 0 && blockSize % 4 == 0 && n % 4 == 0
    ensures var p := PaddingSize(n, blockSize);
      4 <= p <= blockSize && p % 4 == 0 && (n + p) % blockSize == 0 && (n + p) % 4 == 0
  {
    var r := n % blockSize;
    DivModUnique(n + (blockSize - r), blockSize, n / blockSize + 1, 0) by {
      assert n == blockSize * (n / blockSize) + r;
    }
    RemainderWords(n, blockSize);
    WordsLeft(n, r, blockSize);
  }

  lemma WordsLeft(n: nat, r: nat, m: nat)
    requires n % 4 == 0 && r % 4 == 0 && m % 4 == 0 && r < m
    ensures 4 <= m - r && (m - r) % 4 == 0 && (n + (m - r)) % 4 == 0
  {
  }

  function PaddingAttr(p: nat): seq<byte>
    requires 4 <= p < 0x400
  {
    [AT_PADDING, p / 4] + Zeros(p - 2)
  }

  /** The padding attribute ends a parse without leaving a trace. */
  lemma ParsePadding(p: nat, at: nat, encrypted: bool, st: State)
    requires 4 <= p < 0x400 && p % 4 == 0
    ensures ParseAll(PaddingAttr(p), at, encrypted, st) == (Good, st)
  {
    var s := PaddingAttr(p);
    assert s[0] == AT_PADDING && s[1] as int * 4 == p && s[p..] == [];
  }

  lemma TakeFramed(kind: byte, value: seq<byte>, tail: seq<byte>)
    requires |value| < 1020 && |value| % 4 == 0
    requires kind == AT_ENCR_DATA || ((kind == AT_IV || kind == AT_MAC) && |value| == BLOCK)
    ensures Take(Framed(kind, value) + tail, false) == Took(kind, value, 4 + |value|)
  {
    var s := Framed(kind, value) + tail;
    assert s[0] == kind && s[1] as int * 4 == |value| + 4;
    assert s[4..4 + |value|] == value;
  }

  /** A framed value is parsed, whatever follows. */
  lemma ParseFramed(kind: byte, value: seq<byte>, tail: seq<byte>, at: nat, st: State)
    requires |value| < 1020 && |value| % 4 == 0
    requires kind == AT_ENCR_DATA || ((kind == AT_IV || kind == AT_MAC) && |value| == BLOCK)
    ensures ParseAll(Framed(kind, value) + tail, at, false, st) ==
      ParseAll(tail, at + 4 + |value|, false,
        if kind == AT_MAC then st.(mac := MacAt(at + 4))
        else if kind == AT_IV then st.(iv := value) else st.(encr := value))
  {
    hide Take;
    var s := Framed(kind, value) + tail;
    TakeFramed(kind, value, tail);
    assert s[4 + |value|..] == tail;
  }

  /** The plain text of the encrypted part. */
  function Plain(c: Cipher, secret: seq<Attr>): seq<byte>
    requires Printable(secret) && 4 <= c.blockSize < 0x100 && c.blockSize % 4 == 0
  {
    var e := EncodeAll(secret);
    PaddingWords(|e|, c.blockSize);
    e + PaddingAttr(PaddingSize(|e|, c.blockSize))
  }

  lemma PlainFits(c: Cipher, secret: seq<Attr>)
    requires Printable(secret) && 4 <= c.blockSize < 0x100 && c.blockSize % 4 == 0
    ensures var n := |Plain(c, secret)|;
      && n == |EncodeAll(secret)| + PaddingSize(|EncodeAll(secret)|, c.blockSize)
      && n % c.blockSize == 0 && n % 4 == 0 && n >= 4
  {
    hide EncodeAll, PaddingSize;
    PaddingWords(|EncodeAll(secret)|, c.blockSize);
  }

  lemma ParsePlain(c: Cipher, secret: seq<Attr>, st: State)
    requires Printable(secret) && (forall a | a in secret :: Wrapped(a))
    requires 4 <= c.blockSize < 0x100 && c.blockSize % 4 == 0
    ensures ParseAll(Plain(c, secret), 0, true, st) == (Good, AfterAll(st, secret))
  {
    hide ParseAll, PaddingAttr, Wrapped, EncodeAll, PaddingSize, AfterAll;
    var n := |EncodeAll(secret)|;
    PaddingWords(n, c.blockSize);
    var p := PaddingSize(n, c.blockSize);
    ParsePart(secret, true, PaddingAttr(p), 0, st);
    ParsePadding(p, n, true, AfterAll(st, secret));
  }

  /** The attributes of a message; a missing IV or MAC is the empty string. */
  function Layout(clear: seq<byte>, iv: seq<byte>, cipher: seq<byte>, tag: seq<byte>): (r: seq<byte>)
    requires |iv| <= BLOCK && |cipher| < 1020 && |tag| <= BLOCK
    ensures |r| >= |tag|
  {
    clear + (if iv == [] then [] else Framed(AT_IV, iv) + Framed(AT_ENCR_DATA, cipher)) +
    (if tag == [] then [] else Framed(AT_MAC, tag))
  }

  /** Where the MAC of a message is that ends with it. */
  function TagAt(n: nat, tag: seq<byte>): Mac
    requires |tag| <= n
  {
    if tag == [] then NoMac else MacAt(n - |tag|)
  }

  /** The state after the attributes of a message. */
  function Filled(st: State, iv: seq<byte>, cipher: seq<byte>, mac: Mac): State {
    var s := if iv == [] then st else st.(iv := iv, encr := cipher);
    if mac.NoMac? then s else s.(mac := mac)
  }

  lemma ParseTag(tag: seq<byte>, at: nat, st: State)
    requires |tag| == BLOCK || tag == []
    ensures ParseAll(if tag == [] then [] else Framed(AT_MAC, tag), at, false, st) ==
            (Good, Filled(st, [], [], if tag == [] then NoMac else MacAt(at + 4)))
  {
    if tag != [] {
      ParseFramed(AT_MAC, tag, [], at, st);
      assert Framed(AT_MAC, tag) + [] == Framed(AT_MAC, tag);
    }
  }

  lemma ParseCipher(iv: seq<byte>, cipher: seq<byte>, tail: seq<byte>, at: nat, st: State)
    requires |iv| == BLOCK && |cipher| < 1020 && |cipher| % 4 == 0
    ensures ParseAll(Framed(AT_IV, iv) + Framed(AT_ENCR_DATA, cipher) + tail, at, false, st) ==
            ParseAll(tail, at + 24 + |cipher|, false, st.(iv := iv, encr := cipher))
  {
    hide ParseAll, Framed;
    ParseFramed(AT_IV, iv, Framed(AT_ENCR_DATA, cipher) + tail, at, st);
    ParseFramed(AT_ENCR_DATA, cipher, tail, at + 20, st.(iv := iv));
    assert Framed(AT_IV, iv) + Framed(AT_ENCR_DATA, cipher) + tail ==
           Framed(AT_IV, iv) + (Framed(AT_ENCR_DATA, cipher) + tail);
  }

  /** The unencrypted attributes of a printed message are parsed. */
  lemma ParseLayout(clear: seq<Attr>, iv: seq<byte>, cipher: seq<byte>, tag: seq<byte>, at: nat, st: State)
    requires Printable(clear) && (forall a | a in clear :: !Wrapped(a)) && st.pBit
    requires (|iv| == BLOCK || iv == []) && |cipher| < 1020 && |cipher| % 4 == 0 && (|tag| == BLOCK || tag == [])
    ensures var s := Layout(EncodeAll(clear), iv, cipher, tag);
      ParseAll(s, at, false, st) ==
      (Good, Filled(AfterAll(st, clear), iv, cipher, TagAt(at + |s|, tag)))
  {
    hide ParseAll, Wrapped, EncodeAll;
    var e := EncodeAll(clear);
    var c := if iv == [] then [] else Framed(AT_IV, iv) + Framed(AT_ENCR_DATA, cipher);
    var m := if tag == [] then [] else Framed(AT_MAC, tag);
    assert e + c + m == e + (c + m);
    ParsePart(clear, false, c + m, at, st);
    var st1 := AfterAll(st, clear);
    if iv == [] {
      assert c + m == m;
      ParseTag(tag, at + |e|, st1);
    } else {
      ParseCipher(iv, cipher, m, at + |e|, st1);
      ParseTag(tag, at + |e| + |c|, st1.(iv := iv, encr := cipher));
    }
  }

  // ------------------------------------------------------------ the main result

  /** The keys the printer needs are there. */
  ghost predicate Ready(keys: Keys, subtype: byte, attrs: seq<Attr>) {
    && keys.Works()
    && (Select(attrs, true) != [] ==> keys.crypter.Some?)
    && (NeedsMac(subtype) ==> keys.signer.Some?)
  }

  lemma SelectPrintable(attrs: seq<Attr>, wrapped: bool)
    requires AllSized(attrs)
    ensures Printable(Select(attrs, wrapped))
  {
  }

  /** Size of the encrypted part. */
  function SecretSize(keys: Keys, secret: seq<Attr>): nat
    requires Printable(secret) && keys.Works() && (secret != [] ==> keys.crypter.Some?)
  {
    if secret == [] then 0 else |Plain(keys.crypter.value, secret)|
  }

  const OUT_SIZE: nat := 1024
  const ENCR_SIZE: nat := 512

  /** Size of the printed message. */
  function TotalSize(keys: Keys, subtype: byte, attrs: seq<Attr>): nat
    requires Ready(keys, subtype, attrs) && AllSized(attrs)
  {
    SelectPrintable(attrs, false);
    SelectPrintable(attrs, true);
    var secret := Select(attrs, true);
    HEADER + |EncodeAll(Select(attrs, false))| + (if secret == [] then 0 else 24 + SecretSize(keys, secret)) +
    (if NeedsMac(subtype) then 20 else 0)
  }

  /** The attributes are of the right length, the keys are there, and the buffers are large enough. */
  ghost predicate Generable(keys: Keys, subtype: byte, attrs: seq<Attr>) {
    && AllSized(attrs) && Ready(keys, subtype, attrs)
    && (SelectPrintable(attrs, true); SecretSize(keys, Select(attrs, true)) <= ENCR_SIZE)
    && TotalSize(keys, subtype, attrs) <= OUT_SIZE
    // the type of an attribute that is left out is still written
    && (TotalSize(keys, subtype, attrs) == OUT_SIZE ==> AllRuled(attrs))
  }

  predicate IvOk(rng: Option<seq<byte>>) { rng.Some? ==> |rng.value| == BLOCK }

  /** The encrypted part: nothing, or the cipher text under the IV; no result if the IV or encryption fails. */
  function Sealed(keys: Keys, secret: seq<Attr>, rng: Option<seq<byte>>): (r: Option<seq<byte>>)
    requires Printable(secret) && keys.Works() && (secret != [] ==> keys.crypter.Some?) && IvOk(rng)
    ensures r.Some? ==> |r.value| == SecretSize(keys, secret) && |r.value| % 4 == 0
  {
    if secret == [] then Some([])
    else if rng.None? then None
    else
      PlainFits(keys.crypter.value, secret);
      keys.crypter.value.encrypt(Plain(keys.crypter.value, secret), rng.value)
  }

  function IvFor(secret: seq<Attr>, rng: Option<seq<byte>>): (r: seq<byte>)
    requires IvOk(rng)
    ensures r == [] || |r| == BLOCK
  {
    if secret == [] || rng.None? then [] else rng.value
  }

  function WithLength(hdr: seq<byte>, n: nat): (r: seq<byte>)
    requires |hdr| >= HEADER
    ensures |r| == HEADER && r[0] == hdr[0] && r[4] == hdr[4] && r[5] == hdr[5]
  {
    hdr[..2] + Put16(n) + hdr[4..HEADER]
  }

  /** The printed message with the given MAC. */
  function Printed(hdr: seq<byte>, clear: seq<byte>, iv: seq<byte>, cipher: seq<byte>, tag: seq<byte>): (r: seq<byte>)
    requires |hdr| >= HEADER && |iv| <= BLOCK && |cipher| < 1020 && |tag| <= BLOCK
    ensures |r| == HEADER + |Layout(clear, iv, cipher, tag)| && r[HEADER..] == Layout(clear, iv, cipher, tag)
  {
    var body := Layout(clear, iv, cipher, tag);
    WithLength(hdr, HEADER + |body|) + body
  }

  /** A printed message up to its MAC. */
  function Untagged(hdr: seq<byte>, clear: seq<byte>, iv: seq<byte>, cipher: seq<byte>): seq<byte>
    requires |hdr| >= HEADER && |iv| <= BLOCK && |cipher| < 1020
  {
    var body := Layout(clear, iv, cipher, []);
    var head: seq<byte> := [AT_MAC, 5, 0, 0];
    WithLength(hdr, HEADER + |body| + 20) + body + head
  }

  lemma PrintedTagged(hdr: seq<byte>, clear: seq<byte>, iv: seq<byte>, cipher: seq<byte>, tag: seq<byte>)
    requires |hdr| >= HEADER && |iv| <= BLOCK && |cipher| < 1020 && |tag| == BLOCK
    ensures Printed(hdr, clear, iv, cipher, tag) == Untagged(hdr, clear, iv, cipher) + tag
  {
    hide WithLength;
    var body := Layout(clear, iv, cipher, []);
    var head: seq<byte> := [AT_MAC, 5, 0, 0];
    assert Framed(AT_MAC, tag) == head + tag;
    assert Layout(clear, iv, cipher, tag) == body + (head + tag) by { assert body + [] == body; }
  }

  /** The MAC is computed over the message with the MAC blank, and goes into its last 16 bytes. */
  lemma TagReplaced(hdr: seq<byte>, clear: seq<byte>, iv: seq<byte>, cipher: seq<byte>, tag: seq<byte>)
    requires |hdr| >= HEADER && |iv| <= BLOCK && |cipher| < 1020 && |tag| == BLOCK
    ensures var blank, msg := Printed(hdr, clear, iv, cipher, Zeros(BLOCK)), Printed(hdr, clear, iv, cipher, tag);
      var at := |blank| - BLOCK;
      |msg| == |blank| && at >= HEADER && blank[..at] + tag == msg && Blanked(msg, at) == blank && msg[at..at + BLOCK] == tag
  {
    hide Printed;
    PrintedTagged(hdr, clear, iv, cipher, tag);
    PrintedTagged(hdr, clear, iv, cipher, Zeros(BLOCK));
  }

  /** The end of printing: the blank MAC if one is called for, the length, the MAC. */
  function Finished(keys: Keys, m: seq<byte>, sigdata: seq<byte>): Option<seq<byte>>
    requires |m| >= HEADER && keys.Works() && (NeedsMac(m[5]) ==> keys.signer.Some?)
  {
    if !NeedsMac(m[5]) then Some(WithLength(m, |m|) + m[HEADER..])
    else
      var blank := WithLength(m, |m| + 20) + m[HEADER..] + Framed(AT_MAC, Zeros(BLOCK));
      var tag := keys.signer.value.sign(blank + sigdata);
      if tag.None? then None else Some(blank[..|blank| - BLOCK] + tag.value)
  }

  function Generate(keys: Keys, hdr: seq<byte>, attrs: seq<Attr>, rng: Option<seq<byte>>, sigdata: seq<byte>): Option<seq<byte>>
    requires |hdr| >= HEADER && Generable(keys, hdr[5], attrs) && IvOk(rng)
  {
    SelectPrintable(attrs, false);
    SelectPrintable(attrs, true);
    var secret := Select(attrs, true);
    var clear, cipher := EncodeAll(Select(attrs, false)), Sealed(keys, secret, rng);
    if cipher.None? then None
    else Finished(keys, hdr[..HEADER] + Layout(clear, IvFor(secret, rng), cipher.value, []), sigdata)
  }

  /** Is this state what the unencrypted attributes of a printed message leave? */
  ghost predicate Holds(keys: Keys, secret: seq<Attr>, rng: Option<seq<byte>>, st: State)
    requires Printable(secret) && keys.Works() && (secret != [] ==> keys.crypter.Some?) && IvOk(rng)
  {
    st.iv == IvFor(secret, rng) && (secret != [] ==> Sealed(keys, secret, rng) == Some(st.encr))
  }

  /** The encrypted part is decrypted and parsed. */
  lemma OpenSecret(keys: Keys, secret: seq<Attr>, rng: Option<seq<byte>>, st: State)
    requires Printable(secret) && keys.Works() && (secret != [] ==> keys.crypter.Some?) && IvOk(rng)
    requires (forall a | a in secret :: Wrapped(a)) && Holds(keys, secret, rng, st)
    ensures ParseSecret(keys, st) == (Good, AfterAll(st, secret))
  {
    hide ParseAll, Plain, Wrapped, EncodeAll;
    if secret != [] {
      var c := keys.crypter.value;
      PlainFits(c, secret);
      ParsePlain(c, secret, st);
      assert c.decrypt(st.encr, st.iv) == Some(Plain(c, secret));
    }
  }

  /** The state a printed message leaves before decryption. */
  function Front(clear: seq<Attr>, iv: seq<byte>, cipher: seq<byte>, mac: Mac): State {
    Filled(FRESH.(attrs := DecodeAll(clear)), iv, cipher, mac)
  }

  /** Reading the clear part, once or, when it brought no attribute, again. */
  lemma ReadFront(hdr: seq<byte>, clear: seq<Attr>, iv: seq<byte>, cipher: seq<byte>, tag: seq<byte>, st: State)
    requires Printable(clear) && (forall a | a in clear :: !Wrapped(a)) && |hdr| >= HEADER
    requires (|iv| == BLOCK || iv == []) && |cipher| < 1020 && |cipher| % 4 == 0 && (|tag| == BLOCK || tag == [])
    requires var mac := TagAt(|Printed(hdr, EncodeAll(clear), iv, cipher, tag)|, tag);
      st == FRESH || (clear == [] && st == Front(clear, iv, cipher, mac))
    ensures var msg := Printed(hdr, EncodeAll(clear), iv, cipher, tag);
      ParseAll(msg[HEADER..], HEADER, false, st) == (Good, Front(clear, iv, cipher, TagAt(|msg|, tag)))
  {
    hide ParseAll, Wrapped, EncodeAll, Layout, Printed, AfterAll;
    ParseLayout(clear, iv, cipher, tag, HEADER, st);
    AfterAllIs(st, clear);
    assert st.attrs + DecodeAll(clear) == DecodeAll(clear);
  }

  /** Reading a printed message with the keys, at once or after a first try without them. */
  lemma ReadBack(keys: Keys, hdr: seq<byte>, clear: seq<Attr>, secret: seq<Attr>, rng: Option<seq<byte>>, tag: seq<byte>)
    requires Printable(clear) && Printable(secret) && |hdr| >= HEADER && IvOk(rng)
    requires (forall a | a in clear :: !Wrapped(a)) && (forall a | a in secret :: Wrapped(a))
    requires keys.Works() && (secret != [] ==> keys.crypter.Some?) && (|tag| == BLOCK || tag == [])
    requires Sealed(keys, secret, rng).Some? && SecretSize(keys, secret) < 1020
    ensures var msg := Printed(hdr, EncodeAll(clear), IvFor(secret, rng), Sealed(keys, secret, rng).value, tag);
      var mac := TagAt(|msg|, tag);
      var early := Parse(keys.(crypter := None), msg, FRESH);
      var all := Parse(keys, msg, FRESH);
      && MacWithin(mac, |msg|)
      && all.0 == Good && all.1.attrs == DecodeAll(clear) + DecodeAll(secret) && all.1.mac == mac
      && all.1.pBit == !Notifies(secret)
      && early.0 == Good && early.1.attrs == DecodeAll(clear) && Parse(keys, msg, early.1) == all
  {
    hide ParseAll, ParseSecret, Wrapped, EncodeAll, Layout, Sealed, Printed, Notifies;
    var iv, cipher := IvFor(secret, rng), Sealed(keys, secret, rng).value;
    var msg := Printed(hdr, EncodeAll(clear), iv, cipher, tag);
    var mac := TagAt(|msg|, tag);
    var front := Front(clear, iv, cipher, mac);
    ReadFront(hdr, clear, iv, cipher, tag, FRESH);
    OpenNothing(keys.(crypter := None), front);
    OpenSecret(keys, secret, rng, front) by { HoldsFront(keys, secret, rng, clear, mac); }
    AfterAllIs(front, secret);
    AfterAllBit(front, secret);
    if clear == [] {
      ReadFront(hdr, clear, iv, cipher, tag, front);
    }
  }

  lemma OpenNothing(keys: Keys, st: State)
    requires keys.Works() && keys.crypter.None?
    ensures ParseSecret(keys, st) == (Good, st)
  {
  }

  lemma HoldsFront(keys: Keys, secret: seq<Attr>, rng: Option<seq<byte>>, clear: seq<Attr>, mac: Mac)
    requires Printable(secret) && keys.Works() && (secret != [] ==> keys.crypter.Some?) && IvOk(rng)
    requires Sealed(keys, secret, rng).Some?
    ensures Holds(keys, secret, rng, Front(clear, IvFor(secret, rng), Sealed(keys, secret, rng).value, mac))
  {
  }

  /** A header create_from_payload accepts. */
  predicate Acceptable(msg: seq<byte>) {
    && |msg| >= HEADER && Get16(msg, 2) == |msg|
    && (msg[0] == EAP_REQUEST || msg[0] == EAP_RESPONSE) && (msg[4] == EAP_SIM || msg[4] == EAP_AKA)
  }

  lemma AcceptableSize(msg: seq<byte>)
    requires Acceptable(msg)
    ensures |msg| >= HEADER
  {
  }

  lemma PrintedAcceptable(hdr: seq<byte>, clear: seq<byte>, iv: seq<byte>, cipher: seq<byte>, tag: seq<byte>)
    requires Acceptable(hdr) && |iv| <= BLOCK && |cipher| < 1020 && |tag| <= BLOCK && |clear| < 0x1000
    ensures Acceptable(Printed(hdr, clear, iv, cipher, tag)) && Printed(hdr, clear, iv, cipher, tag)[5] == hdr[5]
  {
    var msg := Printed(hdr, clear, iv, cipher, tag);
    assert |msg| < 0x1_0000;
    assert msg[2..4] == Put16(|msg|);
  }

  lemma PrintedFinished(keys: Keys, hdr: seq<byte>, e: seq<byte>, iv: seq<byte>, cipher: seq<byte>, sigdata: seq<byte>)
    requires |hdr| >= HEADER && keys.Works() && (NeedsMac(hdr[5]) ==> keys.signer.Some?)
    requires |iv| <= BLOCK && |cipher| < 1020
    ensures var m := hdr[..HEADER] + Layout(e, iv, cipher, []);
      Finished(keys, m, sigdata) ==
        if !NeedsMac(hdr[5]) then Some(Printed(hdr, e, iv, cipher, []))
        else
          var tag := keys.signer.value.sign(Printed(hdr, e, iv, cipher, Zeros(BLOCK)) + sigdata);
          if tag.None? then None else Some(Printed(hdr, e, iv, cipher, tag.value))
  {
    hide Layout;
    var body := Layout(e, iv, cipher, []);
    var m := hdr[..HEADER] + body;
    assert m[HEADER..] == body;
    assert forall n :: WithLength(m, n) == WithLength(hdr, n);
    if NeedsMac(hdr[5]) {
      var blank := WithLength(m, |m| + 20) + body + Framed(AT_MAC, Zeros(BLOCK));
      PrintedTagged(hdr, e, iv, cipher, Zeros(BLOCK));
      assert blank == Untagged(hdr, e, iv, cipher) + Zeros(BLOCK);
      var tag := keys.signer.value.sign(blank + sigdata);
      if tag.Some? {
        PrintedTagged(hdr, e, iv, cipher, tag.value);
        assert blank[..|blank| - BLOCK] == Untagged(hdr, e, iv, cipher);
      }
    }
  }

  /** What is generated is a printed message with the right MAC, if one is called for. */
  lemma Generated(keys: Keys, hdr: seq<byte>, attrs: seq<Attr>, rng: Option<seq<byte>>, sigdata: seq<byte>)
    returns (tag: seq<byte>)
    requires |hdr| >= HEADER && Generable(keys, hdr[5], attrs) && IvOk(rng)
    requires Generate(keys, hdr, attrs, rng, sigdata).Some?
    ensures var clear, secret := Select(attrs, false), Select(attrs, true);
      && Printable(clear) && Printable(secret) && |EncodeAll(clear)| <= OUT_SIZE
      && Sealed(keys, secret, rng).Some? && SecretSize(keys, secret) <= ENCR_SIZE
      && var e, iv, cipher := EncodeAll(clear), IvFor(secret, rng), Sealed(keys, secret, rng).value;
      && (tag == [] || |tag| == BLOCK)
      && Generate(keys, hdr, attrs, rng, sigdata) == Some(Printed(hdr, e, iv, cipher, tag))
      && (!NeedsMac(hdr[5]) ==> tag == [])
      && (NeedsMac(hdr[5]) ==>
            |tag| == BLOCK && keys.signer.value.Verifies(Printed(hdr, e, iv, cipher, Zeros(BLOCK)) + sigdata, tag))
  {
    hide Select, EncodeAll, Printed, Sealed, Plain, Finished, Layout, SecretSize;
    SelectPrintable(attrs, false);
    SelectPrintable(attrs, true);
    var secret := Select(attrs, true);
    var e, iv, cipher := EncodeAll(Select(attrs, false)), IvFor(secret, rng), Sealed(keys, secret, rng).value;
    PrintedFinished(keys, hdr, e, iv, cipher, sigdata);
    tag := [];
    if NeedsMac(hdr[5]) {
      tag := keys.signer.value.sign(Printed(hdr, e, iv, cipher, Zeros(BLOCK)) + sigdata).value;
    }
  }

  lemma UntaggedVerifies(keys: Keys, msg: seq<byte>, st: State, sigdata: seq<byte>)
    requires |msg| >= HEADER && !NeedsMac(msg[5]) && st.mac == NoMac
    ensures Verify(keys, msg, st, sigdata) == Good <==> NeedsNoMac(msg[5]) || (msg[5] == NOTIFICATION && st.pBit)
  {
  }

  lemma TagVerifies(keys: Keys, hdr: seq<byte>, e: seq<byte>, iv: seq<byte>, cipher: seq<byte>, tag: seq<byte>,
      st: State, sigdata: seq<byte>)
    requires |hdr| >= HEADER && |iv| <= BLOCK && |cipher| < 1020 && |tag| == BLOCK && NeedsMac(hdr[5])
    requires keys.signer.Some?
    requires keys.signer.value.Verifies(Printed(hdr, e, iv, cipher, Zeros(BLOCK)) + sigdata, tag)
    requires Printed(hdr, e, iv, cipher, tag)[5] == hdr[5]
    requires st.mac == TagAt(|Printed(hdr, e, iv, cipher, tag)|, tag)
    ensures Verify(keys, Printed(hdr, e, iv, cipher, tag), st, sigdata) == Good
  {
    hide Printed;
    TagReplaced(hdr, e, iv, cipher, tag);
  }

  /**
   * Whatever is printed is accepted and parsed: the clear attributes come first and the
   * encrypted ones after them, each in their order, and an attribute without a printing
   * rule is gone.  The result is the same if the keys only become known after a first
   * parse.  It verifies with the same additional data, except that a notification
   * without the P bit never does, as the printer adds no MAC to it.
   */
  lemma RoundTrip(keys: Keys, hdr: seq<byte>, attrs: seq<Attr>, rng: Option<seq<byte>>, sigdata: seq<byte>)
    requires Acceptable(hdr) && Generable(keys, hdr[5], attrs) && IvOk(rng)
    requires Generate(keys, hdr, attrs, rng, sigdata).Some?
    ensures var msg := Generate(keys, hdr, attrs, rng, sigdata).value;
      && Acceptable(msg)
      && var (verdict, st) := Parse(keys, msg, FRESH);
      var early := Parse(keys.(crypter := None), msg, FRESH);
      && verdict == Good && st.attrs == DecodeAll(Select(attrs, false)) + DecodeAll(Select(attrs, true))
      && early.0 == Good && early.1.attrs == DecodeAll(Select(attrs, false)) && Parse(keys, msg, early.1) == (Good, st)
      && (Verify(keys, msg, st, sigdata) == Good <==>
            NeedsMac(hdr[5]) || NeedsNoMac(hdr[5]) || (hdr[5] == NOTIFICATION && !Notifies(Select(attrs, true))))
  {
    hide ParseAll, Parse, Select, EncodeAll, Printed, Sealed, Plain, DecodeAll, Generate, Verify, Notifies;
    var tag := Generated(keys, hdr, attrs, rng, sigdata);
    var clear, secret := Select(attrs, false), Select(attrs, true);
    var e, iv, cipher := EncodeAll(clear), IvFor(secret, rng), Sealed(keys, secret, rng).value;
    PrintedAcceptable(hdr, e, iv, cipher, tag);
    ReadBack(keys, hdr, clear, secret, rng, tag);
    var msg := Printed(hdr, e, iv, cipher, tag);
    var st := Parse(keys, msg, FRESH).1;
    if NeedsMac(hdr[5]) {
      TagVerifies(keys, hdr, e, iv, cipher, tag, st, sigdata);
    } else {
      UntaggedVerifies(keys, msg, st, sigdata);
    }
  }

  /** Nothing the printer can write is lost or doubled by the split. */
  lemma {:induction false} SelectSplits(attrs: seq<Attr>)
    requires AllRuled(attrs)
    ensures multiset(Select(attrs, false)) + multiset(Select(attrs, true)) == multiset(attrs)
  {
    if attrs != [] {
      SelectSplits(attrs[1..]);
      assert attrs == [attrs[0]] + attrs[1..];
    }
  }

  /** The attributes come back as they were exactly if none of them is of a kind that loses data. */
  lemma DecodedAll(attrs: seq<Attr>)
    ensures DecodeAll(attrs) == attrs <==> forall a | a in attrs ::
      && (FormOf(a.kind).NoData? ==> a.data == [])
      && (a.kind == AT_RES ==> |a.data| % 0x100 < 0x20)
  {
    forall a | a in attrs { DecodedExactly(a); }
    assert DecodeAll(attrs) == attrs <==> forall i | 0 <= i < |attrs| :: Decoded(attrs[i]) == attrs[i];
  }

  /** Verifying leaves the MAC zeroed: a second time it succeeds only for a MAC of zeros. */
  lemma VerifyAgain(keys: Keys, msg: seq<byte>, st: State, sigdata: seq<byte>)
    requires |msg| >= HEADER && st.mac.MacAt? && MacWithin(st.mac, |msg|)
    requires MacChecked(msg[5], st) && Verify(keys, msg, st, sigdata) == Good
    ensures var again := Blanked(msg, st.mac.at);
      Verify(keys, again, st, sigdata) == Good <==> msg[st.mac.at..st.mac.at + BLOCK] == Zeros(BLOCK)
  {
    var at := st.mac.at;
    var again := Blanked(msg, at);
    assert again[at..at + BLOCK] == Zeros(BLOCK) && Blanked(again, at) == again && again[5] == msg[5];
  }

  // ----------------------------------------------------------------- the object

  /** Copies bytes into a buffer at a cursor. */
  method Write(buffer: array<byte>, at: nat, bytes: seq<byte>)
    requires at + |bytes| <= buffer.Length
    modifies buffer
    ensures buffer[..at + |bytes|] == old(buffer[..at]) + bytes
  {
    forall i | 0 <= i < |bytes| { buffer[at + i] := bytes[i]; }
  }

  /** What the buffers have to hold, and that they can. */
  lemma Budget(keys: Keys, subtype: byte, attrs: seq<Attr>)
    requires Generable(keys, subtype, attrs)
    ensures var clear, secret := Select(attrs, false), Select(attrs, true);
      && AllSized(attrs) && Printable(clear) && Printable(secret)
      && keys.Works() && (secret != [] ==> keys.crypter.Some?) && (NeedsMac(subtype) ==> keys.signer.Some?)
      && |EncodeAll(secret)| <= SecretSize(keys, secret) <= ENCR_SIZE
      && var n := HEADER + |EncodeAll(clear)|;
      && n + (if secret == [] then 0 else 24 + SecretSize(keys, secret)) + (if NeedsMac(subtype) then 20 else 0) <= OUT_SIZE
      && (n < OUT_SIZE || AllRuled(attrs))
  {
    hide EncodeAll, Select, HasRule, AllRuled, Plain, PaddingSize;
    SelectPrintable(attrs, false);
    SelectPrintable(attrs, true);
    if Select(attrs, true) != [] {
      PlainFits(keys.crypter.value, Select(attrs, true));
    }
  }

  lemma GenerateIs(keys: Keys, hdr: seq<byte>, attrs: seq<Attr>, rng: Option<seq<byte>>, sigdata: seq<byte>)
    requires |hdr| >= HEADER && Generable(keys, hdr[5], attrs) && IvOk(rng)
    ensures Printable(Select(attrs, false)) && Printable(Select(attrs, true))
    ensures var e, secret := EncodeAll(Select(attrs, false)), Select(attrs, true);
      var cipher := Sealed(keys, secret, rng);
      Generate(keys, hdr, attrs, rng, sigdata) ==
        if cipher.None? then None
        else Finished(keys, hdr[..HEADER] + Layout(e, IvFor(secret, rng), cipher.value, []), sigdata)
  {
    hide EncodeAll, Select, Plain, Sealed, Finished, SecretSize, HasRule, Layout;
    SelectPrintable(attrs, false);
    SelectPrintable(attrs, true);
  }

  lemma SealedNothing(keys: Keys, rng: Option<seq<byte>>)
    requires keys.Works() && IvOk(rng)
    ensures Sealed(keys, [], rng) == Some([]) && SecretSize(keys, []) == 0
  {
  }

  /** The encrypted part, as it is appended. */
  lemma LayoutSecret(head: seq<byte>, e: seq<byte>, iv: seq<byte>, cipher: seq<byte>)
    requires |iv| <= BLOCK && |cipher| < 1020
    ensures head + Layout(e, iv, cipher, []) ==
      if iv == [] then head + e else head + e + Framed(AT_IV, iv) + Framed(AT_ENCR_DATA, cipher)
  {
    hide Framed;
  }

  method Finish(keys: Keys, out: array<byte>, o: nat, sigdata: seq<byte>) returns (gen: Option<seq<byte>>)
    requires HEADER <= o <= out.Length && keys.Works() && (NeedsMac(out[5]) ==> keys.signer.Some?)
    requires o + (if NeedsMac(out[5]) then 20 else 0) <= out.Length
    modifies out
    ensures gen == Finished(keys, old(out[..o]), sigdata)
  {
    hide Framed, WithLength;
    ghost var m := out[..o];
    if !NeedsMac(out[5]) {
      WriteLength(out, o);
      return Some(out[..o]);
    }
    Write(out, o, Framed(AT_MAC, Zeros(BLOCK)));
    assert out[..o + 20][HEADER..] == m[HEADER..] + Framed(AT_MAC, Zeros(BLOCK));
    LengthOnly(m, out[..o + 20], o + 20);
    WriteLength(out, o + 20);
    ghost var blank := WithLength(m, o + 20) + m[HEADER..] + Framed(AT_MAC, Zeros(BLOCK));
    assert out[..o + 20] == blank && out[..o + 4] == blank[..o + 4];
    var tag := keys.signer.value.sign(out[..o + 20] + sigdata);
    if tag.None? {
      return None;
    }
    Write(out, o + 4, tag.value);
    return Some(out[..o + 20]);
  }

  /** Puts the length of the message into its header. */
  method WriteLength(out: array<byte>, n: nat)
    requires HEADER <= n <= out.Length
    modifies out
    ensures out[..n] == WithLength(old(out[..n]), n) + old(out[HEADER..n])
  {
    ghost var before := out[..n];
    var len := Put16(n);
    out[2], out[3] := len[0], len[1];
    LengthWritten(before, n, out[..n]);
  }

  lemma LengthOnly(a: seq<byte>, b: seq<byte>, n: nat)
    requires |a| >= HEADER && |b| >= HEADER && a[..HEADER] == b[..HEADER]
    ensures WithLength(a, n) == WithLength(b, n)
  {
    assert a[..2] == a[..HEADER][..2] == b[..2] && a[4..HEADER] == a[..HEADER][4..] == b[4..HEADER];
  }

  lemma LengthWritten(before: seq<byte>, n: nat, after: seq<byte>)
    requires |after| == |before| >= HEADER
    requires after == before[2 := Put16(n)[0]][3 := Put16(n)[1]]
    ensures after == WithLength(before, n) + before[HEADER..]
  {
  }

  /** What has been written of one part, and what is left to write, make up the whole. */
  ghost predicate Left(rest: seq<Attr>, wrapped: bool, whole: seq<byte>, written: seq<byte>) {
    && AllSized(rest) && Printable(Select(rest, wrapped))
    && whole == written + EncodeAll(Select(rest, wrapped))
  }

  lemma SelectStep(rest: seq<Attr>, wrapped: bool)
    requires rest != []
    ensures Select(rest, wrapped) ==
      if HasRule(rest[0].kind) && Wrapped(rest[0]) == wrapped then [rest[0]] + Select(rest[1..], wrapped)
      else Select(rest[1..], wrapped)
  {
  }

  lemma EncodeStep(a: Attr, later: seq<Attr>)
    requires HasRule(a.kind) && Sized(a) && Printable(later)
    ensures Printable([a] + later) && EncodeAll([a] + later) == Encode(a) + EncodeAll(later)
  {
    assert ([a] + later)[1..] == later;
  }

  lemma LeftStep(rest: seq<Attr>, wrapped: bool, whole: seq<byte>, written: seq<byte>)
    requires rest != [] && Left(rest, wrapped, whole, written)
    ensures var a := rest[0];
      if HasRule(a.kind) && Wrapped(a) == wrapped
      then Sized(a) && |written| + |Encode(a)| <= |whole| && Left(rest[1..], wrapped, whole, written + Encode(a))
      else |written| <= |whole| && Left(rest[1..], wrapped, whole, written + [])
  {
    hide Encode, HasRule, Wrapped, Sized, Select, EncodeAll, Printable;
    var a := rest[0];
    SelectPrintable(rest[1..], wrapped);
    SelectStep(rest, wrapped);
    if HasRule(a.kind) && Wrapped(a) == wrapped {
      var later := Select(rest[1..], wrapped);
      EncodeStep(a, later);
      assert written + (Encode(a) + EncodeAll(later)) == written + Encode(a) + EncodeAll(later);
    } else {
      assert written + [] == written;
    }
  }

  lemma LeftAll(attrs: seq<Attr>, wrapped: bool, head: seq<byte>)
    requires AllSized(attrs) && Printable(Select(attrs, wrapped))
    ensures Left(attrs, wrapped, head + EncodeAll(Select(attrs, wrapped)), head)
  {
  }

  lemma LeftNone(wrapped: bool, whole: seq<byte>, written: seq<byte>)
    requires Left([], wrapped, whole, written)
    ensures whole == written
  {
  }

  /** Writes an attribute at the cursor of its part; one without a rule only leaves its type there. */
  method WriteAttribute(a: Attr, out: array<byte>, o: nat, wrapped: array<byte>, k: nat) returns (o': nat, k': nat)
    requires out != wrapped && o <= out.Length && k <= wrapped.Length
    requires HasRule(a.kind) ==> Sized(a)
    requires if !HasRule(a.kind) then o < out.Length
             else if Wrapped(a) then k + |Encode(a)| <= wrapped.Length else o + |Encode(a)| <= out.Length
    modifies out, wrapped
    ensures o <= o' <= out.Length && k <= k' <= wrapped.Length
    ensures out[..o'] == old(out[..o]) + if HasRule(a.kind) && !Wrapped(a) then Encode(a) else []
    ensures wrapped[..k'] == old(wrapped[..k]) + if HasRule(a.kind) && Wrapped(a) then Encode(a) else []
  {
    hide Encode, Wrapped, Sized, HasRule;
    o', k' := o, k;
    if !HasRule(a.kind) {
      out[o] := a.kind;
    } else if Wrapped(a) {
      Write(wrapped, k, Encode(a));
      k' := k + |Encode(a)|;
    } else {
      Write(out, o, Encode(a));
      o' := o + |Encode(a)|;
    }
  }

  class SimakaMessage {
    var msg: seq<byte>
    var attributes: seq<Attr>
    var encrypted: bool
    var pBit: bool
    var mac: Mac
    var iv: seq<byte>
    var encr: seq<byte>

    function View(): State
      reads this
    {
      State(attributes, pBit, mac, iv, encr)
    }

    predicate Valid()
      reads this
    {
      Acceptable(msg) && MacWithin(mac, |msg|)
    }

    constructor (data: seq<byte>)
      requires Acceptable(data)
      ensures Valid() && msg == data && View() == FRESH && !encrypted
    {
      msg := data;
      attributes, encrypted, pBit, mac, iv, encr := [], false, true, NoMac, [], [];
    }

    /** simaka_message_create_from_payload. */
    static method FromPayload(data: seq<byte>) returns (m: SimakaMessage?)
      ensures m != null <==> Acceptable(data)
      ensures m != null ==> fresh(m) && m.Valid() && m.msg == data && m.View() == FRESH && !m.encrypted
    {
      if |data| < HEADER || Get16(data, 2) != |data| {
        return null;
      }
      if data[0] != EAP_REQUEST && data[0] != EAP_RESPONSE {
        return null;
      }
      if data[4] != EAP_SIM && data[4] != EAP_AKA {
        return null;
      }
      m := new SimakaMessage(data);
    }

    method AddAttribute(kind: byte, data: seq<byte>)
      modifies `attributes
      ensures attributes == old(attributes) + [Attr(kind, data)]
    {
      attributes := attributes + [Attr(kind, data)];
    }

    /** parse_attributes, on a chunk found at the given place in the message. */
    method ParseAttributes(input: seq<byte>, place: nat) returns (verdict: Verdict)
      requires Valid() && (!encrypted ==> HEADER <= place && place + |input| == |msg|)
      modifies `attributes, `pBit, `mac, `iv, `encr
      ensures Valid()
      ensures (verdict, View()) == old(ParseAll(input, place, encrypted, View()))
    {
      hide Take, Absorb, Acceptable;
      var s, at: nat := input, place;
      while |s| > 0
        invariant Valid() && (!encrypted ==> HEADER <= at && at + |s| == |msg|)
        invariant ParseAll(s, at, encrypted, View()) == old(ParseAll(input, place, encrypted, View()))
        decreases |s|
      {
        var taken := Take(s, encrypted);
        if taken.Refused? {
          return Bad;
        }
        if taken.Undefined? {
          return Unknown;
        }
        var ok := TakeIn(taken.kind, taken.data, at);
        if !ok {
          return Bad;
        }
        s, at := s[taken.used..], at + taken.used;
      }
      return Good;
    }

    /** Handles special attributes, and lists the others. */
    method TakeIn(kind: byte, data: seq<byte>, at: nat) returns (ok: bool)
      requires Valid() && (kind == AT_MAC && !encrypted ==> HEADER <= at && at + 20 <= |msg|)
      requires kind == AT_NOTIFICATION ==> |data| == 2
      modifies `attributes, `pBit, `mac, `iv, `encr
      ensures Valid()
      ensures var r := old(Absorb(View(), encrypted, kind, data, at));
        ok == r.Some? && View() == if ok then r.value else old(View())
    {
      if kind == AT_MAC {
        mac := if encrypted then Dangling else MacAt(at + 4);
      } else if kind == AT_IV {
        iv := data;
      } else if kind == AT_ENCR_DATA {
        encr := data;
      } else if kind != AT_PADDING {
        if kind == AT_NOTIFICATION {
          if pBit {
            pBit := data[0] / 0x40 % 2 == 1;
          } else if !encrypted {
            return false;
          }
        }
        AddAttribute(kind, data);
      }
      return true;
    }

    /** Decrypts AT_ENCR_DATA and parses what is inside. */
    method DecryptPart(keys: Keys) returns (verdict: Verdict)
      requires Valid() && keys.Works() && !encrypted
      modifies `attributes, `pBit, `mac, `iv, `encr, `encrypted
      ensures Valid() && !encrypted
      ensures (verdict, View()) == old(ParseSecret(keys, View()))
    {
      if keys.crypter.None? || iv == [] || encr == [] {
        return Good;
      }
      if |encr| % keys.crypter.value.blockSize != 0 {
        return Bad;
      }
      var plain := keys.crypter.value.decrypt(encr, iv);
      if plain.None? {
        return Bad;
      }
      encrypted := true;
      verdict := ParseAttributes(plain.value, 0);
      encrypted := false;
    }

    method ParseMessage(keys: Keys) returns (verdict: Verdict)
      requires Valid() && keys.Works() && !encrypted
      modifies `attributes, `pBit, `mac, `iv, `encr, `encrypted
      ensures Valid() && !encrypted
      ensures (verdict, View()) == old(Parse(keys, msg, View()))
    {
      if |attributes| == 0 {
        verdict := ParseAttributes(msg[HEADER..], HEADER);
        if verdict != Good {
          return;
        }
      }
      verdict := DecryptPart(keys);
    }

    /** Writes each attribute to the buffer of its part; the message buffer has the header already. */
    method WriteAttributes(out: array<byte>, wrapped: array<byte>) returns (o: nat, k: nat)
      requires AllSized(attributes) && Printable(Select(attributes, false)) && Printable(Select(attributes, true))
      requires out != wrapped && |EncodeAll(Select(attributes, true))| <= wrapped.Length
      requires HEADER + |EncodeAll(Select(attributes, false))| <= out.Length
      requires HEADER + |EncodeAll(Select(attributes, false))| < out.Length || AllRuled(attributes)
      modifies out, wrapped
      ensures o == HEADER + |EncodeAll(Select(attributes, false))|
      ensures out[..o] == old(out[..HEADER]) + EncodeAll(Select(attributes, false))
      ensures k == |EncodeAll(Select(attributes, true))|
      ensures wrapped[..k] == EncodeAll(Select(attributes, true))
    {
      hide Encode, Wrapped, Sized, HasRule, Left, Select, EncodeAll;
      ghost var clear, secret := EncodeAll(Select(attributes, false)), EncodeAll(Select(attributes, true));
      ghost var head := out[..HEADER];
      o, k := HEADER, 0;
      var i := 0;
      LeftAll(attributes, false, head);
      LeftAll(attributes, true, []);
      assert attributes[0..] == attributes && [] + secret == secret && wrapped[..0] == [];
      while i < |attributes|
        invariant 0 <= i <= |attributes| && HEADER <= o <= out.Length && k <= wrapped.Length
        invariant Left(attributes[i..], false, head + clear, out[..o])
        invariant Left(attributes[i..], true, secret, wrapped[..k])
      {
        var a := attributes[i];
        LeftStep(attributes[i..], false, head + clear, out[..o]);
        LeftStep(attributes[i..], true, secret, wrapped[..k]);
        assert attributes[i..][1..] == attributes[i + 1..];
        o, k := WriteAttribute(a, out, o, wrapped, k);
        i := i + 1;
      }
      assert attributes[i..] == [];
      LeftNone(false, head + clear, out[..o]);
      LeftNone(true, secret, wrapped[..k]);
    }

    /** Pads and encrypts the wrapped attributes, and appends them with their IV to the message. */
    method WriteSecret(keys: Keys, ghost secret: seq<Attr>, rng: Option<seq<byte>>, wrapped: array<byte>, k: nat,
        out: array<byte>, o: nat) returns (ok: bool, end: nat)
      requires keys.Works() && keys.crypter.Some? && IvOk(rng) && out != wrapped
      requires secret != [] && Printable(secret) && SecretSize(keys, secret) <= wrapped.Length < 1020
      requires k <= wrapped.Length && wrapped[..k] == EncodeAll(secret)
      requires o + 24 + SecretSize(keys, secret) <= out.Length
      modifies out, wrapped
      ensures ok == Sealed(keys, secret, rng).Some? && (ok ==> rng.Some?)
      ensures ok ==> end == o + 24 + SecretSize(keys, secret)
      ensures ok ==> out[..end] == old(out[..o]) +
                                   Framed(AT_IV, rng.value) + Framed(AT_ENCR_DATA, Sealed(keys, secret, rng).value)
    {
      hide EncodeAll, PaddingAttr, PaddingSize;
      var c := keys.crypter.value;
      PaddingWords(k, c.blockSize);
      PlainFits(c, secret);
      var p := PaddingSize(k, c.blockSize);
      Write(wrapped, k, PaddingAttr(p));
      var plain := wrapped[..k + p];
      assert plain == Plain(c, secret);
      end := o;
      if rng.None? {
        return false, end;
      }
      Write(out, o, Framed(AT_IV, rng.value));
      var cipher := c.encrypt(plain, rng.value);
      if cipher.None? {
        return false, end;
      }
      Write(wrapped, 0, cipher.value);
      Write(out, o + 20, Framed(AT_ENCR_DATA, cipher.value));
      return true, o + 24 + |cipher.value|;
    }

    /** Writes the header and both parts to the message buffer. */
    method WriteParts(keys: Keys, rng: Option<seq<byte>>, out: array<byte>) returns (ok: bool, o: nat)
      requires Valid() && Generable(keys, msg[5], attributes) && IvOk(rng) && out.Length == OUT_SIZE
      modifies out
      ensures Printable(Select(attributes, false)) && Printable(Select(attributes, true))
      ensures ok == Sealed(keys, Select(attributes, true), rng).Some?
      ensures var e, secret := EncodeAll(Select(attributes, false)), Select(attributes, true);
        ok ==>
          && HEADER <= o && o + (if NeedsMac(msg[5]) then 20 else 0) <= OUT_SIZE
          && out[..o] == msg[..HEADER] + Layout(e, IvFor(secret, rng), Sealed(keys, secret, rng).value, [])
    {
      hide EncodeAll, Select, Plain, AllSized, AllRuled, Printable, Sealed, SecretSize, Layout, Framed, Generable, Acceptable;
      ghost var clear, secret := Select(attributes, false), Select(attributes, true);
      assert |msg| >= HEADER by { AcceptableSize(msg); }
      Budget(keys, msg[5], attributes);
      SealedNothing(keys, rng);
      var wrapped := new byte[ENCR_SIZE];
      Write(out, 0, msg[..HEADER]);
      assert out[..HEADER] == msg[..HEADER] by { assert out[..0] == []; }
      var k;
      o, k := WriteAttributes(out, wrapped);
      assert out[..o] == msg[..HEADER] + EncodeAll(clear);
      if k > 0 {
        ok, o := WriteSecret(keys, secret, rng, wrapped, k, out, o);
        if !ok {
          return;
        }
        assert IvFor(secret, rng) == rng.value;
      }
      LayoutSecret(msg[..HEADER], EncodeAll(clear), IvFor(secret, rng), Sealed(keys, secret, rng).value);
      return true, o;
    }

    method GenerateMessage(keys: Keys, rng: Option<seq<byte>>, sigdata: seq<byte>) returns (gen: Option<seq<byte>>)
      requires Valid() && Generable(keys, msg[5], attributes) && IvOk(rng)
      ensures gen == Generate(keys, msg, attributes, rng, sigdata)
    {
      hide EncodeAll, Select, AllSized, Printable, Sealed, Finished, Layout, Generate;
      GenerateIs(keys, msg, attributes, rng, sigdata);
      var out := new byte[OUT_SIZE];
      var ok, o := WriteParts(keys, rng, out);
      if !ok {
        return None;
      }
      assert out[5] == out[..o][5] == msg[5];
      gen := Finish(keys, out, o, sigdata);
    }

    /** Checks the MAC, which stays zeroed in the message. */
    method VerifyMac(keys: Keys, sigdata: seq<byte>) returns (verdict: Verdict)
      requires Valid()
      modifies `msg
      ensures verdict == old(Verify(keys, msg, View(), sigdata))
      ensures msg == if MacChecked(old(msg)[5], View()) && keys.signer.Some? && mac.MacAt?
                     then Blanked(old(msg), mac.at) else old(msg)
      ensures Valid()
    {
      if NeedsNoMac(msg[5]) {
        return Good;
      }
      if msg[5] == NOTIFICATION && pBit {
        return Good;
      }
      if !NeedsMac(msg[5]) && msg[5] != NOTIFICATION {
        return Bad;
      }
      if mac.NoMac? || keys.signer.None? {
        return Bad;
      }
      if mac.Dangling? {
        return Unknown;
      }
      var backup := msg[mac.at..mac.at + BLOCK];
      BlankedHeader(msg, mac.at);
      msg := Blanked(msg, mac.at);
      return if keys.signer.value.Verifies(msg + sigdata, backup) then Good else Bad;
    }
  }

  lemma BlankedHeader(msg: seq<byte>, at: nat)
    requires Acceptable(msg) && HEADER <= at && at + BLOCK <= |msg|
    ensures Acceptable(Blanked(msg, at)) && Blanked(msg, at)[..HEADER] == msg[..HEADER]
  {
    var b := Blanked(msg, at);
    assert forall i | 0 <= i < HEADER :: b[i] == msg[i];
  }
}
