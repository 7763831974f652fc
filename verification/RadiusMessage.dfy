/**
 * RADIUS messages: building them attribute by attribute, signing and verifying
 * (section 3 of RFC 2865, section 3.2 of RFC 3579).
 */
module RadiusMessage {
  import opened Chunk
  import opened Crypto
  import opened RadiusCrypt

  const HEADER: nat := 20
  const MAX_VALUE: nat := 253
  const ACCESS_REQUEST: byte := 1
  const USER_PASSWORD: byte := 2
  const EAP_MESSAGE: byte := 79
  const MESSAGE_AUTHENTICATOR: byte := 80

  // ----------------------------------------------------------- the wire format

  datatype Attribute = Attribute(kind: byte, value: seq<byte>)

  predicate AttributeOk(a: Attribute) { |a.value| <= MAX_VALUE }

  function EncodeAttribute(a: Attribute): seq<byte>
    requires AttributeOk(a)
  {
    [a.kind, |a.value| + 2] + a.value
  }

  function EncodeAll(attrs: seq<Attribute>): seq<byte>
    requires Encodable(attrs)
  {
    if attrs == [] then [] else EncodeAttribute(attrs[0]) + EncodeAll(attrs[1..])
  }

  /** Replaces the authenticator field. */
  function WithAuth(msg: seq<byte>, auth: seq<byte>): (r: seq<byte>)
    requires |msg| >= HEADER && |auth| == BLOCK
    ensures |r| == |msg| && r[4..20] == auth && r[20..] == msg[20..] && r[..4] == msg[..4]
  {
    msg[..4] + auth + msg[20..]
  }

  /** The length field tells the size of the buffer. */
  predicate Consistent(msg: seq<byte>) { HEADER <= |msg| < 0x1_0000 && Get16(msg, 2) == |msg| }

  /** A message with one more attribute behind, and the length field raised. */
  function Added(msg: seq<byte>, a: Attribute): seq<byte>
    requires |msg| >= HEADER && AttributeOk(a)
  {
    msg[..2] + Put16(|msg| + 2 + |a.value|) + msg[4..] + EncodeAttribute(a)
  }

  lemma AddedConsistent(msg: seq<byte>, a: Attribute)
    requires Consistent(msg) && AttributeOk(a) && |msg| + 2 + |a.value| < 0x1_0000
    ensures var r := Added(msg, a);
      && Consistent(r) && r[0] == msg[0] && r[4..20] == msg[4..20] && |r| == |msg| + 2 + |a.value|
      && r[20..] == msg[20..] + EncodeAttribute(a)
  {
    var n := |msg| + 2 + |a.value|;
    assert Get16(Put16(n), 0) == n by { DivModUnique(n, 0x100, n / 0x100, n % 0x100); }
    var r := Added(msg, a);
    hide EncodeAttribute;
    assert r[2] == Put16(n)[0] && r[3] == Put16(n)[1];
  }

  lemma WithAuthConsistent(msg: seq<byte>, auth: seq<byte>)
    requires Consistent(msg) && |auth| == BLOCK
    ensures Consistent(WithAuth(msg, auth)) && WithAuth(msg, auth)[0] == msg[0]
  {
    var r := WithAuth(msg, auth);
    assert r[2] == r[..4][2] && r[3] == r[..4][3];
  }

  // ------------------------------------------------- walking over attributes

  /** The enumerator stops at the end, or at an attribute that is cut off. */
  predicate AtEnd(s: seq<byte>) { |s| < 2 || |s| < s[1] as int }

  /** The enumerator never stands still: only an attribute of length zero makes it. */
  predicate Walkable(s: seq<byte>) {
    AtEnd(s) || s[0] == MESSAGE_AUTHENTICATOR || (s[1] >= 1 && Walkable(s[s[1]..]))
  }

  /** Where the value of the first Message-Authenticator is; if there is none, whether there is an EAP-Message. */
  datatype Search = Found(at: nat, len: int) | Missing(eap: bool)

  function Find(s: seq<byte>, at: nat, eap: bool): (r: Search)
    requires Walkable(s)
    ensures r.Found? ==> at + 2 <= r.at <= at + |s| && r.at + r.len <= at + |s|
  {
    if AtEnd(s) then Missing(eap)
    else if s[0] == MESSAGE_AUTHENTICATOR then Found(at + 2, s[1] as int - 2)
    else Find(s[s[1]..], at + s[1] as int, eap || s[0] == EAP_MESSAGE)
  }

  lemma WalkNext(s: seq<byte>)
    ensures Walkable(s) <==> AtEnd(s) || s[0] == MESSAGE_AUTHENTICATOR || (s[1] >= 1 && Walkable(s[s[1]..]))
  {
  }

  /** One step of the walk. */
  lemma FindNext(s: seq<byte>, at: nat, eap: bool)
    requires Walkable(s)
    ensures AtEnd(s) ==> Find(s, at, eap) == Missing(eap)
    ensures !AtEnd(s) && s[0] == MESSAGE_AUTHENTICATOR ==> Find(s, at, eap) == Found(at + 2, s[1] as int - 2)
    ensures !AtEnd(s) && s[0] != MESSAGE_AUTHENTICATOR ==>
      && s[1] >= 1 && Walkable(s[s[1]..])
      && Find(s, at, eap) == Find(s[s[1]..], at + s[1] as int, eap || s[0] == EAP_MESSAGE)
  {
  }

  predicate Encodable(attrs: seq<Attribute>) { forall a | a in attrs :: AttributeOk(a) }

  /** Some attribute is of the given kind. */
  predicate Carries(attrs: seq<Attribute>, kind: byte) { exists a | a in attrs :: a.kind == kind }

  lemma CarriesFirst(attrs: seq<Attribute>, kind: byte)
    requires attrs != []
    ensures Carries(attrs, kind) <==> attrs[0].kind == kind || Carries(attrs[1..], kind)
  {
    assert attrs == [attrs[0]] + attrs[1..];
  }

  lemma CarriesLast(attrs: seq<Attribute>, a: Attribute)
    ensures forall kind :: Carries(attrs + [a], kind) <==> Carries(attrs, kind) || a.kind == kind
  {
    forall kind
      ensures Carries(attrs + [a], kind) <==> Carries(attrs, kind) || a.kind == kind
    {
      assert a in attrs + [a] && forall b :: b in attrs + [a] <==> b in attrs || b == a;
    }
  }

  lemma FindStep(a: Attribute, rest: seq<byte>, at: nat, eap: bool)
    requires AttributeOk(a) && Walkable(rest)
    ensures Walkable(EncodeAttribute(a) + rest)
    ensures Find(EncodeAttribute(a) + rest, at, eap) ==
      if a.kind == MESSAGE_AUTHENTICATOR then Found(at + 2, |a.value|)
      else Find(rest, at + 2 + |a.value|, eap || a.kind == EAP_MESSAGE)
  {
    var s := EncodeAttribute(a) + rest;
    assert s[0] == a.kind && s[1] as int == |a.value| + 2 && s[s[1]..] == rest;
  }

  /** Attributes without a Message-Authenticator are walked over; an EAP-Message among them is noticed. */
  lemma {:induction false} FindSkips(attrs: seq<Attribute>, tail: seq<byte>, at: nat, eap: bool)
    requires Encodable(attrs) && !Carries(attrs, MESSAGE_AUTHENTICATOR) && Walkable(tail)
    ensures Walkable(EncodeAll(attrs) + tail)
    ensures Find(EncodeAll(attrs) + tail, at, eap) ==
            Find(tail, at + |EncodeAll(attrs)|, eap || Carries(attrs, EAP_MESSAGE))
  {
    hide Find, Walkable;
    if attrs == [] {
      assert EncodeAll(attrs) + tail == tail;
    } else {
      var a, rest := attrs[0], EncodeAll(attrs[1..]);
      CarriesFirst(attrs, EAP_MESSAGE);
      CarriesFirst(attrs, MESSAGE_AUTHENTICATOR);
      FindSkips(attrs[1..], tail, at + 2 + |a.value|, eap || a.kind == EAP_MESSAGE);
      FindStep(a, rest + tail, at, eap);
      assert EncodeAll(attrs) + tail == EncodeAttribute(a) + (rest + tail);
    }
  }

  lemma {:induction false} EncodeAppend(attrs: seq<Attribute>, a: Attribute)
    requires Encodable(attrs) && AttributeOk(a)
    ensures Encodable(attrs + [a]) && EncodeAll(attrs + [a]) == EncodeAll(attrs) + EncodeAttribute(a)
  {
    if attrs == [] {
      assert attrs + [a] == [a] && EncodeAll([a][1..]) == [];
    } else {
      var rest := attrs[1..];
      EncodeAppend(rest, a);
      assert (attrs + [a])[1..] == rest + [a];
      assert EncodeAttribute(attrs[0]) + EncodeAll(rest) + EncodeAttribute(a) ==
             EncodeAttribute(attrs[0]) + (EncodeAll(rest) + EncodeAttribute(a));
    }
  }

  // ---------------------------------------------------- signing and verifying

  /** The random source a signer is given, if any, and what it yields. */
  datatype Rng = Absent | Failing | Yields(bytes: seq<byte>) {
    predicate Ok() { Yields? ==> |bytes| == BLOCK }
  }

  /** The authenticator a response is hashed with: that of the request, or zeros. */
  function Requested(reqAuth: Option<seq<byte>>): (r: seq<byte>)
    requires reqAuth.Some? ==> |reqAuth.value| == BLOCK
    ensures |r| == BLOCK
  {
    if reqAuth.Some? then reqAuth.value else Zeros(BLOCK)
  }

  /** An attribute as it is added: a value too long is cut. */
  function Cut(kind: byte, data: seq<byte>): (a: Attribute)
    ensures AttributeOk(a)
  {
    Attribute(kind, data[..Min(|data|, MAX_VALUE)])
  }

  /** Puts the signature over the whole message into its last 16 bytes. */
  function Tagged(signer: Signer, msg: seq<byte>): Option<seq<byte>>
    requires |msg| >= BLOCK
  {
    var tag := signer.sign(msg);
    if tag.None? then None else Some(msg[..|msg| - BLOCK] + tag.value)
  }

  const BLANK := Attribute(MESSAGE_AUTHENTICATOR, Zeros(BLOCK))

  /** Puts the hash over the whole message and the secret into the authenticator. */
  function Answered(h: Hasher, secret: seq<byte>, msg: seq<byte>): Option<seq<byte>>
    requires |msg| >= HEADER
  {
    var auth := h.Digest(msg + secret);
    if auth.None? then None else Some(WithAuth(msg, auth.value))
  }

  /** The hidden form of a stored password, as an attribute. */
  function Hidden(h: Hasher, secret: seq<byte>, auth: seq<byte>, password: seq<byte>): (r: Option<Attribute>)
    ensures r.Some? ==> AttributeOk(r.value) && r.value.kind == USER_PASSWORD
  {
    var pad := h.Pad(secret, auth);
    if pad.None? then None
    else
      var cipher := Encrypted(h, secret, pad.value, password);
      if cipher.None? then None else Some(Cut(USER_PASSWORD, cipher.value))
  }

  /** The message with its authenticator set and the stored password, if any, added. */
  function Prepared(h: Hasher, secret: seq<byte>, auth: seq<byte>, password: seq<byte>, msg: seq<byte>): (r: Option<seq<byte>>)
    requires |msg| >= HEADER && |auth| == BLOCK
    ensures r.Some? ==> |r.value| >= HEADER
  {
    if password == [] then Some(WithAuth(msg, auth))
    else
      var a := Hidden(h, secret, auth, password);
      if a.None? then None else Some(Added(WithAuth(msg, auth), a.value))
  }

  /** The message with a Message-Authenticator, if wanted. */
  function Authenticated(signer: Signer, wanted: bool, msg: seq<byte>): (r: Option<seq<byte>>)
    requires signer.Works() && signer.size == BLOCK && |msg| >= HEADER
    ensures r.Some? ==> |r.value| >= HEADER
  {
    if wanted then Tagged(signer, Added(msg, BLANK)) else Some(msg)
  }

  /** The authenticator a message is signed with. */
  function Chosen(rng: Rng, reqAuth: Option<seq<byte>>): (r: seq<byte>)
    requires rng.Ok() && (reqAuth.Some? ==> |reqAuth.value| == BLOCK)
    ensures |r| == BLOCK
  {
    if rng.Yields? then rng.bytes else Requested(reqAuth)
  }

  /** A message after signing. */
  function Signed(h: Hasher, secret: seq<byte>, signer: Signer, rng: Rng, reqAuth: Option<seq<byte>>,
      wanted: bool, password: seq<byte>, msg: seq<byte>): Option<seq<byte>>
    requires signer.Works() && signer.size == BLOCK && |msg| >= HEADER
    requires rng.Ok() && (reqAuth.Some? ==> |reqAuth.value| == BLOCK)
  {
    if rng.Failing? then None
    else
      var p := Prepared(h, secret, Chosen(rng, reqAuth), password, msg);
      if p.None? then None
      else
        var q := Authenticated(signer, wanted, p.value);
        if q.Some? && rng.Absent? then Answered(h, secret, q.value) else q
  }

  /** Signing keeps the length within 16 bits. */
  predicate Fits(msg: seq<byte>, password: seq<byte>, wanted: bool) {
    |msg| + (if password == [] then 0 else 2 + Min(|password|, MAX_VALUE)) + (if wanted then 18 else 0) < 0x1_0000
  }

  /** The first Message-Authenticator must be right, and there must be one if there is an EAP-Message. */
  predicate Authentic(signer: Signer, msg: seq<byte>)
    requires |msg| >= HEADER && Walkable(msg[HEADER..])
  {
    match Find(msg[HEADER..], HEADER, false)
    case Found(at, len) => len == BLOCK && signer.Verifies(Blanked(msg, at), msg[at..at + BLOCK])
    case Missing(eap) => !eap
  }

  function Blanked(msg: seq<byte>, at: nat): seq<byte>
    requires at + BLOCK <= |msg|
  {
    msg[..at] + Zeros(BLOCK) + msg[at + BLOCK..]
  }

  lemma BlankedBack(msg: seq<byte>, at: nat)
    requires at + BLOCK <= |msg|
    ensures var b := Blanked(msg, at);
      |b| == |msg| && b[..at] + msg[at..at + BLOCK] + b[at + BLOCK..] == msg
  {
  }

  /** A request, or an answer whose authenticator is the hash of the message and the request's. */
  predicate Answers(h: Hasher, secret: seq<byte>, reqAuth: Option<seq<byte>>, msg: seq<byte>)
    requires |msg| >= HEADER && (reqAuth.Some? ==> |reqAuth.value| == BLOCK)
  {
    msg[0] == ACCESS_REQUEST || h.Digest(WithAuth(msg, Requested(reqAuth)) + secret) == Some(msg[4..HEADER])
  }

  /** Is a message accepted? */
  predicate Verifies(h: Hasher, secret: seq<byte>, signer: Signer, reqAuth: Option<seq<byte>>, msg: seq<byte>)
    requires reqAuth.Some? ==> |reqAuth.value| == BLOCK
    requires |msg| >= HEADER && Walkable(msg[HEADER..])
  {
    && Answers(h, secret, reqAuth, msg)
    && Authentic(signer, if msg[0] == ACCESS_REQUEST then msg else WithAuth(msg, Requested(reqAuth)))
  }

  // ----------------------------------------------------------- the main result

  /** Built attribute by attribute, without a Message-Authenticator. */
  ghost predicate Built(msg: seq<byte>, attrs: seq<Attribute>) {
    && Consistent(msg) && Encodable(attrs) && !Carries(attrs, MESSAGE_AUTHENTICATOR)
    && msg[HEADER..] == EncodeAll(attrs)
  }

  lemma BuiltWithAuth(msg: seq<byte>, attrs: seq<Attribute>, auth: seq<byte>)
    requires Built(msg, attrs) && |auth| == BLOCK
    ensures Built(WithAuth(msg, auth), attrs) && WithAuth(msg, auth)[0] == msg[0]
  {
    WithAuthConsistent(msg, auth);
  }

  lemma BuiltAdded(msg: seq<byte>, attrs: seq<Attribute>, a: Attribute)
    requires Built(msg, attrs) && AttributeOk(a) && |msg| + 2 + |a.value| < 0x1_0000
    requires a.kind != MESSAGE_AUTHENTICATOR
    ensures Built(Added(msg, a), attrs + [a]) && Added(msg, a)[0] == msg[0]
  {
    hide Added, Consistent, EncodeAttribute;
    AddedConsistent(msg, a);
    EncodeAppend(attrs, a);
  }

  lemma PlainAuthentic(signer: Signer, msg: seq<byte>, attrs: seq<Attribute>)
    requires Built(msg, attrs)
    ensures Walkable(msg[HEADER..])
    ensures Authentic(signer, msg) <==> !Carries(attrs, EAP_MESSAGE)
  {
    FindSkips(attrs, [], HEADER, false);
    assert EncodeAll(attrs) + [] == EncodeAll(attrs);
  }

  /** A tagged message can be walked over, and its tag is found and right. */
  lemma TaggedAuthentic(signer: Signer, msg: seq<byte>, attrs: seq<Attribute>)
    requires Built(msg, attrs) && |msg| + 18 < 0x1_0000
    requires signer.Works() && signer.size == BLOCK && Tagged(signer, Added(msg, BLANK)).Some?
    ensures var r := Tagged(signer, Added(msg, BLANK)).value;
      && Consistent(r) && r[0] == msg[0] && r[4..HEADER] == msg[4..HEADER]
      && Walkable(r[HEADER..]) && Authentic(signer, r)
  {
    var blank := Added(msg, BLANK);
    var tag := signer.sign(blank).value;
    var r := Tagged(signer, blank).value;
    AddedConsistent(msg, BLANK);
    TagPlaced(msg, attrs, blank, tag);
    TagFound(attrs, tag);
  }

  lemma TagPlaced(msg: seq<byte>, attrs: seq<Attribute>, blank: seq<byte>, tag: seq<byte>)
    requires Built(msg, attrs) && Consistent(blank) && |tag| == BLOCK
    requires |blank| == |msg| + 18 && blank[HEADER..] == msg[HEADER..] + EncodeAttribute(BLANK)
    ensures var at := |blank| - BLOCK;
      var r := blank[..at] + tag;
      && Consistent(r) && r[0] == blank[0] && r[4..HEADER] == blank[4..HEADER]
      && r[HEADER..] == EncodeAll(attrs) + EncodeAttribute(Attribute(MESSAGE_AUTHENTICATOR, tag))
      && at == HEADER + |EncodeAll(attrs)| + 2 && Blanked(r, at) == blank && r[at..at + BLOCK] == tag
  {
    var body := EncodeAll(attrs);
    var head: seq<byte> := [MESSAGE_AUTHENTICATOR, 18];
    var front := blank[..HEADER] + body + head;
    assert EncodeAttribute(BLANK) == head + Zeros(BLOCK);
    assert blank == blank[..HEADER] + blank[HEADER..] == front + Zeros(BLOCK);
    FrontTagged(front, tag);
    var r := front + tag;
    assert r[HEADER..] == body + (head + tag);
    assert forall i | 0 <= i < HEADER :: r[i] == blank[i];
  }

  lemma FrontTagged(front: seq<byte>, tag: seq<byte>)
    requires |tag| == BLOCK
    ensures var blank, at := front + Zeros(BLOCK), |front|;
      && |blank| - BLOCK == at && blank[..at] == front
      && Blanked(front + tag, at) == blank && (front + tag)[at..at + BLOCK] == tag
  {
  }

  lemma TagFound(attrs: seq<Attribute>, tag: seq<byte>)
    requires Encodable(attrs) && !Carries(attrs, MESSAGE_AUTHENTICATOR) && |tag| == BLOCK
    ensures var s := EncodeAll(attrs) + EncodeAttribute(Attribute(MESSAGE_AUTHENTICATOR, tag));
      Walkable(s) && Find(s, HEADER, false) == Found(HEADER + |EncodeAll(attrs)| + 2, BLOCK)
  {
    var a := Attribute(MESSAGE_AUTHENTICATOR, tag);
    var eap := Carries(attrs, EAP_MESSAGE);
    FindStep(a, [], HEADER + |EncodeAll(attrs)|, eap);
    assert EncodeAttribute(a) + [] == EncodeAttribute(a);
    FindSkips(attrs, EncodeAttribute(a), HEADER, false);
  }

  lemma PreparedBuilt(h: Hasher, secret: seq<byte>, auth: seq<byte>, password: seq<byte>, msg: seq<byte>,
      attrs: seq<Attribute>) returns (all: seq<Attribute>)
    requires Built(msg, attrs) && |auth| == BLOCK && |password| % BLOCK == 0 && Fits(msg, password, false)
    requires Prepared(h, secret, auth, password, msg).Some?
    ensures var p := Prepared(h, secret, auth, password, msg).value;
      && Built(p, all) && p[0] == msg[0] && p[4..HEADER] == auth
      && |p| == |msg| + if password == [] then 0 else 2 + Min(|password|, MAX_VALUE)
    ensures Carries(all, EAP_MESSAGE) <==> Carries(attrs, EAP_MESSAGE)
  {
    hide Added, WithAuth, Encrypted, EncodeAll, Carries;
    all := attrs;
    BuiltWithAuth(msg, attrs, auth);
    if password != [] {
      var m, a := WithAuth(msg, auth), Hidden(h, secret, auth, password).value;
      BuiltAdded(m, attrs, a);
      AddedConsistent(m, a);
      CarriesLast(attrs, a);
      all := attrs + [a];
    }
  }

  /** What is authenticated is accepted exactly when it is tagged or needs no tag. */
  lemma AuthenticatedAuthentic(signer: Signer, wanted: bool, msg: seq<byte>, attrs: seq<Attribute>)
    requires Built(msg, attrs) && Fits(msg, [], wanted)
    requires signer.Works() && signer.size == BLOCK && Authenticated(signer, wanted, msg).Some?
    ensures var q := Authenticated(signer, wanted, msg).value;
      && Consistent(q) && q[0] == msg[0] && q[4..HEADER] == msg[4..HEADER] && Walkable(q[HEADER..])
      && (Authentic(signer, q) <==> wanted || !Carries(attrs, EAP_MESSAGE))
  {
    hide Authentic, Walkable, Tagged, Added, EncodeAll, Carries;
    if wanted {
      TaggedAuthentic(signer, msg, attrs);
    } else {
      PlainAuthentic(signer, msg, attrs);
    }
  }

  /** Verifying undoes the replacement of the authenticator. */
  lemma AnsweredBack(h: Hasher, secret: seq<byte>, msg: seq<byte>)
    requires Consistent(msg) && Answered(h, secret, msg).Some?
    ensures var r := Answered(h, secret, msg).value;
      && Consistent(r) && r[0] == msg[0] && r[HEADER..] == msg[HEADER..]
      && WithAuth(r, msg[4..HEADER]) == msg && h.Digest(msg + secret) == Some(r[4..HEADER])
  {
    var auth := h.Digest(msg + secret).value;
    WithAuthConsistent(msg, auth);
    var r := WithAuth(msg, auth);
    assert WithAuth(r, msg[4..HEADER]) == msg[..4] + msg[4..HEADER] + msg[HEADER..] == msg;
  }

  /**
   * A message built attribute by attribute and signed, an Access-Request with a
   * random authenticator and anything else as an answer, is accepted under the same
   * keys and request exactly if it got a Message-Authenticator or has no EAP-Message.
   */
  lemma SignThenVerify(h: Hasher, secret: seq<byte>, signer: Signer, rng: Rng, reqAuth: Option<seq<byte>>,
      wanted: bool, password: seq<byte>, msg: seq<byte>, attrs: seq<Attribute>)
    requires signer.Works() && signer.size == BLOCK
    requires rng.Ok() && (reqAuth.Some? ==> |reqAuth.value| == BLOCK)
    requires Built(msg, attrs) && |password| % BLOCK == 0 && Fits(msg, password, wanted)
    requires Signed(h, secret, signer, rng, reqAuth, wanted, password, msg).Some?
    requires rng.Yields? <==> msg[0] == ACCESS_REQUEST
    ensures var r := Signed(h, secret, signer, rng, reqAuth, wanted, password, msg).value;
      && Consistent(r) && Walkable(r[HEADER..])
      && (Verifies(h, secret, signer, reqAuth, r) <==> wanted || !Carries(attrs, EAP_MESSAGE))
  {
    hide Authentic, Walkable, Prepared, Authenticated, Answered, Carries, EncodeAll;
    var auth := Chosen(rng, reqAuth);
    var p := Prepared(h, secret, auth, password, msg).value;
    var all := PreparedBuilt(h, secret, auth, password, msg, attrs);
    AuthenticatedAuthentic(signer, wanted, p, all);
    var q := Authenticated(signer, wanted, p).value;
    if rng.Absent? {
      AnsweredBack(h, secret, q);
    }
  }

  lemma PreparedStart(h: Hasher, secret: seq<byte>, auth: seq<byte>, password: seq<byte>, msg: seq<byte>)
    requires Consistent(msg) && |auth| == BLOCK && |password| % BLOCK == 0 && Fits(msg, password, false)
    requires Prepared(h, secret, auth, password, msg).Some?
    ensures var p := Prepared(h, secret, auth, password, msg).value;
      && Consistent(p) && p[0] == msg[0] && p[4..HEADER] == auth
      && |p| == |msg| + if password == [] then 0 else 2 + Min(|password|, MAX_VALUE)
  {
    hide Added, WithAuth, Encrypted;
    WithAuthConsistent(msg, auth);
    if password != [] {
      var m, a := WithAuth(msg, auth), Hidden(h, secret, auth, password).value;
      AddedConsistent(m, a);
    }
  }

  lemma AuthenticatedKeeps(signer: Signer, wanted: bool, p: seq<byte>)
    requires signer.Works() && signer.size == BLOCK && Consistent(p) && Fits(p, [], wanted)
    requires Authenticated(signer, wanted, p).Some?
    ensures var q := Authenticated(signer, wanted, p).value;
      Consistent(q) && q[0] == p[0] && q[4..HEADER] == p[4..HEADER]
  {
    if wanted {
      var blank := Added(p, BLANK);
      AddedConsistent(p, BLANK);
      var q := blank[..|blank| - BLOCK] + signer.sign(blank).value;
      hide Added;
      assert q[4..HEADER] == blank[4..HEADER] && q[2] == blank[2] && q[3] == blank[3] && q[0] == blank[0];
    }
  }

  /** Whatever is signed as an answer has the hash under the request's authenticator in place of its own. */
  lemma SignedAnswers(h: Hasher, secret: seq<byte>, signer: Signer, reqAuth: Option<seq<byte>>, wanted: bool,
      password: seq<byte>, msg: seq<byte>)
    requires signer.Works() && signer.size == BLOCK && (reqAuth.Some? ==> |reqAuth.value| == BLOCK)
    requires Consistent(msg) && |password| % BLOCK == 0 && Fits(msg, password, wanted)
    requires Signed(h, secret, signer, Absent, reqAuth, wanted, password, msg).Some?
    ensures var r := Signed(h, secret, signer, Absent, reqAuth, wanted, password, msg).value;
      |r| >= HEADER && r[0] == msg[0] && h.Digest(WithAuth(r, Requested(reqAuth)) + secret) == Some(r[4..HEADER])
  {
    hide Prepared, Authenticated, Answered;
    var auth := Requested(reqAuth);
    PreparedStart(h, secret, auth, password, msg);
    var p := Prepared(h, secret, auth, password, msg).value;
    AuthenticatedKeeps(signer, wanted, p);
    AnsweredBack(h, secret, Authenticated(signer, wanted, p).value);
  }

  /** Under another authenticator the tag of a message is found as before, and right only by coincidence. */
  lemma TaggedUnder(signer: Signer, msg: seq<byte>, attrs: seq<Attribute>, auth: seq<byte>)
    requires Built(msg, attrs) && |msg| + 18 < 0x1_0000 && |auth| == BLOCK
    requires signer.Works() && signer.size == BLOCK && Tagged(signer, Added(msg, BLANK)).Some?
    ensures var blank := Added(msg, BLANK);
      var m := WithAuth(Tagged(signer, blank).value, auth);
      && Walkable(m[HEADER..])
      && (Authentic(signer, m) <==> signer.sign(WithAuth(blank, auth)) == signer.sign(blank))
  {
    hide Added, Walkable, Find;
    var blank := Added(msg, BLANK);
    var tag := signer.sign(blank).value;
    AddedConsistent(msg, BLANK);
    TagPlaced(msg, attrs, blank, tag);
    TagFound(attrs, tag);
    var r, at := Tagged(signer, blank).value, |blank| - BLOCK;
    BlankedUnder(r, at, auth);
  }

  lemma BlankedUnder(r: seq<byte>, at: nat, auth: seq<byte>)
    requires HEADER <= at && at + BLOCK <= |r| && |auth| == BLOCK
    ensures var m := WithAuth(r, auth);
      Blanked(m, at) == WithAuth(Blanked(r, at), auth) && m[at..at + BLOCK] == r[at..at + BLOCK]
  {
    var m := WithAuth(r, auth);
    assert Blanked(r, at)[HEADER..] == r[HEADER..at] + Zeros(BLOCK) + r[at + BLOCK..];
    assert m[HEADER..at] == r[HEADER..at] && m[at + BLOCK..] == r[at + BLOCK..];
  }

  /** Would the message, prepared and with a Message-Authenticator if wanted, be authentic under another authenticator? */
  ghost predicate AuthenticUnder(signer: Signer, wanted: bool, msg: seq<byte>, attrs: seq<Attribute>, auth: seq<byte>)
    requires |msg| >= HEADER && |auth| == BLOCK
  {
    if wanted then signer.sign(WithAuth(Added(msg, BLANK), auth)) == signer.sign(Added(msg, BLANK))
    else !Carries(attrs, EAP_MESSAGE)
  }

  lemma AuthenticatedUnder(signer: Signer, wanted: bool, msg: seq<byte>, attrs: seq<Attribute>, auth: seq<byte>)
    requires Built(msg, attrs) && Fits(msg, [], wanted) && |auth| == BLOCK
    requires signer.Works() && signer.size == BLOCK && Authenticated(signer, wanted, msg).Some?
    ensures var m := WithAuth(Authenticated(signer, wanted, msg).value, auth);
      Walkable(m[HEADER..]) && (Authentic(signer, m) <==> AuthenticUnder(signer, wanted, msg, attrs, auth))
  {
    hide Authentic, Walkable, Tagged, Added, EncodeAll, Carries;
    if wanted {
      TaggedUnder(signer, msg, attrs, auth);
    } else {
      BuiltWithAuth(msg, attrs, auth);
      PlainAuthentic(signer, WithAuth(msg, auth), attrs);
    }
  }

  /**
   * The other two ways to sign.  An Access-Request signed as an answer has its
   * authenticator replaced after the tag was made; anything else signed with a random
   * authenticator has none that verifying expects.  Such a message is accepted exactly
   * if the primitives happen to agree on the text signed and the text verified.
   */
  lemma SignedOtherwise(h: Hasher, secret: seq<byte>, signer: Signer, rng: Rng, reqAuth: Option<seq<byte>>,
      wanted: bool, password: seq<byte>, msg: seq<byte>, attrs: seq<Attribute>)
    requires signer.Works() && signer.size == BLOCK
    requires rng.Ok() && (reqAuth.Some? ==> |reqAuth.value| == BLOCK)
    requires Built(msg, attrs) && |password| % BLOCK == 0 && Fits(msg, password, wanted)
    requires Signed(h, secret, signer, rng, reqAuth, wanted, password, msg).Some?
    requires rng.Yields? <==> msg[0] != ACCESS_REQUEST
    ensures var r := Signed(h, secret, signer, rng, reqAuth, wanted, password, msg).value;
      && Consistent(r) && Walkable(r[HEADER..])
      && var p := Prepared(h, secret, Chosen(rng, reqAuth), password, msg).value;
      (Verifies(h, secret, signer, reqAuth, r) <==>
         if rng.Absent? then AuthenticUnder(signer, wanted, p, attrs, r[4..HEADER])
         else
           && h.Digest(WithAuth(r, Requested(reqAuth)) + secret) == Some(rng.bytes)
           && AuthenticUnder(signer, wanted, p, attrs, Requested(reqAuth)))
  {
    hide Authentic, Walkable, Prepared, Authenticated, Carries, EncodeAll, Added;
    var auth := Chosen(rng, reqAuth);
    var p := Prepared(h, secret, auth, password, msg).value;
    var all := PreparedBuilt(h, secret, auth, password, msg, attrs);
    AuthenticatedAuthentic(signer, wanted, p, all);
    var q := Authenticated(signer, wanted, p).value;
    if rng.Absent? {
      AnsweredBack(h, secret, q);
      var r := Answered(h, secret, q).value;
      AuthenticatedUnder(signer, wanted, p, all, r[4..HEADER]);
      assert r == WithAuth(q, r[4..HEADER]);
    } else {
      AuthenticatedUnder(signer, wanted, p, all, Requested(reqAuth));
    }
  }

  /** What the receiver of a hidden password decrypts, into a buffer of its own. */
  function Unhidden(h: Hasher, secret: seq<byte>, auth: seq<byte>, value: seq<byte>): Option<seq<byte>> {
    var pad := h.Pad(secret, auth);
    if pad.None? || |value| % BLOCK != 0 || |value| < BLOCK then None else Decrypted(h, secret, pad.value, value)
  }

  /** The receiver recovers a stored password exactly if its padded form fits into one attribute. */
  lemma PasswordRecovered(h: Hasher, secret: seq<byte>, auth: seq<byte>, password: seq<byte>)
    requires password != [] && |password| % BLOCK == 0 && Hidden(h, secret, auth, password).Some?
    ensures Unhidden(h, secret, auth, Hidden(h, secret, auth, password).value.value) ==
            if |password| <= MAX_VALUE then Some(password) else None
  {
    hide Encrypted, Decrypted, Hasher.Pad;
    var pad := h.Pad(secret, auth).value;
    var cipher := Encrypted(h, secret, pad, password).value;
    if |password| <= MAX_VALUE {
      assert cipher[..|cipher|] == cipher;
      DecryptedEncrypted(h, secret, pad, password);
    }
  }

  // ---------------------------------------------------------------- the object

  class RadiusMessage {
    var msg: seq<byte>
    var password: seq<byte>

    predicate Valid()
      reads this
    {
      Consistent(msg) && |password| % BLOCK == 0
    }

    constructor Create(code: byte)
      ensures Valid() && password == [] && Built(msg, []) && msg[0] == code
    {
      msg := [code, 0, 0, HEADER] + Zeros(BLOCK);
      password := [];
    }

    /** radius_message_parse: takes any bytes whose length field is right. */
    static method Parse(data: seq<byte>) returns (r: RadiusMessage?)
      ensures r != null <==> Consistent(data)
      ensures r != null ==> fresh(r) && r.Valid() && r.msg == data && r.password == []
    {
      if |data| < HEADER || Get16(data, 2) != |data| {
        return null;
      }
      r := new RadiusMessage.Create(0);
      r.msg := data;
    }

    /** Adds an attribute; the first password is kept aside until the message is signed. */
    method Add(kind: byte, data: seq<byte>)
      requires Valid()
      modifies this
      ensures Valid() <==> |msg| < 0x1_0000
      ensures kind == USER_PASSWORD && old(password) == [] ==>
                msg == old(msg) && password == data + Zeros(PadLen(|data|, BLOCK))
      ensures kind != USER_PASSWORD || old(password) != [] ==>
                password == old(password) && msg == Added(old(msg), Cut(kind, data))
    {
      if kind == USER_PASSWORD && |password| == 0 {
        PadReaches(|data|, BLOCK);
        password := data + Zeros(PadLen(|data|, BLOCK));
        return;
      }
      var a := Cut(kind, data);
      if |msg| + 2 + |a.value| < 0x1_0000 {
        AddedConsistent(msg, a);
      }
      msg := msg[..2] + Put16(|msg| + 2 + |a.value|) + msg[4..] + EncodeAttribute(a);
    }

    method Sign(reqAuth: Option<seq<byte>>, secret: seq<byte>, h: Hasher, signer: Signer, rng: Rng, wanted: bool)
      returns (ok: bool)
      requires Valid() && Fits(msg, password, wanted)
      requires signer.Works() && signer.size == BLOCK
      requires rng.Ok() && (reqAuth.Some? ==> |reqAuth.value| == BLOCK)
      modifies this
      ensures Valid()
      ensures var r := Signed(h, secret, signer, rng, reqAuth, wanted, old(password), old(msg));
        ok == r.Some? && (ok ==> msg == r.value && password == [])
      // an answer is the hash of itself under the request's authenticator, or under zeros, and the secret
      ensures ok && rng.Absent? ==>
        h.hash(msg[..4] + (if reqAuth.Some? then reqAuth.value else Zeros(16)) + msg[20..] + secret) == Some(msg[4..20])
      ensures ok && rng.Yields? ==> msg[4..20] == rng.bytes
    {
      hide Prepared, Authenticated, Answered;
      if rng.Absent? && Signed(h, secret, signer, rng, reqAuth, wanted, password, msg).Some? {
        SignedAnswers(h, secret, signer, reqAuth, wanted, password, msg);
      }
      if rng.Failing? {
        return false;
      }
      ok := Prepare(Chosen(rng, reqAuth), secret, h);
      if !ok {
        return;
      }
      if Authenticated(signer, wanted, msg).Some? {
        PreparedStart(h, secret, Chosen(rng, reqAuth), old(password), old(msg));
        AuthenticatedKeeps(signer, wanted, msg);
      }
      ok := Authenticate(signer, wanted);
      if ok && rng.Absent? {
        ok := Answer(secret, h);
      }
    }

    /** Sets the authenticator, and adds the stored password under it. */
    method Prepare(auth: seq<byte>, secret: seq<byte>, h: Hasher) returns (ok: bool)
      requires Valid() && Fits(msg, password, false) && |auth| == BLOCK
      modifies this
      ensures Valid()
      ensures var r := Prepared(h, secret, auth, old(password), old(msg));
        ok == r.Some? && (ok ==> msg == r.value && password == [])
      ensures ok ==> |msg| == old(|msg| + if password == [] then 0 else 2 + Min(|password|, MAX_VALUE))
    {
      hide Encrypted, Consistent;
      WithAuthConsistent(msg, auth);
      msg := WithAuth(msg, auth);
      if password != [] {
        ok := HidePassword(secret, h);
        if !ok {
          return;
        }
        Add(USER_PASSWORD, password);
        password := [];
      }
      return true;
    }

    /** Adds a Message-Authenticator, if wanted: signs with it blank and fills it in. */
    method Authenticate(signer: Signer, wanted: bool) returns (ok: bool)
      requires Valid() && Fits(msg, [], wanted) && signer.Works() && signer.size == BLOCK
      modifies `msg
      ensures Valid()
      ensures var r := Authenticated(signer, wanted, old(msg));
        ok == r.Some? && (ok ==> msg == r.value)
    {
      if wanted {
        AddedConsistent(msg, BLANK);
        msg := Added(msg, BLANK);
        var tag := signer.sign(msg);
        if tag.None? {
          return false;
        }
        msg := msg[..|msg| - BLOCK] + tag.value;
      }
      return true;
    }

    /** Builds the Response-Authenticator. */
    method Answer(secret: seq<byte>, h: Hasher) returns (ok: bool)
      requires Valid()
      modifies `msg
      ensures Valid()
      ensures var r := Answered(h, secret, old(msg));
        ok == r.Some? && (ok ==> msg == r.value)
    {
      var answer := h.Digest(msg + secret);
      if answer.None? {
        return false;
      }
      WithAuthConsistent(msg, answer.value);
      msg := WithAuth(msg, answer.value);
      return true;
    }

    /** Encrypts the stored password in its own buffer. */
    method HidePassword(secret: seq<byte>, h: Hasher) returns (ok: bool)
      requires Valid() && password != []
      modifies `password
      ensures |password| == old(|password|)
      ensures var r := Hidden(h, secret, msg[4..HEADER], old(password));
        ok == r.Some? && (ok ==> Cut(USER_PASSWORD, password) == r.value)
    {
      hide Encrypted, Hasher.Pad;
      var buffer := new byte[|password|](i requires 0 <= i < |password| reads this => password[i]);
      assert buffer[..] == password;
      ok := Crypt(h, secret, msg[4..HEADER], buffer, buffer);
      if ok {
        password := buffer[..];
      }
    }

    /** Verifying never ends, None here, exactly if it comes to walk over an attribute of length zero. */
    method Verify(reqAuth: Option<seq<byte>>, secret: seq<byte>, h: Hasher, signer: Signer) returns (ok: Option<bool>)
      requires Valid() && (reqAuth.Some? ==> |reqAuth.value| == BLOCK)
      modifies `msg
      ensures ok.None? <==> !Walkable(old(msg)[HEADER..]) && Answers(h, secret, reqAuth, old(msg))
      ensures ok.Some? ==> (ok.value <==>
                Walkable(old(msg)[HEADER..]) && Verifies(h, secret, signer, reqAuth, old(msg)))
      ensures ok == Some(true) ==> msg == old(msg)
      // whatever is not an Access-Request is accepted only under the authenticator of the request, or under zeros
      ensures ok == Some(true) && msg[0] != 1 ==>
        h.hash(msg[..4] + (if reqAuth.Some? then reqAuth.value else Zeros(16)) + msg[20..] + secret) == Some(msg[4..20])
    {
      hide Find, Walkable;
      var resAuth := msg[4..HEADER];
      if msg[0] != ACCESS_REQUEST {
        WithAuthConsistent(msg, Requested(reqAuth));
        msg := WithAuth(msg, Requested(reqAuth));
        if h.Digest(msg + secret) != Some(resAuth) {
          return Some(false);
        }
      }
      var found := Walk();
      if found.None? {
        return None;
      }
      if found.value.Found? {
        if found.value.len != BLOCK {
          return Some(false);
        }
        var at := found.value.at;
        BlankedBack(msg, at);
        var tag := msg[at..at + BLOCK];
        msg := Blanked(msg, at);
        if !signer.Verifies(msg, tag) {
          return Some(false);
        }
        msg := msg[..at] + tag + msg[at + BLOCK..];
      }
      if msg[0] != ACCESS_REQUEST {
        msg := WithAuth(msg, resAuth);
        assert msg == old(msg);
      }
      return Some(found.value.Found? || !found.value.eap);
    }

    /** Enumerates the attributes up to the first Message-Authenticator; None if the enumerator stands still. */
    method Walk() returns (r: Option<Search>)
      requires Valid()
      ensures r.Some? <==> Walkable(msg[HEADER..])
      ensures r.Some? ==> r.value == Find(msg[HEADER..], HEADER, false)
    {
      hide Find, Walkable;
      ghost var all := msg[HEADER..];
      var eap, pos, left := false, HEADER, |msg| - HEADER;
      while left >= 2 && left >= msg[pos + 1] as int
        invariant 0 <= left && pos + left == |msg| && (Walkable(msg[pos..]) <==> Walkable(all))
        invariant Walkable(all) ==> Find(all, HEADER, false) == Find(msg[pos..], pos, eap)
        decreases left
      {
        var kind, len := msg[pos], msg[pos + 1] as int;
        WalkNext(msg[pos..]);
        if Walkable(all) {
          FindNext(msg[pos..], pos, eap);
        }
        if kind == MESSAGE_AUTHENTICATOR {
          return Some(Found(pos + 2, len - 2));
        }
        if len == 0 {
          return None;
        }
        assert msg[pos..][len..] == msg[pos + len..];
        eap := eap || kind == EAP_MESSAGE;
        pos, left := pos + len, left - len;
      }
      WalkNext(msg[pos..]);
      FindNext(msg[pos..], pos, eap);
      return Some(Missing(eap));
    }
  }
}
