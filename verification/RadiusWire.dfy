/**
 * RADIUS messages as bytes on the wire, with the offsets and numbers of section 3 of
 * RFC 2865 and section 3.2 of RFC 3579 written out: which bytes are hashed, which are
 * signed, and what ties an answer to its request.
 */
module RadiusWire {
  import opened Chunk
  import opened Crypto
  import opened RadiusCrypt
  import opened RadiusMessage

  function Sixteen(): seq<byte> { [0, 0, 0, 0, 0, 0, 0, 0, 0, 0, 0, 0, 0, 0, 0, 0] }

  /** The message with sixteen other bytes in the place of its authenticator. */
  function Under(msg: seq<byte>, auth: seq<byte>): seq<byte>
    requires |msg| >= 20
  {
    msg[..4] + auth + msg[20..]
  }

  /** What the authenticator of an answer is computed with: the one of the request, or zeros. */
  function RequestAuth(reqAuth: Option<seq<byte>>): seq<byte> {
    if reqAuth.Some? then reqAuth.value else Sixteen()
  }

  /** The Response-Authenticator is the hash of the message under the request's authenticator, and the secret. */
  predicate Bound(h: Hasher, secret: seq<byte>, reqAuth: Option<seq<byte>>, msg: seq<byte>)
    requires |msg| >= 20
  {
    h.hash(Under(msg, RequestAuth(reqAuth)) + secret) == Some(msg[4..20])
  }

  lemma RequestedBytes(reqAuth: Option<seq<byte>>, msg: seq<byte>)
    requires |msg| >= 20 && (reqAuth.Some? ==> |reqAuth.value| == 16)
    ensures Requested(reqAuth) == RequestAuth(reqAuth) && WithAuth(msg, Requested(reqAuth)) == Under(msg, RequestAuth(reqAuth))
  {
    assert Zeros(16) == Sixteen();
  }

  /** Whatever is not an Access-Request is accepted only if it is bound to the request. */
  lemma VerifiedIsBound(h: Hasher, secret: seq<byte>, signer: Signer, reqAuth: Option<seq<byte>>, msg: seq<byte>)
    requires (reqAuth.Some? ==> |reqAuth.value| == 16) && |msg| >= 20 && Walkable(msg[20..]) && msg[0] != 1
    requires Verifies(h, secret, signer, reqAuth, msg)
    ensures Bound(h, secret, reqAuth, msg)
  {
    hide Authentic, Walkable;
    RequestedBytes(reqAuth, msg);
  }

  /** And whatever is signed as an answer is bound to the request. */
  lemma SignedIsBound(h: Hasher, secret: seq<byte>, signer: Signer, reqAuth: Option<seq<byte>>, wanted: bool,
      password: seq<byte>, msg: seq<byte>)
    requires signer.Works() && signer.size == 16 && |msg| >= 20 && (reqAuth.Some? ==> |reqAuth.value| == 16)
    requires Signed(h, secret, signer, Absent, reqAuth, wanted, password, msg).Some?
    requires Consistent(msg) && |password| % 16 == 0 && Fits(msg, password, wanted)
    ensures var r := Signed(h, secret, signer, Absent, reqAuth, wanted, password, msg).value;
      |r| >= 20 && Bound(h, secret, reqAuth, r)
  {
    hide Signed;
    SignedAnswers(h, secret, signer, reqAuth, wanted, password, msg);
    RequestedBytes(reqAuth, Signed(h, secret, signer, Absent, reqAuth, wanted, password, msg).value);
  }

  /** The attribute is added, signed over with sixteen zeros as its value, and those are replaced. */
  lemma AuthenticatedStart(signer: Signer, wanted: bool, p: seq<byte>)
    requires signer.Works() && signer.size == 16 && Consistent(p) && Fits(p, [], wanted)
    requires Authenticated(signer, wanted, p).Some?
    ensures var q := Authenticated(signer, wanted, p).value;
      && Consistent(q) && q[0] == p[0] && q[4..20] == p[4..20]
      && (!wanted ==> q == p)
      && (wanted ==>
            && |q| == |p| + 18 && q[20..|p|] == p[20..] && q[|p|..|p| + 2] == [80, 18]
            && signer.sign(q[..|p| + 2] + Sixteen()) == Some(q[|p| + 2..]))
  {
    if wanted {
      var blank := Added(p, BLANK);
      AddedConsistent(p, BLANK);
      var tag := signer.sign(blank).value;
      var q := blank[..|blank| - 16] + tag;
      hide Added;
      var head: seq<byte> := [80, 18];
      assert EncodeAttribute(BLANK) == head + Sixteen() by { assert Zeros(16) == Sixteen(); }
      BlankEnd(p, blank, tag, head);
    }
  }

  lemma BlankEnd(p: seq<byte>, blank: seq<byte>, tag: seq<byte>, head: seq<byte>)
    requires |p| >= 20 && |head| == 2 && |tag| == 16 && Consistent(blank)
    requires |blank| == |p| + 18 && blank[0] == p[0] && blank[4..20] == p[4..20] && blank[20..] == p[20..] + (head + Sixteen())
    ensures var q := blank[..|blank| - 16] + tag;
      && Consistent(q) && q[0] == p[0] && q[4..20] == p[4..20] && |q| == |p| + 18
      && q[20..|p|] == p[20..] && q[|p|..|p| + 2] == head && q[..|p| + 2] + Sixteen() == blank && q[|p| + 2..] == tag
  {
    hide Sixteen;
    var start, body := blank[..20], p[20..];
    SixteenLong();
    assert blank == start + blank[20..] == start + body + head + Sixteen();
    FrontParts(start, body, head, Sixteen(), tag);
    var q := start + body + head + tag;
    assert q == blank[..|blank| - 16] + tag;
    assert q[2] == start[2] == blank[2] && q[3] == start[3] == blank[3] && q[0] == start[0] == blank[0];
    assert q[4..20] == start[4..] == blank[4..20];
  }

  lemma SixteenLong()
    ensures |Sixteen()| == 16
  {
  }

  lemma FrontParts(a: seq<byte>, b: seq<byte>, c: seq<byte>, z: seq<byte>, t: seq<byte>)
    requires |z| == |t|
    ensures var front, q, blank := a + b + c, a + b + c + t, a + b + c + z;
      var n := |a| + |b|;
      && |front| == n + |c| && blank[..|blank| - |z|] == front
      && q[..|a|] == a && q[|a|..n] == b && q[n..n + |c|] == c && q[n + |c|..] == t && q[..n + |c|] + z == blank
  {
  }

  /**
   * The Message-Authenticator of a signed message is its last attribute, and signs the
   * message with that value zero: an answer under the request's authenticator, an
   * Access-Request under its own random one.
   */
  lemma SignedIsTagged(h: Hasher, secret: seq<byte>, signer: Signer, rng: Rng, reqAuth: Option<seq<byte>>,
      password: seq<byte>, msg: seq<byte>)
    requires signer.Works() && signer.size == 16 && rng.Ok() && (reqAuth.Some? ==> |reqAuth.value| == 16)
    requires Consistent(msg) && |password| % 16 == 0 && Fits(msg, password, true)
    requires Signed(h, secret, signer, rng, reqAuth, true, password, msg).Some?
    ensures var r := Signed(h, secret, signer, rng, reqAuth, true, password, msg).value;
      && |r| >= 38 && r[|r| - 18..|r| - 16] == [80, 18]
      && (rng.Yields? ==> r[4..20] == rng.bytes && signer.sign(r[..|r| - 16] + Sixteen()) == Some(r[|r| - 16..]))
      && (rng.Absent? ==> signer.sign(Under(r, RequestAuth(reqAuth))[..|r| - 16] + Sixteen()) == Some(r[|r| - 16..]))
  {
    hide Prepared, Authenticated, Answered;
    var auth := Chosen(rng, reqAuth);
    PreparedStart(h, secret, auth, password, msg);
    var p := Prepared(h, secret, auth, password, msg).value;
    AuthenticatedStart(signer, true, p);
    var q := Authenticated(signer, true, p).value;
    if rng.Absent? {
      AnsweredBack(h, secret, q);
      var r := Answered(h, secret, q).value;
      RequestedBytes(reqAuth, r);
      SameEnd(r, q);
      assert Under(r, RequestAuth(reqAuth)) == q;
    }
  }

  lemma SameEnd(r: seq<byte>, q: seq<byte>)
    requires |r| >= 20 && |q| >= 38 && r[20..] == q[20..]
    ensures |r| == |q| && r[|r| - 18..|r| - 16] == q[|q| - 18..|q| - 16] && r[|r| - 16..] == q[|q| - 16..]
  {
    var e := r[20..];
    assert r[|r| - 18..|r| - 16] == e[|e| - 18..|e| - 16] && r[|r| - 16..] == e[|e| - 16..];
    assert q[|q| - 18..|q| - 16] == e[|e| - 18..|e| - 16] && q[|q| - 16..] == e[|e| - 16..];
  }

  /** An answer to one request is accepted as an answer to another only if two different texts have one hash. */
  lemma AnswersOneRequest(h: Hasher, secret: seq<byte>, signer: Signer, reqAuth: Option<seq<byte>>,
      other: Option<seq<byte>>, wanted: bool, password: seq<byte>, msg: seq<byte>)
    requires signer.Works() && signer.size == 16 && (reqAuth.Some? ==> |reqAuth.value| == 16) && (other.Some? ==> |other.value| == 16)
    requires RequestAuth(reqAuth) != RequestAuth(other) && msg != [] && msg[0] != 1
    requires Consistent(msg) && |password| % 16 == 0 && Fits(msg, password, wanted)
    requires Signed(h, secret, signer, Absent, reqAuth, wanted, password, msg).Some?
    requires var r := Signed(h, secret, signer, Absent, reqAuth, wanted, password, msg).value;
      |r| >= 20 && r[0] == msg[0] && Walkable(r[20..]) && Verifies(h, secret, signer, other, r)
    ensures var r := Signed(h, secret, signer, Absent, reqAuth, wanted, password, msg).value;
      var x, y := Under(r, RequestAuth(reqAuth)) + secret, Under(r, RequestAuth(other)) + secret;
      x != y && h.hash(x) == h.hash(y)
  {
    hide Signed, Verifies, Walkable;
    var r := Signed(h, secret, signer, Absent, reqAuth, wanted, password, msg).value;
    SignedIsBound(h, secret, signer, reqAuth, wanted, password, msg);
    VerifiedIsBound(h, secret, signer, other, r);
    var x, y := Under(r, RequestAuth(reqAuth)) + secret, Under(r, RequestAuth(other)) + secret;
    assert x[4..20] == RequestAuth(reqAuth) && y[4..20] == RequestAuth(other);
  }

  /** A message with a Message-Authenticator anywhere behind other attributes is authentic iff that value signs it with zeros there. */
  lemma TagDecides(signer: Signer, head: seq<byte>, attrs: seq<Attribute>, tag: seq<byte>, rest: seq<byte>)
    requires |head| == 20 && |tag| == 16 && Encodable(attrs) && forall a | a in attrs :: a.kind != 80
    ensures var front := head + EncodeAll(attrs) + [80, 18];
      && Walkable((front + tag + rest)[20..])
      && (Authentic(signer, front + tag + rest) <==> signer.sign(front + Sixteen() + rest) == Some(tag))
  {
    var e, kind: seq<byte> := EncodeAll(attrs), [80, 18];
    var front := head + e + kind;
    var msg := front + tag + rest;
    assert Zeros(16) == Sixteen();
    assert msg[20..] == e + (kind + tag + rest);
    TailFound(tag, rest, 20 + |e|, Carries(attrs, EAP_MESSAGE));
    FindSkips(attrs, kind + tag + rest, 20, false);
    var at := |front|;
    assert msg[at..at + 16] == tag && msg[..at] == front && msg[at + 16..] == rest;
    hide Find, Walkable, EncodeAll;
  }

  lemma TailFound(tag: seq<byte>, rest: seq<byte>, at: nat, eap: bool)
    requires |tag| == 16
    ensures var kind: seq<byte> := [80, 18];
      var s := kind + tag + rest;
      Walkable(s) && Find(s, at, eap) == Found(at + 2, 16)
  {
    var kind: seq<byte> := [80, 18];
    var s := kind + tag + rest;
    assert s[0] == 80 && s[1] == 18;
  }

  /** Without one it is authentic iff no attribute is an EAP-Message. */
  lemma UntaggedDecides(signer: Signer, head: seq<byte>, attrs: seq<Attribute>)
    requires |head| == 20 && Encodable(attrs) && forall a | a in attrs :: a.kind != 80
    ensures Walkable((head + EncodeAll(attrs))[20..])
    ensures Authentic(signer, head + EncodeAll(attrs)) <==> forall a | a in attrs :: a.kind != 79
  {
    hide Find, Walkable, EncodeAll;
    WalkNext([]);
    FindSkips(attrs, [], 20, false);
    FindNext([], 20 + |EncodeAll(attrs)|, Carries(attrs, 79));
    assert EncodeAll(attrs) + [] == EncodeAll(attrs) && (head + EncodeAll(attrs))[20..] == EncodeAll(attrs);
  }

  /** An attribute on the wire. */
  lemma AttributeBytes(a: Attribute)
    requires |a.value| <= 253
    ensures var b := EncodeAttribute(a); |b| == b[1] as int == 2 + |a.value| && b[0] == a.kind && b[2..] == a.value
  {
  }

  /** With primitives that never fail, signing never does. */
  lemma SignedSucceeds(h: Hasher, secret: seq<byte>, signer: Signer, rng: Rng, reqAuth: Option<seq<byte>>, wanted: bool,
      password: seq<byte>, msg: seq<byte>)
    requires signer.Works() && signer.size == 16 && |msg| >= 20 && rng.Ok() && (reqAuth.Some? ==> |reqAuth.value| == 16)
    requires !rng.Failing? && (forall data :: h.hash(data).Some? && |h.hash(data).value| == 16)
    requires forall data :: signer.sign(data).Some?
    ensures Signed(h, secret, signer, rng, reqAuth, wanted, password, msg).Some?
  {
    hide Encrypted, Added, WithAuth;
    EncryptedSucceeds(h, secret, Sixteen(), password);
    if h.Pad(secret, Chosen(rng, reqAuth)).Some? {
      EncryptedSucceeds(h, secret, h.Pad(secret, Chosen(rng, reqAuth)).value, password);
    }
  }

  /** The value of the hidden password: hidden under the secret and the authenticator the message is signed with. */
  ghost predicate HiddenValue(h: Hasher, secret: seq<byte>, auth: seq<byte>, password: seq<byte>, value: seq<byte>) {
    exists c: seq<byte> ::
      && |c| == |password| && value == c[..Min(|c|, 253)]
      && forall i: nat | 16 * i + 16 <= |password| ::
           Encrypts(h, secret + (if i == 0 then auth else c[16 * i - 16..16 * i]), password[16 * i..16 * i + 16], c[16 * i..16 * i + 16])
  }

  lemma HiddenBytes(h: Hasher, secret: seq<byte>, auth: seq<byte>, password: seq<byte>)
    requires |password| % 16 == 0 && Hidden(h, secret, auth, password).Some?
    ensures var a := Hidden(h, secret, auth, password).value;
      a.kind == 2 && |a.value| == Min(|password|, 253) && HiddenValue(h, secret, auth, password, a.value)
  {
    hide Encrypted, Encrypts, Hasher.Pad;
    var c := Encrypted(h, secret, h.Pad(secret, auth).value, password).value;
    forall i: nat | 16 * i + 16 <= |password|
      ensures Encrypts(h, secret + (if i == 0 then auth else c[16 * i - 16..16 * i]), password[16 * i..16 * i + 16], c[16 * i..16 * i + 16])
    {
      ChainEquations(h, secret, auth, password, i);
    }
  }

  lemma PreparedAttributes(h: Hasher, secret: seq<byte>, auth: seq<byte>, password: seq<byte>, msg: seq<byte>)
      returns (value: seq<byte>)
    requires |auth| == 16 && Consistent(msg) && |password| % 16 == 0 && Fits(msg, password, false)
    requires Prepared(h, secret, auth, password, msg).Some?
    ensures |value| <= 253 && (password != [] ==> HiddenValue(h, secret, auth, password, value))
    ensures Prepared(h, secret, auth, password, msg).value[20..] ==
      msg[20..] + if password == [] then [] else [2, 2 + |value|] + value
  {
    hide HiddenValue, Added, Hidden, WithAuth;
    value := [];
    if password != [] {
      HiddenBytes(h, secret, auth, password);
      value := Hidden(h, secret, auth, password).value.value;
      WithAuthConsistent(msg, auth);
      AddedConsistent(WithAuth(msg, auth), Hidden(h, secret, auth, password).value);
    }
  }

  lemma AuthenticatedAttributes(signer: Signer, wanted: bool, p: seq<byte>) returns (tag: seq<byte>)
    requires signer.Works() && signer.size == 16 && Consistent(p) && Fits(p, [], wanted)
    requires Authenticated(signer, wanted, p).Some?
    ensures |tag| == 16 && Authenticated(signer, wanted, p).value[20..] == p[20..] + if wanted then [80, 18] + tag else []
  {
    hide Authenticated;
    AuthenticatedStart(signer, wanted, p);
    tag := Sixteen();
    if wanted {
      var q, n, head: seq<byte> := Authenticated(signer, wanted, p).value, |p|, [80, 18];
      tag := q[n + 2..];
      assert q[20..] == q[20..n] + q[n..n + 2] + q[n + 2..];
      Joined(p[20..], head, tag);
    }
  }

  /** The attributes of a signed message: those it had, then the password, then the Message-Authenticator. */
  lemma SignedAttributes(h: Hasher, secret: seq<byte>, signer: Signer, rng: Rng, reqAuth: Option<seq<byte>>, wanted: bool,
      password: seq<byte>, msg: seq<byte>) returns (value: seq<byte>, tag: seq<byte>)
    requires signer.Works() && signer.size == 16 && rng.Ok() && (reqAuth.Some? ==> |reqAuth.value| == 16)
    requires Consistent(msg) && |password| % 16 == 0 && Fits(msg, password, wanted)
    requires Signed(h, secret, signer, rng, reqAuth, wanted, password, msg).Some?
    ensures |value| <= 253 && |tag| == 16
    ensures password != [] ==> HiddenValue(h, secret, if rng.Yields? then rng.bytes else RequestAuth(reqAuth), password, value)
    ensures var r := Signed(h, secret, signer, rng, reqAuth, wanted, password, msg).value;
      && |r| >= 20 && r[0] == msg[0]
      && r[20..] == msg[20..] + (if password == [] then [] else [2, 2 + |value|] + value) + (if wanted then [80, 18] + tag else [])
  {
    hide HiddenValue, Prepared, Authenticated, Answered;
    var auth := Chosen(rng, reqAuth);
    RequestedBytes(reqAuth, msg);
    PreparedStart(h, secret, auth, password, msg);
    value := PreparedAttributes(h, secret, auth, password, msg);
    var p := Prepared(h, secret, auth, password, msg).value;
    AuthenticatedStart(signer, wanted, p);
    tag := AuthenticatedAttributes(signer, wanted, p);
    if rng.Absent? {
      AnsweredBack(h, secret, Authenticated(signer, wanted, p).value);
    }
  }

  lemma Joined(a: seq<byte>, b: seq<byte>, c: seq<byte>)
    ensures a + b + c == a + (b + c)
  {
  }
}
