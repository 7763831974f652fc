/**
 * Attributes of EAP-SIM and EAP-AKA messages and their encoding (section 10 of
 * RFC 4186 and of RFC 4187): what the printer writes and what the parser takes.
 */
module SimakaAttribute {
  import opened Chunk

  const AT_RAND: byte := 1
  const AT_AUTN: byte := 2
  const AT_RES: byte := 3
  const AT_AUTS: byte := 4
  const AT_PADDING: byte := 6
  const AT_NONCE_MT: byte := 7
  const AT_PERMANENT_ID_REQ: byte := 10
  const AT_MAC: byte := 11
  const AT_NOTIFICATION: byte := 12
  const AT_ANY_ID_REQ: byte := 13
  const AT_IDENTITY: byte := 14
  const AT_VERSION_LIST: byte := 15
  const AT_SELECTED_VERSION: byte := 16
  const AT_FULLAUTH_ID_REQ: byte := 17
  const AT_COUNTER: byte := 19
  const AT_COUNTER_TOO_SMALL: byte := 20
  const AT_NONCE_S: byte := 21
  const AT_CLIENT_ERROR_CODE: byte := 22
  const AT_IV: byte := 129
  const AT_ENCR_DATA: byte := 130
  const AT_NEXT_PSEUDONYM: byte := 132
  const AT_NEXT_REAUTH_ID: byte := 133

  datatype Attr = Attr(kind: byte, data: seq<byte>)

  /** The layouts of an attribute behind its type and length byte. */
  datatype Form = NoData | TwoBytes | Counted | Sixteen | Variable | Fourteen | Other

  function FormOf(kind: byte): Form {
    if kind == AT_COUNTER_TOO_SMALL || kind == AT_ANY_ID_REQ || kind == AT_PERMANENT_ID_REQ ||
       kind == AT_FULLAUTH_ID_REQ then NoData
    else if kind == AT_COUNTER || kind == AT_CLIENT_ERROR_CODE || kind == AT_SELECTED_VERSION ||
            kind == AT_NOTIFICATION then TwoBytes
    else if kind == AT_NEXT_PSEUDONYM || kind == AT_NEXT_REAUTH_ID || kind == AT_RES || kind == AT_IDENTITY ||
            kind == AT_VERSION_LIST then Counted
    else if kind == AT_NONCE_S || kind == AT_AUTN || kind == AT_NONCE_MT || kind == AT_IV || kind == AT_MAC then Sixteen
    else if kind == AT_ENCR_DATA || kind == AT_RAND then Variable
    else if kind == AT_AUTS then Fourteen
    else Other
  }

  /** The parser refuses these outside of the encrypted part. */
  predicate Confidential(kind: byte) {
    kind == AT_COUNTER_TOO_SMALL || kind == AT_COUNTER || kind == AT_NEXT_PSEUDONYM || kind == AT_NEXT_REAUTH_ID ||
    kind == AT_NONCE_S
  }

  /** The phase bit of a notification code. */
  predicate PBit(data: seq<byte>) { data != [] && data[0] / 0x40 % 2 == 1 }

  // ---------------------------------------------------------------- printing

  /** The printer knows how to write these; others it leaves out. */
  predicate HasRule(kind: byte) {
    FormOf(kind) != Other && kind != AT_IV && kind != AT_MAC && kind != AT_ENCR_DATA
  }

  /** The length is the one that belongs to the type, and the value can fit into a message. */
  predicate Sized(a: Attr) {
    match FormOf(a.kind)
    case NoData => true
    case TwoBytes => |a.data| == 2
    case Counted => |a.data| <= 1012
    case Sixteen => |a.data| == 16
    case Variable => |a.data| <= 1012 && |a.data| % 4 == 0
    case Fourteen => |a.data| == 14
    case Other => false
  }

  /** The length of AT_RES in bits: the network order length is multiplied by eight on a little-endian host. */
  function BitsField(n: nat): seq<byte> {
    var len := (n / 0x100 % 0x100 + n % 0x100 * 0x100) * 8 % 0x1_0000;
    [len % 0x100, len / 0x100]
  }

  function CountField(kind: byte, n: nat): (r: seq<byte>)
    ensures |r| == 2
  {
    if kind == AT_RES then BitsField(n) else Put16(n)
  }

  function ReadCount(kind: byte, s: seq<byte>): nat
    requires |s| >= 4
  {
    if kind == AT_RES then Get16(s, 2) / 8 else Get16(s, 2)
  }

  function Padding(n: nat): nat { (4 - n % 4) % 4 }

  /** The length byte of a counted value: the header, the value and what fills up its last word. */
  function Words(n: nat): (r: nat)
    ensures r * 4 == 4 + n + Padding(n)
  {
    n / 4 + 1 + if Padding(n) > 0 then 1 else 0
  }

  function EncodeCounted(kind: byte, data: seq<byte>): (r: seq<byte>)
    requires |data| <= 1012
    ensures |r| == Words(|data|) * 4
  {
    var words: byte := Words(|data|);
    [kind, words] + CountField(kind, |data|) + data + Zeros(Padding(|data|))
  }

  function Encode(a: Attr): (r: seq<byte>)
    requires HasRule(a.kind) && Sized(a)
    ensures |r| >= 4 && |r| % 4 == 0
  {
    match FormOf(a.kind)
    case NoData => [a.kind, 1, 0, 0]
    case TwoBytes => [a.kind, 1] + a.data
    case Counted => EncodeCounted(a.kind, a.data)
    case Sixteen => [a.kind, 5, 0, 0] + a.data
    case Variable => [a.kind, 1 + |a.data| / 4, 0, 0] + a.data
    case Fourteen => [a.kind, 4] + a.data
  }

  // ----------------------------------------------------------------- parsing

  /**
   * The first attribute of a chunk.  Undefined stands for the lengths no printer
   * writes on which the parser reads past the chunk or does not advance.
   */
  datatype Taken = Refused | Undefined | Took(kind: byte, data: seq<byte>, used: nat)

  function Take(s: seq<byte>, encrypted: bool): (r: Taken)
    ensures r.Took? ==> 0 < r.used <= |s| && r.kind == s[0]
    ensures r.Took? && r.kind == AT_NOTIFICATION ==> |r.data| == 2
    ensures r.Took? && r.kind == AT_MAC ==> |s| >= 20 && r.data == s[4..20]
  {
    if |s| < 2 then Refused
    else
      var kind, size := s[0], s[1] as int * 4;
      if Confidential(kind) && !encrypted then Refused
      else
        match FormOf(kind)
        case NoData => if size != 4 || |s| < 4 then Refused else Took(kind, [], 4)
        case TwoBytes => if size != 4 || |s| < 4 then Refused else Took(kind, s[2..4], 4)
        case Counted =>
          if size < 4 || |s| < 4 then Refused
          else
            var len := ReadCount(kind, s);
            if len > size || len > |s| then Refused
            else if 4 + len > |s| then Undefined
            else Took(kind, s[4..4 + len], Min(size, |s|))
        case Sixteen => if size != 20 || |s| < 20 then Refused else Took(kind, s[4..20], 20)
        case Variable =>
          if size > |s| || |s| < 4 then Refused else if size == 0 then Undefined else Took(kind, s[4..size], size)
        case Fourteen => if size != 16 || |s| < 16 then Refused else Took(kind, s[2..16], 16)
        case Other =>
          if size > |s| || |s| < 4 then Refused else if size == 0 then Undefined else Took(kind, s[2..size], size)
  }

  // -------------------------------------------------------------- round trip

  /** The number of bytes the parser makes of an AT_RES of n bytes. */
  function ResLength(n: nat): (r: nat)
    ensures r <= n
  {
    DivModUnique(n, 0x20, 8 * (n / 0x100) + n % 0x100 / 0x20, n % 0x100 % 0x20);
    n - n % 0x100 + n % 0x20
  }

  /** What is left of an attribute after printing and parsing. */
  function Decoded(a: Attr): Attr {
    if FormOf(a.kind).NoData? then a.(data := [])
    else if a.kind == AT_RES then a.(data := a.data[..ResLength(|a.data|)])
    else a
  }

  /** Nothing is lost exactly if a flag carries no data and an AT_RES has under 32 bytes, modulo 256. */
  lemma DecodedExactly(a: Attr)
    ensures Decoded(a) == a <==>
      && (FormOf(a.kind).NoData? ==> a.data == [])
      && (a.kind == AT_RES ==> |a.data| % 0x100 < 0x20)
  {
    if a.kind == AT_RES {
      var n := |a.data|;
      assert n % 0x20 == n % 0x100 % 0x20;
      assert a.data[..n] == a.data;
    }
  }

  lemma BitsWritten(n: nat, hi: nat, q: nat, k: nat)
    requires n == 0x100 * hi + 0x20 * q + k && hi < 4 && q < 8 && k < 0x20
    ensures BitsField(n) == [8 * hi, 8 * k] && ResLength(n) == 0x100 * hi + k
  {
    var len := 8 * hi + 0x800 * k;
    DivModUnique(n, 0x100, hi, 0x20 * q + k);
    DivModUnique((hi + (0x20 * q + k) * 0x100) * 8, 0x1_0000, q, len);
    DivModUnique(len, 0x100, 8 * k, 8 * hi);
    DivModUnique(n, 0x20, 8 * hi + q, k);
  }

  lemma BitsRead(n: nat)
    requires n < 0x400
    ensures var f := BitsField(n); (f[0] as int * 0x100 + f[1] as int) / 8 == ResLength(n)
  {
    hide BitsField, ResLength;
    var hi, q, k := n / 0x100, n % 0x100 / 0x20, n % 0x100 % 0x20;
    BitsWritten(n, hi, q, k);
  }

  /** The parser reads the length that was written, except that of an AT_RES. */
  lemma CountRead(kind: byte, n: nat, s: seq<byte>)
    requires n < 0x400 && |s| >= 4 && s[2..4] == CountField(kind, n)
    ensures ReadCount(kind, s) == if kind == AT_RES then ResLength(n) else n
  {
    hide BitsField;
    var f := CountField(kind, n);
    assert s[2] == f[0] && s[3] == f[1];
    BitsRead(n);
  }

  lemma CountedShape(kind: byte, data: seq<byte>, tail: seq<byte>)
    requires |data| <= 1012
    ensures var s, n := EncodeCounted(kind, data) + tail, |data|;
      && |s| >= 4 + n && s[0] == kind && s[1] as int * 4 == |EncodeCounted(kind, data)|
      && s[2..4] == CountField(kind, n) && s[4..4 + n] == data
  {
    hide BitsField, CountField, Padding;
  }

  lemma SliceTake(s: seq<byte>, i: nat, n: nat, m: nat)
    requires m <= n && i + n <= |s|
    ensures s[i..i + n][..m] == s[i..i + m]
  {
  }

  lemma TakeCounted(a: Attr, tail: seq<byte>, encrypted: bool)
    requires HasRule(a.kind) && FormOf(a.kind).Counted? && Sized(a) && (Confidential(a.kind) ==> encrypted)
    ensures Take(Encode(a) + tail, encrypted) == Took(a.kind, Decoded(a).data, |Encode(a)|)
  {
    hide EncodeCounted, CountField, ReadCount, Padding, Confidential, FormOf, HasRule, ResLength;
    var s, n := Encode(a) + tail, |a.data|;
    CountedShape(a.kind, a.data, tail);
    CountRead(a.kind, n, s);
    var m := ReadCount(a.kind, s);
    SliceTake(s, 4, n, m);
    assert a.data[..n] == a.data;
  }

  /** The parser takes off what the printer put on, whatever follows. */
  lemma TakeEncoded(a: Attr, tail: seq<byte>, encrypted: bool)
    requires HasRule(a.kind) && Sized(a) && (Confidential(a.kind) ==> encrypted)
    ensures Take(Encode(a) + tail, encrypted) == Took(a.kind, Decoded(a).data, |Encode(a)|)
  {
    var s := Encode(a) + tail;
    match FormOf(a.kind)
    case Counted => TakeCounted(a, tail, encrypted);
    case NoData => assert s[0] == a.kind && s[1] == 1;
    case TwoBytes => assert s[0] == a.kind && s[1] == 1 && s[2..4] == a.data;
    case Sixteen => assert s[0] == a.kind && s[1] == 5 && s[4..20] == a.data;
    case Variable => assert s[0] == a.kind && s[1] as int * 4 == 4 + |a.data| && s[4..4 + |a.data|] == a.data;
    case Fourteen => assert s[0] == a.kind && s[1] == 4 && s[2..16] == a.data;
  }
}
