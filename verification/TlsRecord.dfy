/**
 * The TLS record layer (section 6.2.1 of RFC 5246): reassembly of records from a
 * stream cut up arbitrarily, and serialisation into fragments of arbitrary size.
 */
module TlsRecord {
  import opened Chunk

  const HEADER: nat := 5

  datatype Record = Record(kind: byte, version: uint16, data: seq<byte>)

  datatype Status = NEED_MORE | INVALID_STATE | ALREADY_DONE | OTHER(code: nat)

  // --------------------------------------------------------- the wire format

  function Serialize(r: Record): seq<byte> { [r.kind] + Put16(r.version) + Put16(|r.data|) + r.data }

  /** A record on the wire: type, version, length, data. */
  lemma RecordBytes(r: Record)
    requires |r.data| < 0x1_0000
    ensures var b := Serialize(r);
      && |b| == 5 + |r.data| && b[0] == r.kind && b[5..] == r.data
      && b[1] as int * 0x100 + b[2] as int == r.version && b[3] as int * 0x100 + b[4] as int == |r.data|
  {
    NetworkOrder(r.version, 0);
    NetworkOrder(|r.data|, 0);
    var b, v, n := Serialize(r), Put16(r.version), Put16(|r.data|);
    hide Put16;
    assert b[1..3] == v && b[3..5] == n;
    assert b[1] == b[1..3][0] && b[2] == b[1..3][1] && b[3] == b[3..5][0] && b[4] == b[3..5][1];
  }

  function Flat(rs: seq<Record>): seq<byte> {
    if rs == [] then [] else Flat(rs[..|rs| - 1]) + Serialize(rs[|rs| - 1])
  }

  function Length(s: seq<byte>): nat
    requires |s| >= HEADER
  {
    Get16(s, 3)
  }

  predicate Complete(s: seq<byte>) { |s| >= HEADER && |s| >= HEADER + Length(s) }

  function First(s: seq<byte>): Record
    requires Complete(s)
  {
    Record(s[0], Get16(s, 1), s[HEADER..HEADER + Length(s)])
  }

  function Tail(s: seq<byte>): seq<byte>
    requires Complete(s)
  {
    s[HEADER + Length(s)..]
  }

  /** The records a byte stream starts with, by looking at the whole stream at once. */
  function Split(s: seq<byte>): seq<Record>
    decreases |s|
  {
    if Complete(s) then [First(s)] + Split(Tail(s)) else []
  }

  lemma FirstSerialized(s: seq<byte>)
    requires Complete(s)
    ensures Serialize(First(s)) == s[..HEADER + Length(s)] && Serialize(First(s)) + Tail(s) == s
    ensures Fits(First(s)) && |Tail(s)| < |s|
  {
    var r := First(s);
    assert Put16(r.version) == s[1..3] by { Put16Get16(s, 1); }
    assert Put16(|r.data|) == s[3..5] by { Put16Get16(s, 3); }
    hide Put16, Get16;
    var n := HEADER + Length(s);
    assert s[..n] == [s[0]] + s[1..3] + s[3..5] + s[HEADER..n];
  }

  lemma Put16Get16(s: seq<byte>, i: nat)
    requires i + 2 <= |s|
    ensures Put16(Get16(s, i)) == s[i..i + 2]
  {
    DivModUnique(Get16(s, i), 0x100, s[i], s[i + 1]);
  }

  predicate Fits(r: Record) { |r.data| < 0x1_0000 }

  lemma SerializedFirst(r: Record, t: seq<byte>)
    requires Fits(r)
    ensures var s := Serialize(r) + t; Complete(s) && First(s) == r && Tail(s) == t
  {
    var s := Serialize(r) + t;
    assert s[1..3] == Put16(r.version) && s[3..5] == Put16(|r.data|);
    assert Get16(s, 3) == |r.data| && Get16(s, 1) == r.version;
  }

  lemma FlatCons(r: Record, rs: seq<Record>)
    ensures Flat([r] + rs) == Serialize(r) + Flat(rs)
  {
    if rs != [] {
      var n := |rs| - 1;
      FlatCons(r, rs[..n]);
      assert ([r] + rs)[..n + 1] == [r] + rs[..n];
    }
  }

  /** Splitting undoes serialising, whatever follows. */
  lemma {:induction false} SplitFlat(rs: seq<Record>, t: seq<byte>)
    requires forall r | r in rs :: Fits(r)
    ensures Split(Flat(rs) + t) == rs + Split(t)
  {
    hide Serialize, First, Tail, Complete;
    if rs == [] {
      assert Flat(rs) + t == t;
    } else {
      var r, rest := rs[0], rs[1..];
      assert rs == [r] + rest;
      FlatCons(r, rest);
      SerializedFirst(r, Flat(rest) + t);
      assert Flat(rs) + t == Serialize(r) + (Flat(rest) + t);
      SplitFlat(rest, t);
    }
  }

  // --------------------------------------------------------------- receiving

  /** The answer of the upper layers to the latest of the records handed up. */
  type Upper = seq<Record> -> Status

  /**
   * What a receiver holds: a partial header, or a record buffer of a known size
   * that is filled so far.  A record of length zero may be held complete: one whose
   * header was completed across calls is handed up with the next bytes only.
   */
  predicate HeldOk(head: seq<byte>, size: nat, input: seq<byte>) {
    && |head| < HEADER
    && (size == 0 ==> input == [])
    && (size > 0 ==> head == [] && |input| >= HEADER && size == HEADER + Length(input)
                     && (|input| < size || (|input| == size == HEADER)))
  }

  lemma HeldSplit(head: seq<byte>, size: nat, input: seq<byte>)
    requires HeldOk(head, size, input)
    ensures var s := Split(head + input);
      if |input| == size == HEADER then |s| == 1 && s[0].data == [] else s == []
  {
    if size == 0 {
      assert head + input == head;
    } else {
      assert head + input == input;
      if Complete(input) {
        assert Tail(input) == [];
      }
    }
  }

  /**
   * The records handed up are those of the stream, except for an empty record that
   * is held complete: it is the one record still missing.
   */
  lemma DeliveredIsSplit(delivered: seq<Record>, head: seq<byte>, size: nat, input: seq<byte>)
    requires HeldOk(head, size, input) && forall r | r in delivered :: Fits(r)
    ensures var s := Split(Flat(delivered) + (head + input));
      if |input| == size == HEADER then
        |s| == |delivered| + 1 && s[..|delivered|] == delivered && s[|delivered|].data == []
      else s == delivered
  {
    SplitFlat(delivered, head + input);
    HeldSplit(head, size, input);
    hide Split, HeldOk, Flat;
    var s := Split(head + input);
    if s != [] {
      assert s == [s[0]];
    }
  }

  /** The upper layers asked for more after each new record but the last, whose answer is the status. */
  ghost predicate Answered(upper: Upper, before: seq<Record>, after: seq<Record>, status: Status)
    requires before <= after
  {
    && (forall n | |before| < n < |after| :: upper(after[..n]) == NEED_MORE)
    && (|before| < |after| ==> upper(after) == status)
    && (before == after ==> status == NEED_MORE)
  }

  lemma AnsweredNothing(upper: Upper, before: seq<Record>)
    ensures Answered(upper, before, before, NEED_MORE)
  {
  }

  lemma AnsweredTrans(upper: Upper, before: seq<Record>, mid: seq<Record>, after: seq<Record>, status: Status)
    requires before <= mid <= after
    requires Answered(upper, before, mid, NEED_MORE) && Answered(upper, mid, after, status)
    ensures Answered(upper, before, after, status)
  {
    forall n | |before| < n < |after| ensures upper(after[..n]) == NEED_MORE {
      if n < |mid| {
        assert after[..n] == mid[..n];
      } else if n == |mid| {
        assert after[..n] == mid;
      }
    }
    assert |mid| == |after| ==> mid == after;
  }

  lemma AnsweredNext(upper: Upper, before: seq<Record>, after: seq<Record>, r: Record)
    requires before <= after && Answered(upper, before, after, NEED_MORE)
    ensures Answered(upper, before, after + [r], upper(after + [r]))
  {
    var next := after + [r];
    forall n | |before| < n < |next| ensures upper(next[..n]) == NEED_MORE {
      if n < |after| {
        assert next[..n] == after[..n];
      } else {
        assert next[..n] == after;
      }
    }
  }

  lemma Regroup(a: seq<byte>, b: seq<byte>, c: seq<byte>)
    ensures (a + b) + c == a + (b + c)
  {
  }

  lemma HeldShape(head: seq<byte>, size: nat, input: seq<byte>)
    requires HeldOk(head, size, input)
    ensures size == 0 <==> input == []
  {
  }

  class Receiver {
    const upper: Upper
    var head: seq<byte>
    var size: nat
    var input: seq<byte>
    /** The records handed to the protection layer. */
    var delivered: seq<Record>

    /** Everything fed and not dropped. */
    ghost function Stream(): seq<byte>
      reads this
    {
      Flat(delivered) + (head + input)
    }

    ghost predicate Valid()
      reads this
    {
      HeldOk(head, size, input) && forall r | r in delivered :: Fits(r)
    }

    constructor (upper: Upper)
      ensures Valid() && Stream() == [] && delivered == [] && this.upper == upper
    {
      this.upper := upper;
      head, size, input, delivered := [], 0, [], [];
    }

    method Deliver(r: Record) returns (status: Status)
      requires Fits(r)
      modifies this`delivered
      ensures delivered == old(delivered) + [r] && status == upper(delivered)
      ensures Flat(delivered) == Flat(old(delivered)) + Serialize(r)
    {
      delivered := delivered + [r];
      status := upper(delivered);
      assert delivered[..|delivered| - 1] == old(delivered);
    }

    /** Completes a header left over from the last call as far as the bytes go. */
    method CompleteHead(buf: seq<byte>) returns (rest: seq<byte>)
      requires Valid() && head != []
      modifies this`head, this`size, this`input
      ensures Valid() && (rest != [] ==> head == []) && head + input + rest == old(head + input) + buf
    {
      var len := Min(|buf|, HEADER - |head|);
      head := head + buf[..len];
      rest := buf[len..];
      assert buf == buf[..len] + buf[len..];
      if |head| == HEADER {
        size := HEADER + Length(head);
        input := head;
        head := [];
      }
    }

    /** Hands up every record that lies complete in the buffer. */
    method Inline(buf: seq<byte>) returns (rest: seq<byte>, status: Status)
      requires Valid() && size == 0 && head == []
      modifies this`delivered
      ensures Valid() && |rest| <= |buf| && Flat(delivered) + rest == Flat(old(delivered)) + buf
      ensures old(delivered) <= delivered && Answered(upper, old(delivered), delivered, status)
      ensures status == NEED_MORE ==> !Complete(rest)
    {
      hide Answered, Serialize, Complete;
      rest := buf;
      assert Answered(upper, delivered, delivered, NEED_MORE) by { AnsweredNothing(upper, delivered); }
      while Complete(rest)
        invariant Valid() && |rest| <= |buf| && Flat(delivered) + rest == Flat(old(delivered)) + buf
        invariant old(delivered) <= delivered && Answered(upper, old(delivered), delivered, NEED_MORE)
        decreases |rest|
      {
        FirstSerialized(rest);
        ghost var before := delivered;
        var r, tail := First(rest), Tail(rest);
        AnsweredNext(upper, old(delivered), delivered, r);
        status := Deliver(r);
        assert Flat(delivered) + tail == Flat(before) + (Serialize(r) + tail);
        rest := tail;
        if status != NEED_MORE {
          return;
        }
      }
      status := NEED_MORE;
    }

    /** Starts a record buffer for the header at the front of the bytes, or goes on filling one. */
    ghost predicate Filling(rest: seq<byte>)
      reads this
    {
      && rest != [] && head == [] && (forall r | r in delivered :: Fits(r))
      && (input == [] ==> |rest| >= HEADER && !Complete(rest) && size == HEADER + Length(rest))
      && (input != [] ==> size > 0 && HeldOk(head, size, input))
    }

    method Fill(buf: seq<byte>) returns (rest: seq<byte>)
      requires Filling(buf)
      modifies this`input
      ensures |rest| <= |buf| && |input| <= size && input + rest == old(input) + buf
      ensures if |input| == size then Complete(input) && Tail(input) == [] && (|rest| < |buf| || old(input) != [])
              else rest == [] && HeldOk(head, size, input)
    {
      var len := Min(|buf|, size - |input|);
      input := input + buf[..len];
      rest := buf[len..];
      assert buf == buf[..len] + rest;
      assert Length(input) == Length(if old(input) == [] then buf else old(input));
    }

    /** Fills the record buffer, and hands the record up once it is complete. */
    method Buffer(buf: seq<byte>) returns (rest: seq<byte>, status: Status)
      requires Filling(buf)
      modifies this
      ensures Valid() && head == [] && Stream() + rest == Flat(old(delivered)) + old(input) + buf
      ensures old(delivered) <= delivered && Answered(upper, old(delivered), delivered, status)
      ensures |rest| < |buf| || (|rest| == |buf| && old(input) != [] && size == 0)
      ensures status != NEED_MORE ==> size == 0
    {
      hide Serialize, Answered, Flat;
      AnsweredNothing(upper, delivered);
      rest := Fill(buf);
      Regroup(Flat(delivered), old(input), buf);
      Regroup(Flat(delivered), input, rest);
      status := NEED_MORE;
      if |input| == size {
        FirstSerialized(input);
        assert Serialize(First(input)) == input;
        AnsweredNext(upper, delivered, delivered, First(input));
        status := Deliver(First(input));
        size, input := 0, [];
      }
      assert head + input == input;
    }

    /** With no record begun: hands up what is complete and keeps a partial header, or begins a record. */
    method Begin(buf: seq<byte>) returns (rest: seq<byte>, status: Status)
      requires Valid() && size == 0 && head == [] && buf != []
      modifies this
      ensures old(delivered) <= delivered && Answered(upper, old(delivered), delivered, status)
      ensures input == [] && |rest| <= |buf| && Flat(delivered) + (head + rest) == Flat(old(delivered)) + buf
      ensures if status == NEED_MORE && rest != [] then Filling(rest) else Valid()
      ensures status != NEED_MORE || rest != [] ==> head == []
      ensures status != NEED_MORE ==> size == 0
    {
      hide Answered, Flat, Complete;
      rest, status := Inline(buf);
      if status == NEED_MORE {
        if |rest| < HEADER {
          head, rest := rest, [];
        } else {
          size := HEADER + Length(rest);
        }
      }
      assert rest == [] ==> head + rest == head;
      assert head == [] ==> head + rest == rest;
    }

    /** tls_t.process. */
    method Process(buf: seq<byte>) returns (status: Status)
      requires Valid()
      modifies this
      ensures Valid() && old(delivered) <= delivered && Answered(upper, old(delivered), delivered, status)
      ensures status == NEED_MORE ==> Stream() == old(Stream()) + buf
      ensures status != NEED_MORE ==> Stream() <= old(Stream()) + buf && head == [] && size == 0
    {
      hide Serialize, Answered, Flat, Complete, HeldOk;
      var rest := buf;
      if head != [] {
        rest := CompleteHead(buf);
      }
      ghost var all, before := old(Stream()) + buf, delivered;
      AnsweredNothing(upper, delivered);
      Regroup(Flat(delivered), head + input, rest);
      Regroup(Flat(delivered), old(head + input), buf);
      while rest != []
        invariant Valid() && (rest != [] ==> head == [])
        invariant before <= delivered && Answered(upper, before, delivered, NEED_MORE)
        invariant Stream() + rest == all
        decreases |rest|, size
      {
        HeldShape(head, size, input);
        assert head + input == input;
        ghost var mid := delivered;
        if size == 0 {
          assert Flat(delivered) + input == Flat(delivered);
          rest, status := Begin(rest);
          AnsweredTrans(upper, before, mid, delivered, status);
          mid := delivered;
          assert head + input == head && head == [] ==> head + rest == rest;
          assert Flat(delivered) + [] == Flat(delivered);
          if status != NEED_MORE {
            return;
          }
          if rest == [] {
            assert head + rest == head;
            break;
          }
        }
        assert Flat(delivered) + input + rest == all;
        rest, status := Buffer(rest);
        AnsweredTrans(upper, before, mid, delivered, status);
        if status != NEED_MORE {
          return;
        }
      }
      status := NEED_MORE;
    }

    /** Any number of calls, as long as more is wanted. */
    method Feed(chunks: seq<seq<byte>>) returns (status: Status)
      requires Valid()
      modifies this
      ensures Valid() && old(delivered) <= delivered && Answered(upper, old(delivered), delivered, status)
      ensures status == NEED_MORE ==> Stream() == old(Stream()) + Concat(chunks)
      ensures status != NEED_MORE ==> Stream() <= old(Stream()) + Concat(chunks) && head == [] && input == []
    {
      hide Flat, Answered, HeldOk, Concat;
      status := NEED_MORE;
      var i := 0;
      ghost var before, start := delivered, Stream();
      AnsweredNothing(upper, before);
      assert chunks[..0] == [] && start + [] == start;
      ConcatNothing();
      while i < |chunks| && status == NEED_MORE
        invariant i <= |chunks| && Valid() && before <= delivered && Answered(upper, before, delivered, status)
        invariant status == NEED_MORE ==> Stream() == start + Concat(chunks[..i])
        invariant status != NEED_MORE ==> Stream() <= start + Concat(chunks[..i]) && head == [] && input == []
      {
        ghost var mid := delivered;
        assert chunks[..i + 1] == chunks[..i] + [chunks[i]];
        ConcatAppend(chunks[..i], chunks[i]);
        Regroup(start, Concat(chunks[..i]), chunks[i]);
        status := Process(chunks[i]);
        HeldShape(head, size, input);
        AnsweredTrans(upper, before, mid, delivered, status);
        i := i + 1;
      }
      ConcatPrefix(chunks, i);
      assert i == |chunks| ==> chunks[..i] == chunks;
    }
  }

  function Concat(chunks: seq<seq<byte>>): seq<byte> {
    if chunks == [] then [] else Concat(chunks[..|chunks| - 1]) + chunks[|chunks| - 1]
  }

  lemma ConcatNothing()
    ensures Concat([]) == []
  {
  }

  lemma ConcatAppend(chunks: seq<seq<byte>>, c: seq<byte>)
    ensures Concat(chunks + [c]) == Concat(chunks) + c
  {
    assert (chunks + [c])[..|chunks|] == chunks;
  }

  lemma {:induction false} ConcatPrefix(chunks: seq<seq<byte>>, i: nat)
    requires i <= |chunks|
    ensures Concat(chunks[..i]) <= Concat(chunks)
  {
    if i < |chunks| {
      var front := chunks[..|chunks| - 1];
      ConcatPrefix(front, i);
      assert front[..i] == chunks[..i];
    } else {
      assert chunks[..i] == chunks;
    }
  }

  /**
   * Reassembly does not depend on how the stream was cut up: without empty records
   * the records handed up are a function of the bytes fed alone.
   */
  lemma DeliveredDetermined(delivered: seq<Record>, head: seq<byte>, size: nat, input: seq<byte>)
    requires HeldOk(head, size, input) && forall r | r in delivered :: Fits(r)
    requires var s := Split(Flat(delivered) + (head + input)); forall i | 0 <= i < |s| :: s[i].data != []
    ensures delivered == Split(Flat(delivered) + (head + input))
  {
    hide Split, Flat, HeldOk;
    DeliveredIsSplit(delivered, head, size, input);
  }

  lemma SplitAll(rs: seq<Record>)
    requires forall r | r in rs :: Fits(r)
    ensures Split(Flat(rs)) == rs
  {
    SplitFlat(rs, []);
    SplitNothing();
    assert Flat(rs) + [] == Flat(rs) && rs + [] == rs;
  }

  lemma SplitNothing()
    ensures Split([]) == []
  {
  }

  // ----------------------------------------------------------------- sending

  /** What the upper layers answer when asked for a record. */
  datatype Reply = Data(kind: byte, data: seq<byte>) | Nothing | Problem(code: nat)

  /** The records offered before the upper layers first say something else. */
  function Offered(version: uint16, replies: seq<Reply>): seq<Record> {
    if replies == [] || !replies[0].Data? then []
    else [Record(replies[0].kind, version, replies[0].data)] + Offered(version, replies[1..])
  }

  /** What they say then; nothing if they have nothing more to say. */
  function Final(replies: seq<Reply>): Reply {
    if replies == [] then Nothing else if replies[0].Data? then Final(replies[1..]) else replies[0]
  }

  class Sender {
    const version: uint16
    var replies: seq<Reply>
    var output: seq<byte>
    var outpos: nat

    ghost predicate Valid()
      reads this
    {
      outpos <= |output| && (outpos == |output| ==> output == [])
    }

    ghost function Unsent(): seq<byte>
      requires Valid()
      reads this
    {
      output[outpos..]
    }

    constructor (version: uint16, replies: seq<Reply>)
      ensures Valid() && Unsent() == [] && this.version == version && this.replies == replies
    {
      this.version, this.replies, output, outpos := version, replies, [], 0;
    }

    /** Collects all records the upper layers have to offer. */
    method Gather() returns (last: Reply)
      requires Valid() && output == []
      modifies this
      ensures output == Flat(Offered(version, old(replies))) && outpos == 0 && last == Final(old(replies))
    {
      outpos := 0;
      ghost var rs: seq<Record> := [];
      while replies != [] && replies[0].Data?
        invariant outpos == 0 && output == Flat(rs)
        invariant Offered(version, old(replies)) == rs + Offered(version, replies) && Final(old(replies)) == Final(replies)
        decreases |replies|
      {
        var r := Record(replies[0].kind, version, replies[0].data);
        output := output + Serialize(r);
        assert (rs + [r])[..|rs|] == rs;
        rs := rs + [r];
        replies := replies[1..];
      }
      assert rs + Offered(version, replies) == rs;
      if replies == [] {
        last := Nothing;
      } else {
        last := replies[0];
        replies := replies[1..];
      }
    }

    /** tls_t.build; msglen is what is stored for the caller, if anything. */
    method Build(buflen: nat) returns (status: Status, fragment: seq<byte>, msglen: Option<nat>)
      requires Valid()
      modifies this
      ensures Valid()
      ensures var fresh' := old(output) == [];
        var rs := Offered(version, old(replies));
        var last := Final(old(replies));
        if fresh' && last.Problem? then
          status == OTHER(last.code) && fragment == [] && msglen == None && Unsent() == Flat(rs)
        else if fresh' && Flat(rs) == [] then
          status == INVALID_STATE && fragment == [] && msglen == None && Unsent() == []
        else
          var message := if fresh' then Flat(rs) else old(Unsent());
          && fragment + Unsent() == message && |fragment| == Min(buflen, |message|)
          && msglen == Some(if fresh' then |message| else 0)
          && status == (if Unsent() == [] then ALREADY_DONE else NEED_MORE)
          && (!fresh' ==> replies == old(replies))
    {
      hide Flat, Offered, Final;
      if output == [] {
        var last := Gather();
        if last.Problem? {
          assert output[0..] == output;
          return OTHER(last.code), [], None;
        }
        if output == [] {
          return INVALID_STATE, [], None;
        }
        msglen := Some(|output|);
      } else {
        msglen := Some(0);
      }
      var len := Min(buflen, |output| - outpos);
      fragment := output[outpos..outpos + len];
      assert output[outpos..] == fragment + output[outpos + len..];
      outpos := outpos + len;
      if outpos == |output| {
        output, outpos := [], 0;
        status := ALREADY_DONE;
      } else {
        status := NEED_MORE;
      }
    }

    /**
     * Handing out one message in fragments of the given sizes: together they are as
     * much of the serialised records as the sizes have room for, and only the first
     * comes with the message length.
     */
    method SendMessage(sizes: seq<nat>) returns (fragments: seq<seq<byte>>, lengths: seq<nat>)
      requires Valid() && sizes != [] && output == [] && Final(replies).Nothing?
      modifies this
      ensures Valid() && |fragments| == |lengths| <= |sizes|
      ensures var message := Flat(Offered(version, old(replies)));
        && Concat(fragments) + Unsent() == message
        && |Concat(fragments)| == Min(Sum(sizes), |message|)
        && (message != [] ==> fragments != [])
        && forall i | 0 <= i < |lengths| :: lengths[i] == if i == 0 then |message| else 0
    {
      hide Flat, Offered, Final, Concat, Sum;
      ghost var message := Flat(Offered(version, replies));
      ConcatNothing();
      SumPrefix(sizes, 0);
      fragments, lengths := [], [];
      var i := 0;
      while i < |sizes|
        invariant i <= |sizes| && |fragments| == |lengths| == i && Valid()
        invariant i == 0 ==> output == [] && replies == old(replies) && fragments == []
        invariant i > 0 ==> output != [] && message != [] && Concat(fragments) + Unsent() == message
        invariant |Concat(fragments)| == Min(Sum(sizes[..i]), |message|)
        invariant forall k | 0 <= k < i :: lengths[k] == if k == 0 then |message| else 0
        decreases |sizes| - i
      {
        var status, fragment, msglen := Build(sizes[i]);
        if status == INVALID_STATE {
          assert i == 0 && message == [];
          break;
        }
        ConcatAppend(fragments, fragment);
        Regroup(Concat(fragments), fragment, Unsent());
        assert i == 0 ==> Concat(fragments) + fragment == fragment;
        SumPrefix(sizes, i + 1);
        fragments, lengths := fragments + [fragment], lengths + [msglen.value];
        i := i + 1;
        if status == ALREADY_DONE {
          assert Concat(fragments) + [] == Concat(fragments);
          break;
        }
      }
      SumPrefix(sizes, i);
      assert i == |sizes| ==> sizes[..i] == sizes;
    }
  }

  function Sum(sizes: seq<nat>): nat {
    if sizes == [] then 0 else Sum(sizes[..|sizes| - 1]) + sizes[|sizes| - 1]
  }

  lemma {:induction false} SumPrefix(sizes: seq<nat>, i: nat)
    requires i <= |sizes|
    ensures Sum(sizes[..i]) <= Sum(sizes)
    ensures if i == 0 then Sum(sizes[..i]) == 0 else Sum(sizes[..i]) == Sum(sizes[..i - 1]) + sizes[i - 1]
  {
    if i < |sizes| {
      var front := sizes[..|sizes| - 1];
      SumPrefix(front, i);
      assert front[..i] == sizes[..i] && (i > 0 ==> front[..i - 1] == sizes[..i - 1]);
    } else {
      assert sizes[..i] == sizes;
    }
  }

  /** Positive sizes, as many as there are bytes, are room enough. */
  lemma {:induction false} SumPositive(sizes: seq<nat>)
    requires forall i | 0 <= i < |sizes| :: sizes[i] > 0
    ensures Sum(sizes) >= |sizes|
  {
    if sizes != [] {
      SumPositive(sizes[..|sizes| - 1]);
    }
  }

  // ------------------------------------------------------------- both together

  /** The records up to the first one after which the upper layers want no more; all, if they always do. */
  ghost predicate Wanted(upper: Upper, rs: seq<Record>, delivered: seq<Record>, status: Status) {
    delivered <= rs && Answered(upper, [], delivered, status) && (status == NEED_MORE ==> delivered == rs)
  }

  /** There is only one such list. */
  lemma WantedOnce(upper: Upper, rs: seq<Record>, d: seq<Record>, s: Status, d': seq<Record>, s': Status)
    requires Wanted(upper, rs, d, s) && Wanted(upper, rs, d', s') && |d| <= |d'|
    ensures d == d' && s == s'
  {
    assert d == d'[..|d|];
  }

  /** If the upper layers always want more, they get all. */
  lemma WantedAll(upper: Upper, rs: seq<Record>, delivered: seq<Record>, status: Status)
    requires Wanted(upper, rs, delivered, status)
    ensures status == NEED_MORE ==> delivered == rs
    ensures (forall l: seq<Record> :: upper(l) == NEED_MORE) ==> status == NEED_MORE
  {
  }

  /** Whatever a fresh receiver holds and has delivered, it has delivered what was wanted of the stream. */
  lemma DeliveredWanted(upper: Upper, stream: seq<byte>, delivered: seq<Record>, head: seq<byte>, size: nat,
      input: seq<byte>, status: Status)
    requires HeldOk(head, size, input) && (forall r | r in delivered :: Fits(r))
    requires Answered(upper, [], delivered, status)
    requires status == NEED_MORE ==> Flat(delivered) + (head + input) == stream
    requires status != NEED_MORE ==> Flat(delivered) + (head + input) <= stream && head == [] && input == []
    requires forall r | r in Split(stream) :: r.data != []
    ensures Wanted(upper, Split(stream), delivered, status)
  {
    hide HeldOk, Split, Flat, Answered;
    if status == NEED_MORE {
      DeliveredDetermined(delivered, head, size, input);
    } else {
      var f := Flat(delivered);
      assert f + (head + input) == f;
      assert stream == f + stream[|f|..];
      SplitFlat(delivered, stream[|f|..]);
    }
  }

  /** A fresh receiver fed a stream in pieces. */
  method Receive(upper: Upper, chunks: seq<seq<byte>>) returns (delivered: seq<Record>, held: seq<byte>, status: Status)
    requires forall r | r in Split(Concat(chunks)) :: r.data != []
    ensures Wanted(upper, Split(Concat(chunks)), delivered, status)
    ensures status == NEED_MORE ==> Flat(delivered) + held == Concat(chunks)
  {
    hide HeldOk, Split, Flat, Answered, Concat;
    var receiver := new Receiver(upper);
    status := receiver.Feed(chunks);
    assert [] + Concat(chunks) == Concat(chunks);
    delivered, held := receiver.delivered, receiver.head + receiver.input;
    DeliveredWanted(upper, Concat(chunks), delivered, receiver.head, receiver.size, receiver.input, status);
  }

  /** How the stream is cut makes no difference, whatever the upper layers answer. */
  method ReceiveTwice(upper: Upper, chunks: seq<seq<byte>>, others: seq<seq<byte>>)
    returns (delivered: (seq<Record>, seq<Record>), status: (Status, Status))
    requires Concat(chunks) == Concat(others) && forall r | r in Split(Concat(chunks)) :: r.data != []
    ensures delivered.0 == delivered.1 && status.0 == status.1
  {
    hide Split, Flat, Concat, Wanted;
    var d, _, s := Receive(upper, chunks);
    var d', _, s' := Receive(upper, others);
    if |d| <= |d'| {
      WantedOnce(upper, Split(Concat(chunks)), d, s, d', s');
    } else {
      WantedOnce(upper, Split(Concat(chunks)), d', s', d, s);
    }
    return (d, d'), (s, s');
  }

  /**
   * Build and process compose to the identity: the records offered to one side, handed
   * out in fragments of any sizes that have room for them, cut up again in any way and
   * fed to the other side, are delivered there, up to the first one after which the
   * upper layers want no more; if they always want more, nothing is held back.
   */
  method Exchange(version: uint16, replies: seq<Reply>, sizes: seq<nat>, recut: seq<seq<byte>> -> seq<seq<byte>>,
      upper: Upper) returns (delivered: seq<Record>, held: seq<byte>, status: Status)
    requires sizes != [] && Final(replies).Nothing? && Sum(sizes) >= |Flat(Offered(version, replies))|
    requires forall r | r in Offered(version, replies) :: Fits(r) && r.data != []
    requires forall fragments :: Concat(recut(fragments)) == Concat(fragments)
    ensures Wanted(upper, Offered(version, replies), delivered, status)
    ensures status == NEED_MORE ==> delivered == Offered(version, replies) && held == []
    ensures (forall l: seq<Record> :: upper(l) == NEED_MORE) ==> delivered == Offered(version, replies) && held == []
  {
    hide Split, Flat, Concat, Sum, Offered, Final, Answered, Wanted;
    ghost var rs := Offered(version, replies);
    var sender := new Sender(version, replies);
    var fragments, lengths := sender.SendMessage(sizes);
    assert Concat(fragments) == Flat(rs) by {
      assert |sender.Unsent()| == 0 && Concat(fragments) + [] == Concat(fragments);
    }
    SplitAll(rs);
    delivered, held, status := Receive(upper, recut(fragments));
    WantedAll(upper, rs, delivered, status);
  }
}
