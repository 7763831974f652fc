/**
 * The policy database: a list kept sorted by priority, proved to answer like a
 * search for the best match over everything installed.
 */
module IpsecPolicyMgr {
  import opened Chunk
  import opened IpPacket
  import opened IpsecPolicy

  datatype Entry = Entry(priority: uint32, policy: Policy)

  function NewEntry(p: Policy): Entry { Entry(PriorityOf(p), p) }

  type Query = Policy -> bool

  /** The policies a packet may use; request id zero stands for any. */
  function PacketQuery(packet: IpPacket, inbound: bool, reqid: uint32): Query {
    (p: Policy) => inbound == (p.direction == IN) && p.MatchPacket(packet) && (reqid == 0 || reqid == p.reqid)
  }

  /** The policies a delete request names. */
  function DeleteQuery(args: Policy): Query {
    (p: Policy) => PriorityOf(p) == PriorityOf(args) && p.Match(args)
  }

  // ----------------------------------------------------------- list operations

  predicate Sorted(l: seq<Entry>) {
    |l| <= 1 || (l[0].priority <= l[1].priority && Sorted(l[1..]))
  }

  /** In front of the first entry that does not come strictly before it. */
  function Insert(l: seq<Entry>, e: Entry): seq<Entry> {
    if l == [] || l[0].priority >= e.priority then [e] + l else [l[0]] + Insert(l[1..], e)
  }

  function RemoveFirst(l: seq<Entry>, m: Query): seq<Entry> {
    if l == [] then [] else if m(l[0].policy) then l[1..] else [l[0]] + RemoveFirst(l[1..], m)
  }

  function First(l: seq<Entry>, m: Query): Option<Entry> {
    if l == [] then None else if m(l[0].policy) then Some(l[0]) else First(l[1..], m)
  }

  function Lookup(l: seq<Entry>, m: Query): Option<Policy> {
    var f := First(l, m);
    if f.Some? then Some(f.value.policy) else None
  }

  /** The list after the policies were added one after the other. */
  function Arrange(history: seq<Policy>): seq<Entry> {
    if history == [] then []
    else Insert(Arrange(history[..|history| - 1]), NewEntry(history[|history| - 1]))
  }

  // ----------------------------------------------- the reference: whole history

  /** Policy i answers the query: nothing else comes before it, and nothing equal was added later. */
  ghost predicate IsBest(history: seq<Policy>, i: nat, m: Query) {
    && i < |history| && m(history[i])
    && forall j | 0 <= j < |history| && m(history[j]) ::
         PriorityOf(history[i]) < PriorityOf(history[j])
         || (PriorityOf(history[i]) == PriorityOf(history[j]) && j <= i)
  }

  ghost predicate Answers(history: seq<Policy>, m: Query, found: Option<Policy>) {
    match found
    case Some(p) => exists i: nat :: IsBest(history, i, m) && history[i] == p
    case None => forall j | 0 <= j < |history| :: !m(history[j])
  }

  /** The history without the latest policy the query takes. */
  function RemoveLatest(history: seq<Policy>, m: Query): seq<Policy> {
    if history == [] then []
    else
      var n := |history| - 1;
      if m(history[n]) then history[..n] else RemoveLatest(history[..n], m) + [history[n]]
  }

  // -------------------------------------------------------------------- proofs

  lemma InsertSorted(l: seq<Entry>, e: Entry)
    requires Sorted(l)
    ensures Sorted(Insert(l, e))
  {
    if l != [] && l[0].priority < e.priority {
      InsertSorted(l[1..], e);
      assert ([l[0]] + Insert(l[1..], e))[1..] == Insert(l[1..], e);
    } else {
      assert ([e] + l)[1..] == l;
    }
  }

  lemma {:induction false} ArrangeSorted(history: seq<Policy>)
    ensures Sorted(Arrange(history))
  {
    if history != [] {
      ArrangeSorted(history[..|history| - 1]);
      InsertSorted(Arrange(history[..|history| - 1]), NewEntry(history[|history| - 1]));
    }
  }

  lemma FirstAtLeast(l: seq<Entry>, m: Query)
    requires Sorted(l)
    ensures First(l, m).Some? ==> First(l, m).value.priority >= l[0].priority
  {
  }

  lemma FirstInsert(l: seq<Entry>, e: Entry, m: Query)
    requires Sorted(l)
    ensures var f := First(l, m);
      First(Insert(l, e), m) ==
        if m(e.policy) && (f.None? || e.priority <= f.value.priority) then Some(e) else f
  {
    FirstAtLeast(l, m);
    if l != [] && l[0].priority < e.priority {
      FirstInsert(l[1..], e, m);
      assert ([l[0]] + Insert(l[1..], e))[1..] == Insert(l[1..], e);
    } else {
      assert ([e] + l)[1..] == l;
    }
  }

  /** How a new policy changes the answer. */
  lemma AnswersAfter(h: seq<Policy>, p: Policy, m: Query, found: Option<Policy>)
    requires Answers(h, m, found)
    ensures Answers(h + [p], m,
              if m(p) && (found.None? || PriorityOf(p) <= PriorityOf(found.value)) then Some(p) else found)
  {
    hide PriorityOf;
    var history, n := h + [p], |h|;
    if m(p) && (found.None? || PriorityOf(p) <= PriorityOf(found.value)) {
      if found.Some? {
        var i: nat :| IsBest(h, i, m) && h[i] == found.value;
      }
      assert IsBest(history, n, m);
    } else if found.Some? {
      var i: nat :| IsBest(h, i, m) && h[i] == found.value;
      assert IsBest(history, i, m);
    }
  }

  /** The first match in the list is the best match over everything installed. */
  lemma {:induction false} FirstIsBest(history: seq<Policy>, m: Query)
    ensures var f := First(Arrange(history), m);
      && (f.Some? ==> f.value == NewEntry(f.value.policy))
      && Answers(history, m, if f.Some? then Some(f.value.policy) else None)
  {
    hide Answers, PriorityOf;
    if history == [] {
      assert Answers([], m, None) by { AnswersNone(m); }
    } else {
      var n := |history| - 1;
      var h, p := history[..n], history[n];
      FirstIsBest(h, m);
      ArrangeSorted(h);
      FirstInsert(Arrange(h), NewEntry(p), m);
      var f := First(Arrange(h), m);
      AnswersAfter(h, p, m, if f.Some? then Some(f.value.policy) else None);
      assert history == h + [p];
    }
  }

  lemma AnswersNone(m: Query)
    ensures Answers([], m, None)
  {
  }

  /** All policies the query takes have the same priority. */
  ghost predicate OnePriority(m: Query, priority: uint32) {
    forall p: Policy :: m(p) ==> PriorityOf(p) == priority
  }

  lemma RemoveInserted(l: seq<Entry>, e: Entry, m: Query)
    requires m(e.policy) && e.priority == PriorityOf(e.policy) && OnePriority(m, e.priority)
    requires forall x | x in l :: x.priority == PriorityOf(x.policy)
    ensures RemoveFirst(Insert(l, e), m) == l
  {
    if l != [] && l[0].priority < e.priority {
      RemoveInserted(l[1..], e, m);
      assert ([l[0]] + Insert(l[1..], e))[1..] == Insert(l[1..], e);
      assert l[0] in l;
    }
  }

  lemma RemoveAtLeast(l: seq<Entry>, m: Query)
    requires Sorted(l)
    ensures var r := RemoveFirst(l, m); Sorted(r) && (r != [] ==> r[0].priority >= l[0].priority)
  {
    if l != [] && !m(l[0].policy) {
      RemoveAtLeast(l[1..], m);
      assert ([l[0]] + RemoveFirst(l[1..], m))[1..] == RemoveFirst(l[1..], m);
    }
  }

  lemma RemoveOther(l: seq<Entry>, e: Entry, m: Query)
    requires !m(e.policy) && Sorted(l)
    ensures RemoveFirst(Insert(l, e), m) == Insert(RemoveFirst(l, m), e)
  {
    RemoveAtLeast(l, m);
    if l != [] && l[0].priority < e.priority {
      RemoveOther(l[1..], e, m);
      assert ([l[0]] + Insert(l[1..], e))[1..] == Insert(l[1..], e);
    }
  }

  lemma InsertMembers(l: seq<Entry>, e: Entry)
    ensures forall x :: x in Insert(l, e) <==> x == e || x in l
  {
  }

  lemma {:induction false} ArrangeMembers(history: seq<Policy>)
    ensures forall x | x in Arrange(history) :: x.priority == PriorityOf(x.policy)
  {
    if history != [] {
      ArrangeMembers(history[..|history| - 1]);
      InsertMembers(Arrange(history[..|history| - 1]), NewEntry(history[|history| - 1]));
    }
  }

  /** Deleting takes the policy added last among those it may take. */
  lemma {:induction false} RemoveIsLatest(history: seq<Policy>, m: Query, priority: uint32)
    requires OnePriority(m, priority)
    ensures RemoveFirst(Arrange(history), m) == Arrange(RemoveLatest(history, m))
  {
    if history != [] {
      var n := |history| - 1;
      var h, e := history[..n], NewEntry(history[n]);
      if m(history[n]) {
        ArrangeMembers(h);
        RemoveInserted(Arrange(h), e, m);
      } else {
        RemoveIsLatest(h, m, priority);
        ArrangeSorted(h);
        RemoveOther(Arrange(h), e, m);
        var r := RemoveLatest(h, m);
        assert (r + [history[n]])[..|r|] == r;
      }
    }
  }

  lemma DeleteOnePriority(args: Policy)
    ensures OnePriority(DeleteQuery(args), PriorityOf(args))
  {
  }

  lemma ArrangeAdd(history: seq<Policy>, p: Policy)
    ensures Arrange(history + [p]) == Insert(Arrange(history), NewEntry(p))
  {
    assert (history + [p])[..|history|] == history;
  }

  lemma MissStep(l: seq<Entry>, m: Query)
    requires l != [] && !m(l[0].policy)
    ensures RemoveFirst(l, m) == [l[0]] + RemoveFirst(l[1..], m) && First(l, m) == First(l[1..], m)
  {
  }

  lemma MatchHead(l: seq<Entry>, m: Query)
    requires l != [] && m(l[0].policy)
    ensures RemoveFirst(l, m) == l[1..] && First(l, m) == Some(l[0])
  {
  }

  lemma NoneLeft(l: seq<Entry>, i: nat, m: Query)
    requires i == |l|
    ensures l[..i] + RemoveFirst(l[i..], m) == l && First(l[i..], m) == None
  {
  }

  /** Taking the first element along. */
  lemma TakeOne(l: seq<Entry>, i: nat, r: seq<Entry>)
    requires 0 < i <= |l|
    ensures [l[0]] + (l[1..][..i - 1] + r) == l[..i] + r && l[1..][i - 1..] == l[i..]
  {
  }

  lemma {:induction false} SkipMisses(l: seq<Entry>, m: Query, i: nat)
    requires i <= |l| && forall k | 0 <= k < i :: !m(l[k].policy)
    ensures RemoveFirst(l, m) == l[..i] + RemoveFirst(l[i..], m) && First(l, m) == First(l[i..], m)
  {
    hide RemoveFirst, First;
    if i == 0 {
      assert l[0..] == l && l[..0] + RemoveFirst(l, m) == RemoveFirst(l, m);
    } else {
      MissStep(l, m);
      SkipMisses(l[1..], m, i - 1);
      TakeOne(l, i, RemoveFirst(l[i..], m));
    }
  }

  /** Ignored by this implementation. */
  predicate Ignored(kind: PolicyType, direction: Direction) { kind != IPSEC || direction == FWD }

  lemma InsertHead(l: seq<Entry>, e: Entry)
    ensures Insert(l, e) == if l != [] && l[0].priority < e.priority then [l[0]] + Insert(l[1..], e) else [e] + l
  {
  }

  /** One step of the search for the place of an entry. */
  lemma InsertStep(l: seq<Entry>, i: nat, e: Entry)
    requires i <= |l|
    ensures l[..i] + Insert(l[i..], e) ==
      if i < |l| && l[i].priority < e.priority then l[..i + 1] + Insert(l[i + 1..], e)
      else l[..i] + ([e] + l[i..])
  {
    hide Insert;
    InsertHead(l[i..], e);
    if i < |l| {
      SplitOne(l, i, Insert(l[i + 1..], e));
    }
  }

  /** Taking the next element along. */
  lemma SplitOne(l: seq<Entry>, i: nat, r: seq<Entry>)
    requires i < |l|
    ensures l[..i] + ([l[i]] + r) == l[..i + 1] + r && l[i..][1..] == l[i + 1..] && l[i..][0] == l[i]
  {
    var a, b := l[..i] + ([l[i]] + r), l[..i + 1] + r;
    assert |a| == |b|;
    forall k | 0 <= k < |a| ensures a[k] == b[k] {}
  }

  /** A delete request with these arguments names the policy. */
  predicate Named(p: Policy, args: Policy) { p.Match(args) && PriorityOf(p) == PriorityOf(args) }

  /** The rest is what the history was but for policy i, the latest that is named; or all, if none is. */
  ghost predicate Forgets(history: seq<Policy>, args: Policy, i: nat, rest: seq<Policy>) {
    && i <= |history|
    && (forall j | i < j < |history| :: !Named(history[j], args))
    && if i < |history| then Named(history[i], args) && rest == history[..i] + history[i + 1..]
       else rest == history && forall j | 0 <= j < |history| :: !Named(history[j], args)
  }

  lemma {:induction false} LatestForgotten(history: seq<Policy>, args: Policy) returns (i: nat)
    ensures Forgets(history, args, i, RemoveLatest(history, DeleteQuery(args)))
  {
    hide PriorityOf, Policy.Match;
    if history == [] {
      i := 0;
    } else {
      var n := |history| - 1;
      if Named(history[n], args) {
        i := n;
        assert history[..n] + history[n + 1..] == history[..n];
      } else {
        var k := LatestForgotten(history[..n], args);
        i := if k == n then n + 1 else k;
        ForgetsMore(history, args, k, RemoveLatest(history[..n], DeleteQuery(args)));
      }
    }
  }

  lemma ForgetsMore(history: seq<Policy>, args: Policy, k: nat, rest: seq<Policy>)
    requires history != [] && !Named(history[|history| - 1], args) && Forgets(history[..|history| - 1], args, k, rest)
    ensures var n := |history| - 1; Forgets(history, args, if k == n then n + 1 else k, rest + [history[n]])
  {
    hide Named;
    var n := |history| - 1;
    var front := history[..n];
    if k < n {
      assert history[..k] + history[k + 1..] == front[..k] + front[k + 1..] + [history[n]];
    } else {
      assert front + [history[n]] == history;
    }
  }

  /** The list has an entry for the request exactly if some policy installed is named. */
  lemma FirstNamed(history: seq<Policy>, args: Policy)
    ensures First(Arrange(history), DeleteQuery(args)).Some? <==> exists j | 0 <= j < |history| :: Named(history[j], args)
  {
    hide PriorityOf, Arrange, First, IsBest;
    FirstIsBest(history, DeleteQuery(args));
    var f := First(Arrange(history), DeleteQuery(args));
    if f.Some? {
      NamedBest(history, args, f.value.policy);
    }
  }

  lemma NamedBest(history: seq<Policy>, args: Policy, p: Policy)
    requires Answers(history, DeleteQuery(args), Some(p))
    ensures exists j | 0 <= j < |history| :: Named(history[j], args)
  {
    hide PriorityOf;
    var i: nat :| IsBest(history, i, DeleteQuery(args)) && history[i] == p;
    assert Named(history[i], args);
  }

  /** Whether a policy may be used for a packet: it is for the direction, covers it, and belongs to the request id. */
  predicate Usable(p: Policy, packet: IpPacket, inbound: bool, reqid: uint32) {
    (p.direction == IN) == inbound && p.MatchPacket(packet) && (reqid == 0 || p.reqid == reqid)
  }

  /** The usable policy of the least value, the latest of these. */
  ghost predicate BestUsable(history: seq<Policy>, i: nat, packet: IpPacket, inbound: bool, reqid: uint32) {
    && i < |history| && Usable(history[i], packet, inbound, reqid)
    && forall j | 0 <= j < |history| && Usable(history[j], packet, inbound, reqid) ::
         PriorityOf(history[i]) < PriorityOf(history[j]) || (PriorityOf(history[i]) == PriorityOf(history[j]) && j <= i)
  }

  lemma AnswersUsable(history: seq<Policy>, packet: IpPacket, inbound: bool, reqid: uint32, found: Option<Policy>)
    requires Answers(history, PacketQuery(packet, inbound, reqid), found)
    ensures found.None? <==> forall j | 0 <= j < |history| :: !Usable(history[j], packet, inbound, reqid)
    ensures found.Some? ==> exists i | 0 <= i < |history| ::
              BestUsable(history, i, packet, inbound, reqid) && history[i] == found.value
  {
    hide PriorityOf, Policy.MatchPacket;
    if found.Some? {
      var i: nat :| IsBest(history, i, PacketQuery(packet, inbound, reqid)) && history[i] == found.value;
      assert BestUsable(history, i, packet, inbound, reqid);
      assert Usable(history[i], packet, inbound, reqid);
    }
  }

  class PolicyMgr {
    var policies: seq<Entry>
    ghost var history: seq<Policy>

    ghost predicate Valid()
      reads this
    {
      policies == Arrange(history)
    }

    constructor ()
      ensures Valid() && history == []
    {
      policies, history := [], [];
    }

    method AddPolicy(kind: PolicyType, p: Policy)
      requires Valid()
      modifies this
      ensures Valid() && history == if Ignored(kind, p.direction) then old(history) else old(history) + [p]
      ensures policies == if Ignored(kind, p.direction) then old(policies) else Insert(old(policies), NewEntry(p))
      ensures history == if kind == IPSEC && p.direction != FWD then old(history) + [p] else old(history)
    {
      if Ignored(kind, p.direction) {
        return;
      }
      ArrangeAdd(history, p);
      hide Arrange;
      var entry := NewEntry(p);
      hide NewEntry;
      var i := FindPlace(entry);
      policies := policies[..i] + ([entry] + policies[i..]);
      history := history + [p];
    }

    /** The position of the first entry that does not come strictly before the new one. */
    method FindPlace(entry: Entry) returns (i: nat)
      ensures i <= |policies| && Insert(policies, entry) == policies[..i] + ([entry] + policies[i..])
    {
      hide Insert;
      i := 0;
      assert policies[..0] + Insert(policies[0..], entry) == Insert(policies, entry) by { assert policies[0..] == policies; }
      while i < |policies| && policies[i].priority < entry.priority
        invariant i <= |policies|
        invariant Insert(policies, entry) == policies[..i] + Insert(policies[i..], entry)
      {
        InsertStep(policies, i, entry);
        i := i + 1;
      }
      InsertStep(policies, i, entry);
    }

    method DelPolicy(kind: PolicyType, args: Policy) returns (ok: bool)
      requires Valid()
      modifies this
      ensures Valid()
      ensures policies == if Ignored(kind, args.direction) then old(policies) else RemoveFirst(old(policies), DeleteQuery(args))
      ensures history == if Ignored(kind, args.direction) then old(history) else RemoveLatest(old(history), DeleteQuery(args))
      ensures ok <==> Ignored(kind, args.direction) || First(old(policies), DeleteQuery(args)).Some?
      // what is forgotten is the latest policy like the one named, of equal priority, and no other
      ensures kind != IPSEC || args.direction == FWD ==> ok && history == old(history)
      ensures kind == IPSEC && args.direction != FWD ==>
        exists i: nat :: Forgets(old(history), args, i, history) && (ok <==> i < |old(history)|)
    {
      if Ignored(kind, args.direction) {
        return true;
      }
      ghost var m := DeleteQuery(args);
      DeleteOnePriority(args);
      RemoveIsLatest(history, m, PriorityOf(args));
      hide PriorityOf, Arrange, OnePriority, RemoveFirst, First, RemoveLatest, Named;
      var i := FindEntry(args);
      ok := i < |policies|;
      if ok {
        assert policies[i..][0] == policies[i] && policies[i..][1..] == policies[i + 1..];
        MatchHead(policies[i..], m);
        policies := policies[..i] + policies[i + 1..];
      } else {
        NoneLeft(policies, i, m);
      }
      ghost var last := LatestForgotten(history, args);
      FirstNamed(history, args);
      history := RemoveLatest(history, m);
    }

    /** The position of the first entry a delete request names. */
    method FindEntry(args: Policy) returns (i: nat)
      requires Valid()
      ensures i <= |policies| && (i < |policies| ==> DeleteQuery(args)(policies[i].policy))
      ensures RemoveFirst(policies, DeleteQuery(args)) == policies[..i] + RemoveFirst(policies[i..], DeleteQuery(args))
      ensures First(policies, DeleteQuery(args)) == First(policies[i..], DeleteQuery(args))
    {
      ghost var m := DeleteQuery(args);
      ArrangeMembers(history);
      hide Arrange;
      var priority := PriorityOf(args);
      hide PriorityOf;
      i := 0;
      while i < |policies| && !(policies[i].priority == priority && policies[i].policy.Match(args))
        invariant i <= |policies| && forall k | 0 <= k < i :: !m(policies[k].policy)
      {
        assert policies[i] in policies;
        i := i + 1;
      }
      assert i < |policies| ==> policies[i] in policies;
      SkipMisses(policies, m, i);
    }

    method FlushPolicies()
      modifies this
      ensures Valid() && history == [] && policies == []
    {
      while policies != []
        decreases |policies|
      {
        policies := policies[..|policies| - 1];
      }
      history := [];
    }

    method FindByPacket(packet: IpPacket, inbound: bool, reqid: uint32) returns (found: Option<Policy>)
      requires Valid()
      ensures Answers(history, PacketQuery(packet, inbound, reqid), found)
      ensures found == Lookup(policies, PacketQuery(packet, inbound, reqid))
      ensures found.None? <==> forall j | 0 <= j < |history| :: !Usable(history[j], packet, inbound, reqid)
      ensures found.Some? ==> exists i | 0 <= i < |history| ::
                BestUsable(history, i, packet, inbound, reqid) && history[i] == found.value
    {
      found := Search(packet, inbound, reqid);
      hide PriorityOf, Arrange, Answers, Lookup;
      AnswersUsable(history, packet, inbound, reqid, found);
    }

    method Search(packet: IpPacket, inbound: bool, reqid: uint32) returns (found: Option<Policy>)
      requires Valid()
      ensures Answers(history, PacketQuery(packet, inbound, reqid), found)
      ensures found == Lookup(policies, PacketQuery(packet, inbound, reqid))
    {
      ghost var m := PacketQuery(packet, inbound, reqid);
      FirstIsBest(history, m);
      var i := 0;
      while i < |policies|
        invariant i <= |policies| && forall k | 0 <= k < i :: !m(policies[k].policy)
      {
        var policy := policies[i].policy;
        if inbound == (policy.direction == IN) && policy.MatchPacket(packet) {
          if reqid == 0 || reqid == policy.reqid {
            SkipMisses(policies, m, i);
            return Some(policy);
          }
        }
        i := i + 1;
      }
      SkipMisses(policies, m, i);
      return None;
    }
  }

  /** Adding a policy and deleting it with the same arguments restores the list exactly. */
  lemma AddThenDelete(history: seq<Policy>, p: Policy)
    ensures RemoveFirst(Arrange(history + [p]), DeleteQuery(p)) == Arrange(history)
  {
    DeleteOnePriority(p);
    ArrangeMembers(history);
    assert (history + [p])[..|history|] == history;
    RemoveInserted(Arrange(history), NewEntry(p), DeleteQuery(p));
  }
}
