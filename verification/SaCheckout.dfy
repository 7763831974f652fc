/**
 * The checkout protocol of the SA manager, as a step system.
 *
 * Threads share one mutex and one condition variable per SA entry.  A step is
 * a stretch of code that runs with the mutex held, up to the point where the
 * thread releases it: by returning, or by waiting on an entry's condition
 * variable.  A thread parked on a condition variable is blocked until it is
 * woken; a woken thread still has to get the mutex before it continues.
 */
module SaCheckout {
  import opened Chunk

  type Thread = nat
  type EntryId = nat

  datatype Entry = Entry(locked: bool, awaitsDeletion: bool, waitingThreads: int)

  /** The two wait loops of wait_remove_entry. */
  datatype Phase = UntilUnlocked | UntilDrained

  /**
   * Where a thread is.  A remover that runs inside flush_entries remembers, in
   * `flush`, the first entry id that did not exist when the flush began.
   */
  datatype Pc =
    | Idle
    | Holding(entry: EntryId)
    | Waiting(entry: EntryId, brief: bool, woken: bool)
    | Removing(entry: EntryId, phase: Phase, flush: Option<EntryId>, woken: bool)
    | Flushing(position: nat, bound: EntryId)

  type Threads = map<Thread, Pc>

  /** `sas` is the linked list, first element first; `nextId` is the next unused entry id. */
  datatype State = State(sas: seq<EntryId>, entries: map<EntryId, Entry>, threads: Threads, nextId: EntryId)

  /** What a thread does next; `wake` is the thread a signal on the condition variable happens to wake. */
  datatype Action =
    | Add
    | Checkout(thread: Thread, entry: EntryId, brief: bool, wake: set<Thread>)
    | Checkin(thread: Thread, wake: set<Thread>)
    | Remove(thread: Thread, entry: EntryId)
    | StartFlush(thread: Thread)
    | FlushNext(thread: Thread)
    | Resume(thread: Thread, wake: set<Thread>)
    | WakeSpuriously(thread: Thread)

  predicate At(pc: Pc, e: EntryId) { !pc.Idle? && !pc.Flushing? && pc.entry == e }

  predicate OnlyAt(pc: Pc, e: EntryId) { pc.Idle? || pc.Flushing? || pc.entry == e }

  predicate Parked(pc: Pc) { pc.Waiting? || pc.Removing? }

  function Blocked(ts: Threads, e: EntryId): set<Thread> {
    set t | t in ts && Parked(ts[t]) && ts[t].entry == e && !ts[t].woken
  }

  // ---------------------------------------------------------------- the code

  function Wake(ts: Threads, ws: set<Thread>): Threads {
    map t | t in ts :: if t in ws && Parked(ts[t]) then ts[t].(woken := true) else ts[t]
  }

  /** A signal wakes one blocked thread, whichever, if there is one. */
  predicate SignalChoice(ts: Threads, e: EntryId, wake: set<Thread>) {
    if Blocked(ts, e) == {} then wake == {} else exists w | w in Blocked(ts, e) :: wake == {w}
  }

  /** The effect of a step at an entry: it becomes n, thread t moves on to pc, the threads ws are woken. */
  function Touch(s: State, t: Thread, pc: Pc, e: EntryId, n: Entry, ws: set<Thread>): State {
    s.(entries := s.entries[e := n], threads := Wake(s.threads[t := pc], ws))
  }

  function Before(sas: seq<EntryId>, e: EntryId): seq<EntryId> {
    if sas == [] || sas[0] == e then [] else [sas[0]] + Before(sas[1..], e)
  }

  function Without(sas: seq<EntryId>, e: EntryId): seq<EntryId> {
    if sas == [] then [] else if sas[0] == e then sas[1..] else [sas[0]] + Without(sas[1..], e)
  }

  /** Unlink and destroy the entry; a flush goes on with the element that followed it. */
  function Destroy(s: State, t: Thread, e: EntryId, flush: Option<EntryId>): State {
    var pc := if flush.Some? then Flushing(|Before(s.sas, e)|, flush.value) else Idle;
    s.(sas := Without(s.sas, e), entries := s.entries - {e}, threads := s.threads[t := pc])
  }

  /** wait_for_entry from its loop test on, with the entry now n, and what its callers do with it. */
  function WaitForEntry(s: State, t: Thread, e: EntryId, n: Entry, brief: bool, wake: set<Thread>): State {
    if n.locked && !n.awaitsDeletion then
      Touch(s, t, Waiting(e, brief, false), e, n.(waitingThreads := n.waitingThreads + 1), {})
    else if n.awaitsDeletion || brief then
      Touch(s, t, Idle, e, n, wake)
    else
      Touch(s, t, Holding(e), e, n.(locked := true), {})
  }

  /** The second loop of wait_remove_entry, from its test on. */
  function DrainEntry(s: State, t: Thread, e: EntryId, n: Entry, flush: Option<EntryId>): State {
    if n.waitingThreads > 0 then
      Touch(s, t, Removing(e, UntilDrained, flush, false), e, n, Blocked(s.threads, e))
    else
      Destroy(s, t, e, flush)
  }

  /** wait_remove_entry from the test of its first loop on, with the entry now n. */
  function RemoveEntry(s: State, t: Thread, e: EntryId, n: Entry, flush: Option<EntryId>): State {
    if n.locked then
      Touch(s, t, Removing(e, UntilUnlocked, flush, false), e, n, {})
    else
      DrainEntry(s, t, e, n, flush)
  }

  predicate MutexFree(s: State) {
    forall t | t in s.threads :: !s.threads[t].Flushing?
  }

  predicate Enabled(s: State, a: Action) {
    match a
    case Add => MutexFree(s)
    case Checkout(t, e, brief, wake) =>
      && MutexFree(s) && t in s.threads && s.threads[t].Idle? && e in s.entries
      && SignalChoice(s.threads, e, wake)
    case Checkin(t, wake) =>
      && MutexFree(s) && t in s.threads && s.threads[t].Holding? && s.threads[t].entry in s.entries
      && SignalChoice(s.threads, s.threads[t].entry, wake)
    case Remove(t, e) =>
      MutexFree(s) && t in s.threads && s.threads[t].Idle? && e in s.entries
    case StartFlush(t) =>
      MutexFree(s) && t in s.threads && s.threads[t].Idle?
    case FlushNext(t) =>
      && t in s.threads && s.threads[t].Flushing?
      && (s.threads[t].position < |s.sas| ==> s.sas[s.threads[t].position] in s.entries)
    case Resume(t, wake) =>
      && MutexFree(s) && t in s.threads && Parked(s.threads[t]) && s.threads[t].woken
      && s.threads[t].entry in s.entries
      && SignalChoice(s.threads, s.threads[t].entry, wake)
    case WakeSpuriously(t) =>
      t in s.threads && Parked(s.threads[t])
  }

  function Apply(s: State, a: Action): State
    requires Enabled(s, a)
  {
    match a
    case Add =>
      s.(sas := [s.nextId] + s.sas, entries := s.entries[s.nextId := Entry(false, false, 0)], nextId := s.nextId + 1)
    case Checkout(t, e, brief, wake) => WaitForEntry(s, t, e, s.entries[e], brief, wake)
    case Checkin(t, wake) =>
      var e := s.threads[t].entry;
      Touch(s, t, Idle, e, s.entries[e].(locked := false), wake)
    case Remove(t, e) =>
      if s.entries[e].awaitsDeletion then s
      else RemoveEntry(s, t, e, s.entries[e].(awaitsDeletion := true), None)
    case StartFlush(t) => s.(threads := s.threads[t := Flushing(0, s.nextId)])
    case FlushNext(t) =>
      var Flushing(i, bound) := s.threads[t];
      if i >= |s.sas| then s.(threads := s.threads[t := Idle])
      else if s.entries[s.sas[i]].awaitsDeletion then s.(threads := s.threads[t := Flushing(i + 1, bound)])
      else RemoveEntry(s, t, s.sas[i], s.entries[s.sas[i]].(awaitsDeletion := true), Some(bound))
    case Resume(t, wake) =>
      (match s.threads[t]
       case Waiting(e, brief, _) =>
         WaitForEntry(s, t, e, s.entries[e].(waitingThreads := s.entries[e].waitingThreads - 1), brief, wake)
       case Removing(e, UntilUnlocked, flush, _) => RemoveEntry(s, t, e, s.entries[e], flush)
       case Removing(e, UntilDrained, flush, _) => DrainEntry(s, t, e, s.entries[e], flush))
    case WakeSpuriously(t) => s.(threads := Wake(s.threads, {t}))
  }

  predicate Init(s: State) {
    s.sas == [] && s.entries == map[] && forall t | t in s.threads :: s.threads[t].Idle?
  }

  predicate Step(s: State, a: Action, s': State) { Enabled(s, a) && s' == Apply(s, a) }

  predicate Run(states: seq<State>, actions: seq<Action>) {
    && |states| == |actions| + 1
    && Init(states[0])
    && forall i | 0 <= i < |actions| :: Step(states[i], actions[i], states[i + 1])
  }

  // ---------------------------------------------------------- the invariant

  /** The threads that are busy with one entry, by what they do. */
  datatype Crowd = Crowd(
    holders: set<Thread>, waiters: set<Thread>, removers: set<Thread>, draining: set<Thread>,
    blocked: set<Thread>, woken: set<Thread>)

  function CrowdAt(ts: Threads, e: EntryId): Crowd {
    Crowd(
      (set t | t in ts && ts[t].Holding? && ts[t].entry == e),
      (set t | t in ts && ts[t].Waiting? && ts[t].entry == e),
      (set t | t in ts && ts[t].Removing? && ts[t].entry == e),
      (set t | t in ts && ts[t].Removing? && ts[t].entry == e && ts[t].phase.UntilDrained?),
      Blocked(ts, e),
      (set t | t in ts && Parked(ts[t]) && ts[t].entry == e && ts[t].woken))
  }

  /** Who may be at an entry at all. */
  ghost predicate RolesOk(n: Entry, c: Crowd) {
    // locked exactly when one thread has the SA
    && |c.holders| == (if n.locked then 1 else 0)
    // waiting_threads counts the threads inside wait_for_entry
    && |c.waiters| == n.waitingThreads
    // one remover, from the moment the entry is claimed
    && |c.removers| == (if n.awaitsDeletion then 1 else 0)
    // a remover that drains the waiters does so on an unlocked entry
    && c.draining <= c.removers && (n.locked ==> c.draining == {})
  }

  /** Who is parked on its condition variable. */
  ghost predicate ParkingOk(n: Entry, c: Crowd) {
    && c.blocked + c.woken == c.waiters + c.removers
    // no lost wake-up
    && (!n.locked && c.blocked != {} ==> c.woken != {})
  }

  /** What holds of one entry and the threads around it between any two steps. */
  ghost predicate EntryOk(n: Entry, c: Crowd) { RolesOk(n, c) && ParkingOk(n, c) }

  /** The entries a flush has left behind it are new or claimed by somebody else. */
  ghost predicate Passed(s: State, sas: seq<EntryId>, bound: EntryId) {
    forall x | x in sas :: x in s.entries && (x >= bound || s.entries[x].awaitsDeletion)
  }

  ghost predicate ThreadOk(s: State, pc: Pc) {
    match pc
    case Idle => true
    case Holding(e) => e in s.entries
    case Waiting(e, _, _) => e in s.entries
    case Removing(e, _, flush, _) =>
      e in s.entries && (flush.Some? ==> flush.value <= s.nextId && Passed(s, Before(s.sas, e), flush.value))
    case Flushing(i, bound) =>
      i <= |s.sas| && bound <= s.nextId && Passed(s, s.sas[..i], bound)
  }

  ghost predicate Distinct(sas: seq<EntryId>) {
    sas == [] || (sas[0] !in sas[1..] && Distinct(sas[1..]))
  }

  ghost predicate ListOk(s: State) {
    && Distinct(s.sas)
    && (forall e :: e in s.entries <==> e in s.sas)
    && (forall e | e in s.entries :: e < s.nextId)
  }

  ghost predicate OneMutexOwner(s: State) {
    forall t, u | t in s.threads && u in s.threads && s.threads[t].Flushing? && s.threads[u].Flushing? :: t == u
  }

  ghost predicate Inv(s: State) {
    && ListOk(s)
    && OneMutexOwner(s)
    && EntriesOk(s)
    && ThreadsOk(s)
  }

  // ------------------------------------------------- one step around one entry

  function Put(s: set<Thread>, t: Thread, member: bool): set<Thread> { if member then s + {t} else s - {t} }

  function Move(c: Crowd, t: Thread, pc: Pc, e: EntryId): Crowd {
    var here := At(pc, e);
    Crowd(
      Put(c.holders, t, here && pc.Holding?),
      Put(c.waiters, t, here && pc.Waiting?),
      Put(c.removers, t, here && pc.Removing?),
      Put(c.draining, t, here && pc.Removing? && pc.phase.UntilDrained?),
      Put(c.blocked, t, here && Parked(pc) && !pc.woken),
      Put(c.woken, t, here && Parked(pc) && pc.woken))
  }

  function Rouse(c: Crowd, ws: set<Thread>): Crowd {
    c.(blocked := c.blocked - ws, woken := c.woken + c.blocked * ws)
  }

  lemma CrowdWakes(ts: Threads, ws: set<Thread>, e: EntryId)
    ensures CrowdAt(Wake(ts, ws), e) == Rouse(CrowdAt(ts, e), ws)
  {
  }

  lemma CrowdMoves(ts: Threads, t: Thread, pc: Pc, e: EntryId, ws: set<Thread>)
    requires t in ts
    ensures CrowdAt(Wake(ts[t := pc], ws), e) == Rouse(Move(CrowdAt(ts, e), t, pc, e), ws)
  {
    var ts1 := ts[t := pc];
    assert CrowdAt(ts1, e) == Move(CrowdAt(ts, e), t, pc, e);
    CrowdWakes(ts1, ws, e);
  }

  lemma Count(s: set<Thread>, t: Thread, member: bool)
    ensures |Put(s, t, member)| == |s| - Bit(t in s) + Bit(member)
  {
  }

  function Bit(b: bool): int { if b then 1 else 0 }

  lemma RolesMove(n: Entry, n': Entry, c: Crowd, t: Thread, pc: Pc, e: EntryId, ws: set<Thread>)
    requires RolesOk(n, c) && OnlyAt(pc, e)
    requires Bit(n'.locked) == Bit(n.locked) - Bit(t in c.holders) + Bit(pc.Holding?)
    requires n'.waitingThreads == n.waitingThreads - Bit(t in c.waiters) + Bit(pc.Waiting?)
    requires Bit(n'.awaitsDeletion) == Bit(n.awaitsDeletion) - Bit(t in c.removers) + Bit(pc.Removing?)
    requires n'.locked ==> c.draining <= {t} && (pc.Removing? ==> pc.phase.UntilUnlocked?)
    ensures RolesOk(n', Rouse(Move(c, t, pc, e), ws))
  {
    Count(c.holders, t, pc.Holding?);
    Count(c.waiters, t, pc.Waiting?);
    Count(c.removers, t, pc.Removing?);
  }

  lemma ParkingMove(n: Entry, n': Entry, c: Crowd, t: Thread, pc: Pc, e: EntryId, ws: set<Thread>)
    requires ParkingOk(n, c) && OnlyAt(pc, e)
    requires var c' := Rouse(Move(c, t, pc, e), ws);
      n'.locked || c'.blocked == {} || c'.woken != {}
    ensures ParkingOk(n', Rouse(Move(c, t, pc, e), ws))
  {
  }

  // ------------------------------------------------------- one step of the whole

  /** Threads at other entries do not notice. */
  lemma OtherEntry(ts: Threads, t: Thread, pc: Pc, e: EntryId, ws: set<Thread>, x: EntryId)
    requires t in ts && OnlyAt(ts[t], e) && OnlyAt(pc, e) && ws <= Blocked(ts, e) && x != e
    ensures CrowdAt(Wake(ts[t := pc], ws), x) == CrowdAt(ts, x)
  {
  }

  ghost predicate EntriesOk(s: State) { forall e | e in s.entries :: EntryOk(s.entries[e], CrowdAt(s.threads, e)) }

  ghost predicate ThreadsOk(s: State) { forall t | t in s.threads :: ThreadOk(s, s.threads[t]) }

  lemma TouchEntry(s: State, t: Thread, pc: Pc, e: EntryId, n: Entry, ws: set<Thread>, x: EntryId)
    requires t in s.threads && OnlyAt(s.threads[t], e) && OnlyAt(pc, e) && ws <= Blocked(s.threads, e)
    requires x in s.entries
    requires if x == e then EntryOk(n, Rouse(Move(CrowdAt(s.threads, e), t, pc, e), ws))
             else EntryOk(s.entries[x], CrowdAt(s.threads, x))
    ensures var s' := Touch(s, t, pc, e, n, ws); EntryOk(s'.entries[x], CrowdAt(s'.threads, x))
  {
    if x == e {
      CrowdMoves(s.threads, t, pc, e, ws);
    } else {
      OtherEntry(s.threads, t, pc, e, ws, x);
    }
  }

  lemma TouchEntries(s: State, t: Thread, pc: Pc, e: EntryId, n: Entry, ws: set<Thread>)
    requires EntriesOk(s) && e in s.entries
    requires t in s.threads && OnlyAt(s.threads[t], e) && OnlyAt(pc, e) && ws <= Blocked(s.threads, e)
    requires EntryOk(n, Rouse(Move(CrowdAt(s.threads, e), t, pc, e), ws))
    ensures EntriesOk(Touch(s, t, pc, e, n, ws))
  {
    forall x | x in s.entries { TouchEntry(s, t, pc, e, n, ws, x); }
  }

  lemma TouchThreads(s: State, t: Thread, pc: Pc, e: EntryId, n: Entry, ws: set<Thread>)
    requires ListOk(s) && OneMutexOwner(s) && ThreadsOk(s) && e in s.entries && t in s.threads
    requires s.entries[e].awaitsDeletion ==> n.awaitsDeletion
    requires !pc.Flushing? && ThreadOk(s, pc)
    ensures var s' := Touch(s, t, pc, e, n, ws); ListOk(s') && OneMutexOwner(s') && ThreadsOk(s')
  {
    hide Distinct;
    var s' := Touch(s, t, pc, e, n, ws);
    forall u | u in s'.threads ensures ThreadOk(s', s'.threads[u]) {
      TouchThread(s, s', if u == t then pc else s.threads[u], s'.threads[u]);
    }
  }

  /** A thread stays well placed while no entry goes away or is unmarked; being woken does not matter. */
  lemma TouchThread(s: State, s': State, pc: Pc, pc': Pc)
    requires s'.sas == s.sas && s'.nextId == s.nextId && s'.entries.Keys == s.entries.Keys
    requires forall x | x in s.entries :: s.entries[x].awaitsDeletion ==> s'.entries[x].awaitsDeletion
    requires pc' == pc || (Parked(pc) && pc' == pc.(woken := true))
    requires ThreadOk(s, pc)
    ensures ThreadOk(s', pc')
  {
    hide Before;
  }

  lemma WithoutList(sas: seq<EntryId>, e: EntryId)
    requires Distinct(sas) && e in sas
    ensures var r := Without(sas, e);
      && Distinct(r) && (forall x :: x in r <==> x in sas && x != e)
      && |Before(sas, e)| <= |r| && r[..|Before(sas, e)|] == Before(sas, e)
  {
    if sas[0] != e {
      WithoutList(sas[1..], e);
      var r := Without(sas[1..], e);
      assert ([sas[0]] + r)[1..] == r;
    }
  }

  lemma BeforeIn(sas: seq<EntryId>, e: EntryId)
    ensures forall x | x in Before(sas, e) :: x in sas
  {
  }

  lemma BeforeWithout(sas: seq<EntryId>, e: EntryId, d: EntryId)
    requires d != e
    ensures forall x | x in Before(Without(sas, d), e) :: x in Before(sas, e) && x in Without(sas, d)
  {
    if sas != [] && sas[0] != e {
      var r := Without(sas[1..], d);
      assert ([sas[0]] + r)[1..] == r;
      BeforeWithout(sas[1..], e, d);
      BeforeIn(sas[1..], e);
    }
  }

  /** An entry may go once nobody but its remover is left. */
  ghost predicate Deserted(c: Crowd, t: Thread) {
    c.holders == {} && c.waiters == {} && c.removers <= {t}
  }

  lemma DestroyEntry(s: State, t: Thread, e: EntryId, pc: Pc, x: EntryId)
    requires t in s.threads && OnlyAt(s.threads[t], e) && (pc.Idle? || pc.Flushing?)
    requires x in s.entries && x != e
    ensures CrowdAt(s.threads[t := pc], x) == CrowdAt(s.threads, x)
  {
  }

  lemma DestroyPassed(s: State, t: Thread, e: EntryId, flush: Option<EntryId>, list: seq<EntryId>, bound: EntryId)
    requires Passed(s, list, bound) && e !in list
    ensures Passed(Destroy(s, t, e, flush), list, bound)
  {
  }

  /** Nobody is left pointing at the destroyed entry. */
  lemma DestroyOther(s: State, t: Thread, e: EntryId, flush: Option<EntryId>, u: Thread)
    requires ListOk(s) && e in s.entries && u in s.threads && u != t
    requires Deserted(CrowdAt(s.threads, e), t)
    requires ThreadOk(s, s.threads[u]) && !s.threads[u].Flushing?
    ensures ThreadOk(Destroy(s, t, e, flush), s.threads[u])
  {
    var c := CrowdAt(s.threads, e);
    assert u !in c.holders && u !in c.waiters && u !in c.removers;
    var pc := s.threads[u];
    if pc.Removing? && pc.flush.Some? {
      WithoutList(s.sas, e);
      BeforeWithout(s.sas, pc.entry, e);
      DestroyPassed(s, t, e, flush, Before(Without(s.sas, e), pc.entry), pc.flush.value);
    }
  }

  lemma DestroySelf(s: State, t: Thread, e: EntryId, flush: Option<EntryId>)
    requires ListOk(s) && e in s.entries
    requires flush.Some? ==> flush.value <= s.nextId && Passed(s, Before(s.sas, e), flush.value)
    ensures var s' := Destroy(s, t, e, flush); ThreadOk(s', s'.threads[t])
  {
    if flush.Some? {
      WithoutList(s.sas, e);
      assert e !in Without(s.sas, e)[..|Before(s.sas, e)|];
      DestroyPassed(s, t, e, flush, Before(s.sas, e), flush.value);
    }
  }

  lemma DestroyThreads(s: State, t: Thread, e: EntryId, flush: Option<EntryId>)
    requires ListOk(s) && ThreadsOk(s) && e in s.entries && t in s.threads
    requires forall u | u in s.threads && u != t :: !s.threads[u].Flushing?
    requires Deserted(CrowdAt(s.threads, e), t)
    requires flush.Some? ==> flush.value <= s.nextId && Passed(s, Before(s.sas, e), flush.value)
    ensures ThreadsOk(Destroy(s, t, e, flush))
  {
    forall u | u in s.threads && u != t { DestroyOther(s, t, e, flush, u); }
    DestroySelf(s, t, e, flush);
  }

  lemma DestroyKeeps(s: State, t: Thread, e: EntryId, flush: Option<EntryId>)
    requires Inv(s) && e in s.entries && t in s.threads && OnlyAt(s.threads[t], e)
    requires forall u | u in s.threads && u != t :: !s.threads[u].Flushing?
    requires Deserted(CrowdAt(s.threads, e), t)
    requires flush.Some? ==> flush.value <= s.nextId && Passed(s, Before(s.sas, e), flush.value)
    ensures Inv(Destroy(s, t, e, flush))
  {
    var s' := Destroy(s, t, e, flush);
    WithoutList(s.sas, e);
    DestroyThreads(s, t, e, flush);
    forall x | x in s'.entries ensures CrowdAt(s'.threads, x) == CrowdAt(s.threads, x) {
      DestroyEntry(s, t, e, s'.threads[t], x);
    }
  }

  lemma TouchKeeps(s: State, t: Thread, pc: Pc, e: EntryId, n: Entry, ws: set<Thread>)
    requires Inv(s) && e in s.entries && t in s.threads && OnlyAt(s.threads[t], e) && OnlyAt(pc, e)
    requires ws <= Blocked(s.threads, e)
    requires EntryOk(n, Rouse(Move(CrowdAt(s.threads, e), t, pc, e), ws))
    requires s.entries[e].awaitsDeletion ==> n.awaitsDeletion
    requires !pc.Flushing? && ThreadOk(s, pc)
    ensures Inv(Touch(s, t, pc, e, n, ws))
  {
    TouchEntries(s, t, pc, e, n, ws);
    TouchThreads(s, t, pc, e, n, ws);
  }

  // -------------------------------------------------------------- every action

  ghost predicate SignalOk(c: Crowd, ws: set<Thread>) {
    if c.blocked == {} then ws == {} else ws <= c.blocked && ws != {}
  }

  /** Where thread t stands at an entry. */
  ghost predicate Stands(c: Crowd, t: Thread, pc: Pc, e: EntryId) {
    && (t in c.holders <==> At(pc, e) && pc.Holding?)
    && (t in c.waiters <==> At(pc, e) && pc.Waiting?)
    && (t in c.removers <==> At(pc, e) && pc.Removing?)
    && (t in c.blocked <==> At(pc, e) && Parked(pc) && !pc.woken)
  }

  lemma StandsThere(ts: Threads, t: Thread, e: EntryId)
    requires t in ts
    ensures Stands(CrowdAt(ts, e), t, ts[t], e)
  {
  }

  lemma LeaveCrowd(n: Entry, n': Entry, c: Crowd, t: Thread, pc: Pc, e: EntryId, ws: set<Thread>)
    requires EntryOk(n, c) && Stands(c, t, pc, e) && OnlyAt(pc, e) && SignalOk(c, ws)
    requires !pc.Removing? && (pc.Waiting? ==> pc.woken)
    requires n' == Entry(n.locked && !pc.Holding?, n.awaitsDeletion, n.waitingThreads - Bit(pc.Waiting?))
    ensures EntryOk(n', Rouse(Move(c, t, Idle, e), ws))
  {
    RolesMove(n, n', c, t, Idle, e, ws);
    hide RolesOk, Move, Rouse;
    LeaveWakes(c, t, e, ws);
    ParkingMove(n, n', c, t, Idle, e, ws);
  }

  /** Whoever leaves with a signal leaves nobody asleep without another one awake. */
  lemma LeaveWakes(c: Crowd, t: Thread, e: EntryId, ws: set<Thread>)
    requires SignalOk(c, ws) && t !in c.blocked
    ensures var c' := Rouse(Move(c, t, Idle, e), ws); c'.blocked == {} || c'.woken != {}
  {
    if c.blocked != {} {
      var w :| w in ws;
      assert w in Rouse(Move(c, t, Idle, e), ws).woken;
    }
  }

  /** Leaving an entry with a signal, by checkin or from wait_for_entry. */
  lemma LeaveKeeps(s: State, t: Thread, e: EntryId, n: Entry, wake: set<Thread>)
    requires Inv(s) && e in s.entries && t in s.threads && OnlyAt(s.threads[t], e)
    requires !s.threads[t].Removing? && (s.threads[t].Waiting? ==> s.threads[t].woken)
    requires SignalOk(CrowdAt(s.threads, e), wake) && wake <= Blocked(s.threads, e)
    requires n == Entry(s.entries[e].locked && !s.threads[t].Holding?, s.entries[e].awaitsDeletion,
                        s.entries[e].waitingThreads - Bit(s.threads[t].Waiting?))
    ensures Inv(Touch(s, t, Idle, e, n, wake))
  {
    hide EntryOk, Move, Rouse, CrowdAt, ListOk, ThreadsOk;
    StandsThere(s.threads, t, e);
    LeaveCrowd(s.entries[e], n, CrowdAt(s.threads, e), t, s.threads[t], e, wake);
    TouchKeeps(s, t, Idle, e, n, wake);
  }

  lemma ParkCrowd(n: Entry, n': Entry, c: Crowd, t: Thread, pc: Pc, e: EntryId, pc': Pc)
    requires EntryOk(n, c) && Stands(c, t, pc, e) && OnlyAt(pc, e)
    requires n.locked && !n.awaitsDeletion && (pc.Idle? || pc.Waiting?)
    requires n' == n.(waitingThreads := n.waitingThreads - Bit(pc.Waiting?) + 1) && pc'.Waiting? && pc'.entry == e
    ensures EntryOk(n', Rouse(Move(c, t, pc', e), {}))
  {
    RolesMove(n, n', c, t, pc', e, {});
    ParkingMove(n, n', c, t, pc', e, {});
  }

  lemma LockCrowd(n: Entry, n': Entry, c: Crowd, t: Thread, pc: Pc, e: EntryId)
    requires EntryOk(n, c) && Stands(c, t, pc, e) && OnlyAt(pc, e)
    requires !n.locked && !n.awaitsDeletion && (pc.Idle? || pc.Waiting?)
    requires n' == Entry(true, false, n.waitingThreads - Bit(pc.Waiting?))
    ensures EntryOk(n', Rouse(Move(c, t, Holding(e), e), {}))
  {
    RolesMove(n, n', c, t, Holding(e), e, {});
    ParkingMove(n, n', c, t, Holding(e), e, {});
  }

  /** A thread may work on removing an entry if it claims it just now or is its remover. */
  ghost predicate MayRemove(n: Entry, pc: Pc, e: EntryId) {
    if pc.Removing? then pc.woken && pc.entry == e else (pc.Idle? || pc.Flushing?) && !n.awaitsDeletion
  }

  lemma ClaimCrowd(n: Entry, c: Crowd, t: Thread, pc: Pc, e: EntryId, flush: Option<EntryId>)
    requires EntryOk(n, c) && Stands(c, t, pc, e) && MayRemove(n, pc, e) && n.locked
    ensures EntryOk(n.(awaitsDeletion := true), Rouse(Move(c, t, Removing(e, UntilUnlocked, flush, false), e), {}))
  {
    var n', pc' := n.(awaitsDeletion := true), Removing(e, UntilUnlocked, flush, false);
    RolesMove(n, n', c, t, pc', e, {});
    ParkingMove(n, n', c, t, pc', e, {});
  }

  lemma DrainCrowd(n: Entry, c: Crowd, t: Thread, pc: Pc, e: EntryId, flush: Option<EntryId>)
    requires EntryOk(n, c) && Stands(c, t, pc, e) && MayRemove(n, pc, e) && !n.locked && n.waitingThreads > 0
    ensures EntryOk(n.(awaitsDeletion := true),
                    Rouse(Move(c, t, Removing(e, UntilDrained, flush, false), e), c.blocked))
  {
    var n', pc' := n.(awaitsDeletion := true), Removing(e, UntilDrained, flush, false);
    RolesMove(n, n', c, t, pc', e, c.blocked);
    var w :| w in c.waiters && w != t;
    hide RolesOk;
    RousesAll(c, t, pc', e, w);
    ParkingMove(n, n', c, t, pc', e, c.blocked);
  }

  /** A broadcast leaves any other parked thread awake. */
  lemma RousesAll(c: Crowd, t: Thread, pc: Pc, e: EntryId, w: Thread)
    requires w != t && w in c.blocked + c.woken
    ensures w in Rouse(Move(c, t, pc, e), c.blocked).woken
  {
  }

  lemma DesertedCrowd(n: Entry, c: Crowd, t: Thread, pc: Pc, e: EntryId)
    requires EntryOk(n, c) && Stands(c, t, pc, e) && MayRemove(n, pc, e) && !n.locked && n.waitingThreads <= 0
    ensures Deserted(c, t)
  {
    Count(c.removers, t, false);
  }

  lemma ParkKeeps(s: State, t: Thread, e: EntryId, n: Entry, brief: bool)
    requires Inv(s) && e in s.entries && t in s.threads && OnlyAt(s.threads[t], e)
    requires s.threads[t].Idle? || s.threads[t].Waiting?
    requires s.entries[e].locked && !s.entries[e].awaitsDeletion
    requires n == s.entries[e].(waitingThreads := s.entries[e].waitingThreads - Bit(s.threads[t].Waiting?) + 1)
    ensures Inv(Touch(s, t, Waiting(e, brief, false), e, n, {}))
  {
    hide EntryOk, Move, Rouse, CrowdAt, ListOk, ThreadsOk;
    StandsThere(s.threads, t, e);
    ParkCrowd(s.entries[e], n, CrowdAt(s.threads, e), t, s.threads[t], e, Waiting(e, brief, false));
    TouchKeeps(s, t, Waiting(e, brief, false), e, n, {});
  }

  lemma LockKeeps(s: State, t: Thread, e: EntryId, n: Entry)
    requires Inv(s) && e in s.entries && t in s.threads && OnlyAt(s.threads[t], e)
    requires s.threads[t].Idle? || s.threads[t].Waiting?
    requires !s.entries[e].locked && !s.entries[e].awaitsDeletion
    requires n == Entry(true, false, s.entries[e].waitingThreads - Bit(s.threads[t].Waiting?))
    ensures Inv(Touch(s, t, Holding(e), e, n, {}))
  {
    hide EntryOk, Move, Rouse, CrowdAt, ListOk, ThreadsOk;
    StandsThere(s.threads, t, e);
    LockCrowd(s.entries[e], n, CrowdAt(s.threads, e), t, s.threads[t], e);
    TouchKeeps(s, t, Holding(e), e, n, {});
  }

  lemma WaitForEntryKeeps(s: State, t: Thread, e: EntryId, n: Entry, brief: bool, wake: set<Thread>)
    requires Inv(s) && e in s.entries && t in s.threads && OnlyAt(s.threads[t], e)
    requires s.threads[t].Idle? || (s.threads[t].Waiting? && s.threads[t].woken)
    requires SignalOk(CrowdAt(s.threads, e), wake)
    requires n == s.entries[e].(waitingThreads := s.entries[e].waitingThreads - Bit(s.threads[t].Waiting?))
    ensures Inv(WaitForEntry(s, t, e, n, brief, wake))
  {
    if n.locked && !n.awaitsDeletion {
      ParkKeeps(s, t, e, n.(waitingThreads := n.waitingThreads + 1), brief);
    } else if n.awaitsDeletion || brief {
      LeaveKeeps(s, t, e, n, wake);
    } else {
      LockKeeps(s, t, e, n.(locked := true));
    }
  }

  ghost predicate FlushOk(s: State, e: EntryId, flush: Option<EntryId>) {
    flush.Some? ==> flush.value <= s.nextId && Passed(s, Before(s.sas, e), flush.value)
  }

  lemma DrainEntryKeeps(s: State, t: Thread, e: EntryId, n: Entry, flush: Option<EntryId>)
    requires Inv(s) && e in s.entries && t in s.threads && MayRemove(s.entries[e], s.threads[t], e)
    requires forall u | u in s.threads && u != t :: !s.threads[u].Flushing?
    requires n == s.entries[e].(awaitsDeletion := true) && !n.locked && FlushOk(s, e, flush)
    ensures Inv(DrainEntry(s, t, e, n, flush))
  {
    var n0, c, pc := s.entries[e], CrowdAt(s.threads, e), s.threads[t];
    StandsThere(s.threads, t, e);
    if n.waitingThreads > 0 {
      DrainCrowd(n0, c, t, pc, e, flush);
      TouchKeeps(s, t, Removing(e, UntilDrained, flush, false), e, n, c.blocked);
    } else {
      DesertedCrowd(n0, c, t, pc, e);
      DestroyKeeps(s, t, e, flush);
    }
  }

  lemma RemoveEntryKeeps(s: State, t: Thread, e: EntryId, n: Entry, flush: Option<EntryId>)
    requires Inv(s) && e in s.entries && t in s.threads && MayRemove(s.entries[e], s.threads[t], e)
    requires forall u | u in s.threads && u != t :: !s.threads[u].Flushing?
    requires n == s.entries[e].(awaitsDeletion := true) && FlushOk(s, e, flush)
    ensures Inv(RemoveEntry(s, t, e, n, flush))
  {
    if n.locked {
      StandsThere(s.threads, t, e);
      ClaimCrowd(s.entries[e], CrowdAt(s.threads, e), t, s.threads[t], e, flush);
      TouchKeeps(s, t, Removing(e, UntilUnlocked, flush, false), e, n, {});
    } else {
      DrainEntryKeeps(s, t, e, n, flush);
    }
  }

  lemma ChoiceOk(ts: Threads, e: EntryId, wake: set<Thread>)
    requires SignalChoice(ts, e, wake)
    ensures SignalOk(CrowdAt(ts, e), wake) && wake <= Blocked(ts, e)
  {
  }

  /** A thread that only moves between idle and flushing is no entry's business. */
  lemma BystanderKeeps(s: State, t: Thread, pc: Pc)
    requires Inv(s) && t in s.threads
    requires (s.threads[t].Idle? || s.threads[t].Flushing?) && (pc.Idle? || pc.Flushing?) && ThreadOk(s, pc)
    requires pc.Flushing? ==> forall u | u in s.threads && u != t :: !s.threads[u].Flushing?
    ensures Inv(s.(threads := s.threads[t := pc]))
  {
    hide EntryOk, CrowdAt, Distinct, ThreadOk;
    var s' := s.(threads := s.threads[t := pc]);
    forall e | e in s.entries ensures CrowdAt(s'.threads, e) == CrowdAt(s.threads, e) {
      CrowdWithout(s.threads, t, pc, e);
    }
    forall u | u in s'.threads ensures ThreadOk(s', s'.threads[u]) {
      TouchThread(s, s', if u == t then pc else s.threads[u], s'.threads[u]);
    }
  }

  lemma CrowdWithout(ts: Threads, t: Thread, pc: Pc, e: EntryId)
    requires t in ts && (ts[t].Idle? || ts[t].Flushing?) && (pc.Idle? || pc.Flushing?)
    ensures CrowdAt(ts[t := pc], e) == CrowdAt(ts, e)
  {
  }

  lemma RouseOk(n: Entry, c: Crowd, ws: set<Thread>)
    requires EntryOk(n, c)
    ensures EntryOk(n, Rouse(c, ws))
  {
    assert c.blocked + c.woken == Rouse(c, ws).blocked + Rouse(c, ws).woken;
  }

  lemma SpuriousKeeps(s: State, t: Thread)
    requires Inv(s) && t in s.threads && Parked(s.threads[t])
    ensures Inv(s.(threads := Wake(s.threads, {t})))
  {
    hide EntryOk, CrowdAt;
    var s' := s.(threads := Wake(s.threads, {t}));
    forall e | e in s.entries ensures EntryOk(s'.entries[e], CrowdAt(s'.threads, e)) {
      CrowdWakes(s.threads, {t}, e);
      RouseOk(s.entries[e], CrowdAt(s.threads, e), {t});
    }
    forall u | u in s'.threads ensures ThreadOk(s', s'.threads[u]) {
      assert ThreadOk(s, s.threads[u]);
    }
  }

  lemma AddThread(s: State, u: Thread)
    requires ListOk(s) && u in s.threads && ThreadOk(s, s.threads[u]) && !s.threads[u].Flushing?
    ensures MutexFree(s) ==> ThreadOk(Apply(s, Add), s.threads[u])
  {
    var pc := s.threads[u];
    var sas' := [s.nextId] + s.sas;
    assert sas'[1..] == s.sas;
    if pc.Removing? {
      assert Before(sas', pc.entry) == [s.nextId] + Before(s.sas, pc.entry);
    }
  }

  lemma NobodyAtNew(s: State)
    requires ListOk(s) && ThreadsOk(s)
    ensures CrowdAt(s.threads, s.nextId) == Crowd({}, {}, {}, {}, {}, {})
  {
    forall u | u in s.threads ensures !At(s.threads[u], s.nextId) { assert ThreadOk(s, s.threads[u]); }
  }

  lemma AddEntries(s: State)
    requires ListOk(s) && ThreadsOk(s) && EntriesOk(s) && MutexFree(s)
    ensures EntriesOk(Apply(s, Add))
  {
    NobodyAtNew(s);
    hide CrowdAt, ListOk, ThreadsOk;
    var s' := Apply(s, Add);
    forall e | e in s'.entries ensures EntryOk(s'.entries[e], CrowdAt(s'.threads, e)) {
      if e != s.nextId {
        hide EntryOk;
        assert EntryOk(s.entries[e], CrowdAt(s.threads, e));
      }
    }
  }

  lemma AddKeeps(s: State)
    requires Inv(s) && MutexFree(s)
    ensures Inv(Apply(s, Add))
  {
    hide EntriesOk;
    AddEntries(s);
    var s' := Apply(s, Add);
    assert s'.sas[1..] == s.sas;
    forall u | u in s.threads { AddThread(s, u); }
  }

  lemma BeforeAt(sas: seq<EntryId>, i: nat)
    requires Distinct(sas) && i < |sas|
    ensures Before(sas, sas[i]) == sas[..i]
  {
    if i > 0 {
      BeforeAt(sas[1..], i - 1);
      assert sas[1..][i - 1] == sas[i] && sas[..i] == [sas[0]] + sas[1..][..i - 1];
    }
  }

  lemma FlushKeeps(s: State, t: Thread)
    requires Inv(s) && Enabled(s, FlushNext(t))
    ensures Inv(Apply(s, FlushNext(t)))
  {
    hide EntriesOk;
    var Flushing(i, bound) := s.threads[t];
    assert ThreadOk(s, s.threads[t]);
    if i >= |s.sas| {
      BystanderKeeps(s, t, Idle);
    } else if s.entries[s.sas[i]].awaitsDeletion {
      assert s.sas[..i + 1] == s.sas[..i] + [s.sas[i]];
      BystanderKeeps(s, t, Flushing(i + 1, bound));
    } else {
      BeforeAt(s.sas, i);
      RemoveEntryKeeps(s, t, s.sas[i], s.entries[s.sas[i]].(awaitsDeletion := true), Some(bound));
    }
  }

  /** Every step of every thread keeps the invariant. */
  lemma StepKeeps(s: State, a: Action)
    requires Inv(s) && Enabled(s, a)
    ensures Inv(Apply(s, a))
  {
    hide Inv;
    match a
    case Add => AddKeeps(s);
    case Checkout(t, e, brief, wake) =>
      ChoiceOk(s.threads, e, wake);
      WaitForEntryKeeps(s, t, e, s.entries[e], brief, wake);
    case Checkin(t, wake) =>
      var e := s.threads[t].entry;
      ChoiceOk(s.threads, e, wake);
      LeaveKeeps(s, t, e, s.entries[e].(locked := false), wake);
    case Remove(t, e) =>
      if !s.entries[e].awaitsDeletion {
        RemoveEntryKeeps(s, t, e, s.entries[e].(awaitsDeletion := true), None);
      }
    case StartFlush(t) => BystanderKeeps(s, t, Flushing(0, s.nextId));
    case FlushNext(t) => FlushKeeps(s, t);
    case Resume(t, wake) => ResumeKeeps(s, t, wake);
    case WakeSpuriously(t) => SpuriousKeeps(s, t);
  }

  /** What the invariant says of a thread that is about to continue. */
  lemma ParkedFacts(s: State, t: Thread)
    requires Inv(s) && t in s.threads && Parked(s.threads[t])
    ensures var e := s.threads[t].entry;
      && e in s.entries
      && (s.threads[t].Removing? ==> s.entries[e].awaitsDeletion && FlushOk(s, e, s.threads[t].flush))
      && (s.threads[t].Removing? && s.threads[t].phase.UntilDrained? ==> !s.entries[e].locked)
  {
    var e := s.threads[t].entry;
    assert ThreadOk(s, s.threads[t]);
    var c := CrowdAt(s.threads, e);
    assert EntryOk(s.entries[e], c);
    assert s.threads[t].Removing? ==> t in c.removers;
    assert s.threads[t].Removing? && s.threads[t].phase.UntilDrained? ==> t in c.draining;
  }

  lemma ResumeKeeps(s: State, t: Thread, wake: set<Thread>)
    requires Inv(s) && Enabled(s, Resume(t, wake))
    ensures Inv(Apply(s, Resume(t, wake)))
  {
    hide Inv, CrowdAt, SignalOk, WaitForEntry, RemoveEntry, DrainEntry;
    ParkedFacts(s, t);
    var e := s.threads[t].entry;
    ChoiceOk(s.threads, e, wake);
    var n := s.entries[e];
    match s.threads[t]
    case Waiting(_, brief, _) =>
      WaitForEntryKeeps(s, t, e, n.(waitingThreads := n.waitingThreads - 1), brief, wake);
    case Removing(_, UntilUnlocked, flush, _) =>
      assert n == n.(awaitsDeletion := true);
      RemoveEntryKeeps(s, t, e, n, flush);
    case Removing(_, UntilDrained, flush, _) =>
      assert n == n.(awaitsDeletion := true);
      DrainEntryKeeps(s, t, e, n, flush);
  }

  // ------------------------------------------------------- safety over whole runs

  lemma {:induction false} RunKeeps(states: seq<State>, actions: seq<Action>, i: nat)
    requires Run(states, actions) && i < |states|
    ensures Inv(states[i])
  {
    if i == 0 {
      hide EntryOk;
    } else {
      RunKeeps(states, actions, i - 1);
      assert Step(states[i - 1], actions[i - 1], states[i]);
      hide Inv;
      StepKeeps(states[i - 1], actions[i - 1]);
    }
  }

  /** The guarantees a user of the manager sees at one entry. */
  ghost predicate SafeEntry(n: Entry, ts: Threads, e: EntryId) {
    // an SA is locked exactly while some thread has it checked out
    && (n.locked <==> exists t | t in ts :: ts[t] == Holding(e))
    // the waiting counter is exact
    && n.waitingThreads == |set t | t in ts && ts[t].Waiting? && ts[t].entry == e|
    // an entry marked for deletion has a thread that will delete it
    && (n.awaitsDeletion <==> exists t | t in ts :: ts[t].Removing? && ts[t].entry == e)
    // no lost wake-up: while threads sleep on an unlocked entry, another one is already awake
    && (!n.locked && (exists t | t in ts :: Parked(ts[t]) && ts[t].entry == e && !ts[t].woken)
        ==> exists t | t in ts :: Parked(ts[t]) && ts[t].entry == e && ts[t].woken)
  }

  /** At most one thread has an SA, and at most one is going to delete it. */
  ghost predicate Exclusive(ts: Threads, t: Thread, u: Thread)
    requires t in ts && u in ts
  {
    && !(ts[t].Holding? && ts[u].Holding? && ts[t].entry == ts[u].entry)
    && !(ts[t].Removing? && ts[u].Removing? && ts[t].entry == ts[u].entry)
  }

  ghost predicate Safe(s: State) {
    && (forall e | e in s.entries :: SafeEntry(s.entries[e], s.threads, e))
    && (forall t, u | t in s.threads && u in s.threads && t != u :: Exclusive(s.threads, t, u))
    // no thread uses or waits for an entry that is gone
    && (forall t | t in s.threads && (s.threads[t].Holding? || Parked(s.threads[t])) :: s.threads[t].entry in s.entries)
  }

  lemma SubsetCount(a: set<Thread>, b: set<Thread>)
    requires a <= b
    ensures |a| <= |b|
  {
    assert b == a + (b - a);
  }

  lemma EntrySafe(n: Entry, ts: Threads, e: EntryId)
    requires EntryOk(n, CrowdAt(ts, e))
    ensures SafeEntry(n, ts, e)
  {
    var c := CrowdAt(ts, e);
    assert c.waiters == set t | t in ts && ts[t].Waiting? && ts[t].entry == e;
    if n.locked {
      var t :| t in c.holders;
      assert ts[t] == Holding(e);
    }
    if n.awaitsDeletion {
      var t :| t in c.removers;
    }
    if t :| t in ts && ts[t].Removing? && ts[t].entry == e { assert t in c.removers; }
    if t :| t in ts && ts[t] == Holding(e) { assert t in c.holders; }
    if t :| !n.locked && t in ts && Parked(ts[t]) && ts[t].entry == e && !ts[t].woken {
      assert t in c.blocked;
      var w :| w in c.woken;
    }
  }

  lemma OneAtMost(n: Entry, c: Crowd, t: Thread, u: Thread)
    requires RolesOk(n, c) && t != u
    ensures !(t in c.holders && u in c.holders) && !(t in c.removers && u in c.removers)
  {
    if t in c.holders && u in c.holders { SubsetCount({t, u}, c.holders); }
    if t in c.removers && u in c.removers { SubsetCount({t, u}, c.removers); }
  }

  lemma PairExclusive(s: State, t: Thread, u: Thread)
    requires Inv(s) && t in s.threads && u in s.threads && t != u
    ensures Exclusive(s.threads, t, u)
  {
    hide ListOk, RolesOk, CrowdAt;
    var pc, pc' := s.threads[t], s.threads[u];
    if (pc.Holding? || pc.Removing?) && At(pc', pc.entry) {
      var e := pc.entry;
      assert ThreadOk(s, pc);
      StandsThere(s.threads, t, e);
      StandsThere(s.threads, u, e);
      OneAtMost(s.entries[e], CrowdAt(s.threads, e), t, u);
    }
  }

  /**
   * In every state of every run, under every interleaving: the lock is exclusive,
   * the counter exact, no wake-up is lost and no thread is left with a dead entry.
   */
  lemma RunSafe(states: seq<State>, actions: seq<Action>, i: nat)
    requires Run(states, actions) && i < |states|
    ensures Safe(states[i])
  {
    RunKeeps(states, actions, i);
    var s := states[i];
    hide EntryOk, CrowdAt, SafeEntry, Exclusive, ListOk;
    forall e | e in s.entries { EntrySafe(s.entries[e], s.threads, e); }
    forall t, u | t in s.threads && u in s.threads && t != u { PairExclusive(s, t, u); }
    forall t | t in s.threads && (s.threads[t].Holding? || Parked(s.threads[t])) ensures s.threads[t].entry in s.entries {
      assert ThreadOk(s, s.threads[t]);
    }
  }

  // ------------------------------------------------------------------ destruction

  lemma DestroyedBy(s: State, a: Action, e: EntryId)
    requires Inv(s) && Enabled(s, a) && e in s.entries && e !in Apply(s, a).entries
    ensures a.Remove? || a.FlushNext? || a.Resume?
    ensures a.thread in s.threads
    ensures !s.entries[e].locked && s.entries[e].waitingThreads <= 0 && MayRemove(s.entries[e], s.threads[a.thread], e)
  {
    hide EntriesOk, ListOk, ThreadOk;
    if a.Resume? && Parked(s.threads[a.thread]) {
      ParkedFacts(s, a.thread);
    }
    hide Inv;
  }

  /** An entry goes away only by the hand of its remover, when nobody has it and nobody waits for it. */
  lemma DestroyedDeserted(s: State, a: Action, e: EntryId)
    requires Inv(s) && Enabled(s, a) && e in s.entries && e !in Apply(s, a).entries
    ensures a.Remove? || a.FlushNext? || a.Resume?
    ensures forall t | t in s.threads && At(s.threads[t], e) :: s.threads[t].Removing? && t == a.thread
  {
    hide Apply, Enabled, ListOk, ThreadOk, CrowdAt, EntryOk, MayRemove;
    DestroyedBy(s, a, e);
    StandsThere(s.threads, a.thread, e);
    DesertedCrowd(s.entries[e], CrowdAt(s.threads, e), a.thread, s.threads[a.thread], e);
    forall t | t in s.threads && At(s.threads[t], e) ensures s.threads[t].Removing? && t == a.thread {
      StandsThere(s.threads, t, e);
    }
  }

  /** Entry ids are never used twice. */
  lemma OnlyAddCreates(s: State, a: Action, e: EntryId)
    requires Enabled(s, a) && e !in s.entries && e < s.nextId
    ensures e !in Apply(s, a).entries && e < Apply(s, a).nextId
  {
    hide Wake, Before;
  }

  /**
   * Over a whole run an entry is destroyed once, for good, by the one thread that
   * is removing it, in a state where no other thread has it or waits for it.
   */
  lemma {:induction false} DestroyedOnce(states: seq<State>, actions: seq<Action>, i: nat, j: nat, e: EntryId)
    requires Run(states, actions) && i < j < |states|
    requires e in states[i].entries && e !in states[i + 1].entries
    ensures forall t | t in states[i].threads && At(states[i].threads[t], e) ::
              states[i].threads[t].Removing? && (actions[i].Remove? || actions[i].FlushNext? || actions[i].Resume?)
              && t == actions[i].thread
    ensures e !in states[j].entries && e < states[j].nextId
    decreases j
  {
    hide Inv, Apply, Enabled;
    if j == i + 1 {
      RunKeeps(states, actions, i);
      RunKeeps(states, actions, j);
      assert Step(states[i], actions[i], states[j]);
      DestroyedDeserted(states[i], actions[i], e);
      InvAt(states[i], e);
      NextIdGrows(states[i], actions[i]);
    } else {
      DestroyedOnce(states, actions, i, j - 1, e);
      assert Step(states[j - 1], actions[j - 1], states[j]);
      OnlyAddCreates(states[j - 1], actions[j - 1], e);
    }
  }

  lemma NextIdGrows(s: State, a: Action)
    requires Enabled(s, a)
    ensures s.nextId <= Apply(s, a).nextId
  {
    hide Wake, Before, Without;
  }

  // --------------------------------------------------------------------- progress

  /** The entry an action works on, if any. */
  function Focus(s: State, a: Action): Option<EntryId>
    requires Enabled(s, a)
  {
    match a
    case Add => None
    case Checkout(_, e, _, _) => Some(e)
    case Checkin(t, _) => Some(s.threads[t].entry)
    case Remove(_, e) => Some(e)
    case StartFlush(_) => None
    case FlushNext(t) => if s.threads[t].position < |s.sas| then Some(s.sas[s.threads[t].position]) else None
    case Resume(t, _) => Some(s.threads[t].entry)
    case WakeSpuriously(t) => Some(s.threads[t].entry)
  }

  lemma BystanderElsewhere(ts: Threads, t: Thread, pc: Pc, e: EntryId)
    requires t in ts && !At(ts[t], e) && !At(pc, e)
    ensures CrowdAt(ts[t := pc], e) == CrowdAt(ts, e)
  {
  }

  ghost predicate Untouched(s: State, s': State, e: EntryId)
    requires e in s.entries
  {
    e in s'.entries && s'.entries[e] == s.entries[e] && CrowdAt(s'.threads, e) == CrowdAt(s.threads, e)
  }

  lemma TouchElsewhere(s: State, t: Thread, pc: Pc, x: EntryId, n: Entry, ws: set<Thread>, e: EntryId)
    requires t in s.threads && OnlyAt(s.threads[t], x) && OnlyAt(pc, x) && ws <= Blocked(s.threads, x)
    requires e in s.entries && e != x
    ensures Untouched(s, Touch(s, t, pc, x, n, ws), e)
  {
    OtherEntry(s.threads, t, pc, x, ws, e);
  }

  lemma RemoveElsewhere(s: State, t: Thread, x: EntryId, n: Entry, flush: Option<EntryId>, e: EntryId)
    requires t in s.threads && OnlyAt(s.threads[t], x) && e in s.entries && e != x
    ensures Untouched(s, RemoveEntry(s, t, x, n, flush), e) && Untouched(s, DrainEntry(s, t, x, n, flush), e)
  {
    var s' := Destroy(s, t, x, flush);
    BystanderElsewhere(s.threads, t, s'.threads[t], e);
    hide CrowdAt;
    TouchElsewhere(s, t, Removing(x, UntilUnlocked, flush, false), x, n, {}, e);
    TouchElsewhere(s, t, Removing(x, UntilDrained, flush, false), x, n, Blocked(s.threads, x), e);
  }

  lemma WaitElsewhere(s: State, t: Thread, x: EntryId, n: Entry, brief: bool, wake: set<Thread>, e: EntryId)
    requires t in s.threads && OnlyAt(s.threads[t], x) && e in s.entries && e != x && wake <= Blocked(s.threads, x)
    ensures Untouched(s, WaitForEntry(s, t, x, n, brief, wake), e)
  {
    hide CrowdAt;
    TouchElsewhere(s, t, Waiting(x, brief, false), x, n.(waitingThreads := n.waitingThreads + 1), {}, e);
    TouchElsewhere(s, t, Idle, x, n, wake, e);
    TouchElsewhere(s, t, Holding(x), x, n.(locked := true), {}, e);
  }

  lemma Elsewhere(s: State, a: Action, e: EntryId)
    requires Enabled(s, a) && e in s.entries && e < s.nextId && Focus(s, a) != Some(e)
    ensures Untouched(s, Apply(s, a), e)
  {
    hide CrowdAt, WaitForEntry, RemoveEntry, DrainEntry, Wake;
    match a
    case Add =>
    case Checkout(t, x, brief, wake) =>
      ChoiceOk(s.threads, x, wake);
      WaitElsewhere(s, t, x, s.entries[x], brief, wake, e);
    case Checkin(t, wake) =>
      var x := s.threads[t].entry;
      ChoiceOk(s.threads, x, wake);
      TouchElsewhere(s, t, Idle, x, s.entries[x].(locked := false), wake, e);
    case Remove(t, x) => RemoveElsewhere(s, t, x, s.entries[x].(awaitsDeletion := true), None, e);
    case StartFlush(t) => BystanderElsewhere(s.threads, t, Flushing(0, s.nextId), e);
    case FlushNext(t) =>
      var Flushing(i, bound) := s.threads[t];
      BystanderElsewhere(s.threads, t, Idle, e);
      BystanderElsewhere(s.threads, t, Flushing(i + 1, bound), e);
      if i < |s.sas| {
        RemoveElsewhere(s, t, s.sas[i], s.entries[s.sas[i]].(awaitsDeletion := true), Some(bound), e);
      }
    case Resume(t, wake) =>
      var x := s.threads[t].entry;
      ChoiceOk(s.threads, x, wake);
      match s.threads[t] {
        case Waiting(_, brief, _) =>
          WaitElsewhere(s, t, x, s.entries[x].(waitingThreads := s.entries[x].waitingThreads - 1), brief, wake, e);
        case Removing(_, _, flush, _) => RemoveElsewhere(s, t, x, s.entries[x], flush, e);
      }
    case WakeSpuriously(t) =>
      CrowdWakes(s.threads, {t}, e);
      StandsThere(s.threads, t, e);
  }

  /** Marked for deletion and checked in: only its waiters and its remover are left to act. */
  ghost predicate Closing(s: State, e: EntryId) {
    e in s.entries && s.entries[e].awaitsDeletion && !s.entries[e].locked
  }

  /** Twice the waiters, and one more while the remover is awake. */
  function Left(n: Entry, c: Crowd): int { 2 * n.waitingThreads + |c.removers * c.woken| }

  function LeftAt(s: State, e: EntryId): int
    requires e in s.entries
  {
    Left(s.entries[e], CrowdAt(s.threads, e))
  }

  lemma WaiterGoes(n: Entry, c: Crowd, t: Thread, pc: Pc, e: EntryId, ws: set<Thread>)
    requires EntryOk(n, c) && Stands(c, t, pc, e) && pc.Waiting?
    ensures Left(n.(waitingThreads := n.waitingThreads - 1), Rouse(Move(c, t, Idle, e), ws)) < Left(n, c)
  {
    var c' := Rouse(Move(c, t, Idle, e), ws);
    Count(c.removers, t, false);
    SubsetCount(c'.removers * c'.woken, c'.removers);
  }

  lemma RemoverSleeps(n: Entry, c: Crowd, t: Thread, pc: Pc, e: EntryId, flush: Option<EntryId>)
    requires EntryOk(n, c) && Stands(c, t, pc, e) && pc.Removing? && pc.entry == e && pc.woken
    ensures Left(n, Rouse(Move(c, t, Removing(e, UntilDrained, flush, false), e), c.blocked)) < Left(n, c)
  {
    var c' := Rouse(Move(c, t, Removing(e, UntilDrained, flush, false), e), c.blocked);
    assert t in c.removers * c.woken;
    SubsetCount({t}, c.removers * c.woken);
    assert c.removers == {t} by {
      Count(c.removers, t, false);
    }
    assert c'.removers * c'.woken == {};
  }

  /** A new caller for the entry, or a wake-up nobody sent. */
  predicate Disturbs(s: State, a: Action, e: EntryId)
    requires Enabled(s, a)
  {
    (a.Checkout? || a.WakeSpuriously?) && Focus(s, a) == Some(e)
  }

  /** A waiter or the remover of the entry takes its turn. */
  predicate TurnAt(s: State, a: Action, e: EntryId) {
    a.Resume? && a.thread in s.threads && At(s.threads[a.thread], e)
  }

  /** The entry is gone, or it is still closing with at least k less to do. */
  ghost predicate Shrinks(s: State, s': State, e: EntryId, k: nat)
    requires e in s.entries
  {
    e in s'.entries ==> Closing(s', e) && LeftAt(s', e) <= LeftAt(s, e) - k
  }

  lemma BlockedSet(ts: Threads, e: EntryId)
    ensures CrowdAt(ts, e).blocked == Blocked(ts, e)
  {
  }

  lemma WaiterCloses(s: State, t: Thread, brief: bool, wake: set<Thread>, e: EntryId)
    requires Closing(s, e) && EntryOk(s.entries[e], CrowdAt(s.threads, e))
    requires t in s.threads && s.threads[t].Waiting? && s.threads[t].entry == e
    ensures var n := s.entries[e].(waitingThreads := s.entries[e].waitingThreads - 1);
      Shrinks(s, WaitForEntry(s, t, e, n, brief, wake), e, 1)
  {
    hide CrowdAt, EntryOk, Wake, Left;
    StandsThere(s.threads, t, e);
    CrowdMoves(s.threads, t, Idle, e, wake);
    WaiterGoes(s.entries[e], CrowdAt(s.threads, e), t, s.threads[t], e, wake);
  }

  lemma RemoverCloses(s: State, t: Thread, flush: Option<EntryId>, e: EntryId)
    requires Closing(s, e) && EntryOk(s.entries[e], CrowdAt(s.threads, e))
    requires t in s.threads && s.threads[t].Removing? && s.threads[t].entry == e && s.threads[t].woken
    ensures Shrinks(s, DrainEntry(s, t, e, s.entries[e], flush), e, 1)
  {
    hide CrowdAt, EntryOk, Wake, Left;
    StandsThere(s.threads, t, e);
    BlockedSet(s.threads, e);
    CrowdMoves(s.threads, t, Removing(e, UntilDrained, flush, false), e, Blocked(s.threads, e));
    RemoverSleeps(s.entries[e], CrowdAt(s.threads, e), t, s.threads[t], e, flush);
  }

  lemma InvAt(s: State, e: EntryId)
    requires Inv(s) && e in s.entries
    ensures e < s.nextId && EntryOk(s.entries[e], CrowdAt(s.threads, e))
  {
    hide EntryOk, CrowdAt;
  }

  lemma HeldNotClosing(s: State, t: Thread, e: EntryId)
    requires e in s.entries && EntryOk(s.entries[e], CrowdAt(s.threads, e)) && t in s.threads && s.threads[t] == Holding(e)
    ensures !Closing(s, e)
  {
    EntrySafe(s.entries[e], s.threads, e);
  }

  /**
   * Without new callers, no step ever adds to what is left to do at a closing
   * entry, and every turn of one of its own threads takes something away, until
   * the entry is gone.
   */
  lemma ClosingStep(s: State, a: Action, e: EntryId)
    requires Inv(s) && Enabled(s, a) && Closing(s, e) && !Disturbs(s, a, e)
    ensures Shrinks(s, Apply(s, a), e, if TurnAt(s, a, e) then 1 else 0)
  {
    hide Inv, EntryOk, CrowdAt, Left, WaitForEntry, DrainEntry, Wake;
    InvAt(s, e);
    if Focus(s, a) != Some(e) {
      Elsewhere(s, a, e);
    } else {
      match a
      case Checkin(t, _) => HeldNotClosing(s, t, e);
      case Remove(_, _) =>
      case FlushNext(t) =>
        var Flushing(i, bound) := s.threads[t];
        BystanderElsewhere(s.threads, t, Flushing(i + 1, bound), e);
      case Resume(t, wake) =>
        match s.threads[t] {
          case Waiting(_, brief, _) => WaiterCloses(s, t, brief, wake, e);
          case Removing(_, _, flush, _) => RemoverCloses(s, t, flush, e);
        }
    }
  }

  lemma SomeoneAwake(n: Entry, c: Crowd)
    requires EntryOk(n, c) && n.awaitsDeletion && !n.locked
    ensures c.woken != {}
  {
    assert c.removers != {};
    assert c.blocked + c.woken != {};
  }

  /** As long as the entry is there, one of its threads can take a turn. */
  lemma ClosingTurn(s: State, e: EntryId)
    requires Inv(s) && Closing(s, e) && MutexFree(s)
    ensures exists t, wake :: Enabled(s, Resume(t, wake)) && TurnAt(s, Resume(t, wake), e)
  {
    hide Inv, EntryOk;
    var ts := s.threads;
    InvAt(s, e);
    SomeoneAwake(s.entries[e], CrowdAt(ts, e));
    var t :| t in CrowdAt(ts, e).woken;
    var wake := if Blocked(ts, e) == {} then {} else var w :| w in Blocked(ts, e); {w};
    assert SignalChoice(ts, e, wake);
    assert Enabled(s, Resume(t, wake)) && TurnAt(s, Resume(t, wake), e);
  }

  /** A stretch of a run in which the entry is undisturbed, and how many turns its threads take in it. */
  predicate Stretch(states: seq<State>, actions: seq<Action>, e: EntryId) {
    && |states| == |actions| + 1
    && forall i | 0 <= i < |actions| :: Step(states[i], actions[i], states[i + 1]) && !Disturbs(states[i], actions[i], e)
  }

  function Turns(states: seq<State>, actions: seq<Action>, e: EntryId): nat
    requires |states| == |actions| + 1
  {
    if actions == [] then 0
    else (if TurnAt(states[0], actions[0], e) then 1 else 0) + Turns(states[1..], actions[1..], e)
  }

  /**
   * Removal completes: once an entry is marked for deletion and checked in, its
   * threads get at most LeftAt more turns before it is gone, however other threads
   * interleave; ClosingTurn says that until then a turn is always possible.
   */
  lemma {:induction false} RemovalCompletes(states: seq<State>, actions: seq<Action>, e: EntryId)
    requires Stretch(states, actions, e) && Inv(states[0]) && Closing(states[0], e)
    requires forall i | 0 <= i < |states| :: e in states[i].entries
    ensures Turns(states, actions, e) <= LeftAt(states[0], e)
    decreases |actions|
  {
    hide Inv, CrowdAt, Left;
    if actions == [] {
      LeftNonNegative(states[0], e);
    } else {
      assert Step(states[0], actions[0], states[1]);
      ClosingStep(states[0], actions[0], e);
      StepKeeps(states[0], actions[0]);
      var ss, aa := states[1..], actions[1..];
      assert forall i | 0 <= i < |aa| :: aa[i] == actions[i + 1];
      assert forall i | 0 <= i < |ss| :: ss[i] == states[i + 1];
      RemovalCompletes(ss, aa, e);
    }
  }

  lemma LeftNonNegative(s: State, e: EntryId)
    requires Inv(s) && e in s.entries
    ensures LeftAt(s, e) >= 0
  {
    assert EntryOk(s.entries[e], CrowdAt(s.threads, e));
  }

  // ------------------------------------------------------------------------ flush

  /** How far a flush is from the end of the list. */
  function ToGo(s: State, t: Thread): int
    requires t in s.threads && s.threads[t].Flushing?
  {
    |s.sas| - s.threads[t].position
  }

  lemma WithoutShorter(sas: seq<EntryId>, e: EntryId)
    requires e in sas
    ensures |Without(sas, e)| == |sas| - 1
  {
  }

  /** A flush that has the mutex can always go on, and each step brings it closer to the end or gives up the mutex. */
  lemma FlushAdvances(s: State, t: Thread)
    requires Inv(s) && t in s.threads && s.threads[t].Flushing?
    ensures Enabled(s, FlushNext(t)) && ToGo(s, t) >= 0
    ensures var s' := Apply(s, FlushNext(t));
      t in s'.threads && (if s'.threads[t].Flushing? then ToGo(s', t) == ToGo(s, t) - 1 else MutexFree(s'))
  {
    hide EntriesOk, Passed;
    assert ThreadOk(s, s.threads[t]);
    var Flushing(i, bound) := s.threads[t];
    if i < |s.sas| {
      assert s.sas[i] in s.sas;
      BeforeAt(s.sas, i);
      WithoutShorter(s.sas, s.sas[i]);
    }
  }

  /** Meanwhile nobody else gets anywhere: all that can happen is a wake-up nobody sent. */
  lemma FlushExcludes(s: State, t: Thread, a: Action)
    requires Inv(s) && t in s.threads && s.threads[t].Flushing? && Enabled(s, a)
    ensures a == FlushNext(t) ||
            (a.WakeSpuriously? && Apply(s, a).sas == s.sas && t in Apply(s, a).threads && Apply(s, a).threads[t] == s.threads[t])
  {
    hide EntriesOk, ListOk, ThreadsOk;
  }

  /** The steps of flush in a stretch of a run. */
  function FlushSteps(actions: seq<Action>): nat {
    if actions == [] then 0 else (if actions[0].FlushNext? then 1 else 0) + FlushSteps(actions[1..])
  }

  /** So while a flush keeps the mutex it takes no more steps than there are entries left to look at. */
  lemma {:induction false} FlushReleases(states: seq<State>, actions: seq<Action>, t: Thread)
    requires |states| == |actions| + 1 && Inv(states[0])
    requires forall i | 0 <= i < |actions| :: Step(states[i], actions[i], states[i + 1])
    requires forall i | 0 <= i < |states| :: t in states[i].threads && states[i].threads[t].Flushing?
    ensures FlushSteps(actions) <= ToGo(states[0], t)
    decreases |actions|
  {
    hide Inv, Apply, Enabled, MutexFree;
    FlushAdvances(states[0], t);
    if actions != [] {
      assert Step(states[0], actions[0], states[1]);
      FlushExcludes(states[0], t, actions[0]);
      StepKeeps(states[0], actions[0]);
      var ss, aa := states[1..], actions[1..];
      assert forall i | 0 <= i < |aa| :: aa[i] == actions[i + 1];
      assert forall i | 0 <= i < |ss| :: ss[i] == states[i + 1];
      FlushReleases(ss, aa, t);
    }
  }

  /**
   * When flush_entries reaches the end of the list, every entry that existed when
   * it started and is still there is being deleted by some other thread.
   */
  lemma FlushLeavesNothing(states: seq<State>, actions: seq<Action>, i: nat, t: Thread)
    requires Run(states, actions) && i < |states| && t in states[i].threads
    requires states[i].threads[t].Flushing? && states[i].threads[t].position >= |states[i].sas|
    ensures forall e | e in states[i].entries && e < states[i].threads[t].bound ::
              exists u | u in states[i].threads && u != t ::
                states[i].threads[u].Removing? && states[i].threads[u].entry == e
  {
    hide Inv, Safe, SafeEntry, Run;
    RunKeeps(states, actions, i);
    RunSafe(states, actions, i);
    var s := states[i];
    forall e | e in s.entries && e < s.threads[t].bound
      ensures exists u | u in s.threads && u != t :: s.threads[u].Removing? && s.threads[u].entry == e
    {
      FlushPassed(s, t, e);
      var u := MarkedHasRemover(s, e);
    }
  }

  /** At the end of the list everything older than the flush is marked. */
  lemma FlushPassed(s: State, t: Thread, e: EntryId)
    requires Inv(s) && t in s.threads && s.threads[t].Flushing? && s.threads[t].position >= |s.sas|
    requires e in s.entries && e < s.threads[t].bound
    ensures s.entries[e].awaitsDeletion
  {
    hide EntriesOk, OneMutexOwner, Distinct;
    assert ThreadOk(s, s.threads[t]);
    assert s.sas[..|s.sas|] == s.sas;
  }

  lemma MarkedHasRemover(s: State, e: EntryId) returns (u: Thread)
    requires Safe(s) && e in s.entries && s.entries[e].awaitsDeletion
    ensures u in s.threads && s.threads[u].Removing? && s.threads[u].entry == e
  {
    hide Exclusive;
    assert SafeEntry(s.entries[e], s.threads, e);
    u :| u in s.threads && s.threads[u].Removing? && s.threads[u].entry == e;
  }
}
