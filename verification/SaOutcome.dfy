/**
 * What comes of each thing a thread can do at the SA manager, told from outside: who
 * has the SA, who waits, who is awake and what is left, and nothing else changed.
 */
module SaOutcome {
  import opened Chunk
  import opened SaCheckout

  /** Apart from thread t, all that happens to threads is that the parked ones among ws are awake. */
  ghost predicate OthersWoken(ts: Threads, ts': Threads, t: Thread, ws: set<Thread>) {
    && ts'.Keys == ts.Keys
    && forall u | u in ts && u != t ::
         if u in ws && (ts[u].Waiting? || ts[u].Removing?) then ts'[u] == ts[u].(woken := true) else ts'[u] == ts[u]
  }

  /** The list stays, and so do all entries but e. */
  ghost predicate OthersStay(s: State, s': State, e: EntryId) {
    && s'.sas == s.sas && s'.nextId == s.nextId && s'.entries.Keys == s.entries.Keys
    && forall x | x in s.entries && x != e :: s'.entries[x] == s.entries[x]
  }

  /**
   * Asking for an entry n: a marked entry sends the thread away, a locked one makes it
   * wait and count, and a free one is handed out, or given back at once if it was
   * wanted only briefly.  Whoever does not take or await it passes on a signal.
   */
  ghost predicate Answered(s: State, s': State, t: Thread, e: EntryId, n: Entry, brief: bool, wake: set<Thread>) {
    && OthersStay(s, s', e) && e in s'.entries && t in s'.threads
    && OthersWoken(s.threads, s'.threads, t, if n.awaitsDeletion || (brief && !n.locked) then wake else {})
    && (n.awaitsDeletion ==> s'.threads[t] == Idle && s'.entries[e] == n)
    && (!n.awaitsDeletion && n.locked ==>
          s'.threads[t] == Waiting(e, brief, false) && s'.entries[e] == n.(waitingThreads := n.waitingThreads + 1))
    && (!n.awaitsDeletion && !n.locked && !brief ==>
          s'.threads[t] == Holding(e) && s'.entries[e] == Entry(true, false, n.waitingThreads))
    && (!n.awaitsDeletion && !n.locked && brief ==> s'.threads[t] == Idle && s'.entries[e] == n)
  }

  lemma CheckoutAnswered(s: State, t: Thread, e: EntryId, brief: bool, wake: set<Thread>)
    requires Enabled(s, Checkout(t, e, brief, wake))
    ensures Answered(s, Apply(s, Checkout(t, e, brief, wake)), t, e, s.entries[e], brief, wake)
  {
  }

  /** A waiter that continues is answered like one that asks now, no longer counted among the waiters. */
  lemma WaiterAnswered(s: State, t: Thread, wake: set<Thread>)
    requires Enabled(s, Resume(t, wake)) && s.threads[t].Waiting?
    ensures var Waiting(e, brief, _) := s.threads[t];
      var n := s.entries[e];
      Answered(s, Apply(s, Resume(t, wake)), t, e, n.(waitingThreads := n.waitingThreads - 1), brief, wake)
  {
  }

  lemma CheckinFrees(s: State, t: Thread, wake: set<Thread>)
    requires Enabled(s, Checkin(t, wake))
    ensures var e := s.threads[t].entry;
      var s' := Apply(s, Checkin(t, wake));
      && OthersStay(s, s', e) && OthersWoken(s.threads, s'.threads, t, wake)
      && t in s'.threads && s'.threads[t] == Idle
      && e in s'.entries && s'.entries[e] == Entry(false, s.entries[e].awaitsDeletion, s.entries[e].waitingThreads)
  {
  }

  /**
   * Removing an entry: wait while it is in use; when it is not, wake everyone who waits
   * for it and wait for them; when nobody is left, take it out of the list.  A flush
   * then stands where the entry was.
   */
  ghost predicate Removed(s: State, s': State, t: Thread, e: EntryId, flush: Option<EntryId>)
    requires e in s.entries
  {
    var n := s.entries[e];
    if n.locked || n.waitingThreads > 0 then
      && OthersStay(s, s', e) && e in s'.entries && t in s'.threads
      && s'.entries[e] == Entry(n.locked, true, n.waitingThreads)
      && s'.threads[t] == Removing(e, if n.locked then UntilUnlocked else UntilDrained, flush, false)
      && (n.locked ==> OthersWoken(s.threads, s'.threads, t, {}))
      && (!n.locked ==> OthersWoken(s.threads, s'.threads, t, set u | u in s.threads && At(s.threads[u], e)))
    else
      && s'.nextId == s.nextId && OthersWoken(s.threads, s'.threads, t, {})
      && s'.entries == s.entries - {e}
      && exists i | 0 <= i < |s.sas| ::
           && s.sas[i] == e && s'.sas == s.sas[..i] + s.sas[i + 1..]
           && t in s'.threads && s'.threads[t] == if flush.Some? then Flushing(i, flush.value) else Idle
  }

  lemma WithoutAt(sas: seq<EntryId>, i: nat)
    requires Distinct(sas) && i < |sas|
    ensures Without(sas, sas[i]) == sas[..i] + sas[i + 1..]
  {
    if i > 0 {
      WithoutAt(sas[1..], i - 1);
      assert sas[1..][i - 1] == sas[i] && [sas[0]] + sas[1..][..i - 1] == sas[..i];
    }
  }

  lemma DestroyTakesOut(s: State, t: Thread, e: EntryId, flush: Option<EntryId>)
    requires Distinct(s.sas) && e in s.sas && t in s.threads
    ensures var s' := Destroy(s, t, e, flush);
      exists i | 0 <= i < |s.sas| ::
        && s.sas[i] == e && s'.sas == s.sas[..i] + s.sas[i + 1..]
        && s'.threads[t] == if flush.Some? then Flushing(i, flush.value) else Idle
  {
    var i :| 0 <= i < |s.sas| && s.sas[i] == e;
    WithoutAt(s.sas, i);
    BeforeAt(s.sas, i);
    assert s.sas[i] == e;
  }

  lemma RemoveEntryRemoves(s: State, t: Thread, e: EntryId, n: Entry, flush: Option<EntryId>)
    requires Distinct(s.sas) && e in s.sas && e in s.entries && t in s.threads
    requires n == s.entries[e].(awaitsDeletion := true) && t !in Blocked(s.threads, e)
    ensures Removed(s, RemoveEntry(s, t, e, n, flush), t, e, flush)
    ensures !n.locked ==> Removed(s, DrainEntry(s, t, e, n, flush), t, e, flush)
  {
    if !n.locked && n.waitingThreads <= 0 {
      DestroyTakesOut(s, t, e, flush);
    }
  }

  lemma RemoveRemoves(s: State, t: Thread, e: EntryId)
    requires Inv(s) && Enabled(s, Remove(t, e))
    ensures var s' := Apply(s, Remove(t, e));
      if s.entries[e].awaitsDeletion then s' == s else Removed(s, s', t, e, None)
  {
    hide Removed, RemoveEntry, EntriesOk, ThreadsOk;
    RemoveEntryRemoves(s, t, e, s.entries[e].(awaitsDeletion := true), None);
  }

  lemma RemoverRemoves(s: State, t: Thread, wake: set<Thread>)
    requires Inv(s) && Enabled(s, Resume(t, wake)) && s.threads[t].Removing?
    ensures Removed(s, Apply(s, Resume(t, wake)), t, s.threads[t].entry, s.threads[t].flush)
  {
    hide Removed, RemoveEntry, DrainEntry, EntriesOk, ThreadsOk;
    ParkedFacts(s, t);
    var e := s.threads[t].entry;
    assert s.entries[e].(awaitsDeletion := true) == s.entries[e];
    RemoveEntryRemoves(s, t, e, s.entries[e], s.threads[t].flush);
  }

  lemma FlushRemoves(s: State, t: Thread)
    requires Inv(s) && Enabled(s, FlushNext(t))
    ensures var Flushing(i, bound) := s.threads[t];
      var s' := Apply(s, FlushNext(t));
      if i >= |s.sas| then s' == s.(threads := s.threads[t := Idle])
      else if s.entries[s.sas[i]].awaitsDeletion then s' == s.(threads := s.threads[t := Flushing(i + 1, bound)])
      else Removed(s, s', t, s.sas[i], Some(bound))
  {
    hide Removed, RemoveEntry, EntriesOk, ThreadsOk;
    var Flushing(i, bound) := s.threads[t];
    if i < |s.sas| {
      RemoveEntryRemoves(s, t, s.sas[i], s.entries[s.sas[i]].(awaitsDeletion := true), Some(bound));
    }
  }

  lemma AddInstalls(s: State)
    requires Inv(s) && Enabled(s, Add)
    ensures var s' := Apply(s, Add);
      && s'.threads == s.threads && |s'.sas| == |s.sas| + 1 && s'.sas[1..] == s.sas
      && s'.sas[0] !in s.entries && s'.entries == s.entries[s'.sas[0] := Entry(false, false, 0)]
  {
    hide EntriesOk, ThreadsOk;
  }

  /** A free entry does not stay free while threads wait for it: one of them can take it, or be done with it. */
  lemma WaiterServed(s: State, e: EntryId) returns (t: Thread, wake: set<Thread>)
    requires Inv(s) && MutexFree(s) && e in s.entries && !s.entries[e].locked && !s.entries[e].awaitsDeletion
    requires exists u | u in s.threads :: s.threads[u].Waiting? && s.threads[u].entry == e
    ensures Enabled(s, Resume(t, wake)) && s.threads[t].Waiting? && s.threads[t].entry == e
    ensures var ts' := Apply(s, Resume(t, wake)).threads;
      t in ts' && ts'[t] == if s.threads[t].brief then Idle else Holding(e)
  {
    hide Inv, EntryOk, CrowdAt, WaitForEntry;
    InvAt(s, e);
    t := AwakeWaiter(s.entries[e], CrowdAt(s.threads, e), s.threads, e);
    wake := SomeChoice(s.threads, e);
    WaiterAnswered(s, t, wake);
  }

  lemma SomeChoice(ts: Threads, e: EntryId) returns (wake: set<Thread>)
    ensures SignalChoice(ts, e, wake)
  {
    wake := if Blocked(ts, e) == {} then {} else var w :| w in Blocked(ts, e); {w};
  }

  lemma AwakeWaiter(n: Entry, c: Crowd, ts: Threads, e: EntryId) returns (t: Thread)
    requires EntryOk(n, c) && c == CrowdAt(ts, e) && !n.locked && !n.awaitsDeletion
    requires exists u | u in ts :: ts[u].Waiting? && ts[u].entry == e
    ensures t in ts && ts[t].Waiting? && ts[t].entry == e && ts[t].woken
  {
    var u :| u in ts && ts[u].Waiting? && ts[u].entry == e;
    assert u in c.waiters && u in c.blocked + c.woken;
    assert c.woken != {};
    t :| t in c.woken;
    assert c.removers == {};
    assert t in c.waiters + c.removers;
  }

  lemma FlushStarts(s: State, t: Thread)
    requires Enabled(s, StartFlush(t))
    ensures var s' := Apply(s, StartFlush(t)); s' == s.(threads := s.threads[t := Flushing(0, s.nextId)])
  {
  }

  /** A signal wakes one thread that sleeps on the entry, and none only if none does. */
  lemma SignalsOne(s: State, a: Action, e: EntryId)
    requires Enabled(s, a) && (a.Checkin? || a.Checkout? || a.Resume?)
    requires e == if a.Checkout? then a.entry else s.threads[a.thread].entry
    ensures var asleep := set u | u in s.threads && Parked(s.threads[u]) && s.threads[u].entry == e && !s.threads[u].woken;
      if asleep == {} then a.wake == {} else exists w :: w in asleep && a.wake == {w}
  {
  }

  /** Nothing but the mutex and being busy keeps a thread from asking, giving back, removing or flushing. */
  lemma CanAct(s: State, t: Thread, e: EntryId)
    requires Inv(s) && MutexFree(s) && t in s.threads && e in s.entries
    ensures s.threads[t].Idle? ==>
      && (exists wake :: Enabled(s, Checkout(t, e, false, wake)) && Enabled(s, Checkout(t, e, true, wake)))
      && Enabled(s, Remove(t, e)) && Enabled(s, StartFlush(t))
    ensures s.threads[t].Holding? ==> exists wake :: Enabled(s, Checkin(t, wake))
    ensures (s.threads[t].Waiting? || s.threads[t].Removing?) && s.threads[t].woken ==> exists wake :: Enabled(s, Resume(t, wake))
    ensures Enabled(s, Add)
  {
    hide EntriesOk, ListOk;
    assert ThreadOk(s, s.threads[t]);
    var wake := SomeChoice(s.threads, e);
    if s.threads[t].Idle? {
      assert Enabled(s, Checkout(t, e, false, wake)) && Enabled(s, Checkout(t, e, true, wake));
    } else if !s.threads[t].Flushing? {
      var w := SomeChoice(s.threads, s.threads[t].entry);
      if s.threads[t].Holding? {
        assert Enabled(s, Checkin(t, w));
      } else if s.threads[t].woken {
        assert Enabled(s, Resume(t, w));
      }
    }
  }
}
