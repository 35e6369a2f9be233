/** Every step of the queue keeps the invariant, so it holds over every run. */
module QueueRuns {
  import opened Options
  import opened QueueSpec
  import opened QueueTheorems

  lemma RecencySnoc<I, R>(log: seq<Entry<I, R>>, e: Entry<I, R>)
    ensures Recency(log + [e]) == if e.Completed? || e.Read? then [e.uid] + Drop(Recency(log), e.uid) else Recency(log)
  {
    assert (log + [e])[..|log|] == log;
  }

  lemma PastKept<I, R>(log: seq<Entry<I, R>>, e: Entry<I, R>)
    ensures forall x :: x in log ==> x in log + [e]
  {}

  /** An entry that does not touch the store leaves what the history says about it. */
  lemma StoreUntouched<I, R>(w: World<I, R>, v: World<I, R>, e: Entry<I, R>)
    requires StoreOk(w) && RecencyOk(w.log) && v.log == w.log + [e] && v.s.store == w.s.store
    requires e.Submitted? || e.Started?
    ensures StoreOk(v) && RecencyOk(v.log)
  {
    hide Recency, WasCompleted;
    RecencySnoc(w.log, e);
    PastKept(w.log, e);
    forall u ensures WasCompleted(v.log, u) <==> WasCompleted(w.log, u) { MentionsSnoc(w.log, e, u); }
  }

  lemma RecencyUse<I, R>(log: seq<Entry<I, R>>, e: Entry<I, R>)
    requires RecencyOk(log) && (e.Completed? || (e.Read? && WasCompleted(log, e.uid)))
    ensures RecencyOk(log + [e])
  {
    hide Recency, WasCompleted, Drop, DistinctUids;
    RecencySnoc(log, e);
    DropMembers(Recency(log), e.uid);
    DistinctCons(e.uid, Drop(Recency(log), e.uid));
    forall u ensures WasCompleted(log + [e], u) <==> WasCompleted(log, u) || (e.Completed? && e.uid == u) {
      MentionsSnoc(log, e, u);
    }
  }

  // ---------- one lemma per step ----------

  lemma SubmitKeeps<I, R>(w: World<I, R>, e: Event<I, R>, delay: nat)
    requires Inv(w, delay) && e.SubmitEvent? && Legal(w, e)
    ensures Inv(Step(w, e, delay), delay)
  {
    hide Consecutive, StartsLate, StartedOnce, CompletedOnce, StoreOk, RecencyOk, Mentions, WasStarted, WasCompleted, LastSubmit;
    var v := Step(w, e, delay);
    var entry := v.log[|w.log|];
    forall u
      ensures Mentions(v.log, u) <==> Mentions(w.log, u) || entry.uid == u
      ensures WasStarted(v.log, u) <==> WasStarted(w.log, u)
      ensures WasCompleted(v.log, u) <==> WasCompleted(w.log, u)
    {
      MentionsSnoc(w.log, entry, u);
    }
    LastSubmitSnoc(w.log, entry);
    ConsecutiveSnoc(w.log, entry);
    StartsLateSnoc(w.log, entry, delay);
    StartedOnceSnoc(w.log, entry);
    CompletedOnceSnoc(w.log, entry);
    StoreUntouched(w, v, entry);
  }

  lemma TickKeeps<I, R>(w: World<I, R>, e: Event<I, R>, delay: nat)
    requires Inv(w, delay) && e.TickEvent?
    ensures Inv(Step(w, e, delay), delay)
  {
    hide Consecutive, StartsLate, StartedOnce, CompletedOnce, StoreOk, RecencyOk, Mentions, WasStarted, WasCompleted, LastSubmit;
    var v := Step(w, e, delay);
    if v.log != w.log {
      var entry := v.log[|w.log|];
      assert v.log == w.log + [entry];
      forall u
        ensures Mentions(v.log, u) <==> Mentions(w.log, u)
        ensures WasStarted(v.log, u) <==> WasStarted(w.log, u) || entry.uid == u
        ensures WasCompleted(v.log, u) <==> WasCompleted(w.log, u)
      {
        MentionsSnoc(w.log, entry, u);
      }
      SubmitMentioned(w.log);
      ConsecutiveSnoc(w.log, entry);
      StartsLateSnoc(w.log, entry, delay);
      StartedOnceSnoc(w.log, entry);
      CompletedOnceSnoc(w.log, entry);
      StoreUntouched(w, v, entry);
    } else {
      StoreSame(w, v);
    }
  }

  lemma SubmitMentioned<I, R>(log: seq<Entry<I, R>>)
    ensures LastSubmit(log) >= 0 ==> Mentions(log, log[LastSubmit(log)].uid)
  {}

  lemma StoreSame<I, R>(w: World<I, R>, v: World<I, R>)
    requires StoreOk(w) && v.log == w.log && v.s.store == w.s.store
    ensures StoreOk(v)
  {}

  lemma {:induction false} WithoutAbsent<R>(store: seq<Slot<R>>, u: string)
    requires u !in Uids(store)
    ensures Without(store, u) == store
  {
    if store != [] {
      var x, tail := store[0], store[1..];
      assert store == [x] + tail;
      UidsCons(x, tail);
      WithoutAbsent(tail, u);
    }
  }

  lemma {:induction false} WithoutMembers<R>(store: seq<Slot<R>>, u: string)
    ensures forall x :: x in Without(store, u) ==> x in store
  {
    if store != [] { WithoutMembers(store[1..], u); }
  }

  lemma AddNewSlot<R>(store: seq<Slot<R>>, slot: Slot<R>)
    requires slot.uid !in Uids(store)
    ensures Uids(AddSlot(store, slot)) == FirstOf([slot.uid] + Uids(store), REQUEST_HISTORY_SIZE)
    ensures forall x :: x in AddSlot(store, slot) ==> x == slot || x in store
    ensures slot.uid in Uids(AddSlot(store, slot))
  {
    WithoutAbsent(store, slot.uid);
    assert Uids(AddSlot(store, slot))[0] == slot.uid;
  }

  /** Adding the result of a uid that has none yet. */
  lemma AddKeepsStore<I, R>(w: World<I, R>, v: World<I, R>, slot: Slot<R>)
    requires StoreOk(w) && RecencyOk(w.log) && !WasCompleted(w.log, slot.uid)
    requires v.log == w.log + [Completed(slot.uid, slot.completion)] && v.s.store == AddSlot(w.s.store, slot)
    ensures StoreOk(v)
  {
    hide Recency, WasCompleted, AddSlot, Drop;
    var r, u := Recency(w.log), slot.uid;
    RecencySnoc(w.log, Completed(u, slot.completion));
    DropMembers(r, u);
    assert u !in r;
    AddNewSlot(w.s.store, slot);
    assert FirstOf([u] + FirstOf(r, REQUEST_HISTORY_SIZE), REQUEST_HISTORY_SIZE) == FirstOf([u] + r, REQUEST_HISTORY_SIZE);
    assert v.log[|w.log|] == Completed(u, slot.completion);
    forall k | 0 <= k < |v.s.store| ensures Completed(v.s.store[k].uid, v.s.store[k].completion) in v.log {
      assert v.s.store[k] in v.s.store;
      SlotLogged(w, v.s.store[k]);
    }
  }

  lemma SlotLogged<I, R>(w: World<I, R>, x: Slot<R>)
    requires StoreOk(w)
    ensures x in w.s.store ==> Completed(x.uid, x.completion) in w.log
  {
    hide Recency;
  }

  lemma FinishKeeps<I, R>(w: World<I, R>, e: Event<I, R>, delay: nat)
    requires Inv(w, delay) && e.FinishEvent?
    ensures Inv(Step(w, e, delay), delay)
  {
    hide Consecutive, StartsLate, StartedOnce, CompletedOnce, StoreOk, RecencyOk, Mentions, WasStarted, WasCompleted, LastSubmit, AddSlot;
    var v := Step(w, e, delay);
    if w.s.inFlight.Some? {
      var entry := v.log[|w.log|];
      forall u
        ensures Mentions(v.log, u) <==> Mentions(w.log, u)
        ensures WasStarted(v.log, u) <==> WasStarted(w.log, u)
        ensures WasCompleted(v.log, u) <==> WasCompleted(w.log, u) || entry.uid == u
      {
        MentionsSnoc(w.log, entry, u);
      }
      LastSubmitSnoc(w.log, entry);
      ConsecutiveSnoc(w.log, entry);
      StartsLateSnoc(w.log, entry, delay);
      StartedOnceSnoc(w.log, entry);
      CompletedOnceSnoc(w.log, entry);
      AddKeepsStore(w, v, Slot(entry.uid, entry.completion));
      RecencyUse(w.log, entry);
    }
  }

  /** Reading a stored result. */
  lemma TouchKeepsStore<I, R>(w: World<I, R>, v: World<I, R>, u: string)
    requires StoreOk(w) && RecencyOk(w.log) && Find(w.s.store, u) < |w.s.store|
    requires v.log == w.log + [Read(u)] && v.s.store == Touch(w.s.store, u)
    ensures StoreOk(v) && WasCompleted(w.log, u)
  {
    hide Recency, Drop, WasCompleted;
    var r, i := Recency(w.log), Find(w.s.store, u);
    assert Uids(w.s.store)[i] == u;
    assert u in r && u in FirstOf(r, REQUEST_HISTORY_SIZE);
    RecencySnoc(w.log, Read(u));
    UidsWithout(w.s.store, u);
    WithoutMembers(w.s.store, u);
    DropKeepsFirst(r, u, REQUEST_HISTORY_SIZE);
    assert Uids(v.s.store) == [u] + Drop(Uids(w.s.store), u);
    PastKept(w.log, Read(u));
    forall k | 0 <= k < |v.s.store| ensures Completed(v.s.store[k].uid, v.s.store[k].completion) in v.log {
      assert v.s.store[k] in w.s.store;
    }
  }

  lemma GetKeeps<I, R>(w: World<I, R>, e: Event<I, R>, delay: nat)
    requires Inv(w, delay) && e.GetEvent?
    ensures Inv(Step(w, e, delay), delay)
  {
    hide Consecutive, StartsLate, StartedOnce, CompletedOnce, StoreOk, RecencyOk, Mentions, WasStarted, WasCompleted, LastSubmit;
    var v := Step(w, e, delay);
    if Find(w.s.store, e.uid) < |w.s.store| {
      var entry := v.log[|w.log|];
      forall u
        ensures Mentions(v.log, u) <==> Mentions(w.log, u)
        ensures WasStarted(v.log, u) <==> WasStarted(w.log, u)
        ensures WasCompleted(v.log, u) <==> WasCompleted(w.log, u)
      {
        MentionsSnoc(w.log, entry, u);
      }
      LastSubmitSnoc(w.log, entry);
      ConsecutiveSnoc(w.log, entry);
      StartsLateSnoc(w.log, entry, delay);
      StartedOnceSnoc(w.log, entry);
      CompletedOnceSnoc(w.log, entry);
      TouchKeepsStore(w, v, e.uid);
      RecencyUse(w.log, entry);
    } else {
      StoreSame(w, v);
    }
  }

  lemma StepKeeps<I, R>(w: World<I, R>, e: Event<I, R>, delay: nat)
    requires Inv(w, delay) && Legal(w, e)
    ensures Inv(Step(w, e, delay), delay)
  {
    hide Inv, Step, Legal;
    match e {
      case SubmitEvent(_, _, _) => SubmitKeeps(w, e, delay);
      case TickEvent(_) => TickKeeps(w, e, delay);
      case FinishEvent(_) => FinishKeeps(w, e, delay);
      case GetEvent(_) => GetKeeps(w, e, delay);
    }
  }

  /** Over every interleaving of the steps: uids are handled at most once, with the last item submitted under them,
      more than the delay after it; submissions sharing a uid are consecutive; the store holds the 100 results used last. */
  lemma {:induction false} RunKeeps<I, R>(delay: nat, es: seq<Event<I, R>>)
    requires LegalRun(delay, es)
    ensures Inv(Exec(delay, es), delay)
  {
    hide Inv, Step, Legal;
    if es == [] {
      StartInv<I, R>(delay);
    } else {
      var front := es[..|es| - 1];
      RunKeeps(delay, front);
      StepKeeps(Exec(delay, front), es[|es| - 1], delay);
    }
  }

  lemma StartInv<I, R>(delay: nat)
    ensures Inv(Start<I, R>(), delay)
  {}

  /** The same in terms of the history alone. */
  lemma QueueSafety<I, R>(delay: nat, es: seq<Event<I, R>>)
    requires LegalRun(delay, es)
    ensures var w := Exec(delay, es); var log := w.log;
      && (forall i, j :: 0 <= i < j < |log| && log[i].Started? && log[j].Started? ==> log[i].uid != log[j].uid)
      && (forall j :: 0 <= j < |log| && log[j].Started? ==> exists i :: SubmittedLast(log, i, j, delay))
      && (w.s.inFlight.Some? ==> w.s.inFlight.value.uid != w.s.uid)
  {
    hide Step, Legal, LegalRun, StoreOk, RecencyOk, Consecutive, CompletedOnce, Exec;
    RunKeeps(delay, es);
    var w := Exec(delay, es);
    forall j | 0 <= j < |w.log| && w.log[j].Started? ensures exists i :: SubmittedLast(w.log, i, j, delay) {
      assert StartedWell(w.log, j, delay);
      assert SubmittedLast(w.log, LastSubmit(w.log[..j]), j, delay);
    }
  }

  /** Entry `i` is the last submission before the start at `j`: same uid, same item, more than the delay earlier. */
  ghost predicate SubmittedLast<I, R>(log: seq<Entry<I, R>>, i: int, j: int, delay: nat) {
    && 0 <= i < j < |log| && log[j].Started? && log[i].Submitted?
    && log[i].uid == log[j].uid && log[i].item == Some(log[j].taken) && log[j].now - log[i].now > delay
    && forall k :: i < k < j ==> !log[k].Submitted?
  }

  // ---------- phases ----------

  datatype Phase = Unknown | Pending | Running | Stored | Evicted

  ghost function PhaseOf<I, R>(w: World<I, R>, u: string): Phase {
    if u == w.s.uid then Pending
    else if IsInFlight(w.s, u) then Running
    else if u in Uids(w.s.store) then Stored
    else if WasCompleted(w.log, u) then Evicted
    else Unknown
  }

  function Rank(p: Phase): nat {
    match p
    case Unknown => 0
    case Pending => 1
    case Running => 2
    case Stored => 3
    case Evicted => 4
  }

  lemma StoredIsCompleted<I, R>(w: World<I, R>, u: string)
    requires StoreOk(w) && RecencyOk(w.log) && u in Uids(w.s.store)
    ensures WasCompleted(w.log, u)
  {
    hide Recency, WasCompleted;
  }

  /** Where the uids of the next store come from. */
  lemma StoreStep<I, R>(w: World<I, R>, e: Event<I, R>, delay: nat, u: string)
    requires Inv(w, delay)
    ensures u in Uids(Step(w, e, delay).s.store) ==> u in Uids(w.s.store) || (e.FinishEvent? && IsInFlight(w.s, u))
    ensures e.FinishEvent? && IsInFlight(w.s, u) ==> u in Uids(Step(w, e, delay).s.store)
  {
    hide Consecutive, StartsLate, StartedOnce, CompletedOnce, StoreOk, RecencyOk, Mentions, WasStarted, WasCompleted, LastSubmit, AddSlot, Drop;
    var v := Step(w, e, delay);
    if e.FinishEvent? && w.s.inFlight.Some? {
      var slot := Slot(w.s.inFlight.value.uid, ToCompletion(e.outcome));
      NotYetStored(w, slot.uid);
      AddNewSlot(w.s.store, slot);
      if u in Uids(v.s.store) {
        var i :| 0 <= i < |v.s.store| && v.s.store[i].uid == u;
        assert v.s.store[i] in v.s.store;
        if v.s.store[i] in w.s.store { UidsOf(w.s.store, v.s.store[i]); }
      }
    } else if e.GetEvent? && Find(w.s.store, e.uid) < |w.s.store| {
      WithoutMembers(w.s.store, e.uid);
      if u in Uids(v.s.store) {
        var i :| 0 <= i < |v.s.store| && v.s.store[i].uid == u;
        assert v.s.store[i] in w.s.store;
        UidsOf(w.s.store, v.s.store[i]);
      }
    }
  }

  lemma UidsOf<R>(store: seq<Slot<R>>, x: Slot<R>)
    requires x in store
    ensures x.uid in Uids(store)
  {
    var i :| 0 <= i < |store| && store[i] == x;
    assert Uids(store)[i] == x.uid;
  }

  lemma NotYetStored<I, R>(w: World<I, R>, u: string)
    requires StoreOk(w) && RecencyOk(w.log) && !WasCompleted(w.log, u)
    ensures u !in Uids(w.s.store)
  {
    hide Recency, WasCompleted;
    if u in Uids(w.s.store) { StoredIsCompleted(w, u); }
  }

  lemma StepMentions<I, R>(w: World<I, R>, e: Event<I, R>, delay: nat, u: string)
    ensures WasCompleted(w.log, u) ==> WasCompleted(Step(w, e, delay).log, u)
  {
    var v := Step(w, e, delay);
    assert forall i :: 0 <= i < |w.log| ==> v.log[i] == w.log[i];
  }

  /** A uid only moves forward: unknown, pending, in the handler, stored, evicted. */
  lemma PhasesMoveForward<I, R>(w: World<I, R>, e: Event<I, R>, delay: nat, u: string)
    requires Inv(w, delay) && Legal(w, e) && u != ""
    ensures Rank(PhaseOf(Step(w, e, delay), u)) >= Rank(PhaseOf(w, u))
  {
    hide Consecutive, StartsLate, StartedOnce, CompletedOnce, StoreOk, RecencyOk, Mentions, WasStarted, WasCompleted, LastSubmit, AddSlot, Touch;
    StepMentions(w, e, delay, u);
    StoreStep(w, e, delay, u);
    if u in Uids(w.s.store) { StoredIsCompleted(w, u); }
    SubmitMentioned(w.log);
  }

  /** Along any run, phases never go back: once a uid has stopped answering 202 it never answers 202 again. */
  lemma {:induction false} PhasesMoveForwardInRuns<I, R>(delay: nat, es: seq<Event<I, R>>, n: nat, u: string)
    requires LegalRun(delay, es) && n <= |es| && u != ""
    ensures Rank(PhaseOf(Exec(delay, es), u)) >= Rank(PhaseOf(Exec(delay, es[..n]), u))
    decreases |es|
  {
    hide Inv, Step, Legal, PhaseOf;
    if n < |es| {
      var front := es[..|es| - 1];
      assert front[..n] == es[..n];
      RunKeeps(delay, front);
      PhasesMoveForwardInRuns(delay, front, n, u);
      PhasesMoveForward(Exec(delay, front), es[|es| - 1], delay, u);
    } else {
      assert es[..n] == es;
    }
  }

  /** What Get answers, phase by phase. */
  lemma AnswerByPhase<I, R>(w: World<I, R>, delay: nat, u: string)
    requires Inv(w, delay) && u != ""
    ensures match PhaseOf(w, u)
            case Stored => Completed(u, Answer(w.s, u)) in w.log
            case Pending => Answer(w.s, u).status == 202
            case _ => Answer(w.s, u).status == 404
  {
    hide Consecutive, StartsLate, StartedOnce, CompletedOnce, RecencyOk, Mentions, WasStarted, WasCompleted, LastSubmit, Recency;
    var i := Find(w.s.store, u);
    if i < |w.s.store| {
      UidsOf(w.s.store, w.s.store[i]);
      StoredIsCompleted(w, u);
      SubmitMentioned(w.log);
    } else {
      assert u !in Uids(w.s.store);
    }
  }

  /** A request that has been submitted and has no result yet is accepted exactly while no handler runs for it. */
  lemma AcceptedUntilHandled<I, R>(w: World<I, R>, delay: nat, u: string)
    requires Inv(w, delay) && Mentions(w.log, u) && !WasCompleted(w.log, u)
    ensures Answer(w.s, u).status == (if IsInFlight(w.s, u) then 404 else 202)
  {
    hide Consecutive, StartsLate, StartedOnce, CompletedOnce, Mentions, WasStarted, WasCompleted, LastSubmit, Recency;
    NotYetStored(w, u);
    var i := Find(w.s.store, u);
    if i < |w.s.store| { UidsOf(w.s.store, w.s.store[i]); }
  }

  /** A request in progress that is reported as not found: submitted, rested, taken out, and not yet finished. */
  lemma InProgressNotFound<I, R>(item: I, delay: nat)
    ensures var es: seq<Event<I, R>> := [SubmitEvent(Some(item), 0, "a"), TickEvent(delay + 1)];
            LegalRun(delay, es) && Answer(Exec(delay, es).s, "a").status == 404
  {
    var first: seq<Event<I, R>> := [SubmitEvent(Some(item), 0, "a")];
    var es: seq<Event<I, R>> := [SubmitEvent(Some(item), 0, "a"), TickEvent(delay + 1)];
    var none: seq<Event<I, R>> := [];
    assert first[..|first| - 1] == none && es[..|es| - 1] == first;
    assert LegalRun(delay, none) && Exec(delay, none) == Start<I, R>();
    assert Exec(delay, first) == Step(Start<I, R>(), first[0], delay);
    assert Legal(Exec(delay, none), first[0]);
    assert LegalRun(delay, first);
  }

  /** A uid has at most one result. */
  lemma OneResult<I, R>(w: World<I, R>, delay: nat, u: string, c: Completion<R>, d: Completion<R>)
    requires Inv(w, delay) && Completed(u, c) in w.log && Completed(u, d) in w.log
    ensures c == d
  {
    hide Consecutive, StartsLate, StartedOnce, RecencyOk, Mentions, WasStarted, WasCompleted, LastSubmit, StoreOk, FlightOk;
    var i :| 0 <= i < |w.log| && w.log[i] == Completed(u, c);
    var j :| 0 <= j < |w.log| && w.log[j] == Completed(u, d);
  }

  /** The empty uid, which the HTTP handler does not pass on, is never stored; it is accepted exactly while no
      submitted request waits for its rest. */
  lemma EmptyUid<I, R>(w: World<I, R>, delay: nat)
    requires Inv(w, delay)
    ensures Find(w.s.store, "") == |w.s.store|
    ensures Answer(w.s, "").status == if w.s.uid == "" then 202 else 404
  {
    hide Consecutive, StartsLate, StartedOnce, CompletedOnce, RecencyOk, LastSubmit, Recency, StoreOk;
    var i := Find(w.s.store, "");
    if i < |w.s.store| {
      UidsOf(w.s.store, w.s.store[i]);
      StoredIsCompleted(w, "");
    }
  }

  // ---------- eviction ----------

  /** The uids used since the last use of `u`. */
  ghost function UsedSince<I, R>(log: seq<Entry<I, R>>, u: string): set<string> {
    if log == [] then {}
    else
      var e := log[|log| - 1];
      if !e.Completed? && !e.Read? then UsedSince(log[..|log| - 1], u)
      else if e.uid == u then {}
      else UsedSince(log[..|log| - 1], u) + {e.uid}
  }

  ghost function Before(us: seq<string>, u: string): set<string> {
    if us == [] || us[0] == u then {} else {us[0]} + Before(us[1..], u)
  }

  lemma {:induction false} BeforeDrop(us: seq<string>, x: string, u: string)
    requires x != u && u in us && DistinctUids(us)
    ensures Before([x] + Drop(us, x), u) == Before(us, u) + {x}
  {
    assert ([x] + Drop(us, x))[1..] == Drop(us, x);
    BeforeDropTail(us, x, u);
  }

  lemma {:induction false} BeforeDropTail(us: seq<string>, x: string, u: string)
    requires x != u && u in us
    ensures Before(Drop(us, x), u) + {x} == Before(us, u) + {x}
  {
    if us[0] != u && us[0] != x {
      assert Drop(us, x)[1..] == Drop(us[1..], x);
      assert us == [us[0]] + us[1..];
      BeforeDropTail(us[1..], x, u);
    }
  }

  lemma {:induction false} RecencyDistinct<I, R>(log: seq<Entry<I, R>>)
    ensures DistinctUids(Recency(log))
  {
    hide Drop;
    if log != [] {
      var front, e := log[..|log| - 1], log[|log| - 1];
      RecencyDistinct(front);
      if e.Completed? || e.Read? {
        var d := Drop(Recency(front), e.uid);
        DropMembers(Recency(front), e.uid);
        assert forall i :: 0 <= i < |d| ==> d[i] in d;
      }
    }
  }

  lemma {:induction false} RecencyIsUsedSince<I, R>(log: seq<Entry<I, R>>, u: string)
    requires u in Recency(log)
    ensures Before(Recency(log), u) == UsedSince(log, u)
  {
    hide Drop;
    var front, e := log[..|log| - 1], log[|log| - 1];
    RecencyDistinct(front);
    if !e.Completed? && !e.Read? {
      RecencyIsUsedSince(front, u);
    } else if e.uid != u {
      DropMembers(Recency(front), e.uid);
      RecencyIsUsedSince(front, u);
      BeforeDrop(Recency(front), e.uid, u);
    }
  }

  lemma {:induction false} BeforeSubset(us: seq<string>, u: string)
    ensures forall x :: x in Before(us, u) ==> x in us
  {
    if us != [] { BeforeSubset(us[1..], u); }
  }

  lemma {:induction false} BeforeCount(us: seq<string>, u: string, n: nat)
    requires u in us && DistinctUids(us)
    ensures u in FirstOf(us, n) <==> |Before(us, u)| < n
  {
    hide FirstOf, Before, DistinctUids;
    var a, tail := us[0], us[1..];
    assert us == [a] + tail;
    BeforeCons(a, tail, u);
    DistinctCons(a, tail);
    if n == 0 {
      FirstOfNone(us);
    } else {
      FirstCons(a, tail, n);
      if a != u {
        BeforeCount(tail, u, n - 1);
        BeforeSubset(tail, u);
        assert |{a} + Before(tail, u)| == 1 + |Before(tail, u)|;
      }
    }
  }

  lemma BeforeCons(a: string, us: seq<string>, u: string)
    ensures Before([a] + us, u) == if a == u then {} else {a} + Before(us, u)
  {
    assert ([a] + us)[1..] == us;
  }

  lemma FirstOfNone(us: seq<string>)
    ensures FirstOf(us, 0) == []
  {}

  /** A result is kept exactly as long as fewer than 100 other uids have been used since its last use. */
  lemma EvictedByHundred<I, R>(w: World<I, R>, delay: nat, u: string)
    requires Inv(w, delay) && WasCompleted(w.log, u)
    ensures u in Uids(w.s.store) <==> |UsedSince(w.log, u)| < 100
    ensures |w.s.store| <= 100
  {
    hide Recency, WasCompleted, UsedSince, FlightOk, PendingIsLast, StartsLate, Consecutive, StartedOnce, CompletedOnce;
    RecencyIsUsedSince(w.log, u);
    BeforeCount(Recency(w.log), u, REQUEST_HISTORY_SIZE);
  }
}
