/** What the queue does and answers, told by the events of a run alone. */
module QueueEvents {
  import opened Options
  import opened QueueSpec
  import opened QueueTheorems
  import opened QueueRuns

  // ---------- what an event is ----------

  /** Event `k` is a submission that is given the uid `u`. */
  ghost predicate SubmittedAt<I, R>(delay: nat, es: seq<Event<I, R>>, k: nat, u: string) {
    k < |es| && es[k].SubmitEvent? && Step(Exec(delay, es[..k]), es[k], delay).s.uid == u
  }

  /** Event `k` is a tick that hands the item waiting under `u` to the handler. */
  ghost predicate StartedAt<I, R>(delay: nat, es: seq<Event<I, R>>, k: nat, u: string) {
    && k < |es| && es[k].TickEvent? && Exec(delay, es[..k]).s.inFlight.None?
    && IsInFlight(Step(Exec(delay, es[..k]), es[k], delay).s, u)
  }

  /** In event `k` the handler returns from the request `u`. */
  ghost predicate FinishedAt<I, R>(delay: nat, es: seq<Event<I, R>>, k: nat, u: string) {
    k < |es| && es[k].FinishEvent? && IsInFlight(Exec(delay, es[..k]).s, u)
  }

  ghost predicate IsSubmitted<I, R>(delay: nat, es: seq<Event<I, R>>, u: string) {
    exists k :: SubmittedAt(delay, es, k, u)
  }

  ghost predicate IsStarted<I, R>(delay: nat, es: seq<Event<I, R>>, u: string) {
    exists k :: StartedAt(delay, es, k, u)
  }

  ghost predicate IsFinished<I, R>(delay: nat, es: seq<Event<I, R>>, u: string) {
    exists k :: FinishedAt(delay, es, k, u)
  }

  /** The uid whose stored result an event reads or writes. */
  ghost function UsedBy<I, R>(w: World<I, R>, e: Event<I, R>): Option<string> {
    match e
    case FinishEvent(_) => if w.s.inFlight.Some? then Some(w.s.inFlight.value.uid) else None
    case GetEvent(u) => if u in Uids(w.s.store) then Some(u) else None
    case _ => None
  }

  /** The uids whose results were read or written after the last time that of `u` was. */
  ghost function UsedAfter<I, R>(delay: nat, es: seq<Event<I, R>>, u: string): set<string> {
    if es == [] then {}
    else
      var front := es[..|es| - 1];
      match UsedBy(Exec(delay, front), es[|es| - 1])
      case None => UsedAfter(delay, front, u)
      case Some(x) => if x == u then {} else UsedAfter(delay, front, u) + {x}
  }

  // ---------- the history is that of the events ----------

  /** Event `k` wrote the entry `x`. */
  ghost predicate Wrote<I, R>(delay: nat, es: seq<Event<I, R>>, k: nat, x: Entry<I, R>) {
    k < |es| && Step(Exec(delay, es[..k]), es[k], delay).log == Exec(delay, es[..k]).log + [x]
  }

  lemma WroteSnoc<I, R>(delay: nat, es: seq<Event<I, R>>, k: nat, x: Entry<I, R>)
    requires es != []
    ensures k < |es| - 1 ==> (Wrote(delay, es, k, x) <==> Wrote(delay, es[..|es| - 1], k, x))
    ensures k == |es| - 1 ==> (Wrote(delay, es, k, x) <==> Exec(delay, es).log == Exec(delay, es[..|es| - 1]).log + [x])
  {
    hide Step, Exec;
    if k < |es| - 1 { assert es[..|es| - 1][..k] == es[..k]; }
    ExecSnoc(delay, es);
  }

  lemma ExecSnoc<I, R>(delay: nat, es: seq<Event<I, R>>)
    requires es != []
    ensures Exec(delay, es) == Step(Exec(delay, es[..|es| - 1]), es[|es| - 1], delay)
  {}

  /** A step writes one entry or none. */
  lemma StepWrites<I, R>(w: World<I, R>, e: Event<I, R>, delay: nat)
    ensures Step(w, e, delay).log == w.log || exists x :: Step(w, e, delay).log == w.log + [x]
  {}

  lemma {:induction false} LogOfEvents<I, R>(delay: nat, es: seq<Event<I, R>>, x: Entry<I, R>)
    ensures x in Exec(delay, es).log <==> exists k :: Wrote(delay, es, k, x)
  {
    hide Step, Wrote, Exec;
    if es == [] {
      NoEntryWritten(delay, x);
    } else {
      var front := es[..|es| - 1];
      LogOfEvents(delay, front, x);
      StepWrites(Exec(delay, front), es[|es| - 1], delay);
      ExecSnoc(delay, es);
      forall k ensures Wrote(delay, es, k, x) <==> Wrote(delay, front, k, x) || (k == |front| && Exec(delay, es).log == Exec(delay, front).log + [x]) {
        WroteBound(delay, es, k, x);
        WroteBound(delay, front, k, x);
        WroteSnoc(delay, es, k, x);
      }
      LastEntry(Exec(delay, front).log, Exec(delay, es).log, x);
      if Exec(delay, es).log == Exec(delay, front).log + [x] { assert Wrote(delay, es, |front|, x); }
    }
  }

  lemma NoEntryWritten<I, R>(delay: nat, x: Entry<I, R>)
    ensures x !in Exec<I, R>(delay, []).log && forall k :: !Wrote(delay, [], k, x)
  {}

  lemma WroteBound<I, R>(delay: nat, es: seq<Event<I, R>>, k: nat, x: Entry<I, R>)
    ensures Wrote(delay, es, k, x) ==> k < |es|
  {}

  lemma LastEntry<I, R>(log: seq<Entry<I, R>>, more: seq<Entry<I, R>>, x: Entry<I, R>)
    requires more == log || exists y :: more == log + [y]
    ensures x in more <==> x in log || more == log + [x]
  {}

  lemma WroteWhat<I, R>(delay: nat, es: seq<Event<I, R>>, k: nat, x: Entry<I, R>)
    requires Wrote(delay, es, k, x)
    ensures x.Submitted? ==> SubmittedAt(delay, es, k, x.uid)
    ensures x.Started? ==> StartedAt(delay, es, k, x.uid)
    ensures x.Completed? ==> FinishedAt(delay, es, k, x.uid)
  {
    hide Exec;
    var log := Exec(delay, es[..k]).log;
    assert (log + [x])[|log|] == x;
  }

  lemma SubmittedWrote<I, R>(delay: nat, es: seq<Event<I, R>>, k: nat, u: string)
    requires SubmittedAt(delay, es, k, u)
    ensures Mentions(Exec(delay, es).log, u)
  {
    hide Exec, Mentions;
    var x := Submitted(u, es[k].item, es[k].now);
    assert Wrote(delay, es, k, x);
    LogOfEvents(delay, es, x);
    Logged(Exec(delay, es).log, x);
  }

  lemma StartedWrote<I, R>(delay: nat, es: seq<Event<I, R>>, k: nat, u: string)
    requires StartedAt(delay, es, k, u)
    ensures WasStarted(Exec(delay, es).log, u)
  {
    hide Exec, WasStarted;
    var x := Started(u, Step(Exec(delay, es[..k]), es[k], delay).s.inFlight.value.item, es[k].now);
    assert Wrote(delay, es, k, x);
    LogOfEvents(delay, es, x);
    Logged(Exec(delay, es).log, x);
  }

  /** What is recorded of a result that the handler returns. */
  lemma FinishedWrote<I, R>(delay: nat, es: seq<Event<I, R>>, k: nat, u: string)
    requires FinishedAt(delay, es, k, u)
    ensures match es[k].outcome
            case Success(data) => Completed(u, Completion(Some(data), 200, "")) in Exec(delay, es).log
            case Failure(code, message) => Completed(u, Completion(None, code, message)) in Exec(delay, es).log
    ensures WasCompleted(Exec(delay, es).log, u)
  {
    hide Exec, WasCompleted;
    var x: Entry<I, R> := match es[k].outcome
      case Success(data) => Completed(u, Completion(Some(data), 200, ""))
      case Failure(code, message) => Completed(u, Completion(None, code, message));
    assert Wrote(delay, es, k, x);
    LogOfEvents(delay, es, x);
    Logged(Exec(delay, es).log, x);
  }

  lemma Logged<I, R>(log: seq<Entry<I, R>>, x: Entry<I, R>)
    requires x in log
    ensures x.Submitted? ==> Mentions(log, x.uid)
    ensures x.Started? ==> WasStarted(log, x.uid)
    ensures x.Completed? ==> WasCompleted(log, x.uid)
  {
    var i :| 0 <= i < |log| && log[i] == x;
  }

  lemma EntryHasEvent<I, R>(delay: nat, es: seq<Event<I, R>>, x: Entry<I, R>)
    requires x in Exec(delay, es).log
    ensures x.Submitted? ==> IsSubmitted(delay, es, x.uid)
    ensures x.Started? ==> IsStarted(delay, es, x.uid)
    ensures x.Completed? ==> IsFinished(delay, es, x.uid)
  {
    hide Exec, Wrote, SubmittedAt, StartedAt, FinishedAt;
    LogOfEvents(delay, es, x);
    var k: nat :| Wrote(delay, es, k, x);
    WroteWhat(delay, es, k, x);
  }

  lemma HistoryOfEvents<I, R>(delay: nat, es: seq<Event<I, R>>, u: string)
    ensures Mentions(Exec(delay, es).log, u) <==> IsSubmitted(delay, es, u)
    ensures WasStarted(Exec(delay, es).log, u) <==> IsStarted(delay, es, u)
    ensures WasCompleted(Exec(delay, es).log, u) <==> IsFinished(delay, es, u)
  {
    hide Exec, SubmittedAt, StartedAt, FinishedAt;
    var log := Exec(delay, es).log;
    forall i | 0 <= i < |log|
      ensures log[i].Submitted? ==> IsSubmitted(delay, es, log[i].uid)
      ensures log[i].Started? ==> IsStarted(delay, es, log[i].uid)
      ensures log[i].Completed? ==> IsFinished(delay, es, log[i].uid)
    {
      EntryHasEvent(delay, es, log[i]);
    }
    forall k | SubmittedAt(delay, es, k, u) ensures Mentions(log, u) { SubmittedWrote(delay, es, k, u); }
    forall k | StartedAt(delay, es, k, u) ensures WasStarted(log, u) { StartedWrote(delay, es, k, u); }
    forall k | FinishedAt(delay, es, k, u) ensures WasCompleted(log, u) { FinishedWrote(delay, es, k, u); }
  }

  lemma UsedStep<I, R>(w: World<I, R>, e: Event<I, R>, delay: nat, u: string)
    ensures UsedSince(Step(w, e, delay).log, u)
            == match UsedBy(w, e)
               case None => UsedSince(w.log, u)
               case Some(x) => if x == u then {} else UsedSince(w.log, u) + {x}
  {
    hide Uids, Find;
    var log := Step(w, e, delay).log;
    if log != w.log { assert log[..|log| - 1] == w.log; }
    if e.GetEvent? { StoredExactly(w.s.store, e.uid); }
  }

  lemma StoredExactly<R>(store: seq<Slot<R>>, u: string)
    ensures Find(store, u) < |store| <==> u in Uids(store)
  {
    var i := Find(store, u);
    if i < |store| { assert Uids(store)[i] == u; }
  }

  lemma {:induction false} UsedInRun<I, R>(delay: nat, es: seq<Event<I, R>>, u: string)
    ensures UsedSince(Exec(delay, es).log, u) == UsedAfter(delay, es, u)
  {
    hide Step, UsedBy;
    if es != [] {
      var front := es[..|es| - 1];
      UsedInRun(delay, front, u);
      UsedStep(Exec(delay, front), es[|es| - 1], delay, u);
    }
  }

  // ---------- the answers ----------

  /** What the handler returned is answered until 100 other results have been written or read; then nothing is known of it. */
  lemma AnswerOfFinished<I, R>(delay: nat, es: seq<Event<I, R>>, k: nat, u: string)
    requires LegalRun(delay, es) && FinishedAt(delay, es, k, u)
    ensures Answer(Exec(delay, es).s, u)
            == if |UsedAfter(delay, es, u)| >= 100 then Completion(None, 404, "request ID " + u + " not found")
               else match es[k].outcome
                    case Success(data) => Completion(Some(data), 200, "")
                    case Failure(code, message) => Completion(None, code, message)
  {
    hide Exec, LegalRun, Inv, Uids, Find;
    var w := Exec(delay, es);
    RunKeeps(delay, es);
    FinishedWrote(delay, es, k, u);
    EvictedByHundred(w, delay, u);
    UsedInRun(delay, es, u);
    StoredExactly(w.s.store, u);
    NoLongerPending(w, delay, u);
    var i := Find(w.s.store, u);
    if i < |w.s.store| {
      StoredAnswer(w, delay, i);
      OneResult(w, delay, u, Answer(w.s, u), match es[k].outcome
                case Success(data) => Completion(Some(data), 200, "")
                case Failure(code, message) => Completion(None, code, message));
    }
  }

  lemma NoLongerPending<I, R>(w: World<I, R>, delay: nat, u: string)
    requires Inv(w, delay) && WasCompleted(w.log, u)
    ensures u != w.s.uid
  {
    hide Consecutive, StartsLate, StartedOnce, CompletedOnce, StoreOk, RecencyOk, WasStarted, WasCompleted, Mentions;
    assert WasStarted(w.log, u);
    assert Mentions(w.log, u);
  }

  lemma StoredAnswer<I, R>(w: World<I, R>, delay: nat, i: nat)
    requires Inv(w, delay) && i < |w.s.store|
    ensures Completed(w.s.store[i].uid, w.s.store[i].completion) in w.log
  {
    hide Consecutive, StartsLate, StartedOnce, CompletedOnce, RecencyOk, FlightOk, PendingIsLast, Recency;
  }

  /** Before its result is there, a request is accepted from its submission until the handler takes it. */
  lemma AnswerOfUnfinished<I, R>(delay: nat, es: seq<Event<I, R>>, u: string)
    requires LegalRun(delay, es) && u != "" && !IsFinished(delay, es, u)
    ensures Answer(Exec(delay, es).s, u)
            == if IsSubmitted(delay, es, u) && !IsStarted(delay, es, u)
               then Completion(None, 202, "request ID " + u + " has not completed yet")
               else Completion(None, 404, "request ID " + u + " not found")
  {
    hide Exec, LegalRun, IsFinished, IsSubmitted, IsStarted, Inv, Uids, Find;
    var w := Exec(delay, es);
    RunKeeps(delay, es);
    HistoryOfEvents(delay, es, u);
    StoredExactly(w.s.store, u);
    PendingExactly(w, delay, u);
  }

  lemma PendingExactly<I, R>(w: World<I, R>, delay: nat, u: string)
    requires Inv(w, delay) && u != "" && !WasCompleted(w.log, u)
    ensures u == w.s.uid <==> Mentions(w.log, u) && !WasStarted(w.log, u)
    ensures u !in Uids(w.s.store)
  {
    hide Consecutive, StartsLate, StartedOnce, CompletedOnce, StoreOk, RecencyOk, WasStarted, WasCompleted, Mentions;
    NotYetStored(w, u);
    if u == w.s.uid { SubmitMentioned(w.log); }
  }

  // ---------- when the handler is called ----------

  /** The position of the last submission, or -1. */
  ghost function LastSubmission<I, R>(es: seq<Event<I, R>>): (l: int)
    ensures -1 <= l < |es| && (l >= 0 ==> es[l].SubmitEvent?)
    ensures forall i :: l < i < |es| ==> !es[i].SubmitEvent?
  {
    if es == [] then -1
    else if es[|es| - 1].SubmitEvent? then |es| - 1
    else LastSubmission(es[..|es| - 1])
  }

  /** Something was handed to the handler after event `l`. */
  ghost predicate TakenSince<I, R>(delay: nat, es: seq<Event<I, R>>, l: int) {
    exists k, u :: l < k && StartedAt(delay, es, k, u)
  }

  lemma StartedSnoc<I, R>(delay: nat, es: seq<Event<I, R>>, k: nat, u: string)
    requires es != []
    ensures StartedAt(delay, es, k, u)
            <==> StartedAt(delay, es[..|es| - 1], k, u)
                 || (k == |es| - 1 && es[k].TickEvent? && Exec(delay, es[..k]).s.inFlight.None? && IsInFlight(Exec(delay, es).s, u))
  {
    hide Step;
    if k < |es| - 1 { assert es[..|es| - 1][..k] == es[..k]; }
    ExecSnoc(delay, es);
  }

  lemma SubmittedSnoc<I, R>(delay: nat, es: seq<Event<I, R>>, k: nat, u: string)
    requires es != [] && k < |es| - 1
    ensures SubmittedAt(delay, es, k, u) <==> SubmittedAt(delay, es[..|es| - 1], k, u)
  {
    hide Step, Exec;
    assert es[..|es| - 1][..k] == es[..k];
  }

  /** The last event hands something to the handler. */
  ghost predicate JustStarted<I, R>(delay: nat, es: seq<Event<I, R>>)
    requires es != []
  {
    es[|es| - 1].TickEvent? && Exec(delay, es[..|es| - 1]).s.inFlight.None? && Exec(delay, es).s.inFlight.Some?
  }

  lemma TakenSnoc<I, R>(delay: nat, es: seq<Event<I, R>>, l: int)
    requires es != [] && l < |es| - 1
    ensures TakenSince(delay, es, l) <==> TakenSince(delay, es[..|es| - 1], l) || JustStarted(delay, es)
  {
    hide StartedAt, Exec;
    var front := es[..|es| - 1];
    if TakenSince(delay, es, l) {
      var k: nat, u :| l < k && StartedAt(delay, es, k, u);
      StartedSnoc(delay, es, k, u);
    }
    if TakenSince(delay, front, l) {
      var k: nat, u :| l < k && StartedAt(delay, front, k, u);
      StartedSnoc(delay, es, k, u);
    }
    if JustStarted(delay, es) {
      StartedSnoc(delay, es, |es| - 1, Exec(delay, es).s.inFlight.value.uid);
    }
  }

  lemma NotTakenYet<I, R>(delay: nat, es: seq<Event<I, R>>, l: int)
    requires l >= |es| - 1
    ensures !TakenSince(delay, es, l)
  {}

  /** What waits: the item of the last submission, until it is handed to the handler. */
  lemma {:induction false} Waiting<I, R>(delay: nat, es: seq<Event<I, R>>)
    ensures var l, s := LastSubmission(es), Exec(delay, es).s;
      if l < 0 || TakenSince(delay, es, l) then s.item.None? && s.uid == ""
      else s.item == es[l].item && s.lastTime == es[l].now && SubmittedAt(delay, es, l, s.uid)
  {
    hide StartedAt, SubmittedAt, Exec;
    if es == [] {
      ExecNothing<I, R>(delay);
    } else {
      var front := es[..|es| - 1];
      Waiting(delay, front);
      ExecSnoc(delay, es);
      var l, e := LastSubmission(es), es[|es| - 1];
      if e.SubmitEvent? {
        NotTakenYet(delay, es, l);
        GivenAtOnce(delay, es);
      } else {
        TakenSnoc(delay, es, l);
        if l >= 0 { SubmittedSnoc(delay, es, l, Exec(delay, es).s.uid); }
      }
    }
  }

  lemma GivenAtOnce<I, R>(delay: nat, es: seq<Event<I, R>>)
    requires es != [] && es[|es| - 1].SubmitEvent?
    ensures SubmittedAt(delay, es, |es| - 1, Exec(delay, es).s.uid)
  {
    ExecSnoc(delay, es);
  }

  lemma ExecNothing<I, R>(delay: nat)
    ensures Exec<I, R>(delay, []) == Start<I, R>()
  {}

  /** A tick hands a request to the idle handler if and only if it is the one submitted last, it holds an item, nothing
      was handed over since, and it has rested for more than the delay; the item is that of the last submission. */
  lemma StartsExactly<I, R>(delay: nat, es: seq<Event<I, R>>, j: nat, u: string)
    requires j < |es| && es[j].TickEvent?
    ensures var l := LastSubmission(es[..j]);
      && (StartedAt(delay, es, j, u)
          <==> && Exec(delay, es[..j]).s.inFlight.None? && l >= 0 && es[l].item.Some? && SubmittedAt(delay, es, l, u)
               && es[j].now - es[l].now > delay && !TakenSince(delay, es[..j], l))
      && (StartedAt(delay, es, j, u) ==> Exec(delay, es[..j + 1]).s.inFlight == Some(Taken(u, es[l].item.value)))
  {
    hide Exec, TakenSince;
    var front := es[..j];
    var l := LastSubmission(front);
    Waiting(delay, front);
    assert es[..j + 1][..j] == front;
    ExecSnoc(delay, es[..j + 1]);
    if l >= 0 { assert front[..l] == es[..l]; }
  }
}
