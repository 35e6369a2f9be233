/** What holds over every interleaving of the queue's steps. */
module QueueTheorems {
  import opened Options
  import opened QueueSpec

  // ---------- the history ----------

  /** The position of the last submission, or -1. */
  ghost function LastSubmit<I, R>(log: seq<Entry<I, R>>): (l: int)
    ensures -1 <= l < |log| && (l >= 0 ==> log[l].Submitted?)
    ensures forall i :: l < i < |log| ==> !log[i].Submitted?
  {
    if log == [] then -1
    else if log[|log| - 1].Submitted? then |log| - 1
    else LastSubmit(log[..|log| - 1])
  }

  /** A uid has been handed to the handler. */
  ghost predicate WasStarted<I, R>(log: seq<Entry<I, R>>, uid: string) {
    exists i :: 0 <= i < |log| && log[i].Started? && log[i].uid == uid
  }

  ghost predicate WasCompleted<I, R>(log: seq<Entry<I, R>>, uid: string) {
    exists i :: 0 <= i < |log| && log[i].Completed? && log[i].uid == uid
  }

  /** The pending uid is that of the last submission, with its item and time. */
  ghost predicate PendingIsLast<I, R>(w: World<I, R>) {
    && (w.s.uid == "" ==> w.s.item.None?)
    && (w.s.uid != "" ==>
          var i := LastSubmit(w.log);
          i >= 0 && w.log[i] == Submitted(w.s.uid, w.s.item, w.s.lastTime) && !WasStarted(w.log, w.s.uid))
  }

  ghost predicate SameUid<I, R>(log: seq<Entry<I, R>>, i: int, k: int)
    requires 0 <= i < |log| && 0 <= k < |log|
  {
    log[i].Submitted? && log[k].Submitted? && log[i].uid == log[k].uid
  }

  /** All submissions sharing a uid are consecutive. */
  ghost predicate Consecutive<I, R>(log: seq<Entry<I, R>>) {
    forall i, j, k :: 0 <= i < j < k < |log| && SameUid(log, i, k) && log[j].Submitted? ==> log[j].uid == log[i].uid
  }

  /** Every start is of the last submission before it, made more than the delay earlier. */
  ghost predicate StartsLate<I, R>(log: seq<Entry<I, R>>, delay: nat) {
    forall j :: 0 <= j < |log| && log[j].Started? ==> StartedWell(log, j, delay)
  }

  ghost predicate StartedWell<I, R>(log: seq<Entry<I, R>>, j: int, delay: nat)
    requires 0 <= j < |log| && log[j].Started?
  {
    var i := LastSubmit(log[..j]);
    i >= 0 && log[i].uid == log[j].uid && log[i].item == Some(log[j].taken) && log[j].now - log[i].now > delay
  }

  /** No uid is started twice, and none is submitted after it was started. */
  ghost predicate StartedOnce<I, R>(log: seq<Entry<I, R>>) {
    forall i, j :: 0 <= i < j < |log| && log[i].Started? && (log[j].Started? || log[j].Submitted?) ==> log[i].uid != log[j].uid
  }

  ghost predicate IsInFlight<I, R>(s: State<I, R>, u: string) {
    s.inFlight.Some? && s.inFlight.value.uid == u
  }

  /** The uid in flight has been started and not completed; every completed one has been started. */
  ghost predicate FlightOk<I, R>(w: World<I, R>) {
    && (w.s.inFlight.Some? ==> WasStarted(w.log, w.s.inFlight.value.uid) && !WasCompleted(w.log, w.s.inFlight.value.uid))
    && (forall u :: WasStarted(w.log, u) ==> WasCompleted(w.log, u) || IsInFlight(w.s, u))
    && (forall u :: WasCompleted(w.log, u) ==> WasStarted(w.log, u))
    && (forall u :: WasStarted(w.log, u) ==> Mentions(w.log, u))
    && (forall u :: Mentions(w.log, u) ==> u != "" && (WasStarted(w.log, u) || u == w.s.uid))
  }

  ghost predicate CompletedOnce<I, R>(log: seq<Entry<I, R>>) {
    forall i, j :: 0 <= i < j < |log| && log[i].Completed? && log[j].Completed? ==> log[i].uid != log[j].uid
  }

  // ---------- the store and the order of use ----------

  function Drop(us: seq<string>, u: string): seq<string> {
    if us == [] then [] else if us[0] == u then us[1..] else [us[0]] + Drop(us[1..], u)
  }

  ghost predicate DistinctUids(us: seq<string>) {
    forall i, j :: 0 <= i < j < |us| ==> us[i] != us[j]
  }

  /** All uids whose result was ever stored, the most recently used first. */
  ghost function Recency<I, R>(log: seq<Entry<I, R>>): seq<string> {
    if log == [] then []
    else
      var before := Recency(log[..|log| - 1]);
      match log[|log| - 1]
      case Completed(u, _) => [u] + Drop(before, u)
      case Read(u) => [u] + Drop(before, u)
      case _ => before
  }

  ghost predicate StoreOk<I, R>(w: World<I, R>) {
    && Uids(w.s.store) == FirstOf(Recency(w.log), REQUEST_HISTORY_SIZE)
    && (forall i :: 0 <= i < |w.s.store| ==> Completed(w.s.store[i].uid, w.s.store[i].completion) in w.log)
  }

  function FirstOf(us: seq<string>, n: nat): seq<string> {
    if |us| <= n then us else us[..n]
  }

  ghost predicate Inv<I, R>(w: World<I, R>, delay: nat) {
    && PendingIsLast(w) && Consecutive(w.log) && StartsLate(w.log, delay) && StartedOnce(w.log)
    && CompletedOnce(w.log) && FlightOk(w) && StoreOk(w) && RecencyOk(w.log)
  }

  /** The list of used uids has no repetition and holds exactly the completed ones. */
  ghost predicate RecencyOk<I, R>(log: seq<Entry<I, R>>) {
    && DistinctUids(Recency(log))
    && (forall u :: u in Recency(log) <==> WasCompleted(log, u))
  }

  // ---------- appending to the history ----------

  lemma MentionsSnoc<I, R>(log: seq<Entry<I, R>>, e: Entry<I, R>, u: string)
    ensures Mentions(log + [e], u) <==> Mentions(log, u) || (e.Submitted? && e.uid == u)
    ensures WasStarted(log + [e], u) <==> WasStarted(log, u) || (e.Started? && e.uid == u)
    ensures WasCompleted(log + [e], u) <==> WasCompleted(log, u) || (e.Completed? && e.uid == u)
  {
    var more := log + [e];
    assert more[|log|] == e && forall i :: 0 <= i < |log| ==> more[i] == log[i];
  }

  lemma LastSubmitSnoc<I, R>(log: seq<Entry<I, R>>, e: Entry<I, R>)
    ensures LastSubmit(log + [e]) == if e.Submitted? then |log| else LastSubmit(log)
  {
    assert (log + [e])[..|log|] == log;
  }

  lemma StartsLateSnoc<I, R>(log: seq<Entry<I, R>>, e: Entry<I, R>, delay: nat)
    requires StartsLate(log, delay)
    requires e.Started? ==> var i := LastSubmit(log);
             i >= 0 && log[i].uid == e.uid && log[i].item == Some(e.taken) && e.now - log[i].now > delay
    ensures StartsLate(log + [e], delay)
  {
    hide LastSubmit;
    var more := log + [e];
    forall j | 0 <= j < |more| && more[j].Started? ensures StartedWell(more, j, delay) {
      if j < |log| {
        assert more[..j] == log[..j];
        assert StartedWell(log, j, delay);
      } else {
        assert more[..j] == log;
      }
    }
  }

  lemma StartedOnceSnoc<I, R>(log: seq<Entry<I, R>>, e: Entry<I, R>)
    requires StartedOnce(log) && (e.Started? || e.Submitted? ==> !WasStarted(log, e.uid))
    ensures StartedOnce(log + [e])
  {
    var more := log + [e];
    forall i, j | 0 <= i < j < |more| && more[i].Started? && (more[j].Started? || more[j].Submitted?)
      ensures more[i].uid != more[j].uid
    {
      assert more[i] == log[i];
    }
  }

  lemma CompletedOnceSnoc<I, R>(log: seq<Entry<I, R>>, e: Entry<I, R>)
    requires CompletedOnce(log) && (e.Completed? ==> !WasCompleted(log, e.uid))
    ensures CompletedOnce(log + [e])
  {
    var more := log + [e];
    forall i, j | 0 <= i < j < |more| && more[i].Completed? && more[j].Completed? ensures more[i].uid != more[j].uid {
      assert more[i] == log[i];
    }
  }

  /** A submission goes to the uid of the one before it, or to a uid never seen. */
  lemma ConsecutiveSnoc<I, R>(log: seq<Entry<I, R>>, e: Entry<I, R>)
    requires Consecutive(log)
    requires e.Submitted? ==> !Mentions(log, e.uid) || (LastSubmit(log) >= 0 && log[LastSubmit(log)].uid == e.uid)
    ensures Consecutive(log + [e])
  {
    hide LastSubmit;
    var more, l := log + [e], LastSubmit(log);
    forall i, j, k | 0 <= i < j < k < |more| && SameUid(more, i, k) && more[j].Submitted?
      ensures more[j].uid == more[i].uid
    {
      assert more[i] == log[i] && more[j] == log[j];
      if k == |log| {
        assert log[i].uid == e.uid && Mentions(log, e.uid);
        assert j <= l;
        if j < l { assert SameUid(log, i, l); }
      } else {
        assert more[k] == log[k] && SameUid(log, i, k);
      }
    }
  }

  // ---------- dropping and recency ----------

  lemma DropCons(x: string, us: seq<string>, u: string)
    ensures Drop([x] + us, u) == if x == u then us else [x] + Drop(us, u)
  {
    assert ([x] + us)[1..] == us;
  }

  lemma DistinctCons(a: string, us: seq<string>)
    ensures DistinctUids([a] + us) <==> a !in us && DistinctUids(us)
  {
    var more := [a] + us;
    if DistinctUids(more) {
      assert forall i :: 0 <= i < |us| ==> more[i + 1] == us[i] && more[0] != more[i + 1];
      forall i, j | 0 <= i < j < |us| ensures us[i] != us[j] {
        assert more[i + 1] != more[j + 1];
      }
    }
  }

  lemma {:induction false} DropMembers(us: seq<string>, u: string)
    requires DistinctUids(us)
    ensures forall v :: v in Drop(us, u) <==> v in us && v != u
    ensures DistinctUids(Drop(us, u))
    ensures u !in us ==> Drop(us, u) == us
  {
    hide DistinctUids, Drop;
    if us != [] {
      var a, tail := us[0], us[1..];
      assert us == [a] + tail;
      DistinctCons(a, tail);
      DropCons(a, tail, u);
      DropMembers(tail, u);
      DistinctCons(a, Drop(tail, u));
    } else {
      DropNothing(u);
    }
  }

  lemma DropNothing(u: string)
    ensures Drop([], u) == [] && DistinctUids([])
  {}

  lemma UidsCons<R>(x: Slot<R>, store: seq<Slot<R>>)
    ensures Uids([x] + store) == [x.uid] + Uids(store)
  {}

  lemma WithoutCons<R>(x: Slot<R>, store: seq<Slot<R>>, u: string)
    ensures Without([x] + store, u) == if x.uid == u then store else [x] + Without(store, u)
  {
    assert ([x] + store)[1..] == store;
  }

  lemma {:induction false} UidsWithout<R>(store: seq<Slot<R>>, u: string)
    ensures Uids(Without(store, u)) == Drop(Uids(store), u)
  {
    hide Without, Uids;
    if store != [] {
      var x, tail := store[0], store[1..];
      assert store == [x] + tail;
      UidsWithout(tail, u);
      UidsCons(x, tail);
      UidsCons(x, Without(tail, u));
      WithoutCons(x, tail, u);
      assert ([x.uid] + Uids(tail))[1..] == Uids(tail);
    } else {
      NoUids<R>(u);
    }
  }

  lemma NoUids<R>(u: string)
    ensures Uids<R>(Without([], u)) == [] && Uids<R>([]) == []
  {}

  lemma FirstCons(x: string, us: seq<string>, n: nat)
    requires n > 0
    ensures FirstOf([x] + us, n) == [x] + FirstOf(us, n - 1)
  {
    if |us| >= n { assert ([x] + us)[..n] == [x] + us[..n - 1]; }
  }

  /** Moving a recent uid to the front commutes with keeping the most recent ones. */
  lemma {:induction false} DropKeepsFirst(us: seq<string>, u: string, n: nat)
    requires u in FirstOf(us, n)
    ensures FirstOf([u] + Drop(us, u), n) == [u] + Drop(FirstOf(us, n), u)
    decreases |us|
  {
    hide Drop, FirstOf;
    FirstIsSome(us, u, n);
    var a, tail := us[0], us[1..];
    assert us == [a] + tail;
    FirstCons(a, tail, n);
    DropCons(a, tail, u);
    DropCons(a, FirstOf(tail, n - 1), u);
    if a == u {
      FirstCons(u, tail, n);
    } else {
      assert u in FirstOf(tail, n - 1);
      FirstIsSome(tail, u, n - 1);
      DropKeepsFirst(tail, u, n - 1);
      FirstCons(u, Drop(tail, u), n - 1);
      FirstCons(u, [a] + Drop(tail, u), n);
      FirstCons(a, Drop(tail, u), n - 1);
      assert ([u] + FirstOf(Drop(tail, u), n - 2))[1..] == ([u] + Drop(FirstOf(tail, n - 1), u))[1..];
    }
  }

  lemma FirstIsSome(us: seq<string>, u: string, n: nat)
    requires u in FirstOf(us, n)
    ensures us != [] && n > 0
  {}
}
