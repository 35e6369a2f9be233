/** The trailing-delay queue of `pkg/server/trailing_delay_queue.go` as a state machine over its atomic steps. */
module QueueSpec {
  import opened Options

  const REQUEST_HISTORY_SIZE := 100
  const STATUS_OK := 200
  const STATUS_ACCEPTED := 202
  const STATUS_NOT_FOUND := 404

  datatype Completion<+R> = Completion(ret: Option<R>, status: nat, message: string)

  /** What the request handler returns. */
  datatype Outcome<+R> = Success(data: R) | Failure(code: nat, error: string)

  datatype Taken<+I> = Taken(uid: string, item: I)

  datatype Slot<+R> = Slot(uid: string, completion: Completion<R>)

  /** The fields of the queue, and what the run goroutine holds while it is inside the handler. */
  datatype State<+I, +R> = State(
    item: Option<I>,
    lastTime: int,
    uid: string,
    store: seq<Slot<R>>,  // the most recently used slot first
    inFlight: Option<Taken<I>>)

  function Init<I, R>(): State<I, R> {
    State(None, 0, "", [], None)
  }

  // ---------- the result store: an LRU cache ----------

  function Uids<R>(store: seq<Slot<R>>): (us: seq<string>)
    ensures |us| == |store| && forall i :: 0 <= i < |store| ==> us[i] == store[i].uid
  {
    seq(|store|, i requires 0 <= i < |store| => store[i].uid)
  }

  function Find<R>(store: seq<Slot<R>>, uid: string): (i: nat)
    ensures i <= |store| && (i < |store| ==> store[i].uid == uid)
    ensures forall j :: 0 <= j < i ==> store[j].uid != uid
  {
    if store == [] || store[0].uid == uid then 0 else 1 + Find(store[1..], uid)
  }

  function Without<R>(store: seq<Slot<R>>, uid: string): seq<Slot<R>> {
    if store == [] then []
    else if store[0].uid == uid then store[1..]
    else [store[0]] + Without(store[1..], uid)
  }

  function Touch<R>(store: seq<Slot<R>>, uid: string): seq<Slot<R>> {
    var i := Find(store, uid);
    if i < |store| then [store[i]] + Without(store, uid) else store
  }

  function AddSlot<R>(store: seq<Slot<R>>, slot: Slot<R>): seq<Slot<R>> {
    var longer := [slot] + Without(store, slot.uid);
    if |longer| > REQUEST_HISTORY_SIZE then longer[..REQUEST_HISTORY_SIZE] else longer
  }

  // ---------- the steps ----------

  function Submit<I, R>(s: State<I, R>, item: Option<I>, now: int, newUid: string): State<I, R> {
    s.(item := item, lastTime := now, uid := if s.uid == "" then newUid else s.uid)
  }

  /** A tick of the ticker while the goroutine is waiting for one. */
  function Tick<I, R>(s: State<I, R>, now: int, delay: nat): State<I, R> {
    if s.inFlight.None? && now - s.lastTime > delay && s.item.Some?
    then s.(inFlight := Some(Taken(s.uid, s.item.value)), item := None, uid := "")
    else s
  }

  function ToCompletion<R>(outcome: Outcome<R>): Completion<R> {
    match outcome
    case Success(data) => Completion(Some(data), STATUS_OK, "")
    case Failure(code, error) => Completion(None, code, error)
  }

  /** The handler returns and its result is stored. */
  function Finish<I, R>(s: State<I, R>, outcome: Outcome<R>): State<I, R> {
    if s.inFlight.None? then s
    else s.(store := AddSlot(s.store, Slot(s.inFlight.value.uid, ToCompletion(outcome))), inFlight := None)
  }

  function Get<I, R>(s: State<I, R>, uid: string): State<I, R> {
    s.(store := Touch(s.store, uid))
  }

  function Answer<I, R>(s: State<I, R>, uid: string): Completion<R> {
    var i := Find(s.store, uid);
    if i < |s.store| then s.store[i].completion
    else if uid == s.uid then Completion(None, STATUS_ACCEPTED, "request ID " + uid + " has not completed yet")
    else Completion(None, STATUS_NOT_FOUND, "request ID " + uid + " not found")
  }

  // ---------- runs, with their history ----------

  datatype Event<+I, +R> =
    | SubmitEvent(item: Option<I>, now: int, newUid: string)
    | TickEvent(now: int)
    | FinishEvent(outcome: Outcome<R>)
    | GetEvent(uid: string)

  /** What the history records. */
  datatype Entry<+I, +R> =
    | Submitted(uid: string, item: Option<I>, now: int)
    | Started(uid: string, taken: I, now: int)
    | Completed(uid: string, completion: Completion<R>)
    | Read(uid: string)

  datatype World<+I, +R> = World(s: State<I, R>, log: seq<Entry<I, R>>, clock: int)

  function Step<I, R>(w: World<I, R>, e: Event<I, R>, delay: nat): World<I, R> {
    match e
    case SubmitEvent(item, now, newUid) =>
      var s := Submit(w.s, item, now, newUid);
      World(s, w.log + [Submitted(s.uid, item, now)], now)
    case TickEvent(now) =>
      var s := Tick(w.s, now, delay);
      var started := w.s.inFlight.None? && s.inFlight.Some?;
      World(s, if started then w.log + [Started(s.inFlight.value.uid, s.inFlight.value.item, now)] else w.log, now)
    case FinishEvent(outcome) =>
      var done := w.s.inFlight.Some?;
      World(Finish(w.s, outcome),
            if done then w.log + [Completed(w.s.inFlight.value.uid, ToCompletion(outcome))] else w.log, w.clock)
    case GetEvent(uid) =>
      var hit := Find(w.s.store, uid) < |w.s.store|;
      World(Get(w.s, uid), if hit then w.log + [Read(uid)] else w.log, w.clock)
  }

  function Start<I, R>(): World<I, R> {
    World(Init(), [], 0)
  }

  /** Time does not run backwards, and a generated uid is new and not empty. */
  ghost predicate Legal<I, R>(w: World<I, R>, e: Event<I, R>) {
    match e
    case SubmitEvent(_, now, newUid) => now >= w.clock && newUid != "" && !Mentions(w.log, newUid)
    case TickEvent(now) => now >= w.clock
    case _ => true
  }

  ghost predicate Mentions<I, R>(log: seq<Entry<I, R>>, uid: string) {
    exists i :: 0 <= i < |log| && log[i].Submitted? && log[i].uid == uid
  }

  ghost function Exec<I, R>(delay: nat, es: seq<Event<I, R>>): World<I, R> {
    if es == [] then Start() else Step(Exec(delay, es[..|es| - 1]), es[|es| - 1], delay)
  }

  ghost predicate LegalRun<I, R>(delay: nat, es: seq<Event<I, R>>) {
    es == [] || (LegalRun(delay, es[..|es| - 1]) && Legal(Exec(delay, es[..|es| - 1]), es[|es| - 1]))
  }
}
