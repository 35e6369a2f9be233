/** The queue object of `pkg/server/trailing_delay_queue.go`: each method is one critical section under the mutex. */
module Queue {
  import opened Options
  import opened QueueSpec
  import opened QueueEvents

  class TrailingDelayQueue<I, R> {
    const delay: nat
    var item: Option<I>         // the item to be processed, if any
    var lastTime: int           // last submit time
    var uid: string             // processing ID of the item
    var store: seq<Slot<R>>     // results, the most recently used first
    var inFlight: Option<Taken<I>>  // what the run goroutine took out and is handling

    ghost function View(): State<I, R>
      reads this
    {
      State(item, lastTime, uid, store, inFlight)
    }

    constructor (delay: nat)
      ensures this.delay == delay && View() == Init()
    {
      this.delay := delay;
      item, lastTime, uid, store, inFlight := None, 0, "", [], None;
    }

    method Submit(newItem: Option<I>, now: int, newUid: string) returns (id: string)
      modifies this
      ensures View() == QueueSpec.Submit(old(View()), newItem, now, newUid)
      ensures item == newItem && lastTime == now && store == old(store) && inFlight == old(inFlight)
      ensures id == uid == (if old(uid) == "" then newUid else old(uid))
    {
      item := newItem;
      lastTime := now;
      if |uid| == 0 {
        uid := newUid;
      }
      id := uid;
    }

    /** One tick of the run loop: take the item out if it has rested long enough. */
    method Tick(now: int)
      requires inFlight.None?
      modifies this
      ensures View() == QueueSpec.Tick(old(View()), now, delay)
      ensures if now - lastTime > delay && old(item).Some?
              then inFlight == Some(Taken(old(uid), old(item).value)) && item == None && uid == ""
              else inFlight == None && item == old(item) && uid == old(uid)
      ensures lastTime == old(lastTime) && store == old(store)
    {
      if now - lastTime > delay && item.Some? {
        inFlight := Some(Taken(uid, item.value));
        item := None;
        uid := "";
      }
    }

    /** The handler has returned: store the result. */
    method Finish(outcome: Outcome<R>)
      requires inFlight.Some?
      modifies this
      ensures View() == QueueSpec.Finish(old(View()), outcome)
      ensures var u := old(inFlight).value.uid;
              match outcome
              case Success(data) => store == AddSlot(old(store), Slot(u, Completion(Some(data), 200, "")))
              case Failure(code, error) => store == AddSlot(old(store), Slot(u, Completion(None, code, error)))
      ensures inFlight == None && item == old(item) && lastTime == old(lastTime) && uid == old(uid)
    {
      var res;
      match outcome {
        case Success(data) => res := Completion(Some(data), STATUS_OK, "");
        case Failure(code, error) => res := Completion(None, code, error);
      }
      store := AddSlot(store, Slot(inFlight.value.uid, res));
      inFlight := None;
    }

    method Get(id: string) returns (completion: Completion<R>)
      modifies this
      ensures View() == QueueSpec.Get(old(View()), id)
      ensures completion == Answer(old(View()), id)
      ensures if id in Uids(old(store)) then Slot(id, completion) in old(store)
              else completion == if id == uid then Completion(None, 202, "request ID " + id + " has not completed yet")
                                 else Completion(None, 404, "request ID " + id + " not found")
      ensures item == old(item) && lastTime == old(lastTime) && uid == old(uid) && inFlight == old(inFlight)
    {
      var i := Find(store, id);
      StoredExactly(store, id);
      if i < |store| {
        completion := store[i].completion;
        store := Touch(store, id);
      } else if id == uid {
        completion := Completion(None, STATUS_ACCEPTED, "request ID " + id + " has not completed yet");
      } else {
        completion := Completion(None, STATUS_NOT_FOUND, "request ID " + id + " not found");
      }
    }
  }
}
